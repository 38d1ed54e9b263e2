/** The reader's round loop (`initializeAuntieReader`): the current deck and
    expected answer, the score, and the lockout that ignores input while the
    feedback of the last answer is on screen. */
module Session {
  import opened Text
  import opened JsValues
  import opened Decks
  import opened Phonemes
  import opened Answers
  import opened Prompts

  /** How many of the verdicts are "correct". */
  function CorrectCount(verdicts: seq<bool>): (n: nat)
    ensures n <= |verdicts|
  {
    if verdicts == [] then 0
    else CorrectCount(verdicts[..|verdicts| - 1]) + (if verdicts[|verdicts| - 1] then 1 else 0)
  }

  /** Appending a verdict adds one to the count exactly when it is "correct". */
  lemma CorrectCountAppend(verdicts: seq<bool>, v: bool)
    ensures CorrectCount(verdicts + [v]) == CorrectCount(verdicts) + (if v then 1 else 0)
  {
    assert (verdicts + [v])[..|verdicts|] == verdicts;
  }

  class Reader {
    /** The three decks, loaded once. */
    const alphabetDeck: seq<Entry>
    const wordDeck: seq<Entry>
    const sentenceDeck: seq<Entry>

    var currentDeck: seq<Entry>
    var currentWord: Expected
    var correctCount: nat
    var totalCount: nat
    var isWaiting: bool

    /** Every verdict given so far, in order. */
    ghost var verdicts: seq<bool>

    /** The score is the tally of the verdicts given so far. */
    ghost predicate Valid()
      reads this
    {
      totalCount == |verdicts| && correctCount == CorrectCount(verdicts)
    }

    /** The state once the decks have loaded: the combined deck is current,
        the empty string is expected, the score is 0 / 0 and input is accepted. */
    constructor (alphabet: seq<Entry>, words: seq<Entry>, sentences: seq<Entry>)
      ensures Valid()
      ensures alphabetDeck == alphabet && wordDeck == words && sentenceDeck == sentences
      ensures currentDeck == alphabet + words && currentWord == Single("")
      ensures correctCount == 0 && totalCount == 0 && !isWaiting && verdicts == []
    {
      alphabetDeck, wordDeck, sentenceDeck := alphabet, words, sentences;
      currentDeck := alphabet + words;
      currentWord := Single("");
      correctCount, totalCount, isWaiting := 0, 0, false;
      verdicts := [];
    }

    /** `updateDeckFromMode` */
    method UpdateDeckFromMode(mode: string)
      modifies this`currentDeck
      ensures currentDeck == SelectDeck(mode, alphabetDeck, wordDeck, sentenceDeck)
    {
      if mode == AlphabetMode || mode == PhonicsMode {
        currentDeck := alphabetDeck;
      } else if mode == WordsMode {
        currentDeck := wordDeck;
      } else if mode == SentencesMode {
        currentDeck := sentenceDeck;
      } else {
        currentDeck := alphabetDeck + wordDeck;
      }
    }

    /** `pickRandomWord`, with the random draw given as `index`. While waiting
        it does nothing. Otherwise it makes the mode's deck current, speaks
        for the entry at `index` and, when the entry's field is a string,
        displays it and expects it. `prompt` is the derived prompt: its text
        is what the prompt element is left holding, and its phoneme units are
        computed only, since renderer.js:112 replaces their spans. */
    method PickRandomWord(mode: string, index: nat, toggles: Toggles) returns (spoken: Option<Value>, prompt: Option<Prompt>)
      requires !isWaiting ==> index < |SelectDeck(mode, alphabetDeck, wordDeck, sentenceDeck)|
      modifies this`currentDeck, this`currentWord
      ensures old(isWaiting) ==>
        currentDeck == old(currentDeck) && currentWord == old(currentWord) && spoken.None? && prompt.None?
      ensures !old(isWaiting) ==>
        currentDeck == SelectDeck(mode, alphabetDeck, wordDeck, sentenceDeck) &&
        spoken == Spoken(mode, currentDeck[index], toggles) &&
        prompt == DerivePrompt(mode, currentDeck[index]) &&
        currentWord == (if prompt.Some? then prompt.value.expected else old(currentWord))
    {
      spoken, prompt := None, None;
      if isWaiting {
        return;
      }
      UpdateDeckFromMode(mode);
      var entry := currentDeck[index];
      spoken := Spoken(mode, entry, toggles);
      var field := if IsLetterMode(mode) then entry.letter else entry.word;
      if field.Str? {
        var displayText := field.s;
        var phonemes := SplitToPhonemes(Lower(displayText));
        prompt := Some(Prompt(displayText, Single(displayText), phonemes));
        currentWord := Single(displayText);
      }
    }

    /** The Enter key. While waiting it is ignored. Otherwise it locks input,
        judges the typed text against the expected answer, counts the attempt
        and, when correct, counts a correct answer. */
    method Enter(typed: string, caseSensitive: bool) returns (verdict: Option<bool>)
      requires Valid()
      modifies this`isWaiting, this`correctCount, this`totalCount, this`verdicts
      ensures Valid() && correctCount <= totalCount
      ensures old(isWaiting) ==>
        verdict.None? && isWaiting && correctCount == old(correctCount) &&
        totalCount == old(totalCount) && verdicts == old(verdicts)
      ensures !old(isWaiting) ==>
        verdict == Some(Evaluate(typed, currentWord, caseSensitive)) && isWaiting &&
        totalCount == old(totalCount) + 1 &&
        correctCount == old(correctCount) + (if verdict.value then 1 else 0) &&
        verdicts == old(verdicts) + [verdict.value]
    {
      if isWaiting {
        return None;
      }
      isWaiting := true;
      var value := Trim(typed);
      var isCorrect := IsCorrect(value, currentWord, caseSensitive);
      totalCount := totalCount + 1;
      if isCorrect {
        correctCount := correctCount + 1;
      }
      CorrectCountAppend(verdicts, isCorrect);
      verdicts := verdicts + [isCorrect];
      verdict := Some(isCorrect);
    }

    /** The feedback timer: input is accepted again and the next round is
        picked. */
    method TimerFire(mode: string, index: nat, toggles: Toggles) returns (spoken: Option<Value>, prompt: Option<Prompt>)
      requires Valid()
      requires index < |SelectDeck(mode, alphabetDeck, wordDeck, sentenceDeck)|
      modifies this`isWaiting, this`currentDeck, this`currentWord
      ensures Valid() && !isWaiting
      ensures currentDeck == SelectDeck(mode, alphabetDeck, wordDeck, sentenceDeck)
      ensures spoken == Spoken(mode, currentDeck[index], toggles)
      ensures prompt == DerivePrompt(mode, currentDeck[index])
      ensures currentWord == (if prompt.Some? then prompt.value.expected else old(currentWord))
    {
      isWaiting := false;
      spoken, prompt := PickRandomWord(mode, index, toggles);
    }
  }

  /** A phonics round: entry {letter: "a", example: "apple"}, the learner
      types "A" with the case checkbox off, the answer is right and the score
      becomes 1 / 1; a second Enter before the timer is ignored. */
  method PhonicsRound() returns (first: Option<bool>, second: Option<bool>, correct: nat, total: nat)
    ensures first == Some(true) && second == None
    ensures correct == 1 && total == 1
  {
    var apple := Entry(Str("a"), Str("apple"), Missing, Missing, Missing, Missing, Missing);
    var reader := new Reader([apple], [], []);
    var toggles := Toggles(Absent, Absent, Absent);
    var spoken, prompt := reader.PickRandomWord(PhonicsMode, 0, toggles);
    PhonicsAppleExample(apple, toggles);
    assert prompt == Some(Prompt("a", Single("a"), ["a"]));
    assert reader.currentWord == Single("a");
    EvaluateLetterExample();
    first := reader.Enter("A", false);
    second := reader.Enter("A", false);
    correct, total := reader.correctCount, reader.totalCount;
  }

  /** A words round: entry {word: "cat"}, the learner types "dog" with the
      case checkbox off, the answer is wrong and the score becomes 0 / 1. */
  method WordsRound() returns (verdict: Option<bool>, correct: nat, total: nat)
    ensures verdict == Some(false)
    ensures correct == 0 && total == 1
  {
    var cat := Entry(Missing, Missing, Missing, Str("cat"), Missing, Missing, Missing);
    var reader := new Reader([], [cat], []);
    var toggles := Toggles(Absent, Absent, Absent);
    var spoken, prompt := reader.PickRandomWord(WordsMode, 0, toggles);
    assert ActiveField(WordsMode, cat) == Str("cat");
    assert reader.currentWord == Single("cat");
    EvaluateWrongWordExample();
    verdict := reader.Enter("dog", false);
    correct, total := reader.correctCount, reader.totalCount;
  }
}
