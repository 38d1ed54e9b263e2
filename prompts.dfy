/** What `pickRandomWord` derives from the drawn entry: the words handed to
    speech, the text put in the prompt element, the phoneme units that
    `setupPhonemeClickable` computes from it, and the expected answer. */
module Prompts {
  import opened Text
  import opened JsValues
  import opened Decks
  import opened Phonemes
  import opened Answers

  /** A checkbox of the page: `Absent` when the element is not on the page. */
  datatype Toggle = Absent | Present(checked: bool)

  /** `!toggle || toggle.checked`: a missing checkbox counts as ticked. */
  predicate On(t: Toggle) {
    t.Absent? || t.checked
  }

  /** The checkboxes that shape narration. */
  datatype Toggles = Toggles(audioEnabled: Toggle, letter: Toggle, example: Toggle)

  /** The prompt of one round. `display` is the text left in the prompt
      element. `phonemes` are the units `setupPhonemeClickable` computes; the
      spans it builds from them are replaced by the plain `display` text at
      renderer.js:112, so they are computed but never stay on screen. */
  datatype Prompt = Prompt(display: string, expected: Expected, phonemes: seq<string>)

  /** The parts of the letter-mode narration: the letter, then "as in" and the
      example, each only when its checkbox is ticked. */
  function LetterParts(e: Entry, t: Toggles): seq<string> {
    (if On(t.letter) then [JoinElement(e.letter)] else []) +
    (if On(t.example) then ["as in " + ToText(e.example)] else [])
  }

  /** The phrase the letter and phonics modes speak: the parts joined by a
      space, or nothing when there is no part. */
  function LetterPhrase(e: Entry, t: Toggles): (phrase: Option<string>)
  {
    var parts := LetterParts(e, t);
    if |parts| > 0 then Some(Join(parts, " ")) else None
  }

  /** The value `pickRandomWord` hands to `say`: the letter phrase in the
      letter modes, otherwise `entry.audio || entry.word`. */
  function Utterance(mode: string, e: Entry, t: Toggles): Option<Value> {
    if IsLetterMode(mode) then
      match LetterPhrase(e, t)
      case Some(p) => Some(Str(p))
      case None => None
    else Some(Or(e.audio, e.word))
  }

  /** What is actually spoken: `say` does nothing while the audio checkbox is
      present and unticked. */
  function Spoken(mode: string, e: Entry, t: Toggles): Option<Value> {
    if On(t.audioEnabled) then Utterance(mode, e, t) else None
  }

  /** The field that becomes both the displayed text and the expected answer:
      `letter` in the letter modes, `word` in every other mode. */
  function ActiveField(mode: string, e: Entry): Value {
    if IsLetterMode(mode) then e.letter else e.word
  }

  /** The prompt of the round. The text is lowercased and segmented into
      phonemes before it is stored as the expected answer, so a field that is
      not a string (absent, or an array) makes the round stop there with no
      prompt. */
  function DerivePrompt(mode: string, e: Entry): Option<Prompt> {
    match ActiveField(mode, e)
    case Str(s) => Some(Prompt(s, Single(s), Segment(Lower(s))))
    case _ => None
  }

  /** The displayed text and the expected answer are one and the same string:
      the entry's letter in the letter modes and its word in every other mode;
      the computed phoneme units spell that text in lower case. */
  lemma PromptShowsWhatItExpects(mode: string, e: Entry)
    ensures DerivePrompt(mode, e).Some? <==> ActiveField(mode, e).Str?
    ensures DerivePrompt(mode, e).Some? ==>
      var p := DerivePrompt(mode, e).value;
      p.expected == Single(p.display) &&
      (IsLetterMode(mode) ==> e.letter == Str(p.display)) &&
      (!IsLetterMode(mode) ==> e.word == Str(p.display)) &&
      Concat(p.phonemes) == Lower(p.display) &&
      (forall k :: 0 <= k < |p.phonemes| ==> IsUnit(p.phonemes[k]))
  {
  }

  /** A prompt never expects an array of alternatives: an array-valued field
      stops the round before the expected answer is stored. */
  lemma PromptNeverExpectsAlternatives(mode: string, e: Entry)
    ensures DerivePrompt(mode, e).Some? ==> DerivePrompt(mode, e).value.expected.Single?
  {
  }

  /** `sentences` has no derivation of its own: it prompts like `words` and
      like any unrecognised mode, and `phonics` prompts like `alphabet`. */
  lemma ModesSharingDerivation(e: Entry, t: Toggles, other: string)
    requires !IsLetterMode(other)
    ensures DerivePrompt(SentencesMode, e) == DerivePrompt(WordsMode, e) == DerivePrompt(other, e)
    ensures Spoken(SentencesMode, e, t) == Spoken(WordsMode, e, t) == Spoken(other, e, t)
    ensures DerivePrompt(PhonicsMode, e) == DerivePrompt(AlphabetMode, e)
    ensures Spoken(PhonicsMode, e, t) == Spoken(AlphabetMode, e, t)
  {
  }

  /** The letter-mode phrase: nothing when both checkboxes are off, the letter
      alone, "as in" and the example alone, or both joined by a space. */
  lemma LetterPhraseCases(e: Entry, t: Toggles)
    ensures LetterPhrase(e, t).None? <==> !On(t.letter) && !On(t.example)
    ensures On(t.letter) && !On(t.example) ==> LetterPhrase(e, t) == Some(JoinElement(e.letter))
    ensures !On(t.letter) && On(t.example) ==> LetterPhrase(e, t) == Some("as in " + ToText(e.example))
    ensures On(t.letter) && On(t.example) ==>
      LetterPhrase(e, t) == Some(JoinElement(e.letter) + " as in " + ToText(e.example))
  {
    if On(t.letter) && On(t.example) {
      var a, x := JoinElement(e.letter), ToText(e.example);
      var parts := LetterParts(e, t);
      assert parts == [a, "as in " + x];
      assert Join(parts[1..], " ") == "as in " + x;
      assert Join(parts, " ") == a + " " + ("as in " + x);
      assert " " + "as in " == " as in ";
      assert a + " " + ("as in " + x) == a + " as in " + x;
    }
  }

  /** Narration: nothing is spoken while the audio checkbox is present and
      unticked, or in a letter mode with both the letter and the example
      checkbox unticked; outside the letter modes the entry's audio text is
      spoken when it is non-empty, and its word otherwise. */
  lemma SpokenCases(mode: string, e: Entry, t: Toggles)
    ensures Spoken(mode, e, t).None? <==>
      !On(t.audioEnabled) || (IsLetterMode(mode) && !On(t.letter) && !On(t.example))
    ensures On(t.audioEnabled) && !IsLetterMode(mode) ==>
      Spoken(mode, e, t) == Some(if Truthy(e.audio) then e.audio else e.word)
  {
    LetterPhraseCases(e, t);
  }

  /** Phonics entry {letter: "a", example: "apple"} with every checkbox
      ticked: "a" is shown and expected, and "a as in apple" is spoken. */
  lemma PhonicsAppleExample(e: Entry, t: Toggles)
    requires e.letter == Str("a") && e.example == Str("apple")
    requires On(t.audioEnabled) && On(t.letter) && On(t.example)
    ensures Spoken(PhonicsMode, e, t) == Some(Str("a as in apple"))
    ensures DerivePrompt(PhonicsMode, e) == Some(Prompt("a", Single("a"), ["a"]))
  {
    LetterPhraseCases(e, t);
    assert IsLetterMode(PhonicsMode);
    assert JoinElement(e.letter) == "a" && ToText(e.example) == "apple";
    assert "a" + " as in " + "apple" == "a as in apple";
    assert Lower("a") == "a";
    SegmentFromStep("a", 0);
    assert Pair("a", 0) == "a" && "a"[0..1] == "a";
    assert SegmentFrom("a", 1) == [];
    assert Segment("a") == ["a"];
    assert ActiveField(PhonicsMode, e) == Str("a");
  }
}
