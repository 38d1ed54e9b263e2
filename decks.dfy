/** Deck entries and the mode selector (`updateDeckFromMode`). */
module Decks {
  import opened JsValues

  /** One learning item as loaded from a deck file. Alphabet/phonics entries
      use `letter`, `example` and `emoji`; word and sentence entries use
      `word`, `translation`, `audio` and `image`. Any field may be absent. */
  datatype Entry = Entry(
    letter: Value,
    example: Value,
    emoji: Value,
    word: Value,
    translation: Value,
    audio: Value,
    image: Value)

  const AlphabetMode: string := "alphabet"
  const PhonicsMode: string := "phonics"
  const WordsMode: string := "words"
  const SentencesMode: string := "sentences"

  /** The modes that draw from the alphabet deck and prompt with its letter. */
  predicate IsLetterMode(mode: string) {
    mode == PhonicsMode || mode == AlphabetMode
  }

  /** A mode tag the selector recognises; any other tag falls back to the
      combined deck. */
  predicate IsKnownMode(mode: string) {
    IsLetterMode(mode) || mode == WordsMode || mode == SentencesMode
  }

  /** The deck `updateDeckFromMode` makes current for a mode tag. */
  function SelectDeck(mode: string, alphabet: seq<Entry>, words: seq<Entry>, sentences: seq<Entry>): (deck: seq<Entry>)
  {
    if IsLetterMode(mode) then alphabet
    else if mode == WordsMode then words
    else if mode == SentencesMode then sentences
    else alphabet + words
  }

  /** Selection is total and each tag picks its deck: the letter modes the
      alphabet deck, `words` the word deck, `sentences` the sentence deck, and
      every other tag the alphabet deck followed by the word deck. */
  lemma SelectDeckByMode(mode: string, alphabet: seq<Entry>, words: seq<Entry>, sentences: seq<Entry>)
    ensures IsLetterMode(mode) ==> SelectDeck(mode, alphabet, words, sentences) == alphabet
    ensures mode == WordsMode ==> SelectDeck(mode, alphabet, words, sentences) == words
    ensures mode == SentencesMode ==> SelectDeck(mode, alphabet, words, sentences) == sentences
    ensures !IsKnownMode(mode) ==>
      var deck := SelectDeck(mode, alphabet, words, sentences);
      |deck| == |alphabet| + |words| &&
      deck[..|alphabet|] == alphabet && deck[|alphabet|..] == words
  {
    if !IsKnownMode(mode) {
      var deck := alphabet + words;
      assert deck[..|alphabet|] == alphabet;
      assert deck[|alphabet|..] == words;
    }
  }

  /** The selected deck is non-empty exactly when the deck it comes from is;
      the fallback is non-empty when the alphabet or the word deck is. */
  lemma SelectDeckNonEmpty(mode: string, alphabet: seq<Entry>, words: seq<Entry>, sentences: seq<Entry>)
    ensures SelectDeck(mode, alphabet, words, sentences) != [] <==>
      if IsLetterMode(mode) then alphabet != []
      else if mode == WordsMode then words != []
      else if mode == SentencesMode then sentences != []
      else alphabet != [] || words != []
  {
  }

  /** Every entry the selector offers is an entry of one of the loaded decks. */
  lemma SelectDeckDrawsFromDecks(mode: string, alphabet: seq<Entry>, words: seq<Entry>, sentences: seq<Entry>, e: Entry)
    requires e in SelectDeck(mode, alphabet, words, sentences)
    ensures e in alphabet || e in words || e in sentences
  {
  }
}
