# Auntie Reader — a verified model of the reading drill

Auntie Reader is a browser flash-card drill for early readers. Each round it
draws an entry from the deck of the chosen mode (`alphabet`, `phonics`,
`words`, `sentences`, or anything else for the alphabet and word decks
together). It speaks a narration and shows the entry's letter or word as
plain text. On the way, `setupPhonemeClickable` splits the text into phoneme
units and builds a clickable span for each, but renderer.js:112 then replaces
the prompt element's contents with the plain text, so the spans never stay on
screen. It then waits for the learner to type the answer
and press Enter. The answer is trimmed and compared with the expected text,
exactly or ignoring case depending on a checkbox. The score `correct / total`
is updated. Input is ignored until a timer starts the next round. A separate
script exports the word deck as CSV text for a flash-card application.

The model has eight modules:

- `Text`: the JavaScript string operations the code relies on. These are
  `trim` (with ECMAScript's exact set of white-space and line-terminator code
  points), `toLowerCase` on ASCII, `join`, and a one-character `split` that is
  used only to state how the CSV output reads back; `SplitJoin` shows that
  this `split` loses nothing, so reading back through it is sound.
- `JsValues`: the deck field values the model covers. A field is absent, a
  string, or an array of strings; the other JSON values are left out (see
  below). The module also gives JavaScript truthiness, `||`,
  and string conversion.
- `Decks`: deck entries and `updateDeckFromMode`'s choice of deck.
- `Phonemes`: `splitToPhonemes`, written as the source's `while` loop and
  proved equal to a recursive specification `Segment`. `Segment` is
  characterised as the unique greedy segmentation into sound units.
- `Answers`: the Enter handler's verdict.
- `Prompts`: what `pickRandomWord` derives from the drawn entry: narration,
  displayed text, expected answer and the phoneme units computed on the way.
- `Session`: the class `Reader`. It holds the decks, `currentDeck`,
  `currentWord`, `correctCount`, `totalCount` and `isWaiting`. Its methods are
  the mode switch, the round pick, the Enter key and the feedback timer. A
  ghost list of verdicts ties the score to the answers given.
- `ExportDeck`: the export loop, proved against the specification `Csv`, with
  lemmas that read the output back line by line and field by field.

The answer check compares after `trim` and `toLowerCase` only; it strips no
punctuation and keeps no log of mistakes (renderer.js:118-152).
`EvaluatePunctuationExample` shows that "c.a.t!" does not answer "cat".

Some consequences of the code as written are visible in the model:

- `setupPhonemeClickable` (renderer.js:175-197) fills the prompt element with
  one clickable span per phoneme unit, and renderer.js:112 then sets the
  element's `innerText` to the plain text, which removes those spans. The
  units are computed every round but never stay on screen; `Prompt.phonemes`
  records what is computed, and `Prompt.display` what is left on screen.
- When the drawn entry's letter (in the letter modes) or word (in the other
  modes) is not a string, `setupPhonemeClickable` fails on `toLowerCase`. The
  round then stops after the narration is spoken and before `currentWord` is
  set. `PickRandomWord` models this: no prompt is derived and the expected answer
  stays as it was. So a prompt never expects an array of alternatives, and
  the answer check's array branch is reachable only through `currentWord`
  values the round pick never produces. It is modelled on its own in
  `Answers`.
- A missing `example` is spoken as "as in undefined". A missing letter adds
  an empty part to the phrase.
- renderer.js:97 replaces the emoji element through `outerHTML`. The element
  captured at renderer.js:45 is then detached from the page, so in a later
  letter-mode round with an emoji shown, assigning its `outerHTML` again can
  throw (Chromium and WebKit raise an error for an element without a parent;
  the HTML standard and Gecko ignore it). The round then stops after the
  narration (renderer.js:91) and before `currentWord` is set (renderer.js:113),
  so the old letter stays expected. `PickRandomWord` does not model this.
- The export writes fields verbatim with no escaping. The read-back lemmas
  therefore require fields free of double quotes and line breaks.

## Model

| member | source | states |
|---|---|---|
| Text.TrimStart | renderer.js:121 | the result is a suffix of the input, every dropped character is JavaScript white space, and the result does not start with white space |
| Text.TrimEnd | renderer.js:121 | the result is a prefix of the input, every dropped character is white space, and the result does not end with white space |
| Text.Trim | renderer.js:121 | the trimmed value neither begins nor ends with white space |
| Text.TrimIsSlice | renderer.js:121 | `trim` removes exactly a run of white space on each side: the result is a slice of the input with only white space around it |
| Text.TrimUnpadded | renderer.js:121 | text that neither begins nor ends with white space is left unchanged |
| Text.TrimFixedPoint | renderer.js:121 | trimming leaves text unchanged exactly when it is empty or unpadded, and trimming twice is trimming once |
| Text.TrimOnePad | renderer.js:121 | one white-space character on each side of unpadded text is removed |
| Text.TrimPaddingExample | renderer.js:121 | " cat\n" trims to "cat" |
| Text.Lower | renderer.js:127 | lowercasing keeps the length, turns each ASCII capital into the matching small letter (code point + 32), and keeps every other character |
| Text.LowerFixedPoint | renderer.js:132 | text is its own lowercase form exactly when it has no capital, and lowercasing is idempotent |
| Text.TrimLowerCommute | renderer.js:121-132 | trimming and lowercasing can be applied in either order, because lowercasing keeps white space in place and creates none |
| Text.LowerExample | renderer.js:132 | "CAT" lowercases to "cat" |
| Decks.SelectDeckByMode | renderer.js:65-71 | `alphabet`/`phonics` select the alphabet deck, `words` the word deck, `sentences` the sentence deck, and any other tag the alphabet deck followed by the word deck, in that order |
| Decks.SelectDeckNonEmpty | renderer.js:65-71 | the selected deck is non-empty exactly when the deck of its mode is; for any other tag, exactly when the alphabet deck or the word deck is |
| Decks.SelectDeckDrawsFromDecks | renderer.js:65-71 | every entry offered comes from one of the loaded decks |
| Phonemes.DigraphsListed | renderer.js:156 | a two-letter unit is a digraph exactly when it is one of ch, sh, th, ph, wh |
| Phonemes.SegmentFrom | renderer.js:160-169 | the units emitted from position i are each one character or one digraph, and they concatenate to the rest of the word |
| Phonemes.Segment | renderer.js:155-171 | the segmentation concatenates back to exactly the word, and each unit has length 1 or is a digraph |
| Phonemes.SegmentFromStep | renderer.js:161-168 | one scan step: a digraph at the position is emitted whole and the scan moves 2 on; otherwise one character is emitted and the scan moves 1 on |
| Phonemes.SegmentFromGreedy | renderer.js:160-164 | the scan never leaves a digraph split across a single-character unit and the next unit |
| Phonemes.GreedySegmentationUnique | renderer.js:155-171 | any greedy segmentation into units of the rest of the word is the scan's segmentation |
| Phonemes.SegmentCharacterized | renderer.js:155-171 | a sequence is the segmentation of a word exactly when it is made of units, concatenates to the word and is greedy |
| Phonemes.SegmentRestartable | renderer.js:155-171 | segmenting the concatenated units again gives the same units |
| Phonemes.SplitToPhonemes | renderer.js:155-171 | the `while` loop over `i` that pushes pairs or single characters returns exactly `Segment(word)` |
| Phonemes.SegmentCat | renderer.js:155-171 | "cat" gives c, a, t |
| Phonemes.SegmentChip | renderer.js:155-171 | "chip" gives ch, i, p |
| Phonemes.SegmentThink | renderer.js:155-171 | "think" gives th, i, n, k |
| Phonemes.SegmentGraph | renderer.js:155-171 | "graph" gives g, r, a, ph: a digraph at the end is kept whole |
| Answers.AnyMatches | renderer.js:126-128 | `some` over the alternatives holds exactly when some alternative matches |
| Answers.EvaluateSingle | renderer.js:121-133 | for one expected string, the verdict is exact equality with the trimmed input when the case toggle is on, and equality of the lowercased forms when it is off |
| Answers.EvaluateAlternatives | renderer.js:125-128 | an array of alternatives accepts exactly when one of its strings would accept on its own |
| Answers.AlternativesOrderIrrelevant | renderer.js:125-128 | two arrays holding the same strings give the same verdict, whatever their order or repetition |
| Answers.CaseSensitiveIsStricter | renderer.js:126-132 | an answer accepted with the case toggle on is accepted with it off |
| Answers.CaseInsensitiveIgnoresCase | renderer.js:121-132 | with the toggle off, the verdict on any input, padded or not, does not change when the input is lowercased |
| Answers.EvaluateCaseFoldExample | renderer.js:130-132 | with the toggle off, "CAT" answers "cat" |
| Answers.EvaluateLetterExample | renderer.js:130-132 | with the toggle off, "A" answers "a" |
| Answers.EvaluateWrongWordExample | renderer.js:130-132 | "dog" does not answer "cat", with the case toggle on or off |
| Answers.EvaluateExactExample | renderer.js:130-131 | with the toggle on, "cat" answers "cat" |
| Answers.EvaluateCaseToggleExample | renderer.js:130-131 | with the toggle on, "CAT" does not answer "cat" |
| Answers.EvaluatePaddingExample | renderer.js:121 | surrounding white space is ignored: " cat\n" answers "cat" |
| Answers.EvaluateAlternativesExample | renderer.js:125-128 | "colour" answers the alternatives ["color", "colour"] |
| Answers.EvaluatePunctuationExample | renderer.js:121-133 | punctuation is compared, not stripped: "c.a.t!" does not answer "cat" |
| Prompts.PromptShowsWhatItExpects | renderer.js:84-86 | a prompt exists exactly when the active field is a string; the displayed text and the expected answer are that one string, the letter in the letter modes and the word in every other mode; its computed phoneme units are units that spell that text lowercased |
| Prompts.PromptNeverExpectsAlternatives | renderer.js:102-113 | a round that stores an expected answer always stores a single string |
| Prompts.ModesSharingDerivation | renderer.js:103-109 | `sentences`, `words` and any unknown mode derive the same prompt and narration, and `phonics` derives the same as `alphabet` |
| Prompts.LetterPhraseCases | renderer.js:88-91 | the letter-mode phrase is nothing when both checkboxes are off, the letter alone, "as in " and the example alone, or the letter, a space, "as in " and the example |
| Prompts.SpokenCases | renderer.js:55-106 | nothing is spoken exactly when audio is switched off, or in a letter mode with both parts switched off; other modes speak the audio field when it is truthy (a non-empty string or any array) and the word otherwise |
| Prompts.PhonicsAppleExample | renderer.js:84-91 | the phonics entry a/apple speaks "a as in apple", shows "a", expects "a" and has the single unit a |
| Session.CorrectCount | renderer.js:135-139 | the number of correct verdicts never exceeds the number of verdicts |
| Session.CorrectCountAppend | renderer.js:135-139 | one more verdict adds one to the correct count exactly when it is correct |
| Session.Reader.constructor | renderer.js:19-23 | after loading, the combined alphabet and word deck is current, the empty string is expected, the score is 0 / 0 and input is accepted; the first round that `initializeAuntieReader` picks (renderer.js:200) is a call of `PickRandomWord` |
| Session.Reader.UpdateDeckFromMode | renderer.js:65-71 | the current deck becomes the mode's deck, and nothing else changes |
| Session.Reader.PickRandomWord | renderer.js:73-116 | while waiting nothing changes; otherwise the mode's deck becomes current, the narration is the drawn entry's, and the expected answer becomes the displayed text when the entry's field is a string and stays as it was otherwise |
| Session.Reader.Enter | renderer.js:118-147 | while waiting nothing changes; otherwise input is locked, the total goes up by one, the correct count goes up by one exactly when the trimmed input is accepted, and the score stays the tally of the verdicts, so correct never exceeds total |
| Session.Reader.TimerFire | renderer.js:148-151 | the timer unlocks input before it picks the next round, so the pick always happens |
| Session.PhonicsRound | renderer.js:118-151 | a phonics round with "A" typed and the case toggle off scores 1 / 1, and a second Enter before the timer is ignored |
| Session.WordsRound | renderer.js:103-139 | a words round for "cat" with "dog" typed and the case toggle off gives a wrong verdict and scores 0 / 1 |
| ExportDeck.Csv | export-deck.js:7 | the export begins with the header line `Word,Translation,Audio,Image` and a line break |
| ExportDeck.RowsAppend | export-deck.js:9-15 | appending an entry to the deck appends its row to the output |
| ExportDeck.ExportCsv | export-deck.js:7-15 | the loop that starts from the header and appends one row per entry produces `Csv(deck)` |
| ExportDeck.FieldTextDefaults | export-deck.js:10-13 | an absent or empty field is written as "", and a string field as it is |
| ExportDeck.EmptyDeckExportsHeader | export-deck.js:7-15 | an empty deck exports the header alone |
| ExportDeck.RowIsOneLine | export-deck.js:14 | a row is its quoted fields followed by one line break, and has no other line break when no field holds one |
| ExportDeck.RowLines | export-deck.js:9-15 | one row line per entry, in deck order |
| ExportDeck.RowsSplitIntoLines | export-deck.js:9-15 | when no field holds a line break, the rows split at line breaks into the entries' row lines, in deck order |
| ExportDeck.CsvLines | export-deck.js:7-15 | when no field holds a line break, the export has the header line, then exactly one line per entry in deck order, each ending in a line break, so deck length + 1 lines (an unescaped line break inside a field adds lines) |
| ExportDeck.RowFieldsRecoverable | export-deck.js:14 | when no field holds a double quote, a row line split at its quotes holds the four fields verbatim between quotes, separated by commas |
| ExportDeck.CsvReadsBack | export-deck.js:7-15 | when no field holds a line break or a double quote, reading the export back gives the header, then entry k's four fields on line k + 1 |

## Left out

- Deck loading through `fetch` and `Promise.all`, and the load-failure message. These are asynchronous I/O. The constructor takes the three loaded decks as parameters.
- All DOM work is left out: element lookup, `innerHTML`, the phoneme spans and their styles, focus, the emoji and instruction display, and the feedback and score text. This is presentation.
- Speech synthesis and `Audio` playback are left out: voice choice, rate and pitch, and the phoneme sound clips. These are browser APIs. The model says only what is handed to `say`, as `Spoken`.
- `Math.random` and `Math.floor` are left out. The drawn position is the parameter `index`, and `PickRandomWord` requires it to be inside the selected deck.
- Session.Reader.PickRandomWord and Session.Reader.TimerFire: an empty selected deck is not modelled. In the source, `entry` is then `undefined` and the round fails; the timer has already cleared `isWaiting` when that happens. Both preconditions exclude this case.
- The `setTimeout` delays of 1000, 800 and 400 ms are left out. The feedback timer is the explicit event `TimerFire`.
- Session.Reader.PickRandomWord: the model assumes that no DOM update in the round throws. The assignment to `imageElement.outerHTML` at renderer.js:97, acting on the element that an earlier round detached, can throw in Chromium and WebKit and stop a letter-mode round with an emoji before the new letter becomes the expected answer; the model always sets the expected answer in that case.
- Session.Reader.Enter: a page without the case checkbox is not modelled. There, `caseToggle.checked` would fail. The checkbox is the Boolean parameter `caseSensitive`. Keys other than Enter are ignored by the source and are not events of the model.
- Text.Lower: `toLowerCase` is modelled on ASCII letters only. Other characters are kept as they are, and full Unicode case mapping is not modelled.
- `fs.writeFileSync`, `require` and `console.log` in the exporter, and `console.log` in the round pick, are file and console I/O. The export is the string value it would write.
- Prompts.Utterance: words mode hands `entry.audio || entry.word` to the speech API as it is. The model does not convert an array value to the spoken string.
- `setupPhonemeClickable` is modelled only as far as it matters for the state: it lowercases the text and segments it, and it fails on a non-string. The rest of it builds DOM spans and click handlers, which renderer.js:112 then removes.
- JsValues.Value: JSON `null`, numbers, booleans and objects are not modelled as field values. In the source, `entry.word || ""` writes "" for `0`, `null` or `false` and the number's text for other numbers, and `"as in " + entry.example` speaks "as in null" for `null`; number-to-text conversion is floating-point formatting.
- Text: JavaScript strings are sequences of UTF-16 code units, while the model's characters are Unicode scalar values. For text outside the Basic Multilingual Plane (an emoji, say) `splitToPhonemes` pushes the two surrogate halves as two units where `Segment` gives one, and `trim` and `split` positions differ the same way. On Basic Multilingual Plane text, code-unit and character positions agree; case mapping beyond ASCII still differs (see Text.Lower).
