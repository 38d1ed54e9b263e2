/** The deck exporter (export-deck.js): a word deck as comma-separated text
    with the header `Word,Translation,Audio,Image` and one row per entry. */
module ExportDeck {
  import opened Text
  import opened JsValues
  import opened Decks

  const HeaderLine: string := "Word,Translation,Audio,Image"
  const Header: string := HeaderLine + "\n"

  /** `${entry.field || ""}`: an absent or empty field is written as "". */
  function FieldText(v: Value): string {
    ToText(Or(v, Str("")))
  }

  /** The four exported fields of an entry, in column order. */
  function Fields(e: Entry): seq<string> {
    [FieldText(e.word), FieldText(e.translation), FieldText(e.audio), FieldText(e.image)]
  }

  /** The row of one entry: each field in double quotes, as it is, separated
      by commas, and a line break. */
  function Row(e: Entry): string {
    "\"" + FieldText(e.word) + "\",\"" + FieldText(e.translation) + "\",\"" +
    FieldText(e.audio) + "\",\"" + FieldText(e.image) + "\"\n"
  }

  /** The rows of the entries, in deck order. */
  function Rows(deck: seq<Entry>): string {
    if deck == [] then "" else Row(deck[0]) + Rows(deck[1..])
  }

  /** The whole exported text. */
  function Csv(deck: seq<Entry>): (csv: string)
    ensures |Header| <= |csv| && csv[..|Header|] == Header
  {
    Header + Rows(deck)
  }

  /** Adding an entry at the end of the deck adds its row at the end. */
  lemma {:induction false} RowsAppend(deck: seq<Entry>, e: Entry)
    ensures Rows(deck + [e]) == Rows(deck) + Row(e)
  {
    if deck == [] {
      assert [e][1..] == [];
    } else {
      assert (deck + [e])[0] == deck[0];
      assert (deck + [e])[1..] == deck[1..] + [e];
      RowsAppend(deck[1..], e);
    }
  }

  /** One pass of the export loop appends the row of entry `i`. */
  lemma ExportStep(deck: seq<Entry>, i: nat)
    requires i < |deck|
    ensures Header + Rows(deck[..i + 1]) == (Header + Rows(deck[..i])) + Row(deck[i])
  {
    RowsAppend(deck[..i], deck[i]);
    assert deck[..i + 1] == deck[..i] + [deck[i]];
  }

  /** The loop of export-deck.js: start from the header and append one row per
      entry. */
  method ExportCsv(deck: seq<Entry>) returns (csv: string)
    ensures csv == Csv(deck)
  {
    csv := Header;
    for i := 0 to |deck|
      invariant csv == Header + Rows(deck[..i])
    {
      var entry := deck[i];
      var word := FieldText(entry.word);
      var translation := FieldText(entry.translation);
      var audio := FieldText(entry.audio);
      var image := FieldText(entry.image);
      var row := "\"" + word + "\",\"" + translation + "\",\"" + audio + "\",\"" + image + "\"\n";
      assert row == Row(entry);
      ExportStep(deck, i);
      csv := csv + row;
    }
    assert deck[..|deck|] == deck;
  }

  /** A field is written as it is when it holds a non-empty string, and as the
      empty string when it is absent or empty. */
  lemma FieldTextDefaults(v: Value)
    ensures !Truthy(v) ==> FieldText(v) == ""
    ensures v.Str? ==> FieldText(v) == v.s
  {
  }

  /** An empty deck exports the header alone. */
  lemma EmptyDeckExportsHeader()
    ensures Csv([]) == "Word,Translation,Audio,Image\n"
  {
  }

  /** None of the entry's exported fields holds the character `c`. */
  predicate FieldsFree(e: Entry, c: char) {
    forall k :: 0 <= k < 4 ==> c !in Fields(e)[k]
  }

  /** The row of an entry without its line break. */
  function RowLine(e: Entry): string {
    "\"" + FieldText(e.word) + "\",\"" + FieldText(e.translation) + "\",\"" +
    FieldText(e.audio) + "\",\"" + FieldText(e.image) + "\""
  }

  /** Each row is a single line: its text, then one line break. */
  lemma RowIsOneLine(e: Entry)
    requires FieldsFree(e, '\n')
    ensures Row(e) == RowLine(e) + ['\n']
    ensures '\n' !in RowLine(e)
  {
    var f := Fields(e);
    assert '\n' !in f[0] && '\n' !in f[1] && '\n' !in f[2] && '\n' !in f[3];
  }

  /** The rows of the deck, one string per entry, without line breaks. */
  function RowLines(deck: seq<Entry>): (lines: seq<string>)
    ensures |lines| == |deck|
    ensures forall k :: 0 <= k < |deck| ==> lines[k] == RowLine(deck[k])
  {
    if deck == [] then []
    else
      var rest := RowLines(deck[1..]);
      var lines := [RowLine(deck[0])] + rest;
      assert forall k :: 1 <= k < |deck| ==> lines[k] == rest[k - 1] && deck[k] == deck[1..][k - 1];
      lines
  }

  lemma {:induction false} RowsSplitIntoLines(deck: seq<Entry>)
    requires forall k :: 0 <= k < |deck| ==> FieldsFree(deck[k], '\n')
    ensures Split(Rows(deck), '\n') == RowLines(deck) + [""]
  {
    if deck == [] {
      SplitWhole("", '\n');
    } else {
      var first, rest := RowLine(deck[0]), Rows(deck[1..]);
      RowIsOneLine(deck[0]);
      assert Rows(deck) == first + ['\n'] + rest;
      SplitAfter(first, '\n', rest);
      RowsSplitIntoLines(deck[1..]);
      var lines := RowLines(deck[1..]);
      assert RowLines(deck) == [first] + lines;
      assert [first] + (lines + [""]) == ([first] + lines) + [""];
    }
  }

  /** When no field holds a line break, the export has exactly one line per
      entry after the header, in deck order, each line ending in a line break. */
  lemma CsvLines(deck: seq<Entry>)
    requires forall k :: 0 <= k < |deck| ==> FieldsFree(deck[k], '\n')
    ensures Split(Csv(deck), '\n') == [HeaderLine] + RowLines(deck) + [""]
    ensures |Split(Csv(deck), '\n')| == |deck| + 2
  {
    assert '\n' !in HeaderLine;
    SplitAfter(HeaderLine, '\n', Rows(deck));
    assert Csv(deck) == HeaderLine + ['\n'] + Rows(deck);
    RowsSplitIntoLines(deck);
  }

  /** The opening quote of a row. */
  lemma SplitOpening(w: string)
    requires '"' !in w
    ensures Split("\"" + w, '"') == ["", w]
  {
    assert "\"" + w == [] + ['"'] + w;
    SplitBefore([], '"', w);
    SplitWhole([], '"');
  }

  /** The closing quote of one field, a comma and the opening quote of the next. */
  lemma SplitSeparator(x: string, y: string)
    requires '"' !in y
    ensures Split(x + "\",\"" + y, '"') == Split(x, '"') + [",", y]
  {
    assert x + "\",\"" + y == (x + ['"'] + ",") + ['"'] + y;
    SplitBefore(x + ['"'] + ",", '"', y);
    SplitBefore(x, '"', ",");
  }

  /** The closing quote of a row. */
  lemma SplitClosing(x: string)
    ensures Split(x + "\"", '"') == Split(x, '"') + [""]
  {
    assert x + "\"" == x + ['"'] + [];
    SplitBefore(x, '"', []);
  }

  /** The pieces of a row line split at its quotes: the four fields at the odd
      positions, commas between them, nothing before the first quote or after
      the last. */
  function QuotedCells(f: seq<string>): seq<string>
    requires |f| == 4
  {
    ["", f[0], ",", f[1], ",", f[2], ",", f[3], ""]
  }

  /** When no field holds a double quote, splitting a row's line at its quotes
      gives back the four fields, each between the quotes that wrap it, with a
      comma between consecutive fields. */
  lemma RowFieldsRecoverable(e: Entry)
    requires FieldsFree(e, '"')
    ensures Split(RowLine(e), '"') == QuotedCells(Fields(e))
  {
    var f := Fields(e);
    assert '"' !in f[0] && '"' !in f[1] && '"' !in f[2] && '"' !in f[3];
    var p1 := "\"" + f[0];
    SplitOpening(f[0]);
    var p2 := p1 + "\",\"" + f[1];
    SplitSeparator(p1, f[1]);
    assert Split(p2, '"') == ["", f[0], ",", f[1]];
    var p3 := p2 + "\",\"" + f[2];
    SplitSeparator(p2, f[2]);
    assert Split(p3, '"') == ["", f[0], ",", f[1], ",", f[2]];
    var p4 := p3 + "\",\"" + f[3];
    SplitSeparator(p3, f[3]);
    assert Split(p4, '"') == ["", f[0], ",", f[1], ",", f[2], ",", f[3]];
    SplitClosing(p4);
    assert RowLine(e) == p4 + "\"";
  }

  /** Reading the export back: when no field holds a line break or a double
      quote, the export has one line per entry after the header, and line
      `k + 1`, split at its quotes, holds the four fields of entry `k`. */
  lemma CsvReadsBack(deck: seq<Entry>)
    requires forall k :: 0 <= k < |deck| ==> FieldsFree(deck[k], '\n') && FieldsFree(deck[k], '"')
    ensures |Split(Csv(deck), '\n')| == |deck| + 2
    ensures Split(Csv(deck), '\n')[0] == HeaderLine
    ensures forall k :: 0 <= k < |deck| ==>
      Split(Split(Csv(deck), '\n')[k + 1], '"') == QuotedCells(Fields(deck[k]))
  {
    CsvLines(deck);
    var lines := Split(Csv(deck), '\n');
    forall k | 0 <= k < |deck|
      ensures Split(lines[k + 1], '"') == QuotedCells(Fields(deck[k]))
    {
      assert lines[k + 1] == RowLines(deck)[k] == RowLine(deck[k]);
      RowFieldsRecoverable(deck[k]);
    }
  }
}
