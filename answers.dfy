/** The answer check of the Enter handler: the typed text is trimmed and
    compared with the expected answer, exactly or ignoring ASCII case. */
module Answers {
  import opened Text

  /** The expected answer: one string, or an array of accepted alternatives. */
  datatype Expected = Single(text: string) | Alternatives(options: seq<string>)

  /** One comparison: exact equality with the case toggle on, equality of the
      lowercased forms with it off. */
  predicate Matches(value: string, w: string, caseSensitive: bool) {
    if caseSensitive then value == w else Lower(value) == Lower(w)
  }

  /** `alternatives.some(w => matches(value, w))` */
  function AnyMatches(value: string, alternatives: seq<string>, caseSensitive: bool): (r: bool)
    ensures r <==> exists k :: 0 <= k < |alternatives| && Matches(value, alternatives[k], caseSensitive)
  {
    if alternatives == [] then false
    else if Matches(value, alternatives[0], caseSensitive) then true
    else
      var r := AnyMatches(value, alternatives[1..], caseSensitive);
      assert forall k :: 1 <= k < |alternatives| ==> alternatives[k] == alternatives[1..][k - 1];
      r
  }

  /** `isCorrect` for the already trimmed `value`. */
  function IsCorrect(value: string, expected: Expected, caseSensitive: bool): bool {
    match expected
    case Single(w) => Matches(value, w, caseSensitive)
    case Alternatives(ws) => AnyMatches(value, ws, caseSensitive)
  }

  /** The verdict on what the learner typed. */
  function Evaluate(typed: string, expected: Expected, caseSensitive: bool): bool {
    IsCorrect(Trim(typed), expected, caseSensitive)
  }

  /** With a single expected string the verdict is: the trimmed input equals
      it exactly (case toggle on), or equals it up to ASCII case (toggle off). */
  lemma EvaluateSingle(typed: string, w: string, caseSensitive: bool)
    ensures caseSensitive ==> (Evaluate(typed, Single(w), caseSensitive) <==> Trim(typed) == w)
    ensures !caseSensitive ==>
      (Evaluate(typed, Single(w), caseSensitive) <==> Lower(Trim(typed)) == Lower(w))
  {
  }

  /** An array of alternatives accepts exactly when one of its strings would
      be accepted on its own. */
  lemma EvaluateAlternatives(typed: string, ws: seq<string>, caseSensitive: bool)
    ensures Evaluate(typed, Alternatives(ws), caseSensitive) <==>
      exists w :: w in ws && Evaluate(typed, Single(w), caseSensitive)
  {
    if Evaluate(typed, Alternatives(ws), caseSensitive) {
      var k :| 0 <= k < |ws| && Matches(Trim(typed), ws[k], caseSensitive);
      assert ws[k] in ws && Evaluate(typed, Single(ws[k]), caseSensitive);
    }
  }

  /** The order and repetition of the alternatives do not matter: two arrays
      holding the same strings give the same verdict. */
  lemma AlternativesOrderIrrelevant(typed: string, ws1: seq<string>, ws2: seq<string>, caseSensitive: bool)
    requires forall w :: w in ws1 <==> w in ws2
    ensures Evaluate(typed, Alternatives(ws1), caseSensitive) == Evaluate(typed, Alternatives(ws2), caseSensitive)
  {
    EvaluateAlternatives(typed, ws1, caseSensitive);
    EvaluateAlternatives(typed, ws2, caseSensitive);
  }

  /** An answer accepted with the case toggle on is accepted with it off. */
  lemma CaseSensitiveIsStricter(typed: string, expected: Expected)
    ensures Evaluate(typed, expected, true) ==> Evaluate(typed, expected, false)
  {
    if Evaluate(typed, expected, true) && expected.Alternatives? {
      var ws := expected.options;
      var k :| 0 <= k < |ws| && Matches(Trim(typed), ws[k], true);
      assert Matches(Trim(typed), ws[k], false);
    }
  }

  /** With the case toggle off, the verdict only depends on the lowercased
      input. */
  lemma CaseInsensitiveIgnoresCase(typed: string, expected: Expected)
    ensures Evaluate(typed, expected, false) == Evaluate(Lower(typed), expected, false)
  {
    TrimLowerCommute(typed);
    LowerFixedPoint(Trim(typed));
  }

  /** With the case toggle off, "CAT" answers "cat". */
  lemma EvaluateCaseFoldExample()
    ensures Evaluate("CAT", Single("cat"), false)
  {
    TrimUnpadded("CAT");
    LowerExample();
    LowerFixedPoint("cat");
  }

  /** With the case toggle off, the capital letter answers a letter prompt. */
  lemma EvaluateLetterExample()
    ensures Evaluate("A", Single("a"), false)
  {
    TrimUnpadded("A");
    var folded := Lower("A");
    assert folded[0] == 'a';
    LowerFixedPoint("a");
  }

  /** A different word is wrong whatever the case toggle: "dog" does not
      answer "cat". */
  lemma EvaluateWrongWordExample()
    ensures !Evaluate("dog", Single("cat"), false)
    ensures !Evaluate("dog", Single("cat"), true)
  {
    assert Trim("dog") == "dog" by { TrimUnpadded("dog"); }
    EvaluateSingle("dog", "cat", false);
    assert Lower("dog")[0] == 'd' && Lower("cat")[0] == 'c';
    CaseSensitiveIsStricter("dog", Single("cat"));
  }

  /** With the case toggle on, the exact spelling answers "cat". */
  lemma EvaluateExactExample()
    ensures Evaluate("cat", Single("cat"), true)
  {
    TrimUnpadded("cat");
  }

  /** With the case toggle on, "CAT" does not answer "cat". */
  lemma EvaluateCaseToggleExample()
    ensures !Evaluate("CAT", Single("cat"), true)
  {
    var v := Trim("CAT");
    assert v == "CAT" by { TrimUnpadded("CAT"); }
    assert v[0] == 'C';
  }

  /** Surrounding spaces and line breaks are ignored. */
  lemma EvaluatePaddingExample()
    ensures Evaluate(" cat\n", Single("cat"), true)
  {
    TrimPaddingExample();
  }

  /** Any alternative is accepted, whatever its place in the array. */
  lemma EvaluateAlternativesExample()
    ensures Evaluate("colour", Alternatives(["color", "colour"]), false)
  {
    assert Trim("colour") == "colour" by { TrimUnpadded("colour"); }
    var ws := ["color", "colour"];
    assert Matches("colour", ws[1], false);
  }

  /** Punctuation is compared like any other character, not stripped. */
  lemma EvaluatePunctuationExample()
    ensures !Evaluate("c.a.t!", Single("cat"), false)
  {
    var v := Trim("c.a.t!");
    assert v == "c.a.t!" by { TrimUnpadded("c.a.t!"); }
    assert |Lower(v)| == 6;
  }
}
