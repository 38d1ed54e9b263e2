/** The phoneme segmenter (`splitToPhonemes`): a greedy left-to-right scan
    that keeps the digraphs ch, sh, th, ph and wh together. */
module Phonemes {
  import opened Text

  const Digraphs: seq<string> := ["ch", "sh", "th", "ph", "wh"]

  /** A two-letter unit: c, s, t, p or w followed by h. */
  predicate IsDigraph(p: string) {
    |p| == 2 && p[1] == 'h' && p[0] in "cstpw"
  }

  /** The digraphs are exactly the strings of the list the scan consults. */
  lemma DigraphsListed(p: string)
    ensures IsDigraph(p) <==> p in Digraphs
  {
    if IsDigraph(p) {
      assert p == [p[0], 'h'];
    }
  }

  /** A sound unit: a single character or one of the digraphs. */
  predicate IsUnit(u: string) {
    |u| == 1 || (|u| == 2 && IsDigraph(u))
  }

  function Min(a: int, b: int): int {
    if a < b then a else b
  }

  /** `word.slice(i, i + 2)`: two characters, or one at the last position. */
  function Pair(word: string, i: nat): string
    requires i <= |word|
  {
    word[i..Min(i + 2, |word|)]
  }

  /** The units concatenated back into one string. */
  function Concat(units: seq<string>): string {
    if units == [] then "" else units[0] + Concat(units[1..])
  }

  /** The units the scan emits from position `i` onwards. */
  function SegmentFrom(word: string, i: nat): (units: seq<string>)
    requires i <= |word|
    ensures forall k :: 0 <= k < |units| ==> IsUnit(units[k])
    ensures Concat(units) == word[i..]
    decreases |word| - i
  {
    if i == |word| then []
    else if IsDigraph(Pair(word, i)) then
      var rest := SegmentFrom(word, i + 2);
      assert word[i..] == Pair(word, i) + word[i + 2..];
      assert ([Pair(word, i)] + rest)[1..] == rest;
      [Pair(word, i)] + rest
    else
      var rest := SegmentFrom(word, i + 1);
      assert word[i..] == word[i..i + 1] + word[i + 1..];
      assert ([word[i..i + 1]] + rest)[1..] == rest;
      [word[i..i + 1]] + rest
  }

  /** The whole segmentation of a word. */
  function Segment(word: string): (units: seq<string>)
    ensures Concat(units) == word
    ensures forall k :: 0 <= k < |units| ==> IsUnit(units[k])
  {
    SegmentFrom(word, 0)
  }

  /** No single-character unit could have been joined with the first character
      of the next unit into a digraph: the scan never leaves a digraph split. */
  predicate Greedy(units: seq<string>) {
    forall k :: 0 <= k < |units| - 1 && |units[k]| == 1 && units[k + 1] != [] ==>
      !IsDigraph(units[k] + units[k + 1][..1])
  }

  /** `units` is a greedy segmentation of `word` into sound units. */
  predicate IsGreedySegmentation(word: string, units: seq<string>) {
    (forall k :: 0 <= k < |units| ==> IsUnit(units[k])) &&
    Concat(units) == word &&
    Greedy(units)
  }

  lemma ConcatCons(units: seq<string>)
    requires units != []
    ensures Concat(units) == units[0] + Concat(units[1..])
  {
  }

  lemma GreedyTail(units: seq<string>)
    requires units != [] && Greedy(units)
    ensures Greedy(units[1..])
  {
    var rest := units[1..];
    forall k | 0 <= k < |rest| - 1 && |rest[k]| == 1 && rest[k + 1] != []
      ensures !IsDigraph(rest[k] + rest[k + 1][..1])
    {
      assert rest[k] == units[k + 1] && rest[k + 1] == units[k + 2];
    }
  }

  /** The scan from any position is greedy. */
  lemma {:induction false} SegmentFromGreedy(word: string, i: nat)
    requires i <= |word|
    ensures Greedy(SegmentFrom(word, i))
    decreases |word| - i
  {
    if i < |word| {
      var units := SegmentFrom(word, i);
      var step := if IsDigraph(Pair(word, i)) then 2 else 1;
      var rest := SegmentFrom(word, i + step);
      SegmentFromGreedy(word, i + step);
      assert units == [units[0]] + rest;
      if |units[0]| == 1 && rest != [] {
        ConcatCons(rest);
        assert rest[0][..1] == word[i + 1..i + 2];
        assert units[0] + rest[0][..1] == Pair(word, i);
      }
      forall k | 0 <= k < |units| - 1 && |units[k]| == 1 && units[k + 1] != []
        ensures !IsDigraph(units[k] + units[k + 1][..1])
      {
        if k > 0 {
          assert units[k] == rest[k - 1] && units[k + 1] == rest[k];
        }
      }
    }
  }

  /** The first unit of a segmentation of `word[i..]` is the slice of the word
      at `i`, and the other units segment what follows it. */
  lemma ConcatHead(word: string, i: nat, units: seq<string>)
    requires i <= |word| && units != []
    requires Concat(units) == word[i..]
    ensures i + |units[0]| <= |word|
    ensures units[0] == word[i..i + |units[0]|]
    ensures Concat(units[1..]) == word[i + |units[0]|..]
  {
    var h := units[0];
    assert word[i..] == h + Concat(units[1..]);
    assert word[i..][..|h|] == h;
    assert word[i..][|h|..] == Concat(units[1..]);
  }

  /** Any greedy segmentation of the rest of the word from `i` is the one the
      scan produces. */
  lemma {:induction false} GreedySegmentationUnique(word: string, i: nat, units: seq<string>)
    requires i <= |word|
    requires forall k :: 0 <= k < |units| ==> IsUnit(units[k])
    requires Concat(units) == word[i..]
    requires Greedy(units)
    ensures units == SegmentFrom(word, i)
    decreases |units|
  {
    if units == [] {
      assert word[i..] == "";
    } else {
      var h := units[0];
      var rest := units[1..];
      ConcatHead(word, i, units);
      assert forall k :: 0 <= k < |rest| ==> IsUnit(rest[k]) by {
        forall k | 0 <= k < |rest|
          ensures IsUnit(rest[k])
        {
          assert rest[k] == units[k + 1];
        }
      }
      GreedyTail(units);
      GreedySegmentationUnique(word, i + |h|, rest);
      SegmentFromStep(word, i);
      assert [h] + rest == units;
      if |h| == 2 {
        assert Pair(word, i) == h && IsDigraph(h);
        assert SegmentFrom(word, i) == [h] + rest;
      } else {
        if i + 1 < |word| {
          GreedyHead(word, i, units);
        } else {
          assert |Pair(word, i)| == 1;
        }
        assert word[i..i + 1] == h;
        assert SegmentFrom(word, i) == [h] + rest;
      }
    }
  }

  /** In a greedy segmentation a one-character unit never starts a digraph of
      the word. */
  lemma GreedyHead(word: string, i: nat, units: seq<string>)
    requires i + 1 < |word| && |units| >= 1 && |units[0]| == 1
    requires forall k :: 0 <= k < |units| ==> IsUnit(units[k])
    requires Concat(units) == word[i..]
    requires Greedy(units)
    ensures !IsDigraph(Pair(word, i))
  {
    var h := units[0];
    ConcatHead(word, i, units);
    var rest := units[1..];
    ConcatHead(word, i + 1, rest);
    assert units[1] == rest[0];
    assert rest[0][..1] == word[i + 1..i + 2];
    assert h + rest[0][..1] == Pair(word, i);
  }

  /** The segmenter's output is characterised by three facts: it consists of
      sound units, it concatenates back to the word, and it never splits a
      digraph. It is the only sequence with these properties. */
  lemma SegmentCharacterized(word: string, units: seq<string>)
    ensures units == Segment(word) <==> IsGreedySegmentation(word, units)
  {
    SegmentFromGreedy(word, 0);
    if IsGreedySegmentation(word, units) {
      GreedySegmentationUnique(word, 0, units);
    }
  }

  /** Segmenting the concatenation of the units again gives the same units, so
      the segmentation can be recomputed from what it shows. */
  lemma SegmentRestartable(word: string)
    ensures Segment(Concat(Segment(word))) == Segment(word)
  {
  }

  /** One step of the scan at position `i`. */
  lemma SegmentFromStep(word: string, i: nat)
    requires i < |word|
    ensures IsDigraph(Pair(word, i)) ==>
      i + 2 <= |word| && SegmentFrom(word, i) == [Pair(word, i)] + SegmentFrom(word, i + 2)
    ensures !IsDigraph(Pair(word, i)) ==>
      SegmentFrom(word, i) == [word[i..i + 1]] + SegmentFrom(word, i + 1)
  {
  }

  lemma SeqAssoc(done: seq<string>, unit: string, rest: seq<string>)
    ensures (done + [unit]) + rest == done + ([unit] + rest)
  {
  }

  /** The scan of `splitToPhonemes`, proved to produce `Segment(word)`. */
  method SplitToPhonemes(word: string) returns (result: seq<string>)
    ensures result == Segment(word)
  {
    result := [];
    var i := 0;
    while i < |word|
      invariant 0 <= i <= |word|
      invariant result + SegmentFrom(word, i) == SegmentFrom(word, 0)
      decreases |word| - i
    {
      var pair := word[i..Min(i + 2, |word|)];
      DigraphsListed(pair);
      SegmentFromStep(word, i);
      if pair in Digraphs {
        assert pair == Pair(word, i);
        SeqAssoc(result, pair, SegmentFrom(word, i + 2));
        result := result + [pair];
        i := i + 2;
      } else {
        SeqAssoc(result, word[i..i + 1], SegmentFrom(word, i + 1));
        result := result + [word[i..i + 1]];
        i := i + 1;
      }
    }
  }

  /** Segmentations of words the reader shows: digraphs stay together. */
  lemma SegmentCat()
    ensures Segment("cat") == ["c", "a", "t"]
  {
    assert SegmentFrom("cat", 3) == [];
    SegmentFromStep("cat", 2);
    assert Pair("cat", 2) == "t";
    assert "cat"[2..3] == "t";
    assert SegmentFrom("cat", 2) == ["t"];
    SegmentFromStep("cat", 1);
    assert Pair("cat", 1) == "at";
    assert "cat"[1..2] == "a";
    assert SegmentFrom("cat", 1) == ["a", "t"];
    SegmentFromStep("cat", 0);
    assert Pair("cat", 0) == "ca";
    assert "cat"[0..1] == "c";
    assert SegmentFrom("cat", 0) == ["c", "a", "t"];
  }

  lemma SegmentChip()
    ensures Segment("chip") == ["ch", "i", "p"]
  {
    assert SegmentFrom("chip", 4) == [];
    SegmentFromStep("chip", 3);
    assert Pair("chip", 3) == "p";
    assert "chip"[3..4] == "p";
    assert SegmentFrom("chip", 3) == ["p"];
    SegmentFromStep("chip", 2);
    assert Pair("chip", 2) == "ip";
    assert "chip"[2..3] == "i";
    assert SegmentFrom("chip", 2) == ["i", "p"];
    SegmentFromStep("chip", 0);
    assert Pair("chip", 0) == "ch";
    assert SegmentFrom("chip", 0) == ["ch", "i", "p"];
  }

  lemma SegmentThink()
    ensures Segment("think") == ["th", "i", "n", "k"]
  {
    assert SegmentFrom("think", 5) == [];
    SegmentFromStep("think", 4);
    assert Pair("think", 4) == "k";
    assert "think"[4..5] == "k";
    assert SegmentFrom("think", 4) == ["k"];
    SegmentFromStep("think", 3);
    assert Pair("think", 3) == "nk";
    assert "think"[3..4] == "n";
    assert SegmentFrom("think", 3) == ["n", "k"];
    SegmentFromStep("think", 2);
    assert Pair("think", 2) == "in";
    assert "think"[2..3] == "i";
    assert SegmentFrom("think", 2) == ["i", "n", "k"];
    SegmentFromStep("think", 0);
    assert Pair("think", 0) == "th";
    assert SegmentFrom("think", 0) == ["th", "i", "n", "k"];
  }

  lemma SegmentGraph()
    ensures Segment("graph") == ["g", "r", "a", "ph"]
  {
    assert SegmentFrom("graph", 5) == [];
    SegmentFromStep("graph", 3);
    assert Pair("graph", 3) == "ph";
    assert SegmentFrom("graph", 3) == ["ph"];
    SegmentFromStep("graph", 2);
    assert Pair("graph", 2) == "ap";
    assert "graph"[2..3] == "a";
    assert SegmentFrom("graph", 2) == ["a", "ph"];
    SegmentFromStep("graph", 1);
    assert Pair("graph", 1) == "ra";
    assert "graph"[1..2] == "r";
    assert SegmentFrom("graph", 1) == ["r", "a", "ph"];
    SegmentFromStep("graph", 0);
    assert Pair("graph", 0) == "gr";
    assert "graph"[0..1] == "g";
    assert SegmentFrom("graph", 0) == ["g", "r", "a", "ph"];
  }
}
