/**
 * The orphan merge pass (mergeEnglishWithoutDevanagari in the section
 * parser, mergeEnglishWithoutHindi in the flat splitter; the two are the same
 * loop over differently named keys). It folds every English-only entry into
 * the english side of the entry before it.
 */
module OrphanMerge {
  import opened Script
  import opened Corpus

  /** An English-only entry: blank devanagari side, non-blank english side. */
  predicate IsOrphan(p: Pair) {
    IsBlank(p.devanagari) && !IsBlank(p.english)
  }

  /** An entry with at least one non-blank side. */
  predicate HasContent(p: Pair) {
    !IsBlank(p.devanagari) || !IsBlank(p.english)
  }

  /** No entry after the first is English-only. */
  predicate NoOrphanAfterFirst(ps: seq<Pair>) {
    forall k :: 1 <= k < |ps| ==> !IsOrphan(ps[k])
  }

  /** The last entry with `e` appended to its english side. */
  function AppendEnglish(r: seq<Pair>, e: string): (r': seq<Pair>)
    requires |r| > 0
    ensures |r'| == |r| && r'[..|r| - 1] == r[..|r| - 1]
    ensures r'[|r| - 1] == Pair(r[|r| - 1].devanagari, r[|r| - 1].english + e)
  {
    var last := r[|r| - 1];
    r[..|r| - 1] + [last.(english := last.english + e)]
  }

  /**
   * What the pass returns, entry by entry from the left: an orphan with an
   * earlier result entry is appended to it, anything else is copied. The
   * result is never longer, and the first entry keeps its devanagari side.
   */
  function Merge(ps: seq<Pair>): (r: seq<Pair>)
    ensures |r| <= |ps|
    ensures |ps| > 0 ==> |r| > 0 && r[0].devanagari == ps[0].devanagari
    decreases |ps|
  {
    if ps == [] then []
    else
      var r := Merge(ps[..|ps| - 1]);
      var p := ps[|ps| - 1];
      if IsOrphan(p) && |r| > 0 then AppendEnglish(r, p.english) else r + [p]
  }

  /** The loop of the source: one pass, pushing copies into a fresh result. */
  method MergeOrphans(pairs: seq<Pair>) returns (result: seq<Pair>)
    ensures result == Merge(pairs)
  {
    result := [];
    for i := 0 to |pairs|
      invariant result == Merge(pairs[..i])
    {
      var pair := pairs[i];
      var hasDev := Trim(pair.devanagari) != "";
      var hasEng := Trim(pair.english) != "";
      assert (!hasDev && hasEng) == IsOrphan(pair) by {
        TrimEmptyIffBlank(pair.devanagari);
        TrimEmptyIffBlank(pair.english);
      }
      assert Merge(pairs[..i + 1]) == if IsOrphan(pair) && |result| > 0 then AppendEnglish(result, pair.english)
                                      else result + [pair] by {
        assert pairs[..i + 1] == pairs[..i] + [pair];
        MergeSnoc(pairs[..i], pair);
      }
      if !hasDev && hasEng && |result| > 0 {
        var last := result[|result| - 1];
        result := result[..|result| - 1] + [last.(english := last.english + pair.english)];
      } else {
        result := result + [pair];
      }
    }
    assert pairs[..|pairs|] == pairs;
  }

  /** The first entry is never dropped: its english side can only grow. */
  lemma {:induction false} MergeKeepsFirst(ps: seq<Pair>)
    requires |ps| > 0
    ensures ps[0].english <= Merge(ps)[0].english
    decreases |ps|
  {
    var init := ps[..|ps| - 1];
    if |init| > 0 {
      MergeKeepsFirst(init);
      assert init[0] == ps[0];
      var r := Merge(init);
      if IsOrphan(ps[|ps| - 1]) && |r| > 1 {
        assert Merge(ps)[0] == r[0];
      }
    }
  }

  /** Splitting off the last entry of a sequence. */
  lemma SplitLast(ps: seq<Pair>)
    requires |ps| > 0
    ensures ps == ps[..|ps| - 1] + [ps[|ps| - 1]]
  {
  }

  /** The english sides, read in order, are exactly those of the input. */
  lemma {:induction false} MergeKeepsEnglish(ps: seq<Pair>)
    ensures Englishes(Merge(ps)) == Englishes(ps)
    decreases |ps|
  {
    if ps != [] {
      var init, p := ps[..|ps| - 1], ps[|ps| - 1];
      var r := Merge(init);
      MergeKeepsEnglish(init);
      assert Englishes(ps) == Englishes(init) + p.english by {
        SplitLast(ps);
        EnglishesSnoc(init, p);
      }
      MergeSnoc(init, p);
      SplitLast(ps);
      if IsOrphan(p) && |r| > 0 {
        EnglishesAppendEnglish(r, p.english);
      } else {
        EnglishesSnoc(r, p);
      }
    }
  }

  lemma EnglishesSnoc(ps: seq<Pair>, p: Pair)
    ensures Englishes(ps + [p]) == Englishes(ps) + p.english
  {
    EnglishesAppend(ps, [p]);
    assert [p][1..] == [];
    assert p.english + "" == p.english;
  }

  /** Appending to the last english side appends to the english text. */
  lemma EnglishesAppendEnglish(r: seq<Pair>, e: string)
    requires |r| > 0
    ensures Englishes(AppendEnglish(r, e)) == Englishes(r) + e
  {
    var front, last := r[..|r| - 1], r[|r| - 1];
    SplitLast(r);
    EnglishesSnoc(front, last);
    EnglishesSnoc(front, last.(english := last.english + e));
    ConcatAssoc(Englishes(front), last.english, e);
  }

  /** The non-blank devanagari sides keep their values and their order. */
  lemma {:induction false} MergeKeepsDevanagari(ps: seq<Pair>)
    ensures NonBlankDevanagari(Merge(ps)) == NonBlankDevanagari(ps)
    decreases |ps|
  {
    if ps != [] {
      var init, p := ps[..|ps| - 1], ps[|ps| - 1];
      var r := Merge(init);
      MergeKeepsDevanagari(init);
      SplitLast(ps);
      NonBlankDevanagariAppend(init, [p]);
      MergeSnoc(init, p);
      if IsOrphan(p) && |r| > 0 {
        var front, last := r[..|r| - 1], r[|r| - 1];
        assert NonBlankDevanagari([p]) == [] by { assert [p][1..] == []; }
        assert AppendEnglish(r, p.english) == front + [last.(english := last.english + p.english)];
        SplitLast(r);
        NonBlankDevanagariAppend(front, [last]);
        NonBlankDevanagariAppend(front, [last.(english := last.english + p.english)]);
        assert NonBlankDevanagari([last]) == NonBlankDevanagari([last.(english := last.english + p.english)]) by {
          assert [last][1..] == [] && [last.(english := last.english + p.english)][1..] == [];
        }
      } else {
        NonBlankDevanagariAppend(r, [p]);
      }
    }
  }

  /**
   * When every English-only entry has devanagari exactly "", the pass loses
   * no markup: both sides of all entries, read in order, are unchanged.
   */
  lemma {:induction false} MergeKeepsMarkup(ps: seq<Pair>)
    requires forall k :: 0 <= k < |ps| && IsOrphan(ps[k]) ==> ps[k].devanagari == ""
    ensures Flatten(Merge(ps)) == Flatten(ps)
    decreases |ps|
  {
    if ps != [] {
      var init, p := ps[..|ps| - 1], ps[|ps| - 1];
      assert forall k :: 0 <= k < |init| ==> init[k] == ps[k];
      MergeKeepsMarkup(init);
      var r := Merge(init);
      SplitLast(ps);
      FlattenSnoc(init, p);
      if IsOrphan(p) && |r| > 0 {
        assert p.devanagari == "" by { assert ps[|ps| - 1] == p; }
        assert Flatten(init) + p.devanagari == Flatten(init);
        FlattenAppendEnglish(r, p.english);
      } else {
        FlattenSnoc(r, p);
      }
    }
  }

  /** Appending to the last english side appends to the flattened markup. */
  lemma FlattenAppendEnglish(r: seq<Pair>, e: string)
    requires |r| > 0
    ensures Flatten(AppendEnglish(r, e)) == Flatten(r) + e
  {
    var front, last := r[..|r| - 1], r[|r| - 1];
    SplitLast(r);
    FlattenSnoc(front, last);
    FlattenSnoc(front, last.(english := last.english + e));
    ConcatAssoc(Flatten(front) + last.devanagari, last.english, e);
  }

  lemma FlattenSnoc(ps: seq<Pair>, p: Pair)
    ensures Flatten(ps + [p]) == Flatten(ps) + p.devanagari + p.english
  {
    FlattenAppend(ps, [p]);
    assert [p][1..] == [];
  }

  /**
   * When every entry has a non-blank side, no entry of the result after the
   * first has a blank devanagari side; in particular none is English-only.
   */
  lemma {:induction false} MergeLeavesNoOrphan(ps: seq<Pair>)
    requires forall k :: 0 <= k < |ps| ==> HasContent(ps[k])
    ensures forall k :: 1 <= k < |Merge(ps)| ==> !IsBlank(Merge(ps)[k].devanagari)
    ensures NoOrphanAfterFirst(Merge(ps))
    decreases |ps|
  {
    if ps != [] {
      var init, p := ps[..|ps| - 1], ps[|ps| - 1];
      assert forall k :: 0 <= k < |init| ==> init[k] == ps[k];
      MergeLeavesNoOrphan(init);
      var r := Merge(init);
      if IsOrphan(p) && |r| > 0 {
        var r' := AppendEnglish(r, p.english);
        assert Merge(ps) == r';
        forall k | 1 <= k < |r'| ensures !IsBlank(r'[k].devanagari) {
          if k < |r| - 1 {
            assert r'[k] == r'[..|r| - 1][k] == r[..|r| - 1][k] == r[k];
          }
        }
      } else {
        assert Merge(ps) == r + [p];
        assert HasContent(p);
      }
    }
  }

  /** A sequence with no English-only entry after the first is left as it is. */
  lemma {:induction false} MergeFixpoint(ps: seq<Pair>)
    requires NoOrphanAfterFirst(ps)
    ensures Merge(ps) == ps
    decreases |ps|
  {
    if ps != [] {
      var init := ps[..|ps| - 1];
      assert NoOrphanAfterFirst(init) by {
        assert forall k :: 0 <= k < |init| ==> init[k] == ps[k];
      }
      MergeFixpoint(init);
      SplitLast(ps);
    }
  }

  /**
   * When every entry has a non-blank side, running the pass twice is the
   * same as running it once.
   */
  lemma MergeIdempotent(ps: seq<Pair>)
    requires forall k :: 0 <= k < |ps| ==> HasContent(ps[k])
    ensures Merge(Merge(ps)) == Merge(ps)
  {
    MergeLeavesNoOrphan(ps);
    MergeFixpoint(Merge(ps));
  }

  /**
   * Without that hypothesis the pass is not idempotent: an entry with both
   * sides blank is copied, an English-only entry behind it is then folded
   * into it, and the second pass folds the result once more.
   */
  lemma MergeNotIdempotentOnBlankEntry()
    ensures var ps := [Pair("A", ""), Pair("", ""), Pair("", "X")];
            && Merge(ps) == [Pair("A", ""), Pair("", "X")]
            && Merge(Merge(ps)) == [Pair("A", "X")]
  {
    MergeFirstPass();
    MergeSecondPass();
  }

  lemma MergeFirstPass()
    ensures Merge([Pair("A", ""), Pair("", ""), Pair("", "X")]) == [Pair("A", ""), Pair("", "X")]
  {
    var a, b, c := Pair("A", ""), Pair("", ""), Pair("", "X");
    assert !IsOrphan(a) by { assert !IsWhitespace("A"[0]); }
    assert IsOrphan(c) by { assert !IsWhitespace("X"[0]); }
    MergeThree(a, b, c);
    assert "" + "X" == "X";
  }

  lemma MergeSecondPass()
    ensures Merge([Pair("A", ""), Pair("", "X")]) == [Pair("A", "X")]
  {
    var a, c := Pair("A", ""), Pair("", "X");
    assert !IsOrphan(a) by { assert !IsWhitespace("A"[0]); }
    assert IsOrphan(c) by { assert !IsWhitespace("X"[0]); }
    MergeTwo(a, c);
    assert "" + "X" == "X";
  }

  /** A single entry is copied. */
  lemma MergeSingle(a: Pair)
    ensures Merge([a]) == [a]
  {
    MergeSnoc([], a);
    assert [] + [a] == [a];
  }

  /** An orphan after a first entry is folded into it. */
  lemma MergeTwo(a: Pair, c: Pair)
    requires IsOrphan(c)
    ensures Merge([a, c]) == [Pair(a.devanagari, a.english + c.english)]
  {
    MergeSingle(a);
    MergeSnoc([a], c);
    assert [a] + [c] == [a, c];
  }

  /** Of three entries with only the last an orphan, the last two are joined. */
  lemma MergeThree(a: Pair, b: Pair, c: Pair)
    requires !IsOrphan(b) && IsOrphan(c)
    ensures Merge([a, b, c]) == [a, Pair(b.devanagari, b.english + c.english)]
  {
    MergeKeepsPair(a, b);
    MergeSnoc([a, b], c);
    assert [a, b] + [c] == [a, b, c];
    AppendEnglishToSecond(a, b, c.english);
  }

  /** Two entries, the second no orphan, are copied. */
  lemma MergeKeepsPair(a: Pair, b: Pair)
    requires !IsOrphan(b)
    ensures Merge([a, b]) == [a, b]
  {
    MergeSingle(a);
    MergeSnoc([a], b);
    assert [a] + [b] == [a, b];
  }

  lemma AppendEnglishToSecond(a: Pair, b: Pair, e: string)
    ensures AppendEnglish([a, b], e) == [a, Pair(b.devanagari, b.english + e)]
  {
    var r := AppendEnglish([a, b], e);
    assert r[..1] == [a, b][..1] == [a];
    assert r == r[..1] + [r[1]];
  }

  /** One more entry at the end of the input. */
  lemma MergeSnoc(init: seq<Pair>, p: Pair)
    ensures Merge(init + [p]) ==
              if IsOrphan(p) && |Merge(init)| > 0 then AppendEnglish(Merge(init), p.english)
              else Merge(init) + [p]
  {
    assert (init + [p])[..|init|] == init;
  }
}
