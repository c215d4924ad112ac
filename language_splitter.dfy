/**
 * The flat Hindi/English splitter: the blocks of the converted document are
 * filtered, scanned once with a one-pair accumulator, and the resulting pairs
 * go through the orphan merge pass.
 */
module LanguageSplitter {
  import opened Script
  import opened Corpus
  import OrphanMerge

  /** The accumulator's reset value, {hindi: "", english: ""}. */
  const NoPair := Pair("", "")

  /** The accumulator holds something: `current.hindi || current.english`. */
  predicate IsPending(p: Pair) {
    p.devanagari != "" || p.english != ""
  }

  /** The scan between two blocks: the pairs pushed so far and the accumulator. */
  datatype Scan = Scan(pairs: seq<Pair>, current: Pair)

  /**
   * The effect of one block. A Hindi block flushes a pending accumulator and
   * takes the Hindi slot; any other block fills the English slot, is pushed
   * with it, and resets the accumulator. Each block pushes at most one pair,
   * and afterwards the accumulator's English slot is always empty.
   */
  function Feed(s: Scan, b: Block): (r: Scan)
    ensures |s.pairs| <= |r.pairs| <= |s.pairs| + 1
    ensures r.current.english == ""
  {
    if ScriptLabel(b.text) == Hi then
      if IsPending(s.current) then Scan(s.pairs + [s.current], NoPair.(devanagari := b.html))
      else Scan(s.pairs, s.current.(devanagari := b.html))
    else
      Scan(s.pairs + [s.current.(english := b.html)], NoPair)
  }

  /** The scan over a run of blocks, in document order. */
  function FeedAll(s: Scan, bs: seq<Block>): Scan
    decreases |bs|
  {
    if bs == [] then s else FeedAll(Feed(s, bs[0]), bs[1..])
  }

  /**
   * End of the scan: a pending accumulator is pushed as the last pair, and
   * one pair is added exactly when the accumulator is pending.
   */
  function Close(s: Scan): (r: seq<Pair>)
    ensures |s.pairs| <= |r| <= |s.pairs| + 1
    ensures |r| == |s.pairs| + 1 <==> IsPending(s.current)
  {
    if IsPending(s.current) then s.pairs + [s.current] else s.pairs
  }

  /** What buildPairs returns for the blocks that pass its filter. */
  function Pairing(bs: seq<Block>): seq<Pair> {
    Close(FeedAll(Scan([], NoPair), bs))
  }

  /**
   * buildPairs: the block filter, then the accumulator loop over the blocks
   * that pass it, then the final flush.
   */
  method BuildPairs(raw: seq<Block>) returns (pairs: seq<Pair>)
    ensures pairs == Pairing(NonBlankBlocks(raw))
    ensures Flatten(pairs) == ConcatHtml(LabelBlocks(NonBlankBlocks(raw)))
  {
    var blocks := NonBlankBlocks(raw);
    pairs := [];
    var current := NoPair;
    for i := 0 to |blocks|
      invariant FeedAll(Scan(pairs, current), blocks[i..]) == FeedAll(Scan([], NoPair), blocks)
    {
      var node := blocks[i];
      var text := node.text;
      assert blocks[i..][1..] == blocks[i + 1..];
      if HasDevanagari(text) && !HasAsciiLetter(text) {
        if current.devanagari != "" || current.english != "" {
          pairs := pairs + [current];
          current := NoPair;
        }
        current := current.(devanagari := node.html);
      } else if HasAsciiLetter(text) && !HasDevanagari(text) {
        current := current.(english := node.html);
        pairs := pairs + [current];
        current := NoPair;
      } else {
        current := current.(english := node.html);
        pairs := pairs + [current];
        current := NoPair;
      }
    }
    if current.devanagari != "" || current.english != "" {
      pairs := pairs + [current];
    }
    PairingKeepsMarkup(blocks);
  }

  /**
   * onFileChange, after the conversion: the raw pairs go through the orphan
   * merge pass. When no block's markup is blank, no markup is lost or
   * reordered, no entry after the first is English-only, and a second merge
   * would change nothing.
   */
  method ExtractPairs(raw: seq<Block>) returns (merged: seq<Pair>)
    ensures merged == OrphanMerge.Merge(Pairing(NonBlankBlocks(raw)))
    ensures (forall b :: b in NonBlankBlocks(raw) ==> !IsBlank(b.html)) ==>
              && Flatten(merged) == ConcatHtml(LabelBlocks(NonBlankBlocks(raw)))
              && OrphanMerge.NoOrphanAfterFirst(merged)
              && OrphanMerge.Merge(merged) == merged
  {
    var rawPairs := BuildPairs(raw);
    merged := OrphanMerge.MergeOrphans(rawPairs);
    var blocks := NonBlankBlocks(raw);
    if forall b :: b in blocks ==> !IsBlank(b.html) {
      PairingWellFormed(blocks);
      OrphanMerge.MergeKeepsMarkup(rawPairs);
      OrphanMerge.MergeLeavesNoOrphan(rawPairs);
      OrphanMerge.MergeIdempotent(rawPairs);
    }
  }

  /**
   * The scan loses no markup: the flattened pushed pairs, the accumulator
   * and the blocks still to come always add up to the same text.
   */
  lemma {:induction false} FeedAllKeepsMarkup(s: Scan, bs: seq<Block>)
    requires s.current.english == ""
    ensures Flatten(Close(FeedAll(s, bs))) ==
              Flatten(s.pairs) + s.current.devanagari + ConcatHtml(LabelBlocks(bs))
    decreases |bs|
  {
    if bs == [] {
      if IsPending(s.current) {
        OrphanMerge.FlattenSnoc(s.pairs, s.current);
      }
    } else {
      var b := bs[0];
      var s' := Feed(s, b);
      FeedAllKeepsMarkup(s', bs[1..]);
      var rest := ConcatHtml(LabelBlocks(bs[1..]));
      assert ConcatHtml(LabelBlocks(bs)) == b.html + rest by {
        assert LabelBlocks(bs)[1..] == LabelBlocks(bs[1..]);
      }
      FeedKeepsMarkup(s, b);
      ConcatAssoc(Flatten(s'.pairs), s'.current.devanagari, rest);
      ConcatAssoc(Flatten(s.pairs) + s.current.devanagari, b.html, rest);
    }
  }

  /** One block: the pushed pairs and the Hindi slot grow by exactly its markup. */
  lemma FeedKeepsMarkup(s: Scan, b: Block)
    requires s.current.english == ""
    ensures Flatten(Feed(s, b).pairs) + Feed(s, b).current.devanagari ==
            Flatten(s.pairs) + s.current.devanagari + b.html
  {
    if ScriptLabel(b.text) == Hi {
      if IsPending(s.current) {
        OrphanMerge.FlattenSnoc(s.pairs, s.current);
      }
    } else {
      OrphanMerge.FlattenSnoc(s.pairs, s.current.(english := b.html));
    }
  }

  /**
   * Content preservation: both sides of the pairs, read in order, are the
   * markup of the blocks in document order; no block is lost, duplicated or
   * reordered.
   */
  lemma PairingKeepsMarkup(bs: seq<Block>)
    ensures Flatten(Pairing(bs)) == ConcatHtml(LabelBlocks(bs))
  {
    FeedAllKeepsMarkup(Scan([], NoPair), bs);
  }

  /** The scan only ever appends to the pairs already pushed. */
  lemma {:induction false} FeedAllExtends(s: Scan, bs: seq<Block>)
    ensures s.pairs <= FeedAll(s, bs).pairs
    ensures s.pairs <= Close(FeedAll(s, bs))
    decreases |bs|
  {
    if bs != [] {
      FeedAllExtends(Feed(s, bs[0]), bs[1..]);
    }
  }

  /**
   * With non-empty markup, every pair pushed has at least one non-empty
   * side, and a leftover accumulator is pushed only when it is non-empty.
   */
  lemma {:induction false} FeedAllPushesNonEmpty(s: Scan, bs: seq<Block>)
    requires forall k :: 0 <= k < |s.pairs| ==> IsPending(s.pairs[k])
    requires forall k :: 0 <= k < |bs| ==> bs[k].html != ""
    ensures forall p :: p in Close(FeedAll(s, bs)) ==> IsPending(p)
    decreases |bs|
  {
    if bs != [] {
      FeedAllPushesNonEmpty(Feed(s, bs[0]), bs[1..]);
    }
  }

  lemma PairingNonEmpty(bs: seq<Block>)
    requires forall k :: 0 <= k < |bs| ==> bs[k].html != ""
    ensures forall p :: p in Pairing(bs) ==> IsPending(p)
  {
    FeedAllPushesNonEmpty(Scan([], NoPair), bs);
  }

  /** A document with no non-blank block gives no pairs. */
  lemma PairingEmpty()
    ensures Pairing([]) == []
  {
  }

  /** A document that starts with an English block starts with an English-only pair. */
  lemma LeadingEnglishStandsAlone(bs: seq<Block>)
    requires |bs| > 0 && ScriptLabel(bs[0].text) == En
    ensures |Pairing(bs)| > 0 && Pairing(bs)[0] == Pair("", bs[0].html)
  {
    FeedAllExtends(Feed(Scan([], NoPair), bs[0]), bs[1..]);
  }

  /**
   * Two Hindi blocks in a row: the first is flushed on its own, with an empty
   * English side.
   */
  lemma ConsecutiveHindiFlushes(bs: seq<Block>)
    requires |bs| > 1 && ScriptLabel(bs[0].text) == Hi && ScriptLabel(bs[1].text) == Hi
    requires bs[0].html != ""
    ensures |Pairing(bs)| > 0 && Pairing(bs)[0] == Pair(bs[0].html, "")
  {
    var s1 := Feed(Scan([], NoPair), bs[0]);
    assert bs[1..][0] == bs[1];
    assert FeedAll(s1, bs[1..]) == FeedAll(Feed(s1, bs[1]), bs[2..]);
    FeedAllExtends(Feed(s1, bs[1]), bs[2..]);
  }

  /**
   * A Hindi block followed by the blocks `ls`: paired with the first of them
   * if that one is English, alone otherwise.
   */
  function HindiThen(h: string, ls: seq<Labelled>): seq<Pair> {
    if |ls| > 0 && ls[0].kind == En then [Pair(h, ls[0].html)] + LookaheadPairs(ls[1..])
    else [Pair(h, "")] + LookaheadPairs(ls)
  }

  /** Every Hindi block has non-empty markup. */
  predicate HindiMarkupNonEmpty(bs: seq<Block>) {
    forall k :: 0 <= k < |bs| && ScriptLabel(bs[k].text) == Hi ==> bs[k].html != ""
  }

  lemma {:induction false} FeedAllFromEmpty(ps: seq<Pair>, bs: seq<Block>)
    requires HindiMarkupNonEmpty(bs)
    ensures Close(FeedAll(Scan(ps, NoPair), bs)) == ps + LookaheadPairs(LabelBlocks(bs))
    decreases |bs|, 1
  {
    if bs == [] {
    } else {
      var b, ls := bs[0], LabelBlocks(bs);
      assert ls[1..] == LabelBlocks(bs[1..]);
      assert HindiMarkupNonEmpty(bs[1..]) by {
        assert forall k :: 0 <= k < |bs[1..]| ==> bs[1..][k] == bs[k + 1];
      }
      if ScriptLabel(b.text) == Hi {
        FeedAllFromHindi(ps, b.html, bs[1..]);
      } else {
        FeedAllFromEmpty(ps + [Pair("", b.html)], bs[1..]);
        ConcatAssoc(ps, [Pair("", b.html)], LookaheadPairs(ls[1..]));
      }
    }
  }

  lemma {:induction false} FeedAllFromHindi(ps: seq<Pair>, h: string, bs: seq<Block>)
    requires h != "" && HindiMarkupNonEmpty(bs)
    ensures Close(FeedAll(Scan(ps, Pair(h, "")), bs)) == ps + HindiThen(h, LabelBlocks(bs))
    decreases |bs|, 0
  {
    var ls := LabelBlocks(bs);
    if bs == [] {
    } else {
      var b := bs[0];
      assert ls[1..] == LabelBlocks(bs[1..]);
      assert HindiMarkupNonEmpty(bs[1..]) by {
        assert forall k :: 0 <= k < |bs[1..]| ==> bs[1..][k] == bs[k + 1];
      }
      if ScriptLabel(b.text) == Hi {
        FeedAllFromHindi(ps + [Pair(h, "")], b.html, bs[1..]);
        ConcatAssoc(ps, [Pair(h, "")], HindiThen(b.html, ls[1..]));
      } else {
        FeedAllFromEmpty(ps + [Pair(h, b.html)], bs[1..]);
        ConcatAssoc(ps, [Pair(h, b.html)], LookaheadPairs(ls[1..]));
      }
    }
  }

  /**
   * When every Hindi block has non-empty markup, the accumulator scan is the
   * one-block lookahead rule that the section parser applies to a section's
   * content.
   */
  lemma PairingIsLookahead(bs: seq<Block>)
    requires HindiMarkupNonEmpty(bs)
    ensures Pairing(bs) == LookaheadPairs(LabelBlocks(bs))
  {
    FeedAllFromEmpty([], bs);
  }

  /**
   * When no block's markup is blank, every pair has a non-blank Hindi side or
   * is an English-only pair with Hindi side exactly "".
   */
  lemma PairingWellFormed(bs: seq<Block>)
    requires forall b :: b in bs ==> !IsBlank(b.html)
    ensures Pairing(bs) == LookaheadPairs(LabelBlocks(bs))
    ensures forall k :: 0 <= k < |Pairing(bs)| && OrphanMerge.IsOrphan(Pairing(bs)[k]) ==>
              Pairing(bs)[k].devanagari == ""
    ensures forall k :: 0 <= k < |Pairing(bs)| ==> OrphanMerge.HasContent(Pairing(bs)[k])
  {
    assert forall k :: 0 <= k < |bs| ==> bs[k].html != "" by {
      forall k | 0 <= k < |bs| ensures bs[k].html != "" {
        assert bs[k] in bs;
      }
    }
    PairingIsLookahead(bs);
    LookaheadPairsWellFormed(LabelBlocks(bs));
  }
}
