/**
 * The sectioned scanner: blocks are classified (the marker line first, then
 * the script test), then a while loop over an index with two title flags
 * groups them into sections, each with a Hindi title, an English title and
 * content pairs that go through the orphan merge pass.
 */
module SuttaSectionParser {
  import opened Script
  import opened Corpus
  import OrphanMerge

  /** The exact text of a section marker line. */
  const SECTION_MARKER := "===SECTION==="

  /**
   * The type of a non-blank block: its trimmed text is compared with the
   * marker before any script test; otherwise the script test decides.
   */
  function SectionLabel(text: string): (l: Label)
    ensures l == Marker <==> Trim(text) == SECTION_MARKER
    ensures l == Hi <==> Trim(text) != SECTION_MARKER && HasDevanagari(text) && !HasAsciiLetter(text)
  {
    TrimKeepsScript(text);
    var t := Trim(text);
    if t == SECTION_MARKER then Marker else ScriptLabel(t)
  }

  /**
   * The classification map: each block (after the filter that drops blocks
   * whose trimmed text is empty) with its markup and its label.
   */
  function Classify(bs: seq<Block>): (r: seq<Labelled>)
    ensures |r| == |bs|
    ensures forall k :: 0 <= k < |bs| ==> r[k] == Labelled(bs[k].html, SectionLabel(bs[k].text))
    decreases |bs|
  {
    if bs == [] then [] else [Labelled(bs[0].html, SectionLabel(bs[0].text))] + Classify(bs[1..])
  }

  /** A freshly opened section: empty titles, no content. */
  const EmptySection := Section(Title("", ""), [])

  /** The scanner's variables between two turns of its loop. */
  datatype State = State(
    sections: seq<Section>,
    current: Option<Section>,
    expectHiTitle: bool,
    expectEnTitle: bool)

  const Start := State([], None, false, false)

  /** The finished sections, then the open one (if any) with its content merged. */
  function Flushed(st: State): seq<Section> {
    match st.current
    case None => st.sections
    case Some(sec) => st.sections + [sec.(content := OrphanMerge.Merge(sec.content))]
  }

  /**
   * One turn of the loop at index i: the next index and the next state. The
   * index always moves forward, by one block or, when a Hindi content block
   * takes the English block after it, by two.
   */
  function Step(bs: seq<Labelled>, i: nat, st: State): (r: (nat, State))
    requires i < |bs|
    ensures i < r.0 <= i + 2 && r.0 <= |bs|
  {
    var block := bs[i];
    if block.kind == Marker then
      (i + 1, State(Flushed(st), Some(EmptySection), true, false))
    else if st.current.Some? && st.expectHiTitle && block.kind == Hi then
      var sec := st.current.value;
      (i + 1, st.(current := Some(sec.(title := sec.title.(devanagari := block.html))),
                  expectHiTitle := false, expectEnTitle := true))
    else if st.current.Some? && st.expectEnTitle && block.kind == En then
      var sec := st.current.value;
      (i + 1, st.(current := Some(sec.(title := sec.title.(english := block.html))),
                  expectEnTitle := false))
    else if st.current.Some? && !st.expectHiTitle && !st.expectEnTitle then
      var sec := st.current.value;
      if block.kind == Hi then
        if i + 1 < |bs| && bs[i + 1].kind == En then
          (i + 2, st.(current := Some(sec.(content := sec.content + [Pair(block.html, bs[i + 1].html)]))))
        else
          (i + 1, st.(current := Some(sec.(content := sec.content + [Pair(block.html, "")]))))
      else
        // Neither a marker nor HI: a stray EN block.
        (i + 1, st.(current := Some(sec.(content := sec.content + [Pair("", block.html)]))))
    else
      (i + 1, st)
  }

  /** The loop from index i and state st to the end, then the final flush. */
  function Run(bs: seq<Labelled>, i: nat, st: State): seq<Section>
    requires i <= |bs|
    decreases |bs| - i
  {
    if i == |bs| then Flushed(st)
    else
      var (j, st') := Step(bs, i, st);
      Run(bs, j, st')
  }

  /**
   * parseSuttaSectionsWithMarker after the HTML has been split into blocks.
   * It returns the sections the reference description gives, one per marker.
   */
  method ParseSuttaSectionsWithMarker(raw: seq<Block>) returns (sections: seq<Section>)
    ensures sections == Sections(Classify(NonBlankBlocks(raw)))
    ensures |sections| == MarkerCount(Classify(NonBlankBlocks(raw)))
  {
    var blocks := Classify(NonBlankBlocks(raw));
    sections := ScanSections(blocks);
  }

  /**
   * The scanning loop of parseSuttaSectionsWithMarker over the classified
   * blocks: it computes what the state machine computes, which is the
   * reference description, one section per marker.
   */
  method ScanSections(blocks: seq<Labelled>) returns (sections: seq<Section>)
    ensures sections == Sections(blocks)
    ensures |sections| == MarkerCount(blocks)
  {
    sections := [];
    var currentSection: Option<Section> := None;
    var expectHiTitle := false;
    var expectEnTitle := false;
    var i: nat := 0;
    while i < |blocks|
      invariant i <= |blocks|
      invariant Run(blocks, i, State(sections, currentSection, expectHiTitle, expectEnTitle))
                == Run(blocks, 0, Start)
      decreases |blocks| - i
    {
      ghost var st := State(sections, currentSection, expectHiTitle, expectEnTitle);
      var block := blocks[i];

      if block.kind == Marker {
        if currentSection.Some? {
          var merged := OrphanMerge.MergeOrphans(currentSection.value.content);
          sections := sections + [currentSection.value.(content := merged)];
        }
        currentSection := Some(Section(Title("", ""), []));
        expectHiTitle := true;
        expectEnTitle := false;
        StepMarker(blocks, i, st);
        i := i + 1;
        continue;
      }

      if currentSection.Some? && expectHiTitle && block.kind == Hi {
        var section := currentSection.value;
        currentSection := Some(section.(title := section.title.(devanagari := block.html)));
        expectHiTitle := false;
        expectEnTitle := true;
        StepHindiTitle(blocks, i, st);
        i := i + 1;
        continue;
      }

      if currentSection.Some? && expectEnTitle && block.kind == En {
        var section := currentSection.value;
        currentSection := Some(section.(title := section.title.(english := block.html)));
        expectEnTitle := false;
        StepEnglishTitle(blocks, i, st);
        i := i + 1;
        continue;
      }

      if currentSection.Some? && !expectHiTitle && !expectEnTitle {
        var section := currentSection.value;
        if block.kind == Hi {
          var hiHtml := block.html;
          var enHtml := "";
          StepContent(blocks, i, st);
          if i + 1 < |blocks| && blocks[i + 1].kind == En {
            enHtml := blocks[i + 1].html;
            i := i + 2;
          } else {
            i := i + 1;
          }
          currentSection := Some(section.(content := section.content + [Pair(hiHtml, enHtml)]));
          continue;
        }
        // A stray EN block: English-only content, for the merge pass to fold.
        currentSection := Some(section.(content := section.content + [Pair("", block.html)]));
        StepContent(blocks, i, st);
        i := i + 1;
        continue;
      }

      StepSkip(blocks, i, st);
      i := i + 1;
    }

    if currentSection.Some? {
      var merged := OrphanMerge.MergeOrphans(currentSection.value.content);
      sections := sections + [currentSection.value.(content := merged)];
    }
    RunIsSections(blocks);
    SectionCount(blocks, 0);
    assert blocks[0..] == blocks;
  }

  // The turns of the loop, one lemma per branch of Step.

  lemma StepMarker(bs: seq<Labelled>, i: nat, st: State)
    requires i < |bs| && bs[i].kind == Marker
    ensures Run(bs, i, st) == Run(bs, i + 1, State(Flushed(st), Some(EmptySection), true, false))
  {
  }

  lemma StepHindiTitle(bs: seq<Labelled>, i: nat, st: State)
    requires i < |bs| && bs[i].kind == Hi && st.current.Some? && st.expectHiTitle
    ensures var sec := st.current.value;
            Run(bs, i, st) == Run(bs, i + 1, st.(current := Some(sec.(title := sec.title.(devanagari := bs[i].html))),
                                                 expectHiTitle := false, expectEnTitle := true))
  {
  }

  lemma StepEnglishTitle(bs: seq<Labelled>, i: nat, st: State)
    requires i < |bs| && bs[i].kind == En && st.current.Some? && st.expectEnTitle
    ensures var sec := st.current.value;
            Run(bs, i, st) == Run(bs, i + 1, st.(current := Some(sec.(title := sec.title.(english := bs[i].html))),
                                                 expectEnTitle := false))
  {
  }

  lemma StepContent(bs: seq<Labelled>, i: nat, st: State)
    requires i < |bs| && bs[i].kind != Marker && st.current.Some? && !st.expectHiTitle && !st.expectEnTitle
    ensures var sec := st.current.value;
            var taken := bs[i].kind == Hi && i + 1 < |bs| && bs[i + 1].kind == En;
            var p := if taken then Pair(bs[i].html, bs[i + 1].html)
                     else if bs[i].kind == Hi then Pair(bs[i].html, "") else Pair("", bs[i].html);
            Run(bs, i, st) == Run(bs, if taken then i + 2 else i + 1,
                                  st.(current := Some(sec.(content := sec.content + [p]))))
  {
  }

  lemma StepSkip(bs: seq<Labelled>, i: nat, st: State)
    requires i < |bs| && bs[i].kind != Marker
    requires st.current.None? || (st.expectHiTitle && bs[i].kind != Hi && !st.expectEnTitle)
             || (st.expectEnTitle && bs[i].kind != En && !st.expectHiTitle)
             || (st.expectHiTitle && st.expectEnTitle && bs[i].kind != Hi && bs[i].kind != En)
    ensures Run(bs, i, st) == Run(bs, i + 1, st)
  {
  }

  // ---------------------------------------------------------------------
  // The reference description of the sections.
  // ---------------------------------------------------------------------

  /** The first marker at or after index i, or |bs| if there is none. */
  function NextMarker(bs: seq<Labelled>, i: nat): (j: nat)
    requires i <= |bs|
    ensures i <= j <= |bs|
    ensures j < |bs| ==> bs[j].kind == Marker
    ensures forall m :: i <= m < j ==> bs[m].kind != Marker
    decreases |bs| - i
  {
    if i == |bs| || bs[i].kind == Marker then i else NextMarker(bs, i + 1)
  }

  /**
   * The section read from the blocks between a marker and the next one: the
   * first HI block is its Hindi title, and every block before it is
   * dropped. Without an HI block both titles stay "".
   */
  function SectionOf(seg: seq<Labelled>): Section
    decreases |seg|
  {
    if seg == [] then EmptySection
    else if seg[0].kind == Hi then TitledSection(seg[0].html, seg[1..])
    else SectionOf(seg[1..])
  }

  /**
   * The rest of a section after its Hindi title h: the first EN block is the
   * English title, every block before it is dropped, and the blocks after it
   * are paired by the lookahead rule and merged. Without an EN block the
   * English title stays "" and there is no content.
   */
  function TitledSection(h: string, seg: seq<Labelled>): (r: Section)
    ensures r.title.devanagari == h
    decreases |seg|
  {
    if seg == [] then Section(Title(h, ""), [])
    else if seg[0].kind == En then Section(Title(h, seg[0].html), OrphanMerge.Merge(LookaheadPairs(seg[1..])))
    else TitledSection(h, seg[1..])
  }

  /**
   * The sections of the blocks from index i on: blocks before the first
   * marker are dropped, and each marker opens the section of the blocks up
   * to the next marker.
   */
  function SectionsFrom(bs: seq<Labelled>, i: nat): seq<Section>
    requires i <= |bs|
    decreases |bs| - i
  {
    var j := NextMarker(bs, i);
    if j == |bs| then []
    else
      var k := NextMarker(bs, j + 1);
      [SectionOf(bs[j + 1..k])] + SectionsFrom(bs, k)
  }

  function Sections(bs: seq<Labelled>): seq<Section> {
    SectionsFrom(bs, 0)
  }

  /**
   * The Hindi title is the first HI block of the segment: every block before
   * it is dropped, and a segment without one gives an untitled, empty
   * section.
   */
  lemma {:induction false} HindiTitleIsFirstHi(seg: seq<Labelled>, h: nat)
    requires h <= |seg| && (h < |seg| ==> seg[h].kind == Hi)
    requires forall k :: 0 <= k < h ==> seg[k].kind != Hi
    ensures SectionOf(seg) == if h == |seg| then EmptySection else TitledSection(seg[h].html, seg[h + 1..])
    decreases h
  {
    if h > 0 {
      assert seg[1..][h - 1..] == seg[h..];
      HindiTitleIsFirstHi(seg[1..], h - 1);
      if h < |seg| {
        assert seg[1..][h - 1] == seg[h] && seg[1..][h..] == seg[h + 1..];
      }
    }
  }

  /**
   * After the Hindi title, the English title is the first EN block: every
   * block before it is dropped, and without one the section keeps an empty
   * English title and no content.
   */
  lemma {:induction false} EnglishTitleIsFirstEn(h: string, seg: seq<Labelled>, e: nat)
    requires e <= |seg| && (e < |seg| ==> seg[e].kind == En)
    requires forall k :: 0 <= k < e ==> seg[k].kind != En
    ensures TitledSection(h, seg) ==
            if e == |seg| then Section(Title(h, ""), [])
            else Section(Title(h, seg[e].html), OrphanMerge.Merge(LookaheadPairs(seg[e + 1..])))
    decreases e
  {
    if e > 0 {
      EnglishTitleIsFirstEn(h, seg[1..], e - 1);
      if e < |seg| {
        assert seg[1..][e - 1] == seg[e] && seg[1..][e..] == seg[e + 1..];
      }
    }
  }

  /** The number of marker blocks. */
  function MarkerCount(bs: seq<Labelled>): nat
    decreases |bs|
  {
    if bs == [] then 0 else (if bs[0].kind == Marker then 1 else 0) + MarkerCount(bs[1..])
  }

  // ---------------------------------------------------------------------
  // The loop computes the reference description.
  // ---------------------------------------------------------------------

  /** Every index up to the next marker has that same next marker. */
  lemma NextMarkerStable(bs: seq<Labelled>, i: nat, m: nat)
    requires i <= |bs| && i <= m <= NextMarker(bs, i)
    ensures NextMarker(bs, m) == NextMarker(bs, i)
  {
  }

  /** At a marker, the section it opens, then the sections after it. */
  lemma SectionsFromMarker(bs: seq<Labelled>, k: nat)
    requires k < |bs| && bs[k].kind == Marker
    ensures SectionsFrom(bs, k) ==
            [SectionOf(bs[k + 1..NextMarker(bs, k + 1)])] + SectionsFrom(bs, NextMarker(bs, k + 1))
  {
  }

  /**
   * In the content state, the loop adds the lookahead pairs of every block
   * up to the next marker to the open section.
   */
  lemma {:induction false} ScanContent(bs: seq<Labelled>, i: nat, s: seq<Section>, t: Title, c: seq<Pair>)
    requires i <= |bs|
    ensures Run(bs, i, State(s, Some(Section(t, c)), false, false)) ==
            Run(bs, NextMarker(bs, i),
                State(s, Some(Section(t, c + LookaheadPairs(bs[i..NextMarker(bs, i)]))), false, false))
    decreases |bs| - i
  {
    var k := NextMarker(bs, i);
    var ls := bs[i..k];
    if i == k {
      assert ls == [];
      assert c + [] == c;
    } else {
      assert ls[0] == bs[i];
      if bs[i].kind == Hi && i + 1 < |bs| && bs[i + 1].kind == En {
        var p := Pair(bs[i].html, bs[i + 1].html);
        assert ls[1] == bs[i + 1];
        assert ls[2..] == bs[i + 2..k];
        NextMarkerStable(bs, i, i + 2);
        ScanContent(bs, i + 2, s, t, c + [p]);
        ConcatAssoc(c, [p], LookaheadPairs(ls[2..]));
      } else {
        var p := if bs[i].kind == Hi then Pair(bs[i].html, "") else Pair("", bs[i].html);
        assert ls[1..] == bs[i + 1..k];
        assert LookaheadPairs(ls) == [p] + LookaheadPairs(ls[1..]) by {
          if bs[i].kind == Hi && |ls| > 1 {
            assert ls[1] == bs[i + 1];
          }
        }
        NextMarkerStable(bs, i, i + 1);
        ScanContent(bs, i + 1, s, t, c + [p]);
        ConcatAssoc(c, [p], LookaheadPairs(ls[1..]));
      }
    }
  }

  /**
   * Awaiting the Hindi title of the section opened by the marker before
   * index i, the loop produces that section, then the sections after it.
   */
  lemma {:induction false} AwaitHindiTitle(bs: seq<Labelled>, i: nat, s: seq<Section>)
    requires i <= |bs|
    ensures Run(bs, i, State(s, Some(EmptySection), true, false)) ==
            s + [SectionOf(bs[i..NextMarker(bs, i)])] + SectionsFrom(bs, NextMarker(bs, i))
    decreases |bs| - i, 1
  {
    var k := NextMarker(bs, i);
    var seg := bs[i..k];
    var st := State(s, Some(EmptySection), true, false);
    if i == k {
      assert seg == [];
      AtBoundary(bs, k, s, EmptySection, true, false);
      assert OrphanMerge.Merge([]) == [];
    } else {
      assert seg[0] == bs[i] && seg[1..] == bs[i + 1..k];
      NextMarkerStable(bs, i, i + 1);
      if bs[i].kind == Hi {
        var st' := State(s, Some(Section(Title(bs[i].html, ""), [])), false, true);
        assert Step(bs, i, st) == (i + 1, st');
        AwaitEnglishTitle(bs, i + 1, s, bs[i].html);
      } else {
        assert Step(bs, i, st) == (i + 1, st);
        AwaitHindiTitle(bs, i + 1, s);
      }
    }
  }

  /**
   * Awaiting the English title after the Hindi title h, the loop produces
   * the rest of the section, then the sections after it.
   */
  lemma {:induction false} AwaitEnglishTitle(bs: seq<Labelled>, i: nat, s: seq<Section>, h: string)
    requires i <= |bs|
    ensures Run(bs, i, State(s, Some(Section(Title(h, ""), [])), false, true)) ==
            s + [TitledSection(h, bs[i..NextMarker(bs, i)])] + SectionsFrom(bs, NextMarker(bs, i))
    decreases |bs| - i, 1
  {
    var k := NextMarker(bs, i);
    var seg := bs[i..k];
    var st := State(s, Some(Section(Title(h, ""), [])), false, true);
    if i == k {
      assert seg == [];
      AtBoundary(bs, k, s, Section(Title(h, ""), []), false, true);
      assert OrphanMerge.Merge([]) == [];
    } else {
      assert seg[0] == bs[i] && seg[1..] == bs[i + 1..k];
      NextMarkerStable(bs, i, i + 1);
      if bs[i].kind == En {
        var t := Title(h, bs[i].html);
        var st' := State(s, Some(Section(t, [])), false, false);
        assert Step(bs, i, st) == (i + 1, st');
        ScanContent(bs, i + 1, s, t, []);
        assert [] + LookaheadPairs(seg[1..]) == LookaheadPairs(seg[1..]);
        AtBoundary(bs, k, s, Section(t, LookaheadPairs(seg[1..])), false, false);
      } else {
        assert Step(bs, i, st) == (i + 1, st);
        AwaitEnglishTitle(bs, i + 1, s, h);
      }
    }
  }

  /**
   * At a marker or at the end, the open section is merged and pushed, then
   * the sections after it follow.
   */
  lemma {:induction false} AtBoundary(bs: seq<Labelled>, k: nat, s: seq<Section>, sec: Section, hiFlag: bool, enFlag: bool)
    requires k <= |bs| && NextMarker(bs, k) == k
    ensures Run(bs, k, State(s, Some(sec), hiFlag, enFlag)) ==
            s + [sec.(content := OrphanMerge.Merge(sec.content))] + SectionsFrom(bs, k)
    decreases |bs| - k, 0
  {
    var st := State(s, Some(sec), hiFlag, enFlag);
    var done := sec.(content := OrphanMerge.Merge(sec.content));
    if k < |bs| {
      var s' := s + [done];
      var st' := State(s', Some(EmptySection), true, false);
      assert Step(bs, k, st) == (k + 1, st');
      assert Run(bs, k, st) == Run(bs, k + 1, st');
      AwaitHindiTitle(bs, k + 1, s');
      var k' := NextMarker(bs, k + 1);
      var next := SectionOf(bs[k + 1..k']);
      SectionsFromMarker(bs, k);
      ConcatAssoc(s, [done], [next] + SectionsFrom(bs, k'));
      ConcatAssoc(s', [next], SectionsFrom(bs, k'));
    } else {
      assert Run(bs, k, st) == s + [done];
      assert SectionsFrom(bs, k) == [];
      assert s + [done] + [] == s + [done];
    }
  }

  /** With no section open, the loop skips to the next marker. */
  lemma {:induction false} ScanIdle(bs: seq<Labelled>, i: nat, s: seq<Section>, hiFlag: bool, enFlag: bool)
    requires i <= |bs|
    ensures Run(bs, i, State(s, None, hiFlag, enFlag)) == s + SectionsFrom(bs, i)
    decreases |bs| - i
  {
    var st := State(s, None, hiFlag, enFlag);
    if i == |bs| {
      assert SectionsFrom(bs, i) == [];
      assert s + [] == s;
    } else if bs[i].kind == Marker {
      assert Step(bs, i, st) == (i + 1, State(s, Some(EmptySection), true, false));
      AwaitHindiTitle(bs, i + 1, s);
      SectionsFromMarker(bs, i);
      var k := NextMarker(bs, i + 1);
      ConcatAssoc(s, [SectionOf(bs[i + 1..k])], SectionsFrom(bs, k));
    } else {
      assert Step(bs, i, st) == (i + 1, st);
      ScanIdle(bs, i + 1, s, hiFlag, enFlag);
      NonMarkersSkipped(bs, i, i + 1);
    }
  }

  /** The state machine from its start computes the reference sections. */
  lemma RunIsSections(bs: seq<Labelled>)
    ensures Run(bs, 0, Start) == Sections(bs)
  {
    ScanIdle(bs, 0, [], false, false);
    assert [] + Sections(bs) == Sections(bs);
  }

  // ---------------------------------------------------------------------
  // Properties of the reference description.
  // ---------------------------------------------------------------------

  /** There are exactly as many sections as marker blocks. */
  lemma {:induction false} SectionCount(bs: seq<Labelled>, i: nat)
    requires i <= |bs|
    ensures |SectionsFrom(bs, i)| == MarkerCount(bs[i..])
    decreases |bs| - i
  {
    if i == |bs| {
      assert SectionsFrom(bs, i) == [];
      assert bs[i..] == [];
    } else {
      assert bs[i..][0] == bs[i] && bs[i..][1..] == bs[i + 1..];
      SectionCount(bs, i + 1);
      if bs[i].kind == Marker {
        SectionsFromMarker(bs, i);
        NonMarkersSkipped(bs, i + 1, NextMarker(bs, i + 1));
      } else {
        NonMarkersSkipped(bs, i, i + 1);
      }
    }
  }

  /** Blocks that are not markers, ahead of any marker, appear in no section. */
  lemma NonMarkersSkipped(bs: seq<Labelled>, i: nat, j: nat)
    requires i <= j <= |bs|
    requires forall m :: i <= m < j ==> bs[m].kind != Marker
    ensures SectionsFrom(bs, i) == SectionsFrom(bs, j)
  {
    NextMarkerStable(bs, i, j);
  }

  /**
   * When no block's markup is blank, a section's content keeps the markup of
   * the blocks after its English title, in order, and no entry after the
   * first is English-only.
   */
  lemma SectionContentKeepsMarkup(ls: seq<Labelled>)
    requires forall k :: 0 <= k < |ls| ==> !IsBlank(ls[k].html)
    ensures Flatten(OrphanMerge.Merge(LookaheadPairs(ls))) == ConcatHtml(ls)
    ensures OrphanMerge.NoOrphanAfterFirst(OrphanMerge.Merge(LookaheadPairs(ls)))
  {
    var ps := LookaheadPairs(ls);
    LookaheadPairsWellFormed(ls);
    LookaheadPairsKeepsMarkup(ls);
    OrphanMerge.MergeKeepsMarkup(ps);
    OrphanMerge.MergeLeavesNoOrphan(ps);
  }
}
