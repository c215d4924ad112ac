/**
 * The values both scanners work on: the blocks handed over by the HTML
 * extractor, their script labels, and the translation units and sections
 * built from them. Also the one-block lookahead pairing rule that both
 * scanners apply.
 */
module Corpus {
  import opened Script

  datatype Option<T> = None | Some(value: T)

  /**
   * One block-level node of the converted document: its visible text
   * (innerText) and its serialised markup (outerHTML).
   */
  datatype Block = Block(text: string, html: string)

  /** The type of a classified block; Marker only in the sectioned scanner. */
  datatype Label = Hi | En | Marker

  /** A classified block: its markup and its label. */
  datatype Labelled = Labelled(html: string, kind: Label)

  /**
   * One translation unit, markup on each side, either side possibly "".
   * The flat splitter names the first field `hindi`, the section parser
   * `devanagari`.
   */
  datatype Pair = Pair(devanagari: string, english: string)

  datatype Title = Title(devanagari: string, english: string)

  datatype Section = Section(title: Title, content: seq<Pair>)

  /**
   * The script test of both scanners: Hindi exactly when the text holds a
   * Devanagari code point and no ASCII letter; everything else, mixed and
   * letterless text included, is English.
   */
  function ScriptLabel(text: string): (l: Label)
    ensures l == Hi <==> HasDevanagari(text) && !HasAsciiLetter(text)
    ensures l == En <==> !HasDevanagari(text) || HasAsciiLetter(text)
  {
    if HasDevanagari(text) && !HasAsciiLetter(text) then Hi
    else if HasAsciiLetter(text) && !HasDevanagari(text) then En
    else En
  }

  /** A text with both scripts, or with neither, is labelled English. */
  lemma MixedOrLetterlessIsEnglish(text: string)
    requires HasDevanagari(text) == HasAsciiLetter(text)
    ensures ScriptLabel(text) == En
  {
  }

  /** Labelling the trimmed text gives the same label as the raw text. */
  lemma ScriptLabelIgnoresTrim(text: string)
    ensures ScriptLabel(Trim(text)) == ScriptLabel(text)
  {
    TrimKeepsScript(text);
  }

  /**
   * The block filter: keeps the blocks whose trimmed text is not empty, in
   * document order.
   */
  function NonBlankBlocks(raw: seq<Block>): (r: seq<Block>)
    ensures |r| <= |raw|
    ensures forall b :: b in r ==> b in raw && !IsBlank(b.text)
    ensures forall b :: b in raw && !IsBlank(b.text) ==> b in r
    decreases |raw|
  {
    if raw == [] then []
    else
      TrimEmptyIffBlank(raw[0].text);
      if Trim(raw[0].text) == "" then NonBlankBlocks(raw[1..])
      else [raw[0]] + NonBlankBlocks(raw[1..])
  }

  /** The filter works block by block, so it keeps document order. */
  lemma {:induction false} NonBlankBlocksAppend(a: seq<Block>, b: seq<Block>)
    ensures NonBlankBlocks(a + b) == NonBlankBlocks(a) + NonBlankBlocks(b)
    decreases |a|
  {
    if a != [] {
      assert (a + b)[0] == a[0];
      assert (a + b)[1..] == a[1..] + b;
      NonBlankBlocksAppend(a[1..], b);
      if Trim(a[0].text) == "" {
        assert NonBlankBlocks(a + b) == NonBlankBlocks(a[1..] + b);
      } else {
        assert NonBlankBlocks(a + b) == [a[0]] + NonBlankBlocks(a[1..] + b);
      }
    } else {
      assert a + b == b;
    }
  }

  /** Each block with the label the flat splitter gives its untrimmed text. */
  function LabelBlocks(bs: seq<Block>): (r: seq<Labelled>)
    ensures |r| == |bs|
    ensures forall k :: 0 <= k < |bs| ==> r[k] == Labelled(bs[k].html, ScriptLabel(bs[k].text))
    decreases |bs|
  {
    if bs == [] then [] else [Labelled(bs[0].html, ScriptLabel(bs[0].text))] + LabelBlocks(bs[1..])
  }

  /** The markup of the blocks, concatenated in order. */
  function ConcatHtml(ls: seq<Labelled>): string
    decreases |ls|
  {
    if ls == [] then "" else ls[0].html + ConcatHtml(ls[1..])
  }

  /** Both sides of every pair, concatenated in order. */
  function Flatten(ps: seq<Pair>): string
    decreases |ps|
  {
    if ps == [] then "" else ps[0].devanagari + ps[0].english + Flatten(ps[1..])
  }

  /** The english sides of the pairs, concatenated in order. */
  function Englishes(ps: seq<Pair>): string
    decreases |ps|
  {
    if ps == [] then "" else ps[0].english + Englishes(ps[1..])
  }

  /** The non-blank devanagari sides of the pairs, in order. */
  function NonBlankDevanagari(ps: seq<Pair>): seq<string>
    decreases |ps|
  {
    if ps == [] then []
    else (if IsBlank(ps[0].devanagari) then [] else [ps[0].devanagari]) + NonBlankDevanagari(ps[1..])
  }

  /** Concatenation regroups freely; stated so that proofs can cite it. */
  lemma ConcatAssoc<T>(a: seq<T>, b: seq<T>, c: seq<T>)
    ensures a + (b + c) == a + b + c
  {
  }

  lemma {:induction false} FlattenAppend(a: seq<Pair>, b: seq<Pair>)
    ensures Flatten(a + b) == Flatten(a) + Flatten(b)
    decreases |a|
  {
    if a == [] {
      assert a + b == b;
    } else {
      assert (a + b)[1..] == a[1..] + b;
      FlattenAppend(a[1..], b);
    }
  }

  lemma {:induction false} EnglishesAppend(a: seq<Pair>, b: seq<Pair>)
    ensures Englishes(a + b) == Englishes(a) + Englishes(b)
    decreases |a|
  {
    if a == [] {
      assert a + b == b;
    } else {
      assert (a + b)[1..] == a[1..] + b;
      EnglishesAppend(a[1..], b);
    }
  }

  lemma {:induction false} NonBlankDevanagariAppend(a: seq<Pair>, b: seq<Pair>)
    ensures NonBlankDevanagari(a + b) == NonBlankDevanagari(a) + NonBlankDevanagari(b)
    decreases |a|
  {
    if a == [] {
      assert a + b == b;
    } else {
      assert (a + b)[1..] == a[1..] + b;
      NonBlankDevanagariAppend(a[1..], b);
    }
  }

  /**
   * The one-block lookahead pairing rule: a Hindi block followed directly by
   * an English block makes one pair and both are consumed; any other Hindi
   * block stands alone with english ""; an English block that no Hindi block
   * claimed stands alone with devanagari "". There are never more pairs
   * than blocks.
   */
  function LookaheadPairs(ls: seq<Labelled>): (r: seq<Pair>)
    ensures |r| <= |ls|
    decreases |ls|
  {
    if ls == [] then []
    else if ls[0].kind == Hi then
      if |ls| > 1 && ls[1].kind == En then
        [Pair(ls[0].html, ls[1].html)] + LookaheadPairs(ls[2..])
      else
        [Pair(ls[0].html, "")] + LookaheadPairs(ls[1..])
    else
      [Pair("", ls[0].html)] + LookaheadPairs(ls[1..])
  }

  /** The pairing loses, duplicates and reorders no markup. */
  lemma {:induction false} LookaheadPairsKeepsMarkup(ls: seq<Labelled>)
    ensures Flatten(LookaheadPairs(ls)) == ConcatHtml(ls)
    decreases |ls|
  {
    if ls != [] {
      if ls[0].kind == Hi && |ls| > 1 && ls[1].kind == En {
        LookaheadPairsKeepsMarkup(ls[2..]);
        assert ls[1..][1..] == ls[2..];
        ConcatAssoc(ls[0].html, ls[1].html, ConcatHtml(ls[2..]));
      } else {
        LookaheadPairsKeepsMarkup(ls[1..]);
        if ls[0].kind == Hi {
          assert ls[0].html + "" == ls[0].html;
        } else {
          assert "" + ls[0].html == ls[0].html;
        }
      }
    }
  }

  /**
   * When no block's markup is blank, every pair either has a non-blank
   * devanagari side or is an English-only pair whose devanagari side is
   * exactly "" and whose english side is not blank.
   */
  lemma {:induction false} LookaheadPairsWellFormed(ls: seq<Labelled>)
    requires forall k :: 0 <= k < |ls| ==> !IsBlank(ls[k].html)
    ensures forall k :: 0 <= k < |LookaheadPairs(ls)| ==>
              var p := LookaheadPairs(ls)[k];
              !IsBlank(p.devanagari) || (p.devanagari == "" && !IsBlank(p.english))
    decreases |ls|
  {
    if ls != [] {
      var n := if ls[0].kind == Hi && |ls| > 1 && ls[1].kind == En then 2 else 1;
      assert forall k :: 0 <= k < |ls[n..]| ==> !IsBlank(ls[n..][k].html) by {
        assert forall k :: 0 <= k < |ls[n..]| ==> ls[n..][k] == ls[k + n];
      }
      LookaheadPairsWellFormed(ls[n..]);
      var r, rest := LookaheadPairs(ls), LookaheadPairs(ls[n..]);
      assert r == [r[0]] + rest;
      forall k | 0 <= k < |r|
        ensures !IsBlank(r[k].devanagari) || (r[k].devanagari == "" && !IsBlank(r[k].english))
      {
        if k > 0 {
          assert r[k] == rest[k - 1];
        }
      }
    }
  }
}
