/**
 * Script tests and whitespace trimming, the text predicates every block
 * classification of the corpus builder rests on: "holds a code point of
 * U+0900 to U+097F", "holds a letter A-Z or a-z" and "is blank once
 * trimmed" (String.prototype.trim).
 */
module Script {

  /** A code point of the Devanagari block, U+0900 to U+097F. */
  predicate IsDevanagariChar(c: char) {
    '\U{0900}' <= c <= '\U{097F}'
  }

  /** An ASCII letter. */
  predicate IsAsciiLetter(c: char) {
    'A' <= c <= 'Z' || 'a' <= c <= 'z'
  }

  /** The text holds at least one Devanagari code point. */
  predicate HasDevanagari(s: string) {
    exists i :: 0 <= i < |s| && IsDevanagariChar(s[i])
  }

  /** The text holds at least one ASCII letter. */
  predicate HasAsciiLetter(s: string) {
    exists i :: 0 <= i < |s| && IsAsciiLetter(s[i])
  }

  /**
   * The characters that trim removes: the WhiteSpace and LineTerminator
   * code points of ECMAScript (tab, vertical tab, form feed, the byte order
   * mark, the space separators of Unicode category Zs, line feed, carriage
   * return, line and paragraph separators).
   */
  predicate IsWhitespace(c: char) {
    || c == '\t' || c == '\n' || c == '\U{000B}' || c == '\U{000C}' || c == '\r'
    || c == ' ' || c == '\U{00A0}' || c == '\U{1680}'
    || ('\U{2000}' <= c <= '\U{200A}')
    || c == '\U{2028}' || c == '\U{2029}' || c == '\U{202F}' || c == '\U{205F}'
    || c == '\U{3000}' || c == '\U{FEFF}'
  }

  /** Every character of the text is whitespace (the empty text is blank). */
  predicate IsBlank(s: string) {
    forall i :: 0 <= i < |s| ==> IsWhitespace(s[i])
  }

  /** Whitespace is neither a Devanagari code point nor an ASCII letter. */
  lemma WhitespaceIsScriptless(c: char)
    requires IsWhitespace(c)
    ensures !IsDevanagariChar(c) && !IsAsciiLetter(c)
  {
  }

  /** Strips leading whitespace: the result is a suffix of the text. */
  function TrimStart(s: string): (r: string)
    ensures |r| <= |s| && r == s[|s| - |r|..]
    ensures forall k :: 0 <= k < |s| - |r| ==> IsWhitespace(s[k])
    ensures r == [] || !IsWhitespace(r[0])
    decreases |s|
  {
    if |s| > 0 && IsWhitespace(s[0]) then TrimStart(s[1..]) else s
  }

  /** Strips trailing whitespace: the result is a prefix of the text. */
  function TrimEnd(s: string): (r: string)
    ensures |r| <= |s| && r == s[..|r|]
    ensures forall k :: |r| <= k < |s| ==> IsWhitespace(s[k])
    ensures r == [] || !IsWhitespace(r[|r| - 1])
    decreases |s|
  {
    if |s| > 0 && IsWhitespace(s[|s| - 1]) then TrimEnd(s[..|s| - 1]) else s
  }

  /** String.prototype.trim: neither end of the result is whitespace. */
  function Trim(s: string): (r: string)
    ensures |r| <= |s|
    ensures r == [] || (!IsWhitespace(r[0]) && !IsWhitespace(r[|r| - 1]))
  {
    TrimEnd(TrimStart(s))
  }

  /** Trimming yields the empty string exactly when the text is blank. */
  lemma TrimEmptyIffBlank(s: string)
    ensures Trim(s) == "" <==> IsBlank(s)
  {
    var u := TrimStart(s);
    var n := |s| - |u|;
    if Trim(s) == "" {
      // u is all whitespace yet does not start with whitespace: it is empty.
      assert u == [];
    } else {
      var r := Trim(s);
      assert r[0] == u[0] == s[n];
    }
  }

  /**
   * Trimming removes only whitespace, so it never changes whether a text
   * holds a Devanagari code point or an ASCII letter.
   */
  lemma TrimKeepsScript(s: string)
    ensures HasDevanagari(Trim(s)) == HasDevanagari(s)
    ensures HasAsciiLetter(Trim(s)) == HasAsciiLetter(s)
  {
    TrimKeepsDevanagari(s);
    TrimKeepsAsciiLetter(s);
  }

  lemma TrimKeepsDevanagari(s: string)
    ensures HasDevanagari(Trim(s)) == HasDevanagari(s)
  {
    var n := TrimSpan(s);
    var r := Trim(s);
    if HasDevanagari(s) {
      var i :| 0 <= i < |s| && IsDevanagariChar(s[i]);
      if !(n <= i < n + |r|) { WhitespaceIsScriptless(s[i]); }
      assert r[i - n] == s[i];
    }
    if HasDevanagari(r) {
      var j :| 0 <= j < |r| && IsDevanagariChar(r[j]);
      assert s[n + j] == r[j];
    }
  }

  lemma TrimKeepsAsciiLetter(s: string)
    ensures HasAsciiLetter(Trim(s)) == HasAsciiLetter(s)
  {
    var n := TrimSpan(s);
    var r := Trim(s);
    if HasAsciiLetter(s) {
      var i :| 0 <= i < |s| && IsAsciiLetter(s[i]);
      if !(n <= i < n + |r|) { WhitespaceIsScriptless(s[i]); }
      assert r[i - n] == s[i];
    }
    if HasAsciiLetter(r) {
      var j :| 0 <= j < |r| && IsAsciiLetter(r[j]);
      assert s[n + j] == r[j];
    }
  }

  /**
   * The trimmed text is the slice of the text that starts at the returned
   * offset, and every character outside that slice is whitespace.
   */
  lemma TrimSpan(s: string) returns (n: nat)
    ensures n + |Trim(s)| <= |s| && Trim(s) == s[n..n + |Trim(s)|]
    ensures forall i :: 0 <= i < |s| && !(n <= i < n + |Trim(s)|) ==> IsWhitespace(s[i])
  {
    var u := TrimStart(s);
    n := |s| - |u|;
    var r := TrimEnd(u);
    assert r == Trim(s);
    assert r == s[n..n + |r|];
    forall i | 0 <= i < |s| && !(n <= i < n + |r|) ensures IsWhitespace(s[i]) {
      if i >= n { assert s[i] == u[i - n]; }
    }
  }
}
