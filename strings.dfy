/**
  Python's `str.strip()` with no argument, on strings of Unicode scalar values.
  It removes the leading and the trailing characters for which `str.isspace()`
  holds and keeps everything between them.
 */
module PyStr {

  /** The characters `str.isspace()` accepts: TAB through CR, the separators
      FS, GS, RS and US, SPACE, NEXT LINE, NO-BREAK SPACE, OGHAM SPACE MARK,
      EN QUAD through HAIR SPACE, LINE SEPARATOR, PARAGRAPH SEPARATOR,
      NARROW NO-BREAK SPACE, MEDIUM MATHEMATICAL SPACE and IDEOGRAPHIC SPACE. */
  predicate IsSpace(c: char) {
    || '\t' <= c <= '\r'
    || '\U{1C}' <= c <= '\U{1F}'
    || c == ' '
    || c == '\U{85}'
    || c == '\U{A0}'
    || c == '\U{1680}'
    || '\U{2000}' <= c <= '\U{200A}'
    || c == '\U{2028}'
    || c == '\U{2029}'
    || c == '\U{202F}'
    || c == '\U{205F}'
    || c == '\U{3000}'
  }

  /** The first position at or after `i` that does not hold whitespace, or
      `|s|` when there is none. */
  function SkipSpaces(s: string, i: nat): (j: nat)
    requires i <= |s|
    ensures i <= j <= |s|
    ensures forall k :: i <= k < j ==> IsSpace(s[k])
    ensures j < |s| ==> !IsSpace(s[j])
    decreases |s| - i
  {
    if i < |s| && IsSpace(s[i]) then SkipSpaces(s, i + 1) else i
  }

  /** The end of `s[lo..hi]` once its trailing whitespace is dropped. */
  function SkipSpacesBack(s: string, lo: nat, hi: nat): (j: nat)
    requires lo <= hi <= |s|
    ensures lo <= j <= hi
    ensures forall k :: j <= k < hi ==> IsSpace(s[k])
    ensures j > lo ==> !IsSpace(s[j - 1])
    decreases hi - lo
  {
    if hi > lo && IsSpace(s[hi - 1]) then SkipSpacesBack(s, lo, hi - 1) else hi
  }

  /** Where `s.strip()` starts and ends in `s`: whitespace before the start
      and from the end on, and a kept part that neither starts nor ends
      with whitespace. */
  function StripBounds(s: string): (b: (nat, nat))
    ensures b.0 <= b.1 <= |s|
    ensures forall k :: 0 <= k < b.0 ==> IsSpace(s[k])
    ensures forall k :: b.1 <= k < |s| ==> IsSpace(s[k])
    ensures b.0 < b.1 ==> !IsSpace(s[b.0]) && !IsSpace(s[b.1 - 1])
  {
    var lo := SkipSpaces(s, 0);
    var hi := SkipSpacesBack(s, lo, |s|);
    (lo, hi)
  }

  /** `r` is the part of `s` that starts at `lo`, with only whitespace
      before it and only whitespace after it. */
  predicate KeptBetweenSpaces(s: string, lo: nat, r: string) {
    && lo + |r| <= |s|
    && r == s[lo..lo + |r|]
    && (forall k :: 0 <= k < lo ==> IsSpace(s[k]))
    && (forall k :: lo + |r| <= k < |s| ==> IsSpace(s[k]))
  }

  /** `s.strip()`: a slice of `s` with only whitespace around it, which itself
      neither starts nor ends with whitespace. These two facts determine the
      result. */
  function Strip(s: string): (r: string)
    ensures exists lo: nat :: KeptBetweenSpaces(s, lo, r)
    ensures r != [] ==> !IsSpace(r[0]) && !IsSpace(r[|r| - 1])
  {
    var b := StripBounds(s);
    assert KeptBetweenSpaces(s, b.0, s[b.0..b.1]);
    s[b.0..b.1]
  }

  /** Nothing but whitespace (the empty string included). */
  predicate IsBlank(s: string) {
    forall i :: 0 <= i < |s| ==> IsSpace(s[i])
  }

  /** `s.strip()` is empty exactly when `s` is blank. */
  lemma StripEmptyIffBlank(s: string)
    ensures Strip(s) == [] <==> IsBlank(s)
  {
    var r := Strip(s);
    var lo: nat :| KeptBetweenSpaces(s, lo, r);
    if r != [] {
      assert r[0] == s[lo];
    }
  }
}
