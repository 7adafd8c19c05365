/**
 * The few Python string operations the core relies on, over `string` (= seq<char>):
 * `str.isspace` on one character, `str.strip()`, `str.startswith`, and the character
 * classes of the version pattern `v[\d\.]+`.
 */
module Strings {

  /** Python's `str.isspace` for one character: Unicode White_Space-like characters
      (bidirectional class WS, B or S, or general category Zs). */
  predicate IsSpace(c: char) {
    ('\t' <= c <= '\r') || ('\U{1C}' <= c <= '\U{1F}') || c == ' ' || c == '\U{85}' || c == '\U{A0}'
    || c == '\U{1680}' || ('\U{2000}' <= c <= '\U{200A}') || c == '\U{2028}' || c == '\U{2029}'
    || c == '\U{202F}' || c == '\U{205F}' || c == '\U{3000}'
  }

  /** `str.lstrip()`: drop leading whitespace. */
  function TrimLeft(s: string): string {
    if s != [] && IsSpace(s[0]) then TrimLeft(s[1..]) else s
  }

  /** `str.rstrip()`: drop trailing whitespace. */
  function TrimRight(s: string): string {
    if s != [] && IsSpace(s[|s| - 1]) then TrimRight(s[..|s| - 1]) else s
  }

  /** `str.strip()`. */
  function Strip(s: string): string {
    TrimRight(TrimLeft(s))
  }

  /** `str.startswith(p)`. */
  predicate StartsWith(s: string, p: string) {
    |p| <= |s| && s[..|p|] == p
  }

  /** `str.endswith(p)`. */
  predicate EndsWith(s: string, p: string) {
    |p| <= |s| && s[|s| - |p|..] == p
  }

  /** `lstrip` keeps a suffix, drops only whitespace, and leaves no leading whitespace. */
  lemma {:induction false} TrimLeftDrops(s: string)
    ensures |TrimLeft(s)| <= |s| && TrimLeft(s) == s[|s| - |TrimLeft(s)|..]
    ensures forall k :: 0 <= k < |s| - |TrimLeft(s)| ==> IsSpace(s[k])
    ensures TrimLeft(s) == [] || !IsSpace(TrimLeft(s)[0])
    decreases |s|
  {
    if s != [] && IsSpace(s[0]) {
      TrimLeftDrops(s[1..]);
    }
  }

  /** `rstrip` keeps a prefix, drops only whitespace, and leaves no trailing whitespace. */
  lemma {:induction false} TrimRightDrops(s: string)
    ensures |TrimRight(s)| <= |s| && TrimRight(s) == s[..|TrimRight(s)|]
    ensures forall k :: |TrimRight(s)| <= k < |s| ==> IsSpace(s[k])
    ensures TrimRight(s) == [] || !IsSpace(TrimRight(s)[|TrimRight(s)| - 1])
    decreases |s|
  {
    if s != [] && IsSpace(s[|s| - 1]) {
      TrimRightDrops(s[..|s| - 1]);
    }
  }

  /** A prefix `r` of the suffix `t` of `s` that starts at `l` is the slice of `s` from `l`. */
  lemma SliceOfSuffix<T>(s: seq<T>, l: int, t: seq<T>, r: seq<T>)
    requires 0 <= l <= |s| && t == s[l..] && |r| <= |t| && r == t[..|r|]
    ensures l + |r| <= |s| && r == s[l..l + |r|]
    ensures forall k :: l + |r| <= k < |s| ==> s[k] == t[k - l]
    ensures r != [] ==> r[0] == t[0]
  {
    assert s[l..][..|r|] == s[l..l + |r|];
  }

  /** `strip` keeps a slice of `s` that neither begins nor ends with whitespace, and drops
      only whitespace on either side of it. */
  lemma StripTrims(s: string)
    ensures var l := |s| - |TrimLeft(s)|; var r := Strip(s);
      0 <= l && l + |r| <= |s| && r == s[l..l + |r|]
      && (forall k :: 0 <= k < l ==> IsSpace(s[k]))
      && (forall k :: l + |r| <= k < |s| ==> IsSpace(s[k]))
      && (r == [] || (!IsSpace(r[0]) && !IsSpace(r[|r| - 1])))
  {
    var t := TrimLeft(s);
    TrimLeftDrops(s);
    TrimRightDrops(t);
    SliceOfSuffix(s, |s| - |t|, t, TrimRight(t));
  }

  /** A stripped line keeps a prefix that begins and ends with non-whitespace characters. */
  lemma StripKeepsPrefix(p: string, t: string)
    requires |p| > 0 && !IsSpace(p[0]) && !IsSpace(p[|p| - 1])
    ensures StartsWith(Strip(p + t), p)
  {
    var s := p + t;
    assert TrimLeft(s) == s;
    var r := TrimRight(s);
    TrimRightDrops(s);
    assert !IsSpace(s[|p| - 1]);
    assert |r| >= |p|;
    assert r[..|p|] == s[..|p|];
    assert s[..|p|] == p;
  }

  /** A character of a version token after the leading `v`: `\d` (ASCII digits) or `.`. */
  predicate IsDigitOrDot(c: char) {
    ('0' <= c <= '9') || c == '.'
  }

  /** `[\d\.]*`: every character is a digit or a dot. */
  predicate DigitsOrDots(s: string) {
    s == [] || (IsDigitOrDot(s[0]) && DigitsOrDots(s[1..]))
  }

  /** A full match of `v[\d\.]+`. */
  predicate IsVersion(x: string) {
    |x| >= 2 && x[0] == 'v' && DigitsOrDots(x[1..])
  }

  lemma {:induction false} DigitsOrDotsAt(s: string, i: nat)
    requires DigitsOrDots(s) && i < |s|
    ensures IsDigitOrDot(s[i])
  {
    if i > 0 {
      DigitsOrDotsAt(s[1..], i - 1);
    }
  }

  /** No version token contains an underscore: `_to_` is an unambiguous separator. */
  lemma VersionHasNoUnderscore(x: string, i: nat)
    requires IsVersion(x) && i < |x|
    ensures x[i] != '_'
  {
    if i > 0 {
      DigitsOrDotsAt(x[1..], i - 1);
    }
  }
}
