/**
 * Patch file names as catalog edges. A name `<from>_to_<to>.patch` is an edge between
 * two versions; each planner asks, for its current version `cur`, whether a name is an
 * edge touching `cur` and, if so, which version is at its other end.
 */
module Catalog {
  import opened Wrappers
  import opened Strings

  /** Which way an edge is followed and its patch applied: Forward steps from `<from>`
      to `<to>` (upgrade, plain `git apply`); Reverse steps from `<to>` back to `<from>`
      (downgrade, `git apply --reverse`). */
  datatype Direction = Forward | Reverse

  const Separator: string := "_to_"
  const Suffix: string := ".patch"

  /** The file name of the edge between the current version `cur` and the version `x`
      at its other end. */
  function EdgeName(d: Direction, cur: string, x: string): string {
    match d
    case Forward => cur + Separator + x + Suffix
    case Reverse => x + Separator + cur + Suffix
  }

  /** What Python's `$` treats as the end of the subject: it also matches just before
      one final newline. */
  function DropFinalNewline(name: string): string {
    if |name| > 0 && name[|name| - 1] == '\n' then name[..|name| - 1] else name
  }

  /** The match of the pattern against the whole of `name`. */
  function EdgeExact(d: Direction, cur: string, name: string): (r: Option<string>)
    ensures r.Some? ==> IsVersion(r.value) && name == EdgeName(d, cur, r.value)
  {
    match d
    case Forward =>
      var pre := cur + Separator;
      if |name| >= |pre| + |Suffix| && name[..|pre|] == pre && name[|name| - |Suffix|..] == Suffix
         && IsVersion(name[|pre|..|name| - |Suffix|])
      then
        assert name == pre + name[|pre|..|name| - |Suffix|] + Suffix;
        Some(name[|pre|..|name| - |Suffix|])
      else None
    case Reverse =>
      var post := Separator + cur + Suffix;
      if |name| >= |post| && name[|name| - |post|..] == post && IsVersion(name[..|name| - |post|])
      then
        assert name == name[..|name| - |post|] + post;
        Some(name[..|name| - |post|])
      else None
  }

  /**
   * `re.match(rf"{re.escape(cur)}_to_(v[\d\.]+)\.patch$", name)` for Forward (upgrade.py:30)
   * and `re.match(rf"(v[\d\.]+)_to_{re.escape(cur)}\.patch$", name)` for Reverse
   * (downgrade.py:67). Some(x) carries the captured group; a match means `name` is the
   * edge name for `x`, possibly followed by the one newline that `$` lets through.
   */
  function Edge(d: Direction, cur: string, name: string): (r: Option<string>)
    ensures r.Some? ==>
      IsVersion(r.value) && (name == EdgeName(d, cur, r.value) || name == EdgeName(d, cur, r.value) + "\n")
  {
    var core := DropFinalNewline(name);
    var r := EdgeExact(d, cur, core);
    assert r.Some? ==> name == core || name == core + "\n";
    r
  }

  /** The converse of `Edge`'s contract: every edge name, with or without the final
      newline, is matched and yields its version back. */
  lemma EdgeRoundTrip(d: Direction, cur: string, x: string)
    requires IsVersion(x)
    ensures Edge(d, cur, EdgeName(d, cur, x)) == Some(x)
    ensures Edge(d, cur, EdgeName(d, cur, x) + "\n") == Some(x)
  {
    var n := EdgeName(d, cur, x);
    assert n[|n| - 1] == 'h';
    assert DropFinalNewline(n + "\n") == n;
    match d
    case Forward =>
      var pre := cur + Separator;
      assert n == pre + x + Suffix;
      assert n[..|pre|] == pre;
      assert n[|n| - |Suffix|..] == Suffix;
      assert n[|pre|..|n| - |Suffix|] == x;
    case Reverse =>
      var post := Separator + cur + Suffix;
      assert n == x + post;
      assert n[|n| - |post|..] == post;
      assert n[..|n| - |post|] == x;
  }

  /** A name ending in `.patch` (the only names the listing keeps, upgrade.py:22 and
      downgrade.py:53) matches only as the exact edge name. */
  lemma EdgeOfPatchName(d: Direction, cur: string, name: string)
    requires Edge(d, cur, name).Some? && EndsWith(name, Suffix)
    ensures name == EdgeName(d, cur, Edge(d, cur, name).value)
  {
    assert name[|name| - 1] == 'h';
  }

  /** One name never yields two different versions, whatever the current version: the
      captured part has no `_`, so the separator `_to_` cannot move. */
  lemma EdgeInjective(d: Direction, a: string, b: string, name: string)
    requires Edge(d, a, name).Some? && Edge(d, b, name).Some?
    ensures Edge(d, a, name).value == Edge(d, b, name).value
  {
    var x, y := Edge(d, a, name).value, Edge(d, b, name).value;
    var core := DropFinalNewline(name);
    assert core == EdgeName(d, a, x) && core == EdgeName(d, b, y);
    SameSplit(d, core, a, x, b, y);
  }

  lemma SameSplit(d: Direction, core: string, a: string, x: string, b: string, y: string)
    requires IsVersion(x) && IsVersion(y)
    requires core == EdgeName(d, a, x) && core == EdgeName(d, b, y)
    ensures x == y
  {
    NoSplitInside(d, core, a, x, b, y);
    NoSplitInside(d, core, b, y, a, x);
    match d
      case Forward =>
        assert core == (a + Separator) + x + Suffix && core == (b + Separator) + y + Suffix;
        assert x == core[|core| - |Suffix| - |x|..|core| - |Suffix|] == y;
      case Reverse =>
        assert core == x + (Separator + a + Suffix) && core == y + (Separator + b + Suffix);
        assert x == core[..|x|] == y;
  }

  /** A shorter capture would put the `_` of its separator inside the longer capture. */
  lemma NoSplitInside(d: Direction, core: string, a: string, x: string, b: string, y: string)
    requires IsVersion(x) && IsVersion(y)
    requires core == EdgeName(d, a, x) && core == EdgeName(d, b, y)
    ensures |y| <= |x|
  {
    if |x| < |y| {
      match d
      case Forward =>
        var i := |core| - |Suffix| - |x| - 1;
        assert core == (a + "_to") + ("_" + x + Suffix);
        assert core[i] == '_';
        assert core == (b + Separator) + y + Suffix;
        assert core[i] == y[|y| - |x| - 1];
        VersionHasNoUnderscore(y, |y| - |x| - 1);
      case Reverse =>
        assert core == x + (Separator + a + Suffix);
        assert core[|x|] == '_';
        assert core == y + (Separator + b + Suffix);
        assert core[|x|] == y[|x|];
        VersionHasNoUnderscore(y, |x|);
    }
  }
}
