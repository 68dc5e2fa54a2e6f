/**
 * The file-name helpers the image filter relies on: ASCII lower-casing and
 * the POSIX flavour of `os.path.splitext`, where the extension runs from the
 * last dot of the last path component to the end of the name, and leading
 * dots of that component do not start an extension (".png" has none).
 */
module Paths {

  const Sep: char := '/'
  const ExtSep: char := '.'

  /** Lower-cases one ASCII upper-case letter; every other character is kept. */
  function LowerChar(c: char): char
  {
    if 'A' <= c <= 'Z' then (c as int + 32) as char else c
  }

  /** `s.lower()` restricted to ASCII. */
  function Lower(s: string): (r: string)
    ensures |r| == |s|
    ensures forall i :: 0 <= i < |s| ==> r[i] == LowerChar(s[i])
  {
    seq(|s|, i requires 0 <= i < |s| => LowerChar(s[i]))
  }

  /** Lower-casing never creates or removes the separator characters. */
  lemma LowerCharKeepsSeparators(c: char)
    ensures LowerChar(c) == ExtSep <==> c == ExtSep
    ensures LowerChar(c) == Sep <==> c == Sep
  {
  }

  /** `s.rfind(c)`: the index of the last `c` in `s`, or -1 when there is none. */
  function RFind(s: string, c: char): (r: int)
    ensures -1 <= r < |s|
    ensures 0 <= r ==> s[r] == c
    ensures forall j :: r < j < |s| ==> s[j] != c
  {
    if |s| == 0 then -1
    else if s[|s| - 1] == c then |s| - 1
    else RFind(s[..|s| - 1], c)
  }

  /** Some character of `p[lo..hi]` is not a dot. */
  predicate HasNonDot(p: string, lo: int, hi: int)
    requires 0 <= lo && hi <= |p|
  {
    exists i :: lo <= i < hi && p[i] != ExtSep
  }

  /**
   * Declarative reading of "the extension of `p` starts at index `d`":
   * `p[d]` is a dot, no dot or separator follows it, and the last path
   * component holds a character before `d` that is not a dot.
   */
  ghost predicate IsExtensionAt(p: string, d: int)
  {
    && 0 <= d < |p|
    && p[d] == ExtSep
    && (forall j :: d < j < |p| ==> p[j] != ExtSep && p[j] != Sep)
    && NonDotBefore(p, d)
  }

  /** Within the last path component, some character before `d` is not a dot. */
  ghost predicate NonDotBefore(p: string, d: int)
    requires 0 <= d <= |p|
  {
    exists i :: 0 <= i < d && p[i] != ExtSep && NoSepIn(p, i, d)
  }

  ghost predicate NoSepIn(p: string, lo: int, hi: int)
    requires 0 <= lo <= hi <= |p|
  {
    forall j :: lo <= j < hi ==> p[j] != Sep
  }

  /** An extension, if any, starts at one place only: the last dot. */
  lemma ExtensionPositionUnique(p: string, d: int, d': int)
    requires IsExtensionAt(p, d) && IsExtensionAt(p, d')
    ensures d == d'
  {
  }

  /** A qualifying position is the last dot, after the last separator, with a non-dot between them. */
  lemma ExtensionIsAtLastDot(p: string, d: int)
    ensures IsExtensionAt(p, d) ==>
      && RFind(p, ExtSep) == d
      && RFind(p, Sep) < d
      && HasNonDot(p, RFind(p, Sep) + 1, d)
  {
    if IsExtensionAt(p, d) {
      var i :| 0 <= i < d && p[i] != ExtSep && NoSepIn(p, i, d);
      assert RFind(p, Sep) < i;
    }
  }

  /**
   * `os.path.splitext(p)`: a root and an extension that concatenate to `p`.
   * The extension is empty exactly when no position qualifies as the start
   * of one, and otherwise starts at that (unique) position.
   */
  function SplitExt(p: string): (r: (string, string))
    ensures r.0 + r.1 == p
    ensures r.1 != [] ==> IsExtensionAt(p, |r.0|)
    ensures r.1 == [] ==> forall d :: !IsExtensionAt(p, d)
  {
    var sepIndex := RFind(p, Sep);
    var dotIndex := RFind(p, ExtSep);
    if dotIndex > sepIndex && HasNonDot(p, sepIndex + 1, dotIndex) then
      var i :| sepIndex + 1 <= i < dotIndex && p[i] != ExtSep;
      assert NoSepIn(p, i, dotIndex);
      assert p[..dotIndex] + p[dotIndex..] == p;
      (p[..dotIndex], p[dotIndex..])
    else
      forall d
        ensures IsExtensionAt(p, d) ==> dotIndex > sepIndex && HasNonDot(p, sepIndex + 1, dotIndex)
      {
        ExtensionIsAtLastDot(p, d);
      }
      assert p + [] == p;
      (p, [])
  }

  /** The extension part of `os.path.splitext(p)`. */
  function Ext(p: string): string
  {
    SplitExt(p).1
  }
}
