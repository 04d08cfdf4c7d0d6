/**
 * POSIX path-string helpers as Python's `posixpath` defines them:
 * `str.rfind` on one character, `os.path.basename` and `os.path.splitext`.
 */
module PathNames {

  /** Index of the last occurrence of `c` in `s`, or -1 when there is none (`s.rfind(c)`). */
  function RFind(s: string, c: char): (i: int)
    ensures -1 <= i < |s|
    ensures i >= 0 ==> s[i] == c
    ensures forall j :: i < j < |s| ==> s[j] != c
  {
    if |s| == 0 then -1
    else if s[|s| - 1] == c then |s| - 1
    else RFind(s[..|s| - 1], c)
  }

  /** The result of `RFind` is the only index that satisfies its contract. */
  lemma RFindUnique(s: string, c: char, i: int)
    requires -1 <= i < |s|
    requires i >= 0 ==> s[i] == c
    requires forall j :: i < j < |s| ==> s[j] != c
    ensures RFind(s, c) == i
  {
  }

  /** `os.path.basename(p)`: everything after the last '/'. */
  function BaseName(p: string): (r: string)
    ensures '/' !in r
    ensures |r| <= |p| && p == p[..|p| - |r|] + r
    ensures |r| < |p| ==> p[|p| - |r| - 1] == '/'
  {
    var r := p[RFind(p, '/') + 1..];
    assert forall k :: 0 <= k < |r| ==> r[k] != '/';
    r
  }

  /** Every character of `p[lo..hi]` is a dot. */
  predicate DotsOnly(p: string, lo: int, hi: int) {
    0 <= lo <= hi <= |p| && forall a :: lo <= a < hi ==> p[a] == '.'
  }

  /**
   * `os.path.splitext(p)`: the split is at the last '.' of the last path
   * component, unless every character of that component before the dot is
   * itself a dot (leading dots do not start an extension, so ".bashrc" and
   * ".." have none). Without a split the extension is empty.
   */
  function SplitExt(p: string): (r: (string, string))
    ensures r.0 + r.1 == p
    ensures r.1 != [] ==>
              && r.1[0] == '.' && '.' !in r.1[1..] && '/' !in r.1
              && !DotsOnly(p, RFind(p, '/') + 1, |r.0|)
    ensures r.1 == [] ==>
              forall b :: RFind(p, '/') < b < |p| && p[b] == '.' ==> DotsOnly(p, RFind(p, '/') + 1, b)
  {
    var sep := RFind(p, '/');
    var dot := RFind(p, '.');
    if dot > sep && !DotsOnly(p, sep + 1, dot) then
      SplitAtLastDot(p, sep, dot);
      (p[..dot], p[dot..])
    else
      (p, [])
  }

  lemma SplitAtLastDot(p: string, sep: int, dot: int)
    requires sep == RFind(p, '/') && dot == RFind(p, '.') && dot > sep
    ensures p[..dot] + p[dot..] == p
    ensures p[dot..][0] == '.' && '.' !in p[dot..][1..] && '/' !in p[dot..]
  {
    var e := p[dot..];
    assert forall k :: 0 <= k < |e| ==> e[k] != '/';
    assert forall k :: 0 <= k < |e[1..]| ==> e[1..][k] != '.';
  }

  /** A cut at a '.' of the last segment that is its last '.' and follows something other than dots only. */
  lemma SplitExtAtDot(p: string, dot: int)
    requires RFind(p, '/') < dot < |p| && p[dot] == '.'
    requires forall j :: dot < j < |p| ==> p[j] != '.'
    requires !DotsOnly(p, RFind(p, '/') + 1, dot)
    ensures SplitExt(p) == (p[..dot], p[dot..])
  {
    RFindUnique(p, '.', dot);
  }
}
