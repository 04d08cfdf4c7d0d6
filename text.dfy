/**
 * The Python `str` operations the script relies on: the substring test
 * `t in s`, `s.split(sep)` with a one-character separator (and its inverse,
 * `sep.join(parts)`), and `s.strip()` with no argument.
 */
module Text {

  /** `t` occurs in `s` starting at index `i`. */
  predicate OccursAt(s: string, t: string, i: int) {
    0 <= i <= |s| - |t| && s[i..i + |t|] == t
  }

  /** Python's `t in s` for two strings. */
  function Contains(s: string, t: string): (b: bool)
    ensures b <==> exists i :: OccursAt(s, t, i)
    decreases |s|
  {
    if |s| < |t| then false
    else if s[..|t|] == t then (assert OccursAt(s, t, 0); true)
    else
      var b := Contains(s[1..], t);
      assert forall i :: OccursAt(s[1..], t, i) <==> OccursAt(s, t, i + 1) by {
        forall i ensures OccursAt(s[1..], t, i) <==> OccursAt(s, t, i + 1) {
          if 0 <= i <= |s| - 1 - |t| {
            assert s[1..][i..i + |t|] == s[i + 1..i + 1 + |t|];
          }
        }
      }
      assert !OccursAt(s, t, 0);
      assert b ==> exists i :: OccursAt(s, t, i) by {
        if b {
          var i :| OccursAt(s[1..], t, i);
          assert OccursAt(s, t, i + 1);
        }
      }
      assert (exists i :: OccursAt(s, t, i)) ==> b by {
        if exists i :: OccursAt(s, t, i) {
          var i :| OccursAt(s, t, i);
          assert OccursAt(s[1..], t, i - 1);
        }
      }
      b
  }

  /** `sep.join(parts)`. */
  function Join(parts: seq<string>, sep: char): string
    requires |parts| >= 1
  {
    if |parts| == 1 then parts[0] else parts[0] + [sep] + Join(parts[1..], sep)
  }

  /**
   * `s.split(sep)` for a one-character `sep`: the maximal pieces between
   * separators, empty pieces included, so there is always one more piece
   * than there are separators. Joining the pieces gives `s` back.
   */
  function Split(s: string, sep: char): (parts: seq<string>)
    ensures |parts| >= 1
    ensures forall i :: 0 <= i < |parts| ==> sep !in parts[i]
    ensures Join(parts, sep) == s
  {
    if s == [] then [[]]
    else
      var rest := Split(s[1..], sep);
      if s[0] == sep then
        [[]] + rest
      else
        var parts := [[s[0]] + rest[0]] + rest[1..];
        assert parts[1..] == rest[1..];
        parts
  }

  /** Splitting is also the inverse of joining: separator-free pieces come back unchanged. */
  lemma {:induction false} SplitJoin(parts: seq<string>, sep: char)
    requires |parts| >= 1
    requires forall i :: 0 <= i < |parts| ==> sep !in parts[i]
    ensures Split(Join(parts, sep), sep) == parts
    decreases |Join(parts, sep)|
  {
    var s := Join(parts, sep);
    if parts[0] == [] {
      if |parts| > 1 {
        assert s == [sep] + Join(parts[1..], sep);
        assert s[1..] == Join(parts[1..], sep);
        SplitJoin(parts[1..], sep);
        assert parts == [[]] + parts[1..];
      }
    } else {
      var c := parts[0][0];
      var tail := [parts[0][1..]] + parts[1..];
      assert c != sep by { assert parts[0][0] in parts[0]; }
      assert forall i :: 0 <= i < |tail| ==> sep !in tail[i] by {
        forall i | 0 <= i < |tail| ensures sep !in tail[i] {
          if i == 0 {
            assert forall x :: x in parts[0][1..] ==> x in parts[0];
          } else {
            assert tail[i] == parts[i];
          }
        }
      }
      assert tail[1..] == parts[1..];
      if |parts| == 1 {
        assert Join(tail, sep) == parts[0][1..];
      } else {
        assert Join(tail, sep) == parts[0][1..] + [sep] + Join(parts[1..], sep);
      }
      assert s == [c] + Join(tail, sep);
      assert s[1..] == Join(tail, sep);
      SplitJoin(tail, sep);
      assert parts[0] == [c] + parts[0][1..];
      assert parts == [[c] + tail[0]] + tail[1..];
    }
  }

  /** Python's `str.isspace` on one character: the ASCII and Unicode whitespace characters. */
  predicate IsSpace(c: char)
    ensures c == ' ' || '\t' <= c <= '\r' ==> IsSpace(c)
    ensures IsSpace(c) ==> c != ','
  {
    var n := c as int;
    (0x09 <= n <= 0x0D) || (0x1C <= n <= 0x20) || n == 0x85 || n == 0xA0 || n == 0x1680
    || (0x2000 <= n <= 0x200A) || n == 0x2028 || n == 0x2029 || n == 0x202F || n == 0x205F || n == 0x3000
  }

  /** Every character of `s[lo..hi]` is whitespace. */
  predicate SpaceBetween(s: string, lo: int, hi: int) {
    0 <= lo <= hi <= |s| && forall k :: lo <= k < hi ==> IsSpace(s[k])
  }

  predicate AllSpace(s: string) {
    SpaceBetween(s, 0, |s|)
  }

  /** `r` is `s[a..]` up to a whitespace run, after the whitespace run `s[..a]`. */
  predicate FramedBySpace(s: string, r: string, a: int) {
    0 <= a <= |s| - |r| && s[a..a + |r|] == r && SpaceBetween(s, 0, a) && SpaceBetween(s, a + |r|, |s|)
  }

  function LStrip(s: string): (r: string)
    ensures |r| <= |s| && r == s[|s| - |r|..] && SpaceBetween(s, 0, |s| - |r|)
    ensures r == [] || !IsSpace(r[0])
  {
    if s != [] && IsSpace(s[0]) then
      var r := LStrip(s[1..]);
      assert forall k :: 1 <= k < |s| - |r| ==> s[k] == s[1..][k - 1];
      r
    else s
  }

  function RStrip(s: string): (r: string)
    ensures |r| <= |s| && r == s[..|r|] && SpaceBetween(s, |r|, |s|)
    ensures r == [] || !IsSpace(r[|r| - 1])
  {
    if s != [] && IsSpace(s[|s| - 1]) then
      var r := RStrip(s[..|s| - 1]);
      assert forall k :: |r| <= k < |s| - 1 ==> s[k] == s[..|s| - 1][k];
      r
    else s
  }

  /**
   * `s.strip()`: `s` without its leading and trailing whitespace. The result
   * is a whitespace-framed infix of `s` that neither starts nor ends with
   * whitespace; it is empty exactly when `s` is all whitespace.
   */
  function Strip(s: string): (r: string)
    ensures exists a :: FramedBySpace(s, r, a)
    ensures r == [] || (!IsSpace(r[0]) && !IsSpace(r[|r| - 1]))
    ensures r == [] <==> AllSpace(s)
  {
    var l := LStrip(s);
    var r := RStrip(l);
    var a := |s| - |l|;
    StripFrames(s, l, r, a);
    r
  }

  lemma StripFrames(s: string, l: string, r: string, a: int)
    requires |l| <= |s| && l == s[|s| - |l|..] && SpaceBetween(s, 0, |s| - |l|)
    requires |r| <= |l| && r == l[..|r|] && SpaceBetween(l, |r|, |l|)
    requires r == [] || !IsSpace(r[0])
    requires a == |s| - |l|
    ensures FramedBySpace(s, r, a)
    ensures r == [] <==> AllSpace(s)
  {
    assert s[a..a + |r|] == r;
    assert forall k :: a + |r| <= k < |s| ==> s[k] == l[k - a];
    if r != [] {
      assert s[a] == r[0];
    }
  }
}
