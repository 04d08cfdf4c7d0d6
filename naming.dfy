/**
 * How the fetcher names a saved image: the file name taken from the URL
 * path, and the search for the first name not yet present in the output
 * directory (`name`, then `stem_1.ext`, `stem_2.ext`, ...).
 */
module Naming {
  import opened PathNames
  import opened Decimal

  /** The name used when the URL path has no last segment. */
  const DefaultFileName: string := "downloaded_image.jpg"

  /**
   * `get_filename_from_url`, given the path component of the URL: the last
   * segment of the path, or the default name when that segment is empty
   * (the path is empty or ends in '/'). Never empty, never holds a '/'.
   */
  function FileNameFromUrl(urlPath: string): (name: string)
    ensures name != [] && '/' !in name
    ensures urlPath == [] || urlPath[|urlPath| - 1] == '/' ==> name == DefaultFileName
    ensures urlPath != [] && urlPath[|urlPath| - 1] != '/' ==>
              && |name| <= |urlPath| && urlPath == urlPath[..|urlPath| - |name|] + name
              && (|name| < |urlPath| ==> urlPath[|urlPath| - |name| - 1] == '/')
  {
    var base := BaseName(urlPath);
    if base != [] then
      assert urlPath[|urlPath| - 1] == base[|base| - 1];
      base
    else DefaultFileName
  }

  /**
   * The directory holds `name`: `os.path.exists` on a path inside the output
   * directory. Besides the directory's entries, "." and ".." always exist,
   * and a URL path ending in "/." or "/.." does yield those names.
   */
  predicate Taken(entries: set<string>, name: string)
    ensures name in entries ==> Taken(entries, name)
    ensures Taken(entries, name) && name !in entries ==> 1 <= |name| <= 2 && name[0] == '.' && name[|name| - 1] == '.'
  {
    name in entries || name == "." || name == ".."
  }

  /**
   * The `k`-th name the collision loop tries for `filename`: the name itself
   * for `k == 0`, else the counter inserted between the stem and the
   * extension of the ORIGINAL name.
   */
  function Candidate(filename: string, k: nat): (c: string)
    ensures k == 0 ==> c == filename
    ensures k >= 1 ==> |c| > |filename| && c[|SplitExt(filename).0|] == '_'
  {
    if k == 0 then filename
    else
      var (stem, ext) := SplitExt(filename);
      stem + "_" + NatToDecimal(k) + ext
  }

  /**
   * Suffixes do not stack: a suffixed candidate splits into the original
   * stem with one `_k` added, and the original extension.
   */
  lemma CandidateSplits(filename: string, k: nat)
    requires '/' !in filename && k >= 1
    ensures SplitExt(Candidate(filename, k)) == (SplitExt(filename).0 + "_" + NatToDecimal(k), SplitExt(filename).1)
  {
    var (stem, ext) := SplitExt(filename);
    var mid := stem + "_" + NatToDecimal(k);
    NoSlashInCandidate(filename, k);
    RFindUnique(mid + ext, '/', -1);
    if ext != [] {
      SplitKeepsExtension(stem, ext, mid);
    } else {
      RFindUnique(filename, '/', -1);
      SplitKeepsNoExtension(filename, mid);
    }
  }

  lemma NoSlashInCandidate(filename: string, k: nat)
    requires '/' !in filename && k >= 1
    ensures '/' !in Candidate(filename, k)
  {
    var (stem, ext) := SplitExt(filename);
    var d := NatToDecimal(k);
    assert '/' !in stem by { assert forall i :: 0 <= i < |stem| ==> stem[i] == filename[i]; }
    assert '/' !in ext by { assert forall i :: 0 <= i < |ext| ==> ext[i] == filename[|stem| + i]; }
    assert '/' !in d by { assert forall i :: 0 <= i < |d| ==> IsDigit(d[i]); }
    assert Candidate(filename, k) == stem + "_" + d + ext;
  }

  lemma SplitKeepsExtension(stem: string, ext: string, mid: string)
    requires ext != [] && ext[0] == '.' && '.' !in ext[1..]
    requires |mid| > |stem| && mid[|stem|] == '_'
    requires RFind(mid + ext, '/') == -1
    ensures SplitExt(mid + ext) == (mid, ext)
  {
    var p := mid + ext;
    var dot := |mid|;
    forall j | dot < j < |p| ensures p[j] != '.' {
      assert p[j] == ext[1..][j - dot - 1];
    }
    assert p[|stem|] == mid[|stem|];
    SplitExtAtDot(p, dot);
    assert p[..dot] == mid;
    assert p[dot..] == ext;
  }

  lemma SplitKeepsNoExtension(filename: string, mid: string)
    requires forall b :: 0 <= b < |filename| && filename[b] == '.' ==> DotsOnly(filename, 0, b)
    requires |mid| > |filename| && mid[..|filename|] == filename && '.' !in mid[|filename|..]
    requires RFind(mid, '/') == -1
    ensures SplitExt(mid) == (mid, [])
  {
    var dot := RFind(mid, '.');
    if dot >= 0 {
      assert dot < |filename|;
      assert filename[dot] == mid[dot];
      assert DotsOnly(filename, 0, dot);
      assert forall a :: 0 <= a < dot ==> mid[a] == filename[a];
    }
  }

  /** Two different counters never give the same candidate. */
  lemma CandidatesDistinct(filename: string, i: nat, j: nat)
    requires i != j
    ensures Candidate(filename, i) != Candidate(filename, j)
  {
    var (stem, ext) := SplitExt(filename);
    if i > 0 && j > 0 {
      var ci, cj := Candidate(filename, i), Candidate(filename, j);
      if ci == cj {
        var di, dj := NatToDecimal(i), NatToDecimal(j);
        assert |di| == |dj|;
        assert ci[|stem| + 1..|ci| - |ext|] == di;
        assert cj[|stem| + 1..|cj| - |ext|] == dj;
        DecimalInjective(i, j);
      }
    }
  }

  /** Suffixed candidates contain '_', so they are never "." or "..". */
  lemma SuffixedIsNoDotEntry(filename: string, k: nat)
    requires k >= 1
    ensures Candidate(filename, k) != "." && Candidate(filename, k) != ".."
  {
    var stem := SplitExt(filename).0;
    assert Candidate(filename, k)[|stem|] == '_';
  }

  lemma {:induction false} SuffixedInEntriesBound(entries: set<string>, filename: string, lo: nat, n: nat)
    requires 1 <= lo
    requires forall j :: lo <= j < n ==> Candidate(filename, j) in entries
    ensures n <= lo + |entries|
    decreases n
  {
    if n > lo {
      var c := Candidate(filename, n - 1);
      var rest := entries - {c};
      forall j | lo <= j < n - 1 ensures Candidate(filename, j) in rest {
        CandidatesDistinct(filename, j, n - 1);
      }
      SuffixedInEntriesBound(rest, filename, lo, n - 1);
    }
  }

  /**
   * If the first `n` candidates are all taken then `n` is at most one more
   * than the number of entries: only candidate 0 can be "." or "..", the
   * others are distinct entries.
   */
  lemma TakenPrefixBound(entries: set<string>, filename: string, n: nat)
    requires forall j :: 0 <= j < n ==> Taken(entries, Candidate(filename, j))
    ensures n <= |entries| + 1
  {
    forall j | 1 <= j < n ensures Candidate(filename, j) in entries {
      SuffixedIsNoDotEntry(filename, j);
    }
    SuffixedInEntriesBound(entries, filename, 1, n);
  }

  /** The least free counter at or after `i`, given that those before `i` are taken. */
  function FirstFreeFrom(entries: set<string>, filename: string, i: nat): (k: nat)
    requires forall j :: 0 <= j < i ==> Taken(entries, Candidate(filename, j))
    ensures i <= k <= |entries| + 1
    ensures !Taken(entries, Candidate(filename, k))
    ensures forall j :: 0 <= j < k ==> Taken(entries, Candidate(filename, j))
    decreases |entries| + 1 - i
  {
    TakenPrefixBound(entries, filename, i);
    if !Taken(entries, Candidate(filename, i)) then i
    else
      TakenPrefixBound(entries, filename, i + 1);
      FirstFreeFrom(entries, filename, i + 1)
  }

  /**
   * The counter of the first candidate that is free: every earlier candidate
   * is taken, and it is found among the first |entries| + 2 candidates.
   */
  function FirstFree(entries: set<string>, filename: string): (k: nat)
    ensures k <= |entries| + 1
    ensures !Taken(entries, Candidate(filename, k))
    ensures forall j :: 0 <= j < k ==> Taken(entries, Candidate(filename, j))
  {
    FirstFreeFrom(entries, filename, 0)
  }

  /**
   * Once the first free candidate of a directory is taken, a directory that
   * has grown from it has its first free candidate further along.
   */
  lemma FirstFreeAdvances(before: set<string>, after: set<string>, filename: string)
    requires before <= after
    requires Taken(after, Candidate(filename, FirstFree(before, filename)))
    ensures FirstFree(before, filename) < FirstFree(after, filename)
  {
    var k := FirstFree(before, filename);
    forall j | 0 <= j <= k
      ensures Taken(after, Candidate(filename, j))
    {
      if j < k {
        assert Taken(before, Candidate(filename, j));
      }
    }
  }

  /**
   * The collision loop of `fetch_image`: starting from `filename`, try
   * `stem_1.ext`, `stem_2.ext`, ... while the name exists in the directory.
   * It stops at the first free candidate.
   */
  method ResolveCollision(entries: set<string>, filename: string) returns (name: string)
    ensures !Taken(entries, name)
    ensures name == Candidate(filename, FirstFree(entries, filename))
  {
    ghost var first := FirstFree(entries, filename);
    name := filename;
    var counter: nat := 1;
    while Taken(entries, name)
      invariant 1 <= counter <= first + 1
      invariant name == Candidate(filename, counter - 1)
      invariant forall j :: 0 <= j < counter - 1 ==> Taken(entries, Candidate(filename, j))
      decreases first + 1 - counter
    {
      assert counter - 1 != first;
      var parts := SplitExt(filename);
      name := parts.0 + "_" + NatToDecimal(counter) + parts.1;
      assert name == Candidate(filename, counter);
      counter := counter + 1;
    }
  }
}
