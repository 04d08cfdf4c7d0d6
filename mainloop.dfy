/**
 * The loop of `main`: the typed line is split on commas, each piece is
 * stripped, empty pieces are skipped, and the remaining URLs are fetched in
 * order with one hash set shared by the whole run.
 */
module MainLoop {
  import opened Text
  import opened Naming
  import opened Fetching

  /** A URL that `main` fetches: not empty, and no whitespace at either end. */
  predicate Trimmed(url: string) {
    url != [] && !IsSpace(url[0]) && !IsSpace(url[|url| - 1])
  }

  /** `map(str.strip, pieces)` without the empty strings, in order. */
  function Urls(pieces: seq<string>): (urls: seq<string>)
    ensures |urls| <= |pieces|
    ensures forall k :: 0 <= k < |urls| ==> Trimmed(urls[k])
  {
    if pieces == [] then []
    else
      var init := Urls(pieces[..|pieces| - 1]);
      var u := Strip(pieces[|pieces| - 1]);
      if u == [] then init
      else
        StripTrimmed(pieces[|pieces| - 1]);
        TrimmedSnoc(init, u);
        init + [u]
  }

  /** A non-blank piece, stripped, is a trimmed URL. */
  lemma StripTrimmed(piece: string)
    requires Strip(piece) != []
    ensures Trimmed(Strip(piece))
  {
  }

  /** A trimmed URL can follow a list of trimmed URLs. */
  lemma TrimmedSnoc(init: seq<string>, u: string)
    requires forall k :: 0 <= k < |init| ==> Trimmed(init[k])
    requires Trimmed(u)
    ensures forall k :: 0 <= k < |init + [u]| ==> Trimmed((init + [u])[k])
  {
  }

  /** One more piece adds its stripped text, unless that is empty. */
  lemma UrlsNextPiece(pieces: seq<string>, k: nat)
    requires k < |pieces|
    ensures Strip(pieces[k]) == [] ==> Urls(pieces[..k + 1]) == Urls(pieces[..k])
    ensures Strip(pieces[k]) != [] ==> Urls(pieces[..k + 1]) == Urls(pieces[..k]) + [Strip(pieces[k])]
  {
    assert pieces[..k + 1][..k] == pieces[..k];
  }

  /** The URLs `main` hands to `fetch_image`, from the line typed at the prompt. */
  function ParseUrls(input: string): (urls: seq<string>)
    ensures forall k :: 0 <= k < |urls| ==> Trimmed(urls[k]) && ',' !in urls[k]
  {
    var pieces := Split(input, ',');
    UrlsHaveNoComma(pieces);
    Urls(pieces)
  }

  /** One more piece at the end adds its stripped text, unless that is empty. */
  lemma UrlsSnoc(init: seq<string>, last: string)
    ensures Urls(init + [last]) == Urls(init) + (if Strip(last) == [] then [] else [Strip(last)])
  {
    assert (init + [last])[..|init|] == init;
  }

  /** Concatenation is associative. */
  lemma AppendAssoc(x: seq<string>, y: seq<string>, z: seq<string>)
    ensures x + (y + z) == (x + y) + z
  {
  }

  lemma UrlsAppendSnoc(a: seq<string>, init: seq<string>, last: string)
    requires Urls(a + init) == Urls(a) + Urls(init)
    ensures Urls(a + (init + [last])) == Urls(a) + Urls(init + [last])
  {
    var tail := if Strip(last) == [] then [] else [Strip(last)];
    AppendAssoc(a, init, [last]);
    UrlsSnoc(a + init, last);
    UrlsSnoc(init, last);
    AppendAssoc(Urls(a), Urls(init), tail);
  }

  /** A non-empty sequence is its front followed by its last element. */
  lemma FrontLast(b: seq<string>)
    requires b != []
    ensures b[..|b| - 1] + [b[|b| - 1]] == b
  {
  }

  /** Stripping and skipping keep the order of the pieces: the URLs of a concatenation are the concatenation of the URLs. */
  lemma {:induction false} UrlsAppend(a: seq<string>, b: seq<string>)
    ensures Urls(a + b) == Urls(a) + Urls(b)
    decreases |b|
  {
    if b != [] {
      var init, last := b[..|b| - 1], b[|b| - 1];
      FrontLast(b);
      UrlsAppend(a, init);
      UrlsAppendSnoc(a, init, last);
    } else {
      assert a + b == a;
    }
  }

  /** Every piece is empty or whitespace. */
  predicate AllBlank(pieces: seq<string>) {
    forall k :: 0 <= k < |pieces| ==> AllSpace(pieces[k])
  }

  lemma AllBlankSnoc(pieces: seq<string>)
    requires pieces != []
    ensures AllBlank(pieces) <==> AllBlank(pieces[..|pieces| - 1]) && AllSpace(pieces[|pieces| - 1])
  {
    var init := pieces[..|pieces| - 1];
    assert forall k :: 0 <= k < |init| ==> init[k] == pieces[k];
  }

  /** Nothing is fetched exactly when every piece is empty or whitespace. */
  lemma {:induction false} UrlsEmptyIff(pieces: seq<string>)
    ensures Urls(pieces) == [] <==> AllBlank(pieces)
    decreases |pieces|
  {
    if pieces != [] {
      UrlsEmptyIff(pieces[..|pieces| - 1]);
      AllBlankSnoc(pieces);
    }
  }

  /** The characters of a stripped string all come from the string. */
  lemma StripKeepsOnlyItsChars(s: string, c: char)
    requires c !in s
    ensures c !in Strip(s)
  {
    var u := Strip(s);
    var a :| FramedBySpace(s, u, a);
    assert forall j :: 0 <= j < |u| ==> u[j] == s[a + j];
  }

  /** A URL holds no comma, since no piece of a split on commas holds one. */
  lemma {:induction false} UrlsHaveNoComma(pieces: seq<string>)
    requires forall k :: 0 <= k < |pieces| ==> ',' !in pieces[k]
    ensures forall k :: 0 <= k < |Urls(pieces)| ==> ',' !in Urls(pieces)[k]
    decreases |pieces|
  {
    if pieces != [] {
      var init, last := pieces[..|pieces| - 1], pieces[|pieces| - 1];
      UrlsHaveNoComma(init);
      StripKeepsOnlyItsChars(last, ',');
    }
  }

  /** What one URL does to the state, as a value: `fetch_image` against the world `w`. */
  function FetchStep(w: World): (State, string, nat) -> (State, Outcome) {
    (st: State, url: string, i: nat) => Fetch(st, url, w, i)
  }

  /**
   * The loop over the URLs with one shared state, for any step: the state
   * after the last URL and each URL's outcome, in order; the k-th URL is
   * the k-th request.
   */
  function Run(st: State, urls: seq<string>, step: (State, string, nat) -> (State, Outcome)): (r: (State, seq<Outcome>))
    ensures |r.1| == |urls|
  {
    if urls == [] then (st, [])
    else
      var (mid, outs) := Run(st, urls[..|urls| - 1], step);
      var (next, out) := step(mid, urls[|urls| - 1], |urls| - 1);
      (next, outs + [out])
  }

  /** One more URL is one more step after the run of the earlier ones. */
  lemma RunSnoc(st: State, urls: seq<string>, url: string, step: (State, string, nat) -> (State, Outcome))
    ensures var (mid, outs) := Run(st, urls, step);
      Run(st, urls + [url], step) == (step(mid, url, |urls|).0, outs + [step(mid, url, |urls|).1])
  {
    assert (urls + [url])[..|urls|] == urls;
  }

  /** The loop of `main` one piece further, when the piece is not blank: one more fetch. */
  lemma RunNextUrl(st: State, pieces: seq<string>, k: nat, w: World, next: State, out: Outcome)
    requires k < |pieces| && Strip(pieces[k]) != []
    requires (next, out) == FetchStep(w)(Run(st, Urls(pieces[..k]), FetchStep(w)).0, Strip(pieces[k]), |Urls(pieces[..k])|)
    ensures Run(st, Urls(pieces[..k + 1]), FetchStep(w)) == (next, Run(st, Urls(pieces[..k]), FetchStep(w)).1 + [out])
  {
    UrlsNextPiece(pieces, k);
    RunSnoc(st, Urls(pieces[..k]), Strip(pieces[k]), FetchStep(w));
  }

  /** `main`: a fresh hash set, the directory as it was, the parsed URLs and the fetcher. */
  function Main(entries: set<string>, input: string, w: World): (r: (State, seq<Outcome>))
    ensures |r.1| == |ParseUrls(input)|
    ensures entries <= r.0.entries
  {
    var urls := ParseUrls(input);
    FetchStepIsFetchLike(w);
    RunGrows(State({}, entries), urls, FetchStep(w), 0, |urls|);
    assert urls[..0] == [] && urls[..|urls|] == urls;
    Run(State({}, entries), urls, FetchStep(w))
  }

  /**
   * The loop of `main` run over every piece of the line, from a fresh hash
   * set, gives `main`'s final state and outcomes.
   */
  /** Before the first piece, nothing has been fetched. */
  lemma RunNoPieces(start: State, pieces: seq<string>, w: World)
    ensures Run(start, Urls(pieces[..0]), FetchStep(w)) == (start, [])
  {
    assert pieces[..0] == [];
  }

  lemma MainIsLoopResult(start: State, input: string, w: World, pieces: seq<string>, final: State, outcomes: seq<Outcome>)
    requires start.savedHashes == {} && pieces == Split(input, ',')
    requires (final, outcomes) == Run(start, Urls(pieces[..|pieces|]), FetchStep(w))
    ensures (final, outcomes) == Main(start.entries, input, w)
  {
    assert pieces[..|pieces|] == pieces;
    assert start == State({}, start.entries);
  }

  /** Running a prefix of the URLs gives a prefix of the outcomes. */
  lemma {:induction false} RunPrefix(st: State, urls: seq<string>, step: (State, string, nat) -> (State, Outcome), n: nat)
    requires n <= |urls|
    ensures Run(st, urls[..n], step).1 == Run(st, urls, step).1[..n]
    decreases |urls|
  {
    if n < |urls| {
      var init := urls[..|urls| - 1];
      assert init[..n] == urls[..n];
      RunPrefix(st, init, step, n);
    } else {
      assert urls[..n] == urls;
    }
  }

  /** The state before request `j` of a run. */
  function Before(st: State, urls: seq<string>, step: (State, string, nat) -> (State, Outcome), j: nat): State
    requires j <= |urls|
  {
    Run(st, urls[..j], step).0
  }

  /** Request `j` of a run is one step from the state the earlier requests left. */
  lemma RunStep(st: State, urls: seq<string>, step: (State, string, nat) -> (State, Outcome), j: nat)
    requires j < |urls|
    ensures step(Before(st, urls, step, j), urls[j], j) == (Before(st, urls, step, j + 1), Run(st, urls, step).1[j])
  {
    assert urls[..j + 1][..j] == urls[..j];
    RunPrefix(st, urls, step, j + 1);
  }

  /** A step never removes a saved hash or a directory entry. */
  ghost predicate Grows(step: (State, string, nat) -> (State, Outcome)) {
    forall st: State, url: string, i: nat ::
      st.savedHashes <= step(st, url, i).0.savedHashes && st.entries <= step(st, url, i).0.entries
  }

  /** A hash a step records was not saved before and is saved after. */
  ghost predicate RecordsNewHash(step: (State, string, nat) -> (State, Outcome)) {
    forall st: State, url: string, i: nat ::
      step(st, url, i).1.Recorded() ==>
        step(st, url, i).1.digest !in st.savedHashes && step(st, url, i).1.digest in step(st, url, i).0.savedHashes
  }

  /** The hash an outcome records, if any. */
  function Digests(out: Outcome): set<string> {
    if out.Recorded() then {out.digest} else {}
  }

  /** A hash that a step adds to the saved set is the one its outcome records. */
  ghost predicate AddsOnlyItsHash(step: (State, string, nat) -> (State, Outcome)) {
    forall st: State, url: string, i: nat ::
      step(st, url, i).0.savedHashes <= st.savedHashes + Digests(step(st, url, i).1)
  }

  /** A step records the hash of every image read in full whose hash is not saved yet. */
  ghost predicate RecordsNewContent(step: (State, string, nat) -> (State, Outcome), w: World) {
    forall st: State, url: string, i: nat, digest: string ::
      DeliversImage(w, i, url, digest) && digest !in st.savedHashes ==>
        step(st, url, i).1.Recorded() && step(st, url, i).1.digest == digest
  }

  /** A step reports as a duplicate every image read in full whose hash is already saved. */
  ghost predicate DetectsSaved(step: (State, string, nat) -> (State, Outcome), w: World) {
    forall st: State, url: string, i: nat, digest: string ::
      DeliversImage(w, i, url, digest) && digest in st.savedHashes ==> step(st, url, i).1.Duplicate?
  }

  /**
   * A step that records a hash opens its file under a name that did not
   * exist, whether or not the write then succeeds.
   */
  ghost predicate ChoosesFreeName(step: (State, string, nat) -> (State, Outcome)) {
    forall st: State, url: string, i: nat ::
      step(st, url, i).1.Recorded() ==> !Taken(st.entries, step(st, url, i).1.name)
  }

  /** A step that saves a file leaves its name in the directory. */
  ghost predicate SavedNameExists(step: (State, string, nat) -> (State, Outcome)) {
    forall st: State, url: string, i: nat ::
      step(st, url, i).1.Saved? ==> step(st, url, i).1.name in step(st, url, i).0.entries
  }

  /** A step opens its file under the first free candidate for the URL's file name, whether or not the write succeeds. */
  ghost predicate NamesFirstFree(step: (State, string, nat) -> (State, Outcome), w: World) {
    forall st: State, url: string, i: nat ::
      step(st, url, i).1.Recorded() ==>
        var f := FileNameFromUrl(w.urlPath(url));
        step(st, url, i).1.name == Candidate(f, FirstFree(st.entries, f))
  }

  /**
   * The per-URL contract of `fetch_image`, as a property of a step: it never
   * removes a saved hash or a directory entry; a recorded hash was not saved
   * before and is saved after, and no other hash is added; an image read in
   * full is recorded when its hash is new and is a duplicate when it is
   * saved; a file is opened under the first free candidate for the URL's
   * file name, which did not exist, and a saved file then exists.
   */
  ghost predicate FetchLike(step: (State, string, nat) -> (State, Outcome), w: World) {
    && Grows(step) && RecordsNewHash(step) && AddsOnlyItsHash(step)
    && RecordsNewContent(step, w) && DetectsSaved(step, w)
    && ChoosesFreeName(step) && SavedNameExists(step) && NamesFirstFree(step, w)
  }

  /** The fetcher's own step never removes a saved hash or a directory entry. */
  lemma FetchStepGrows(w: World)
    ensures Grows(FetchStep(w))
  {
    forall st: State, url: string, i: nat
      ensures st.savedHashes <= FetchStep(w)(st, url, i).0.savedHashes && st.entries <= FetchStep(w)(st, url, i).0.entries
    {
      FetchGrows(st, url, w, i);
    }
  }

  /** The fetcher's own step records only a hash that was new, and saves it. */
  lemma FetchStepRecordsNewHash(w: World)
    ensures RecordsNewHash(FetchStep(w))
  {
    forall st: State, url: string, i: nat | FetchStep(w)(st, url, i).1.Recorded()
      ensures FetchStep(w)(st, url, i).1.digest !in st.savedHashes
      ensures FetchStep(w)(st, url, i).1.digest in FetchStep(w)(st, url, i).0.savedHashes
    {
      FetchRecordsNewHash(st, url, w, i);
    }
  }

  /** The fetcher's own step adds no hash but the one it records. */
  lemma FetchStepAddsOnlyItsHash(w: World)
    ensures AddsOnlyItsHash(FetchStep(w))
  {
    forall st: State, url: string, i: nat
      ensures FetchStep(w)(st, url, i).0.savedHashes <= st.savedHashes + Digests(FetchStep(w)(st, url, i).1)
    {
      var (next, out) := Fetch(st, url, w, i);
      if out.Recorded() {
        FetchRecordsNewHash(st, url, w, i);
        assert next.savedHashes == st.savedHashes + {out.digest};
      } else {
        FetchUnchangedUnlessRecorded(st, url, w, i);
        assert next == st;
      }
    }
  }

  /** The fetcher's own step records new image content and reports saved content as a duplicate. */
  lemma FetchStepScreens(w: World)
    ensures RecordsNewContent(FetchStep(w), w) && DetectsSaved(FetchStep(w), w)
  {
    var step := FetchStep(w);
    forall st: State, url: string, i: nat, digest: string
      | DeliversImage(w, i, url, digest) && digest in st.savedHashes
      ensures step(st, url, i).1.Duplicate?
    {
      FetchFilters(st, url, w, i);
    }
    forall st: State, url: string, i: nat, digest: string
      | DeliversImage(w, i, url, digest) && digest !in st.savedHashes
      ensures step(st, url, i).1.Recorded() && step(st, url, i).1.digest == digest
    {
      FetchRecordsNewContent(st, url, w, i, digest);
    }
  }

  /**
   * The fetcher's own step opens its file under the first free candidate,
   * which did not exist, also when the write then fails; a saved file then
   * exists.
   */
  lemma FetchStepNamesFiles(w: World)
    ensures ChoosesFreeName(FetchStep(w)) && SavedNameExists(FetchStep(w)) && NamesFirstFree(FetchStep(w), w)
  {
    var step := FetchStep(w);
    forall st: State, url: string, i: nat | step(st, url, i).1.Recorded()
      ensures var f := FileNameFromUrl(w.urlPath(url));
        && step(st, url, i).1.name == Candidate(f, FirstFree(st.entries, f))
        && !Taken(st.entries, step(st, url, i).1.name)
        && (step(st, url, i).1.Saved? ==> step(st, url, i).1.name in step(st, url, i).0.entries)
    {
      FetchRecordsNewHash(st, url, w, i);
    }
  }

  /** The fetcher's own step keeps the per-URL contract. */
  lemma FetchStepIsFetchLike(w: World)
    ensures FetchLike(FetchStep(w), w)
  {
    FetchStepGrows(w);
    FetchStepRecordsNewHash(w);
    FetchStepAddsOnlyItsHash(w);
    FetchStepScreens(w);
    FetchStepNamesFiles(w);
  }

  /** With a step that grows, neither the saved hashes nor the directory shrink during a run. */
  lemma {:induction false} RunGrows(st: State, urls: seq<string>, step: (State, string, nat) -> (State, Outcome), m: nat, n: nat)
    requires Grows(step)
    requires m <= n <= |urls|
    ensures Before(st, urls, step, m).savedHashes <= Before(st, urls, step, n).savedHashes
    ensures Before(st, urls, step, m).entries <= Before(st, urls, step, n).entries
    decreases n - m
  {
    if m < n {
      RunGrows(st, urls, step, m, n - 1);
      RunStep(st, urls, step, n - 1);
    }
  }

  /**
   * Across one run, a content hash is recorded by at most one URL, and never
   * one the run started with: at most one file is saved per distinct content.
   */
  lemma EachHashRecordedOnce(st: State, urls: seq<string>, step: (State, string, nat) -> (State, Outcome), i: nat, j: nat)
    requires Grows(step) && RecordsNewHash(step)
    requires i < j < |urls|
    requires Run(st, urls, step).1[i].Recorded() && Run(st, urls, step).1[j].Recorded()
    ensures Run(st, urls, step).1[i].digest != Run(st, urls, step).1[j].digest
    ensures Run(st, urls, step).1[j].digest !in st.savedHashes
  {
    RunStep(st, urls, step, i);
    RunStep(st, urls, step, j);
    RunGrows(st, urls, step, i + 1, j);
    RunGrows(st, urls, step, 0, j);
    assert urls[..0] == [];
  }

  /**
   * Once a URL has recorded a hash, every later URL whose image has the same
   * content is reported as a duplicate.
   */
  lemma LaterCopyIsDuplicate(st: State, urls: seq<string>, step: (State, string, nat) -> (State, Outcome), w: World, i: nat, j: nat)
    requires Grows(step) && RecordsNewHash(step) && DetectsSaved(step, w)
    requires i < j < |urls|
    requires Run(st, urls, step).1[i].Recorded()
    requires DeliversImage(w, j, urls[j], Run(st, urls, step).1[i].digest)
    ensures Run(st, urls, step).1[j].Duplicate?
  {
    RunStep(st, urls, step, i);
    RunStep(st, urls, step, j);
    RunGrows(st, urls, step, i + 1, j);
  }

  /**
   * A hash saved before request `j` of a run was saved when the run started
   * or was recorded by one of the first `j` URLs.
   */
  lemma {:induction false} SavedHashHasRecorder(st: State, urls: seq<string>, step: (State, string, nat) -> (State, Outcome), j: nat, d: string)
    requires AddsOnlyItsHash(step)
    requires j <= |urls|
    requires d in Before(st, urls, step, j).savedHashes
    ensures d in st.savedHashes
      || exists i :: 0 <= i < j && Run(st, urls, step).1[i].Recorded() && Run(st, urls, step).1[i].digest == d
    decreases j
  {
    if j == 0 {
      assert urls[..0] == [];
    } else {
      RunStep(st, urls, step, j - 1);
      var out := Run(st, urls, step).1[j - 1];
      assert Before(st, urls, step, j).savedHashes <= Before(st, urls, step, j - 1).savedHashes + Digests(out);
      if !(out.Recorded() && out.digest == d) {
        SavedHashHasRecorder(st, urls, step, j - 1, d);
      }
    }
  }

  /**
   * The first copy of some content in a run is recorded: a URL delivering an
   * image whose hash was not saved at the start and was recorded by no
   * earlier URL records that hash.
   */
  lemma FirstCopyIsRecorded(st: State, urls: seq<string>, step: (State, string, nat) -> (State, Outcome), w: World, j: nat, d: string)
    requires AddsOnlyItsHash(step) && RecordsNewContent(step, w)
    requires j < |urls|
    requires DeliversImage(w, j, urls[j], d) && d !in st.savedHashes
    requires forall i :: 0 <= i < j && Run(st, urls, step).1[i].Recorded() ==> Run(st, urls, step).1[i].digest != d
    ensures Run(st, urls, step).1[j].Recorded() && Run(st, urls, step).1[j].digest == d
  {
    RunStep(st, urls, step, j);
    if d in Before(st, urls, step, j).savedHashes {
      SavedHashHasRecorder(st, urls, step, j, d);
    }
  }

  /**
   * Every file a run opens, saved or not, is opened under a name that did
   * not exist when the run started.
   */
  lemma RecordedNameWasFree(st: State, urls: seq<string>, step: (State, string, nat) -> (State, Outcome), j: nat)
    requires Grows(step) && ChoosesFreeName(step)
    requires j < |urls|
    requires Run(st, urls, step).1[j].Recorded()
    ensures !Taken(st.entries, Run(st, urls, step).1[j].name)
  {
    RunStep(st, urls, step, j);
    RunGrows(st, urls, step, 0, j);
    assert urls[..0] == [];
  }

  /**
   * No save overwrites a file: a saved name did not exist when the run
   * started, and no two URLs of a run are saved under the same name.
   */
  lemma NeverOverwrites(st: State, urls: seq<string>, step: (State, string, nat) -> (State, Outcome), i: nat, j: nat)
    requires Grows(step) && ChoosesFreeName(step) && SavedNameExists(step)
    requires i < j < |urls|
    requires Run(st, urls, step).1[i].Saved? && Run(st, urls, step).1[j].Saved?
    ensures Run(st, urls, step).1[i].name != Run(st, urls, step).1[j].name
    ensures !Taken(st.entries, Run(st, urls, step).1[i].name)
    ensures !Taken(st.entries, Run(st, urls, step).1[j].name)
  {
    RunStep(st, urls, step, i);
    RunStep(st, urls, step, j);
    RunGrows(st, urls, step, i + 1, j);
    RunGrows(st, urls, step, 0, i);
    RunGrows(st, urls, step, 0, j);
    assert urls[..0] == [];
  }

  /**
   * Two saving steps for the same file name, the second from a directory
   * that holds what the first one left: the second uses a larger counter.
   */
  lemma LaterSaveLargerCounter(step: (State, string, nat) -> (State, Outcome), w: World,
                               si: State, ui: string, i: nat, sj: State, uj: string, j: nat)
    requires NamesFirstFree(step, w) && SavedNameExists(step)
    requires step(si, ui, i).1.Saved? && step(sj, uj, j).1.Saved?
    requires si.entries <= step(si, ui, i).0.entries <= sj.entries
    requires FileNameFromUrl(w.urlPath(ui)) == FileNameFromUrl(w.urlPath(uj))
    ensures var f := FileNameFromUrl(w.urlPath(ui));
      && FirstFree(si.entries, f) < FirstFree(sj.entries, f)
      && step(si, ui, i).1.name == Candidate(f, FirstFree(si.entries, f))
      && step(sj, uj, j).1.name == Candidate(f, FirstFree(sj.entries, f))
  {
    var f := FileNameFromUrl(w.urlPath(ui));
    var name := step(si, ui, i).1.name;
    assert name in step(si, ui, i).0.entries;
    assert name == Candidate(f, FirstFree(si.entries, f));
    assert Taken(sj.entries, name);
    FirstFreeAdvances(si.entries, sj.entries, f);
  }

  /**
   * Requests `i < j` of a run: each outcome is one step from the state before
   * it, and what request `i` leaves in the directory request `j` still sees.
   */
  lemma StepsBetween(st: State, urls: seq<string>, step: (State, string, nat) -> (State, Outcome), i: nat, j: nat)
    requires Grows(step)
    requires i < j < |urls|
    ensures var si, sj := Before(st, urls, step, i), Before(st, urls, step, j);
      && step(si, urls[i], i).1 == Run(st, urls, step).1[i]
      && step(sj, urls[j], j).1 == Run(st, urls, step).1[j]
      && si.entries <= step(si, urls[i], i).0.entries <= sj.entries
  {
    RunStep(st, urls, step, i);
    RunStep(st, urls, step, j);
    RunGrows(st, urls, step, i + 1, j);
  }

  /**
   * Two URLs with the same file name but different content: the later one
   * is saved under a candidate with a larger counter than the earlier one,
   * so at least `stem_1.ext`.
   */
  lemma SameNameGetsLargerSuffix(st: State, urls: seq<string>, step: (State, string, nat) -> (State, Outcome), w: World, i: nat, j: nat)
    requires Grows(step) && NamesFirstFree(step, w) && SavedNameExists(step)
    requires i < j < |urls|
    requires Run(st, urls, step).1[i].Saved? && Run(st, urls, step).1[j].Saved?
    requires FileNameFromUrl(w.urlPath(urls[i])) == FileNameFromUrl(w.urlPath(urls[j]))
    ensures var f := FileNameFromUrl(w.urlPath(urls[i]));
      exists ki: nat, kj: nat :: ki < kj
        && Run(st, urls, step).1[i].name == Candidate(f, ki)
        && Run(st, urls, step).1[j].name == Candidate(f, kj)
  {
    var f := FileNameFromUrl(w.urlPath(urls[i]));
    var si, sj := Before(st, urls, step, i), Before(st, urls, step, j);
    StepsBetween(st, urls, step, i, j);
    LaterSaveLargerCounter(step, w, si, urls[i], i, sj, urls[j], j);
    CandidatesInOrder(f, Run(st, urls, step).1[i].name, Run(st, urls, step).1[j].name,
                      FirstFree(si.entries, f), FirstFree(sj.entries, f));
  }

  /** Two names that are candidates with counters in order. */
  lemma CandidatesInOrder(f: string, a: string, b: string, ka: nat, kb: nat)
    requires ka < kb && a == Candidate(f, ka) && b == Candidate(f, kb)
    ensures exists ki: nat, kj: nat :: ki < kj && a == Candidate(f, ki) && b == Candidate(f, kj)
  {
  }

  /**
   * The run-wide invariant of `main`: within one run, no two URLs record the
   * same content hash, and a URL whose image repeats the content an earlier
   * URL recorded is reported as a duplicate.
   */
  lemma MainRecordsEachHashOnce(entries: set<string>, input: string, w: World, i: nat, j: nat)
    requires i < j < |ParseUrls(input)|
    ensures var outs := Main(entries, input, w).1;
      && (outs[i].Recorded() && outs[j].Recorded() ==> outs[i].digest != outs[j].digest)
      && (outs[i].Recorded() && DeliversImage(w, j, ParseUrls(input)[j], outs[i].digest) ==> outs[j].Duplicate?)
  {
    var st, urls, step := State({}, entries), ParseUrls(input), FetchStep(w);
    FetchStepIsFetchLike(w);
    var outs := Run(st, urls, step).1;
    if outs[i].Recorded() && outs[j].Recorded() {
      EachHashRecordedOnce(st, urls, step, i, j);
    }
    if outs[i].Recorded() && DeliversImage(w, j, urls[j], outs[i].digest) {
      LaterCopyIsDuplicate(st, urls, step, w, i, j);
    }
  }

  /**
   * Within one run of `main`, the first URL delivering some content records
   * its hash; with `MainRecordsEachHashOnce`, exactly the first copy of each
   * content is recorded and every later copy is a duplicate.
   */
  lemma MainRecordsFirstCopy(entries: set<string>, input: string, w: World, j: nat, d: string)
    requires j < |ParseUrls(input)|
    requires DeliversImage(w, j, ParseUrls(input)[j], d)
    requires forall i :: 0 <= i < j && Main(entries, input, w).1[i].Recorded() ==> Main(entries, input, w).1[i].digest != d
    ensures Main(entries, input, w).1[j].Recorded() && Main(entries, input, w).1[j].digest == d
  {
    var st, urls, step := State({}, entries), ParseUrls(input), FetchStep(w);
    assert Main(entries, input, w) == Run(st, urls, step);
    FetchStepIsFetchLike(w);
    FirstCopyIsRecorded(st, urls, step, w, j, d);
  }

  /**
   * Every file `main` opens, whether the write then succeeds or fails, is
   * opened under a name that did not exist before the run.
   */
  lemma MainOpensFreshNames(entries: set<string>, input: string, w: World, j: nat)
    requires j < |ParseUrls(input)|
    ensures var outs := Main(entries, input, w).1;
      outs[j].Recorded() ==> !Taken(entries, outs[j].name)
  {
    var st, urls, step := State({}, entries), ParseUrls(input), FetchStep(w);
    FetchStepIsFetchLike(w);
    var outs := Run(st, urls, step).1;
    if outs[j].Recorded() {
      RecordedNameWasFree(st, urls, step, j);
    }
  }

  /**
   * No file is overwritten during a run of `main`: a saved name was not in
   * the directory when the run started, and two saved URLs get two names.
   */
  lemma MainNeverOverwrites(entries: set<string>, input: string, w: World, i: nat, j: nat)
    requires i < j < |ParseUrls(input)|
    ensures var outs := Main(entries, input, w).1;
      outs[i].Saved? && outs[j].Saved? ==>
        && outs[i].name != outs[j].name
        && !Taken(entries, outs[i].name) && !Taken(entries, outs[j].name)
  {
    var st, urls, step := State({}, entries), ParseUrls(input), FetchStep(w);
    FetchStepIsFetchLike(w);
    var outs := Run(st, urls, step).1;
    if outs[i].Saved? && outs[j].Saved? {
      NeverOverwrites(st, urls, step, i, j);
    }
  }
}
