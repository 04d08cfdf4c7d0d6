/**
 * The script as it runs: `saved_hashes` is a set that `fetch_image` updates
 * in place, and the output directory `Fetched_Images` is a set of entry
 * names that grows as files are created. Each method is proved to do what
 * the corresponding function of `Fetching` and `MainLoop` describes.
 */
module Script {
  import opened Text
  import opened Naming
  import opened Fetching
  import opened MainLoop

  class Session {
    /** The hashes of the contents saved so far in this run. */
    var savedHashes: set<string>
    /** The names in the output directory for which `os.path.exists` holds. */
    var entries: set<string>

    function Snapshot(): State
      reads this
    {
      State(savedHashes, entries)
    }

    /** A run starts with no saved hashes, in a directory holding `entries0`. */
    constructor (entries0: set<string>)
      ensures savedHashes == {} && entries == entries0
    {
      savedHashes := {};
      entries := entries0;
    }

    /**
     * `fetch_image(url, saved_hashes)` as request `i` of the run: the checks
     * in the script's order, the hash recorded before the write, then the
     * collision loop and the write.
     */
    method FetchImage(url: string, w: World, i: nat) returns (outcome: Outcome)
      modifies this
      ensures (Snapshot(), outcome) == FetchStep(w)(old(Snapshot()), url, i)
    {
      ghost var st := Snapshot();
      var reply := w.net(i, url);
      match reply.response
      case RequestFailed =>
        outcome := ConnectionError;
        assert (Snapshot(), outcome) == Fetch(st, url, w, i);
      case Received(contentType, body) =>
        if !IsImage(contentType) {
          outcome := NotAnImage;
          assert (Snapshot(), outcome) == Fetch(st, url, w, i);
          return;
        }
        var filename := FileNameFromUrl(w.urlPath(url));
        match body
        case Broken =>
          outcome := ConnectionError;
          assert (Snapshot(), outcome) == Fetch(st, url, w, i);
        case Complete(bytes) =>
          var hash := w.md5(bytes);
          if hash in savedHashes {
            outcome := Duplicate(filename, hash);
            assert (Snapshot(), outcome) == Fetch(st, url, w, i);
            return;
          }
          assert Fetch(st, url, w, i) == Store(st, filename, hash, reply.disk);
          savedHashes := savedHashes + {hash};
          var name := ResolveCollision(entries, filename);
          match reply.disk
          case Written =>
            entries := entries + {name};
            outcome := Saved(name, hash);
          case OpenFailed =>
            outcome := WriteError(name, hash);
          case WriteFailed =>
            entries := entries + {name};
            outcome := WriteError(name, hash);
    }

    /**
     * One pass of the loop of `main`: strip piece `k` and, unless it is
     * blank, fetch it as the next request of the run.
     */
    method FetchPiece(ghost start: State, pieces: seq<string>, k: nat, w: World, outcomes: seq<Outcome>)
      returns (outcomes': seq<Outcome>)
      requires k < |pieces|
      requires (Snapshot(), outcomes) == Run(start, Urls(pieces[..k]), FetchStep(w))
      modifies this
      ensures (Snapshot(), outcomes') == Run(start, Urls(pieces[..k + 1]), FetchStep(w))
    {
      var url := Strip(pieces[k]);
      if url != [] {
        var out := FetchImage(url, w, |outcomes|);
        RunNextUrl(start, pieces, k, w, Snapshot(), out);
        outcomes' := outcomes + [out];
      } else {
        UrlsNextPiece(pieces, k);
        outcomes' := outcomes;
      }
    }

    /**
     * `main`: split the typed line on commas, start an empty hash set, and
     * fetch every piece that is not empty once stripped, numbering the
     * requests in order.
     */
    method FetchAll(input: string, w: World) returns (outcomes: seq<Outcome>)
      modifies this
      ensures (Snapshot(), outcomes) == Main(old(entries), input, w)
    {
      var pieces := Split(input, ',');
      savedHashes := {};
      outcomes := [];
      ghost var start := Snapshot();
      RunNoPieces(start, pieces, w);
      for k := 0 to |pieces|
        invariant (Snapshot(), outcomes) == Run(start, Urls(pieces[..k]), FetchStep(w))
      {
        outcomes := FetchPiece(start, pieces, k, w, outcomes);
      }
      MainIsLoopResult(start, input, w, pieces, Snapshot(), outcomes);
    }
  }
}
