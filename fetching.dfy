/**
 * The decision logic of `fetch_image` and of the run loop in `main`, as
 * functions of an explicit state: the set of content hashes saved so far in
 * this run, and the set of names that exist in the output directory.
 *
 * The environment is a `World`: the path component of each URL (what
 * `urlparse(url).path` gives), what the network answers to the i-th request,
 * what the disk does with the write, and the digest function. The digest is
 * any deterministic function from bytes to text; nothing is assumed of it.
 */
module Fetching {
  import opened Text
  import opened Naming

  datatype Option<T> = None | Some(value: T)

  /** The body of a response: read completely, or reading it raised a request error. */
  datatype Body = Complete(bytes: seq<bv8>) | Broken

  /**
   * What `requests.get(...)` and `raise_for_status()` give: a request error
   * (connection failure, timeout, a 4xx or 5xx status), or a response with its
   * Content-Type header (absent or present) and its body.
   */
  datatype Response = RequestFailed | Received(contentType: Option<string>, body: Body)

  /**
   * What `open(filepath, 'wb')` and `write` do: succeed, fail to open (no file
   * is created), or fail while writing (the file has been created).
   */
  datatype Disk = Written | OpenFailed | WriteFailed

  datatype Reply = Reply(response: Response, disk: Disk)

  datatype World = World(
    urlPath: string -> string,
    net: (nat, string) -> Reply,
    md5: seq<bv8> -> string)

  /**
   * The run's set of saved hashes, and the names inside the output directory
   * for which `os.path.exists` holds.
   */
  datatype State = State(savedHashes: set<string>, entries: set<string>)

  /** What the fetcher reports for one URL. */
  datatype Outcome =
    | ConnectionError
    | NotAnImage
    | Duplicate(filename: string, digest: string)
    | Saved(name: string, digest: string)
    | WriteError(name: string, digest: string)
  {
    /** The content hash was added to the saved set by this URL. */
    predicate Recorded() {
      Saved? || WriteError?
    }
  }

  /** The Content-Type filter: a missing header reads as the empty string. */
  predicate IsImage(contentType: Option<string>)
    ensures contentType.None? ==> !IsImage(contentType)
    ensures IsImage(contentType) ==> contentType.Some? && |contentType.value| >= 5
  {
    Contains(if contentType.Some? then contentType.value else "", "image")
  }

  /** The response to request `i` for `url` is an image whose body was read and hashes to `digest`. */
  predicate DeliversImage(w: World, i: nat, url: string, digest: string) {
    var resp := w.net(i, url).response;
    resp.Received? && IsImage(resp.contentType) && resp.body.Complete? && w.md5(resp.body.bytes) == digest
  }

  /** What the checks before the write decide: report and stop, or go on to save `digest`. */
  datatype Verdict = Reject(outcome: Outcome) | Accept(digest: string)

  /**
   * The checks of `fetch_image` up to the duplicate test, in the script's
   * order: request error, Content-Type, body read, hash already saved.
   */
  function Screen(savedHashes: set<string>, resp: Response, filename: string, md5: seq<bv8> -> string): (v: Verdict)
    ensures v.Reject? ==> !v.outcome.Recorded()
    ensures v.Accept? ==> v.digest !in savedHashes
  {
    match resp
    case RequestFailed => Reject(ConnectionError)
    case Received(contentType, body) =>
      if !IsImage(contentType) then Reject(NotAnImage)
      else
        match body
        case Broken => Reject(ConnectionError)
        case Complete(bytes) =>
          var digest := md5(bytes);
          if digest in savedHashes then Reject(Duplicate(filename, digest)) else Accept(digest)
  }

  /**
   * The rest of `fetch_image` once the content is new: record the hash, pick
   * the first free name, then write. The hash is recorded before the write,
   * so a failed write keeps it.
   */
  function Store(st: State, filename: string, digest: string, disk: Disk): (r: (State, Outcome))
    ensures r.1.Recorded() && r.1.digest == digest
    ensures r.0.savedHashes == st.savedHashes + {digest}
  {
    var hashes := st.savedHashes + {digest};
    var name := Candidate(filename, FirstFree(st.entries, filename));
    match disk
    case Written => (State(hashes, st.entries + {name}), Saved(name, digest))
    case OpenFailed => (State(hashes, st.entries), WriteError(name, digest))
    case WriteFailed => (State(hashes, st.entries + {name}), WriteError(name, digest))
  }

  /** `fetch_image(url, saved_hashes)` as the `i`-th request of the run: the new state and the outcome. */
  function Fetch(st: State, url: string, w: World, i: nat): (r: (State, Outcome))
    ensures r.1.Recorded() ==> r.1.digest !in st.savedHashes && r.1.digest in r.0.savedHashes
    ensures r.1.Duplicate? ==> r.1.digest in st.savedHashes && r.0 == st
  {
    var reply := w.net(i, url);
    var filename := FileNameFromUrl(w.urlPath(url));
    var v := Screen(st.savedHashes, reply.response, filename, w.md5);
    ScreenFilters(st.savedHashes, reply.response, filename, w.md5);
    match v
    case Reject(outcome) => (st, outcome)
    case Accept(digest) => Store(st, filename, digest, reply.disk)
  }

  /**
   * The Content-Type filter and the duplicate check, both directions: the
   * verdict is "not an image" exactly when the header lacks "image", and
   * "duplicate" exactly when an image body was read whose hash is already
   * saved; the content goes on to be saved exactly when it is an image read
   * in full whose hash is new.
   */
  lemma ScreenFilters(savedHashes: set<string>, resp: Response, filename: string, md5: seq<bv8> -> string)
    ensures var v := Screen(savedHashes, resp, filename, md5);
      && (v == Reject(NotAnImage) <==> resp.Received? && !IsImage(resp.contentType))
      && (v.Reject? && v.outcome.Duplicate? <==>
            resp.Received? && IsImage(resp.contentType) && resp.body.Complete?
            && md5(resp.body.bytes) in savedHashes)
      && (v.Accept? <==>
            resp.Received? && IsImage(resp.contentType) && resp.body.Complete?
            && md5(resp.body.bytes) !in savedHashes && v.digest == md5(resp.body.bytes))
      && (v.Reject? ==> !v.outcome.Recorded())
  {
  }

  /**
   * Saving new content: the saved set grows by exactly its hash whatever the
   * disk does, and the file goes to the first free candidate name, which did
   * not exist before; a saved file then exists in the directory.
   */
  lemma StoreContract(st: State, filename: string, digest: string, disk: Disk)
    ensures var (st', out) := Store(st, filename, digest, disk);
      && out.Recorded() && out.digest == digest && (out.Saved? <==> disk == Written)
      && st'.savedHashes == st.savedHashes + {digest}
      && out.name == Candidate(filename, FirstFree(st.entries, filename))
      && !Taken(st.entries, out.name)
      && st'.entries == (if disk == OpenFailed then st.entries else st.entries + {out.name})
  {
  }

  /** Only a URL that records its hash changes the state; a request or body error, a non-image and a duplicate do not. */
  lemma FetchUnchangedUnlessRecorded(st: State, url: string, w: World, i: nat)
    ensures !Fetch(st, url, w, i).1.Recorded() ==> Fetch(st, url, w, i).0 == st
  {
    var reply := w.net(i, url);
    var filename := FileNameFromUrl(w.urlPath(url));
    var v := Screen(st.savedHashes, reply.response, filename, w.md5);
    if v.Accept? {
      StoreContract(st, filename, v.digest, reply.disk);
    }
  }

  /**
   * Per URL, both directions: "not an image" exactly when the header lacks
   * "image", "duplicate" exactly when an image body was read whose hash is
   * already saved.
   */
  lemma FetchFilters(st: State, url: string, w: World, i: nat)
    ensures var out := Fetch(st, url, w, i).1;
      var resp := w.net(i, url).response;
      && (out.NotAnImage? <==> resp.Received? && !IsImage(resp.contentType))
      && (out.Duplicate? <==>
            resp.Received? && IsImage(resp.contentType) && resp.body.Complete?
            && w.md5(resp.body.bytes) in st.savedHashes)
  {
    var reply := w.net(i, url);
    var filename := FileNameFromUrl(w.urlPath(url));
    var v := Screen(st.savedHashes, reply.response, filename, w.md5);
    ScreenFilters(st.savedHashes, reply.response, filename, w.md5);
    if v.Accept? {
      StoreContract(st, filename, v.digest, reply.disk);
    } else {
      assert v.outcome.NotAnImage? ==> v == Reject(NotAnImage);
    }
  }

  /**
   * A URL that gets past the filters records its hash, which was not saved
   * before, and the saved set grows by exactly that hash whatever the disk
   * then does; the file goes to the first free candidate for the URL's file
   * name, which did not exist before.
   */
  lemma FetchRecordsNewHash(st: State, url: string, w: World, i: nat)
    requires Fetch(st, url, w, i).1.Recorded()
    ensures var (st', out) := Fetch(st, url, w, i);
      var f := FileNameFromUrl(w.urlPath(url));
      && DeliversImage(w, i, url, out.digest)
      && out.digest !in st.savedHashes
      && st'.savedHashes == st.savedHashes + {out.digest}
      && out.name == Candidate(f, FirstFree(st.entries, f))
      && !Taken(st.entries, out.name)
      && (out.Saved? ==> st'.entries == st.entries + {out.name})
  {
    var reply := w.net(i, url);
    var filename := FileNameFromUrl(w.urlPath(url));
    var v := Screen(st.savedHashes, reply.response, filename, w.md5);
    ScreenFilters(st.savedHashes, reply.response, filename, w.md5);
    if v.Accept? {
      StoreContract(st, filename, v.digest, reply.disk);
    }
  }

  /**
   * The converse of `FetchRecordsNewHash`: a URL whose response is an image
   * read in full, with a hash not saved yet, records that hash, and the saved
   * set grows by exactly that hash whatever the disk then does.
   */
  lemma FetchRecordsNewContent(st: State, url: string, w: World, i: nat, digest: string)
    requires DeliversImage(w, i, url, digest) && digest !in st.savedHashes
    ensures var (st', out) := Fetch(st, url, w, i);
      out.Recorded() && out.digest == digest && st'.savedHashes == st.savedHashes + {digest}
  {
    var reply := w.net(i, url);
    var filename := FileNameFromUrl(w.urlPath(url));
    ScreenFilters(st.savedHashes, reply.response, filename, w.md5);
    StoreContract(st, filename, digest, reply.disk);
  }

  /** A fetch never removes a saved hash or a directory entry. */
  lemma FetchGrows(st: State, url: string, w: World, i: nat)
    ensures st.savedHashes <= Fetch(st, url, w, i).0.savedHashes
    ensures st.entries <= Fetch(st, url, w, i).0.entries
  {
    var reply := w.net(i, url);
    var filename := FileNameFromUrl(w.urlPath(url));
    var v := Screen(st.savedHashes, reply.response, filename, w.md5);
    if v.Accept? {
      StoreContract(st, filename, v.digest, reply.disk);
    }
  }
}
