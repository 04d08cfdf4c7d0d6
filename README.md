# Ubuntu Image Fetcher — a verified model of its decision logic

The Ubuntu Image Fetcher is a one-file Python script, `ubuntu_image_fetcher.py`.
It reads a comma-separated line of URLs and downloads each image into the
directory `Fetched_Images`. It skips responses whose Content-Type does not
mention "image". It skips content it already saved during the run, identified
by the MD5 hash of the bytes. It never overwrites a file: when a name exists it
tries `stem_1.ext`, `stem_2.ext`, … in turn.

This project models that logic in Dafny. The network, the disk and the hash
become an explicit environment (`Fetching.World`). The directory becomes the
set of names inside it for which `os.path.exists` holds. Two state components are updated by the script:

- `saved_hashes`, the set of content hashes saved in the run;
- the directory listing.

The model has two layers:

- **Functions and lemmas**, which describe what one URL and one run do:
  - `PathNames`: `rfind`, `os.path.basename` and `os.path.splitext`, by Python's `posixpath` rules.
  - `Decimal`: how `f"{counter}"` spells the counter.
  - `Text`: the substring test, `str.split(',')` and `str.strip()`.
  - `Naming`: `get_filename_from_url`, the candidate names and the collision loop.
  - `Fetching`: the checks of `fetch_image` and its effect on the state.
  - `MainLoop`: the URL list of `main` and the run over it.
- **The class `Script.Session`**, whose fields are the hash set and the directory.
  - Its methods `FetchImage` and `FetchAll` update those fields in place, as the script does; one pass of the loop of `main` is the method `FetchPiece`.
  - Each method is proved equal to the corresponding function: `Fetching.Fetch` and `MainLoop.Main`.

The run-wide properties are first proved for any per-URL step that keeps the
contract `MainLoop.FetchLike`. `MainLoop.FetchStepIsFetchLike` shows the
fetcher's own step keeps that contract. The main guarantees are then stated
for `main` itself:

- `MainLoop.MainRecordsEachHashOnce` and `MainLoop.MainRecordsFirstCopy`: exactly the first copy of each content is recorded.
- `MainLoop.MainOpensFreshNames`: every file opened, saved or not, is opened under a name that did not exist before the run.
- `MainLoop.MainNeverOverwrites`: two saved files get two names.

Behaviour of the code that the model keeps:

- The hash is added to the saved set before the file is opened. A failed
  write therefore keeps its hash, and a later copy of the same content is
  reported as a duplicate although no file holds it.
- The Content-Type test is a substring test, so `"not-an-image/x"` passes it.
- The request and body errors are caught and reported, and so is any other
  error (here: a failed open or write). The run then goes on with the next URL.
- `os.path.exists` holds for `.` and `..` inside the directory. A URL path
  ending in `/.` or `/..` gives one of those names, and the name is then
  treated as taken (`Naming.Taken`).
- Suffixes come from the original name: after `a.jpg` and `a_1.jpg` comes
  `a_2.jpg`, never `a_1_1.jpg`. Leading dots are not an extension, so `.hidden`
  becomes `.hidden_1`.

## Model

| member | source | states |
|---|---|---|
| `PathNames.RFind` | ubuntu_image_fetcher.py:39 | the index of the last occurrence of the character, or -1 when there is none |
| `PathNames.RFindUnique` | ubuntu_image_fetcher.py:39 | an index meeting that description is the result of `RFind` |
| `PathNames.BaseName` | ubuntu_image_fetcher.py:8 | `os.path.basename`: the slash-free suffix of the path that follows its last '/', or the whole path when it has no '/' |
| `PathNames.SplitExt` | ubuntu_image_fetcher.py:39 | `os.path.splitext`: the two parts concatenate to the name; a non-empty extension starts with its only '.', lies in the last segment, and is not preceded there by dots only; without an extension every dot of the last segment is a leading one |
| `PathNames.SplitExtAtDot` | ubuntu_image_fetcher.py:39 | a cut at the last '.' of the last segment, not preceded there by dots only, is where `splitext` splits |
| `PathNames.SplitAtLastDot` | ubuntu_image_fetcher.py:39 | cutting at the last '.' after the last '/' gives an extension with one dot and no '/' |
| `Decimal.NatToDecimal` | ubuntu_image_fetcher.py:40 | the counter is spelled with at least one digit and no leading zero |
| `Decimal.DigitChar` | ubuntu_image_fetcher.py:40 | a digit below ten is the character of that value |
| `Decimal.DecimalRoundTrip` | ubuntu_image_fetcher.py:40 | reading the spelling back gives the counter |
| `Decimal.DecimalInjective` | ubuntu_image_fetcher.py:40 | different counters are spelled differently |
| `Text.Contains` | ubuntu_image_fetcher.py:21 | `"image" in content_type` holds exactly when the text occurs at some position |
| `Text.Split` | ubuntu_image_fetcher.py:58 | `split(',')`: at least one piece, no piece holds a comma, and joining the pieces with commas gives the input back |
| `Text.SplitJoin` | ubuntu_image_fetcher.py:58 | splitting a comma-joined list of comma-free pieces gives the pieces back |
| `Text.LStrip` | ubuntu_image_fetcher.py:66 | drops exactly the leading whitespace run |
| `Text.RStrip` | ubuntu_image_fetcher.py:66 | drops exactly the trailing whitespace run |
| `Text.IsSpace` | ubuntu_image_fetcher.py:66 | the whitespace test of `str.strip()`: the ASCII space, tab, newline, vertical tab, form feed and carriage return are whitespace, and a comma never is |
| `Text.StripFrames` | ubuntu_image_fetcher.py:66 | removing the leading and then the trailing whitespace leaves a whitespace-framed infix, empty exactly when the input is all whitespace |
| `Text.Strip` | ubuntu_image_fetcher.py:66 | `str.strip()`: the result sits in the input between two whitespace runs, does not start or end with whitespace, and is empty exactly when the input is all whitespace |
| `Naming.FileNameFromUrl` | ubuntu_image_fetcher.py:6-9 | the name is never empty and holds no '/'; it is `downloaded_image.jpg` when the path is empty or ends in '/', and otherwise the last segment of the path |
| `Naming.Taken` | ubuntu_image_fetcher.py:38 | `os.path.exists` inside the directory: every name in it exists, and the only other names that exist are `.` and `..` (one or two characters, starting and ending with '.'); `Naming.SuffixedIsNoDotEntry` shows a suffixed candidate is never one of those |
| `Naming.Candidate` | ubuntu_image_fetcher.py:35-40 | the name tried at counter k: the file name itself for 0; for k ≥ 1 a longer name with '_' right after the original stem; `Naming.CandidateSplits` and `Naming.CandidatesDistinct` give its structure and that distinct counters give distinct names |
| `Naming.CandidateSplits` | ubuntu_image_fetcher.py:39-40 | a suffixed candidate splits into the original stem plus `_k` and the original extension, so suffixes do not stack |
| `Naming.NoSlashInCandidate` | ubuntu_image_fetcher.py:40 | a candidate built from a slash-free name stays inside the directory |
| `Naming.CandidatesDistinct` | ubuntu_image_fetcher.py:36-41 | different counters give different candidate names |
| `Naming.SuffixedIsNoDotEntry` | ubuntu_image_fetcher.py:40 | a suffixed candidate is never `.` or `..` |
| `Naming.TakenPrefixBound` | ubuntu_image_fetcher.py:36-41 | if the first n candidates all exist then n is at most the number of entries plus one |
| `Naming.FirstFreeFrom` | ubuntu_image_fetcher.py:36-41 | from a prefix of taken candidates, the next free counter is found within the bound, with every counter before it taken |
| `Naming.FirstFree` | ubuntu_image_fetcher.py:36-41 | the least counter whose candidate does not exist: it is free, all earlier ones are taken, and it is at most the number of entries plus one |
| `Naming.FirstFreeAdvances` | ubuntu_image_fetcher.py:36-41 | once the chosen name exists, a grown directory chooses a later candidate |
| `Naming.ResolveCollision` | ubuntu_image_fetcher.py:35-41 | the collision loop ends, its name does not exist, and it is exactly the first free candidate |
| `Fetching.IsImage` | ubuntu_image_fetcher.py:20-21 | the Content-Type filter: a missing header (read as "") never passes it, and a header that passes holds at least the five characters of "image" |
| `Fetching.Screen` | ubuntu_image_fetcher.py:16-32 | the checks before the hash is recorded: a rejection never records a hash, and an accepted body's hash is not yet saved; `Fetching.ScreenFilters` gives each verdict in both directions |
| `Fetching.Store` | ubuntu_image_fetcher.py:33-44 | recording the hash, then the collision loop and the write: the outcome records the content's hash and the saved set grows by exactly that hash; `Fetching.StoreContract` adds the name and the directory |
| `Fetching.Fetch` | ubuntu_image_fetcher.py:14-52 | `fetch_image`: a recorded hash was new and is saved afterwards; a duplicate's hash was saved and the state is unchanged; `Fetching.FetchFilters`, `Fetching.FetchRecordsNewHash`, `Fetching.FetchRecordsNewContent`, `Fetching.FetchGrows` and `Fetching.FetchUnchangedUnlessRecorded` give the rest |
| `Fetching.ScreenFilters` | ubuntu_image_fetcher.py:16-32 | both directions: "not an image" exactly when the header lacks "image"; "duplicate" exactly when an image read in full hashes to a saved hash; acceptance exactly for new image content |
| `Fetching.StoreContract` | ubuntu_image_fetcher.py:33-44 | new content adds exactly its hash whatever the disk does; the file goes to the first free candidate, which did not exist; the directory gains it unless the open failed |
| `Fetching.FetchUnchangedUnlessRecorded` | ubuntu_image_fetcher.py:15-52 | a request error, a non-image and a duplicate change neither the hash set nor the directory |
| `Fetching.FetchFilters` | ubuntu_image_fetcher.py:20-32 | per URL, both directions of the Content-Type filter and of the duplicate check |
| `Fetching.FetchRecordsNewHash` | ubuntu_image_fetcher.py:27-52 | a recorded URL delivered image content whose hash was new; the hash set grows by exactly that hash even when the write fails; the name is the first free candidate |
| `Fetching.FetchRecordsNewContent` | ubuntu_image_fetcher.py:27-33 | the converse of `FetchRecordsNewHash`: image content read in full whose hash is new is recorded, and the saved set grows by exactly that hash |
| `Fetching.FetchGrows` | ubuntu_image_fetcher.py:33-44 | a fetch never removes a saved hash or a directory entry |
| `MainLoop.Urls` | ubuntu_image_fetcher.py:66-67 | no more URLs than pieces; every URL is non-empty and neither starts nor ends with whitespace |
| `MainLoop.ParseUrls` | ubuntu_image_fetcher.py:58-67 | the URLs `main` fetches from the typed line: each is non-empty, has no whitespace at either end, and holds no comma; `MainLoop.UrlsEmptyIff` and `MainLoop.UrlsAppend` give which pieces and in what order |
| `MainLoop.UrlsNextPiece` | ubuntu_image_fetcher.py:66-67 | one more piece adds its stripped text, unless that is empty |
| `MainLoop.UrlsAppend` | ubuntu_image_fetcher.py:66-67 | the URLs keep the input order: those of a concatenation are the concatenation of the URLs |
| `MainLoop.AllBlankSnoc` | ubuntu_image_fetcher.py:66-67 | a list of pieces is blank exactly when its pieces before the last are, and so is its last piece |
| `MainLoop.UrlsEmptyIff` | ubuntu_image_fetcher.py:66-67 | nothing is fetched exactly when every piece is empty or whitespace |
| `MainLoop.StripKeepsOnlyItsChars` | ubuntu_image_fetcher.py:66 | stripping adds no character |
| `MainLoop.UrlsHaveNoComma` | ubuntu_image_fetcher.py:58-67 | no URL handed to the fetcher holds a comma |
| `MainLoop.Run` | ubuntu_image_fetcher.py:64-68 | one outcome per URL |
| `MainLoop.RunSnoc` | ubuntu_image_fetcher.py:66-68 | one more URL is one more step from the state the earlier URLs left |
| `MainLoop.RunNextUrl` | ubuntu_image_fetcher.py:66-68 | a piece that is not blank after stripping adds exactly one fetch to the run, numbered after the earlier ones |
| `MainLoop.Main` | ubuntu_image_fetcher.py:54-70 | `main`: one outcome per URL, and the directory only grows; `MainLoop.MainRecordsEachHashOnce`, `MainLoop.MainRecordsFirstCopy`, `MainLoop.MainOpensFreshNames` and `MainLoop.MainNeverOverwrites` state its guarantees |
| `MainLoop.RunPrefix` | ubuntu_image_fetcher.py:66-68 | the outcomes of a prefix of the URLs are a prefix of the outcomes |
| `MainLoop.RunStep` | ubuntu_image_fetcher.py:66-68 | URL j is handled from the state the URLs before it left, with the shared hash set |
| `MainLoop.FetchStepGrows` | ubuntu_image_fetcher.py:33-44 | `fetch_image` removes no saved hash and no directory entry |
| `MainLoop.FetchStepRecordsNewHash` | ubuntu_image_fetcher.py:30-33 | a hash `fetch_image` records was not saved before and is saved after |
| `MainLoop.FetchStepAddsOnlyItsHash` | ubuntu_image_fetcher.py:33 | `fetch_image` adds no hash to the saved set other than the one its outcome records |
| `MainLoop.FetchStepScreens` | ubuntu_image_fetcher.py:20-33 | `fetch_image` records image content read in full whose hash is new, and reports it as a duplicate when its hash is saved |
| `MainLoop.FetchStepNamesFiles` | ubuntu_image_fetcher.py:35-44 | `fetch_image` opens its file under the first free candidate of the URL's file name, which did not exist, also when the write then fails; a saved file exists afterwards |
| `MainLoop.FetchStepIsFetchLike` | ubuntu_image_fetcher.py:14-52 | `fetch_image` keeps the whole per-URL contract: nothing is removed; a recorded hash was new, is then saved and is the only one added; new image content is recorded and saved content comes back as a duplicate; a saved file gets the first free name, which did not exist, and then exists |
| `MainLoop.RunGrows` | ubuntu_image_fetcher.py:64-68 | along a run of a step that removes nothing, neither the hash set nor the directory shrinks |
| `MainLoop.EachHashRecordedOnce` | ubuntu_image_fetcher.py:30-33 | no two URLs of a run record the same hash, and none records a hash the run started with |
| `MainLoop.LaterCopyIsDuplicate` | ubuntu_image_fetcher.py:30-32 | once a URL recorded a hash, a later URL delivering the same content is a duplicate |
| `MainLoop.SavedHashHasRecorder` | ubuntu_image_fetcher.py:30-33 | a hash saved before request j was saved at the start of the run or recorded by one of the first j URLs |
| `MainLoop.FirstCopyIsRecorded` | ubuntu_image_fetcher.py:27-33 | a URL delivering image content that was not saved at the start and that no earlier URL recorded records its hash |
| `MainLoop.RecordedNameWasFree` | ubuntu_image_fetcher.py:35-44 | every file a run opens, saved or not, is opened under a name that did not exist when the run started |
| `MainLoop.NeverOverwrites` | ubuntu_image_fetcher.py:35-44 | the names of two saved URLs did not exist when the run started, and they differ |
| `MainLoop.LaterSaveLargerCounter` | ubuntu_image_fetcher.py:35-41 | two saves of the same file name, the second from a directory holding what the first left: the second uses the larger counter, and both use the first free candidate |
| `MainLoop.SameNameGetsLargerSuffix` | ubuntu_image_fetcher.py:35-41 | two saved URLs with the same file name get candidates of that name, and the later one has the larger counter |
| `MainLoop.MainRecordsEachHashOnce` | ubuntu_image_fetcher.py:54-70 | within one run of `main` no two URLs record the same hash, and a later copy of recorded content is a duplicate |
| `MainLoop.MainRecordsFirstCopy` | ubuntu_image_fetcher.py:54-70 | within one run of `main`, the first URL delivering some image content records its hash; with `MainRecordsEachHashOnce`, exactly the first copy of each content is recorded |
| `MainLoop.MainOpensFreshNames` | ubuntu_image_fetcher.py:54-70 | within one run of `main`, every URL that gets as far as opening a file, whether the write then succeeds or fails, opens a name that did not exist before the run |
| `MainLoop.MainNeverOverwrites` | ubuntu_image_fetcher.py:54-70 | within one run of `main`, two saved files get distinct names, neither of which existed before the run; `MainLoop.MainOpensFreshNames` gives freshness for every single opened file |
| `Script.Session.constructor` | ubuntu_image_fetcher.py:61-64 | a run starts with an empty hash set, in the directory as it is |
| `Script.Session.FetchImage` | ubuntu_image_fetcher.py:14-52 | updating the hash set and the directory in place, with the collision loop, gives exactly the state and outcome of `Fetching.Fetch` |
| `Script.Session.FetchPiece` | ubuntu_image_fetcher.py:66-68 | one pass of the loop: the state and outcomes are those of the run over the pieces up to and including this one |
| `Script.Session.FetchAll` | ubuntu_image_fetcher.py:54-70 | splitting, stripping, skipping and fetching in place gives exactly the state and outcomes of `MainLoop.Main` |

## Left out

- HTTP: `requests.get`, `raise_for_status`, the timeout and streaming. The answer to request i is a given `Response`. It is a request error, or a header plus a body that was read in full or whose reading failed.
- MD5 (`get_file_hash`): an arbitrary deterministic function from bytes to text. No property of MD5 is used. Two different contents with the same hash are therefore one content to the model, as they are to the script.
- `urlparse`: the path component of each URL is a given function. A `ValueError` from `urlparse` on a malformed URL is not modelled.
- The file system: `os.makedirs` is not modelled, and the directory is the set of names inside it for which `os.path.exists` holds. `open` and `write` are reduced to three results: written, open failed (no file), and write failed (file created). Another process changing the directory is not modelled.
- Symbolic links: `os.path.exists` is false for a dangling symbolic link in `Fetched_Images`, so the script would pick that name and `open` would write through the link. The model treats the directory as a set of names that exist and does not model links.
- Only case-sensitive file systems that do not normalise names are modelled. On a case-insensitive or normalising one, such as macOS's default APFS, creating `a.jpg` also makes `os.path.exists` hold for `A.jpg`. The script would then choose `A_1.jpg` where the model chooses `A.jpg`.
- Only POSIX path rules (`posixpath`) are modelled, not the Windows ones.
- Printing, the welcome lines and the interactive `input()`: the typed line is a parameter and each URL's report is an `Outcome`.
- Any exception other than a request error or a failed open or write, such as memory exhaustion, is not modelled.
- `Text.IsSpace` lists exactly the code points for which `str.isspace` holds: 0x09-0x0D, 0x1C-0x20, 0x85, 0xA0, 0x1680, 0x2000-0x200A, 0x2028, 0x2029, 0x202F, 0x205F and 0x3000. A Dafny `char` cannot hold the lone surrogates that a Python `str` can. No surrogate is whitespace or a comma, so stripping and splitting are unaffected.
