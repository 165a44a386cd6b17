/** The `fetch` command (src/lib/mod.rs, duplicated in
    src/commands/fetch.rs): resolve the comic id, refresh the comic's cache
    entry, choose the episodes that still need pages, and run one download
    worker per episode. Every network reply is a parameter: `index` for the
    image index, `tokenReply` for the token request and `respond(i)` for the
    reply to the i-th page request of a pass. */
module Fetch {
  import opened Wrappers
  import opened Text
  import opened Seqs
  import opened Entities
  import opened Utils
  import opened Cache
  import opened Network

  /* ---------------- parse_id_or_link ---------------- */

  /** The id to work on, or the process exits with an error. */
  datatype Target = Id(id: u32) | Exit

  /** `parse_id_or_link`: the same parse as `parse_id`, but an input that
      names no id ends the process. */
  function ParseIdOrLink(s: string, isNumeric: char -> bool): (r: Target)
    ensures r.Id? <==> ParseId(s, isNumeric).Some?
    ensures r.Id? ==> ParseId(s, isNumeric) == Some(r.id)
  {
    if ParseU32(s).Some? then Id(ParseU32(s).value)
    else if Contains(s, "mc") then
      match ParseU32(TakeWhile(SecondPiece(s, "mc"), isNumeric))
      case Some(id) => Id(id)
      case None => Exit
    else Exit
  }

  /* ---------------- run_task: one download pass ---------------- */

  /** How a pass ends: `Some(())`, `None`, or a panic inside the pass. */
  datatype PassOutcome = Success | Failure | Panicked

  /** The record a pass builds when the episode has none on disk: no files
      yet, the page paths and host from the image index. */
  function NewRecord(ep: EpisodeInfo, index: EpisodeImages, epRoot: Path): EpisodeCache {
    EpisodeCache(ep.id, ep.title, {}, index.paths, index.host, ep.ord, epRoot)
  }

  /** The record a pass works from: the cached one unchanged, otherwise a
      new one from the image index; `None` when the index request failed,
      which panics. */
  function PassRecord(ep: EpisodeInfo, epCache: Option<EpisodeCache>, index: Option<EpisodeImages>, epRoot: Path)
    : Option<EpisodeCache>
  {
    if epCache.Some? then epCache
    else if index.Some? then Some(NewRecord(ep, index.value, epRoot))
    else None
  }

  /** A new record asks for every page of the episode. */
  lemma NewRecordRequestsEverything(ep: EpisodeInfo, index: EpisodeImages, epRoot: Path)
    ensures Missing(NewRecord(ep, index, epRoot)) == index.paths
  {
    FilterAllKept(index.paths, NeedsDownload({}));
  }

  /** The page files of a pass: the basename of each missing path. */
  function Basenames(paths: seq<string>): (r: seq<string>)
    ensures |r| == |paths|
    ensures forall k :: 0 <= k < |r| ==> r[k] == Basename(paths[k])
  {
    seq(|paths|, k requires 0 <= k < |paths| => Basename(paths[k]))
  }

  /** The files stored by the first `n` page requests of a pass: the
      basename of `missing[k]` for each accepted reply `k`, in order. */
  function Fetched(missing: seq<string>, n: nat, respond: nat -> Option<Response>, digest: Bytes -> string)
    : (r: seq<string>)
    requires n <= |missing|
    ensures |r| <= n
    ensures forall x :: x in r ==> x in Basenames(missing)
  {
    if n == 0 then []
    else
      var before := Fetched(missing, n - 1, respond, digest);
      assert Basenames(missing)[n - 1] == Basename(missing[n - 1]);
      before + (if Accepted(respond(n - 1), digest) then [Basename(missing[n - 1])] else [])
  }

  /** Every one of `n` requests stored its file exactly when every reply was
      accepted; the files are then the basenames of the first `n` paths. */
  lemma FetchedAll(missing: seq<string>, n: nat, respond: nat -> Option<Response>, digest: Bytes -> string)
    requires n <= |missing|
    ensures |Fetched(missing, n, respond, digest)| == n <==> forall k :: 0 <= k < n ==> Accepted(respond(k), digest)
    ensures |Fetched(missing, n, respond, digest)| == n ==> Fetched(missing, n, respond, digest) == Basenames(missing[..n])
  {
    FetchedCount(missing, n, respond, digest);
    if |Fetched(missing, n, respond, digest)| == n {
      FetchedNames(missing, n, respond, digest);
    }
  }

  lemma {:induction false} FetchedCount(missing: seq<string>, n: nat, respond: nat -> Option<Response>, digest: Bytes -> string)
    requires n <= |missing|
    ensures |Fetched(missing, n, respond, digest)| == n <==> forall k :: 0 <= k < n ==> Accepted(respond(k), digest)
  {
    if n > 0 {
      FetchedCount(missing, n - 1, respond, digest);
      var before := Fetched(missing, n - 1, respond, digest);
      var last := Accepted(respond(n - 1), digest);
      assert |Fetched(missing, n, respond, digest)| == |before| + (if last then 1 else 0);
      if forall k :: 0 <= k < n ==> Accepted(respond(k), digest) {
        assert last;
      }
    }
  }

  lemma {:induction false} FetchedNames(missing: seq<string>, n: nat, respond: nat -> Option<Response>, digest: Bytes -> string)
    requires n <= |missing|
    requires |Fetched(missing, n, respond, digest)| == n
    ensures Fetched(missing, n, respond, digest) == Basenames(missing[..n])
  {
    if n > 0 {
      var before := Fetched(missing, n - 1, respond, digest);
      assert |before| == n - 1 && Accepted(respond(n - 1), digest);
      FetchedNames(missing, n - 1, respond, digest);
      assert missing[..n][..n - 1] == missing[..n - 1];
      assert Basenames(missing[..n]) == Basenames(missing[..n - 1]) + [Basename(missing[n - 1])];
    }
  }

  /** When as many files were stored as pages were missing, every missing
      page's file was stored. */
  lemma FetchedEvery(missing: seq<string>, n: nat, respond: nat -> Option<Response>, digest: Bytes -> string)
    requires n <= |missing|
    requires |Fetched(missing, n, respond, digest)| == |missing|
    ensures forall p :: p in missing ==> Basename(p) in Fetched(missing, n, respond, digest)
  {
    FetchedAll(missing, n, respond, digest);
    assert missing[..n] == missing;
    forall p | p in missing ensures Basename(p) in Fetched(missing, n, respond, digest) {
      var k :| 0 <= k < |missing| && missing[k] == p;
      assert Basenames(missing)[k] == Basename(p);
    }
  }

  /** The indices, in order, of the page requests among the first `n`
      whose reply was accepted. */
  function AcceptedUpTo(n: nat, respond: nat -> Option<Response>, digest: Bytes -> string): (r: seq<nat>)
    ensures forall j :: 0 <= j < |r| ==> r[j] < n && Accepted(respond(r[j]), digest)
    ensures forall j, j' :: 0 <= j < j' < |r| ==> r[j] < r[j']
    ensures forall k :: 0 <= k < n && Accepted(respond(k), digest) ==> k in r
  {
    if n == 0 then []
    else AcceptedUpTo(n - 1, respond, digest) + (if Accepted(respond(n - 1), digest) then [n - 1] else [])
  }

  /** The `Size` events of the first `n` page requests: the length of each
      accepted body, in order. */
  function FetchedSizes(n: nat, respond: nat -> Option<Response>, digest: Bytes -> string): seq<nat> {
    if n == 0 then []
    else
      FetchedSizes(n - 1, respond, digest)
      + (if Accepted(respond(n - 1), digest) then [|respond(n - 1).value.body.value|] else [])
  }

  /** The j-th stored file and the j-th size event both come from the j-th
      accepted request: its page's basename, and the length of its body. */
  lemma {:induction false} FetchedByIndex(missing: seq<string>, n: nat, respond: nat -> Option<Response>, digest: Bytes -> string)
    requires n <= |missing|
    ensures var acc := AcceptedUpTo(n, respond, digest);
      && |Fetched(missing, n, respond, digest)| == |acc| == |FetchedSizes(n, respond, digest)|
      && forall j :: 0 <= j < |acc| ==>
           && Fetched(missing, n, respond, digest)[j] == Basename(missing[acc[j]])
           && FetchedSizes(n, respond, digest)[j] == |respond(acc[j]).value.body.value|
  {
    if n > 0 {
      FetchedByIndex(missing, n - 1, respond, digest);
    }
  }

  /** The episode directory's files after the first `n` page requests of a
      pass: each accepted reply is written, in order, under its page's
      basename. */
  function StoredListing(d: Listing, missing: seq<string>, n: nat,
                         respond: nat -> Option<Response>, digest: Bytes -> string): Listing
    requires n <= |missing|
  {
    if n == 0 then d
    else
      var before := StoredListing(d, missing, n - 1, respond, digest);
      if Accepted(respond(n - 1), digest) then before[Basename(missing[n - 1]) := Blob(respond(n - 1).value.body.value)]
      else before
  }

  /** The tree after the first `n` page requests of a pass: only the
      episode directory changes, and only when it exists. */
  function PagesStored(fs: Tree, epRoot: Path, missing: seq<string>, n: nat,
                       respond: nat -> Option<Response>, digest: Bytes -> string): (r: Tree)
    requires n <= |missing|
    ensures r.Keys == fs.Keys
    ensures forall q :: q in fs && q != epRoot ==> r[q] == fs[q]
  {
    if epRoot in fs then fs[epRoot := StoredListing(fs[epRoot], missing, n, respond, digest)] else fs
  }

  /** One more request is one more `down_to`. */
  lemma PagesStoredStep(fs: Tree, epRoot: Path, missing: seq<string>, n: nat,
                        respond: nat -> Option<Response>, digest: Bytes -> string)
    requires n < |missing|
    ensures PagesStored(fs, epRoot, missing, n + 1, respond, digest)
         == DownTo(PagesStored(fs, epRoot, missing, n, respond, digest), respond(n), digest, epRoot, Basename(missing[n])).1
  {
  }

  /** The last of the first `n` requests whose accepted reply was written
      under `name`, if any. */
  function LastWriter(missing: seq<string>, n: nat, name: string, respond: nat -> Option<Response>,
                      digest: Bytes -> string): (r: Option<nat>)
    requires n <= |missing|
    ensures r.Some? ==> r.value < n && Accepted(respond(r.value), digest) && Basename(missing[r.value]) == name
    ensures r.Some? ==> forall k :: r.value < k < n ==> !(Accepted(respond(k), digest) && Basename(missing[k]) == name)
    ensures r.None? ==> forall k :: 0 <= k < n ==> !(Accepted(respond(k), digest) && Basename(missing[k]) == name)
  {
    if n == 0 then None
    else if Accepted(respond(n - 1), digest) && Basename(missing[n - 1]) == name then Some(n - 1)
    else LastWriter(missing, n - 1, name, respond, digest)
  }

  /** A file written by an accepted reply holds the body of the last
      accepted reply written under its name. */
  lemma {:induction false} StoredWritten(d: Listing, missing: seq<string>, n: nat,
                                         respond: nat -> Option<Response>, digest: Bytes -> string,
                                         name: string, w: nat)
    requires n <= |missing|
    requires LastWriter(missing, n, name, respond, digest) == Some(w)
    ensures name in StoredListing(d, missing, n, respond, digest)
    ensures StoredListing(d, missing, n, respond, digest)[name] == Blob(respond(w).value.body.value)
  {
    if !(Accepted(respond(n - 1), digest) && Basename(missing[n - 1]) == name) {
      StoredWritten(d, missing, n - 1, respond, digest, name, w);
    }
  }

  /** A file no accepted reply was written under is as it was: present
      exactly when it was before, with the same content. */
  lemma {:induction false} StoredUntouched(d: Listing, missing: seq<string>, n: nat,
                                           respond: nat -> Option<Response>, digest: Bytes -> string, name: string)
    requires n <= |missing|
    requires LastWriter(missing, n, name, respond, digest).None?
    ensures name in StoredListing(d, missing, n, respond, digest) <==> name in d
    ensures name in d ==> StoredListing(d, missing, n, respond, digest)[name] == d[name]
  {
    if n > 0 {
      StoredUntouched(d, missing, n - 1, respond, digest, name);
    }
  }

  /** The first `n` requests only add files: each stored file is there as a
      blob, every file that was there still is, unchanged unless stored
      again, and every new file is a stored one. */
  lemma {:induction false} StoredShape(d: Listing, missing: seq<string>, n: nat,
                                       respond: nat -> Option<Response>, digest: Bytes -> string)
    requires n <= |missing|
    ensures var after := StoredListing(d, missing, n, respond, digest);
      var got := Fetched(missing, n, respond, digest);
      && d.Keys <= after.Keys
      && (forall x :: x in got ==> x in after && after[x].Blob?)
      && (forall x :: x in d && x !in got ==> after[x] == d[x])
      && (forall x :: x in after && x !in d ==> x in got)
  {
    if n > 0 {
      StoredShape(d, missing, n - 1, respond, digest);
    }
  }

  /** The loop of `run_task`: the i-th URL fetches the i-th missing page into
      `epRoot`; a failed page is skipped; a URL with no missing page left to
      go with panics (the `unwrap` of `not_downloaded.get(i)`). `sizes` are
      the `Size` events sent. */
  method DownloadPages(fs: Tree, epRoot: Path, missing: seq<string>, urls: seq<string>,
                       respond: nat -> Option<Response>, digest: Bytes -> string)
    returns (panicked: bool, downloaded: seq<string>, sizes: seq<nat>, fs': Tree)
    ensures panicked <==> |urls| > |missing|
    // the requests made: one per URL, or up to the URL with no page to go with
    ensures var n := if panicked then |missing| else |urls|;
      && downloaded == (if epRoot in fs then Fetched(missing, n, respond, digest) else [])
      && sizes == (if epRoot in fs then FetchedSizes(n, respond, digest) else [])
      && fs' == PagesStored(fs, epRoot, missing, n, respond, digest)
    ensures |sizes| == |downloaded|
    ensures forall x :: x in downloaded ==> x in Basenames(missing)
    ensures fs'.Keys == fs.Keys
    ensures forall q :: q in fs && q != epRoot ==> fs'[q] == fs[q]
    ensures epRoot in fs ==> fs[epRoot].Keys <= fs'[epRoot].Keys
    ensures epRoot in fs ==> forall n :: n in downloaded ==> n in fs'[epRoot] && fs'[epRoot][n].Blob?
    ensures epRoot in fs ==> forall n :: n in fs[epRoot] && n !in downloaded ==> fs'[epRoot][n] == fs[epRoot][n]
    ensures epRoot in fs ==> forall n :: n in fs'[epRoot] && n !in fs[epRoot] ==> n in downloaded
  {
    fs' := fs;
    downloaded := [];
    sizes := [];
    for i := 0 to |urls|
      invariant i <= |missing|
      invariant downloaded == (if epRoot in fs then Fetched(missing, i, respond, digest) else [])
      invariant sizes == (if epRoot in fs then FetchedSizes(i, respond, digest) else [])
      invariant fs' == PagesStored(fs, epRoot, missing, i, respond, digest)
      invariant |sizes| == |downloaded|
    {
      if i >= |missing| {
        if epRoot in fs {
          StoredShape(fs[epRoot], missing, i, respond, digest);
        }
        return true, downloaded, sizes, fs';
      }
      var name := Basename(missing[i]);
      var result := DownTo(fs', respond(i), digest, epRoot, name);
      PagesStoredStep(fs, epRoot, missing, i, respond, digest);
      if result.0.Some? {
        fs' := result.1;
        downloaded := downloaded + [name];
        sizes := sizes + [result.0.value];
      }
    }
    panicked := false;
    if epRoot in fs {
      StoredShape(fs[epRoot], missing, |urls|, respond, digest);
    }
  }

  /** The episode's page paths all name images, so no page file can
      overwrite `meta.toml`. */
  predicate PagesAreImages(paths: seq<string>) {
    forall p :: p in paths ==> IsImageName(Basename(p))
  }

  /** The episode in `dir` loads and has no missing page. */
  predicate Complete(fs: Tree, dir: Path) {
    LoadEpisode(fs, dir).Some? && Missing(LoadEpisode(fs, dir).value) == []
  }

  /** Only jpg and png files count as present pages, so an episode whose
      page list names any other file is never complete, however many passes
      store that file: every fetch downloads it again. */
  lemma NonImagePageNeverComplete(fs: Tree, dir: Path, p: string)
    requires LoadEpisode(fs, dir).Some? && p in LoadEpisode(fs, dir).value.paths
    requires !IsImageName(Basename(p))
    ensures !Complete(fs, dir)
  {
    var ep := LoadEpisode(fs, dir).value;
    assert Basename(p) !in ep.files;
    assert p in Missing(ep);
  }

  /** When every missing page of `record` has been stored, the files it
      knew of are still there, and the directory holds its record, the
      episode loads back complete. */
  lemma PassCompletes(before: Tree, after: Tree, dir: Path, record: EpisodeCache, downloaded: seq<string>)
    requires DirId(dir).Some? && dir in before && dir in after
    requires EpisodeRecord(after, dir) == Some(RecordOf(record))
    requires record.files <= ImageFiles(before[dir])
    requires before[dir].Keys <= after[dir].Keys
    requires PagesAreImages(record.paths)
    requires forall p :: p in Missing(record) ==> Basename(p) in downloaded
    requires forall n :: n in downloaded ==> n in after[dir]
    ensures Complete(after, dir)
  {
    var loaded := LoadEpisode(after, dir).value;
    assert loaded.paths == record.paths;
    forall i | 0 <= i < |loaded.paths| ensures Basename(loaded.paths[i]) in loaded.files {
      var p := loaded.paths[i];
      assert p in record.paths;
      if Basename(p) !in record.files {
        assert p in Missing(record);
      }
    }
    MissingEmptyIff(loaded);
  }

  /** Downloads that store only page images leave `meta.toml` alone. */
  lemma RecordSurvivesPages(before: Tree, after: Tree, dir: Path, missing: seq<string>, downloaded: seq<string>)
    requires dir in before && dir in after
    requires PagesAreImages(missing)
    requires forall x :: x in downloaded ==> x in Basenames(missing)
    requires before[dir].Keys <= after[dir].Keys
    requires forall n :: n in before[dir] && n !in downloaded ==> after[dir][n] == before[dir][n]
    requires forall n :: n in after[dir] && n !in before[dir] ==> n in downloaded
    ensures EpisodeRecord(after, dir) == EpisodeRecord(before, dir)
  {
    MetaFileNotImage();
    forall k | 0 <= k < |missing| ensures Basenames(missing)[k] != MetaFile {
      assert missing[k] in missing;
    }
    assert MetaFile !in downloaded;
  }

  /** How many page requests a pass makes with `urls`: one per URL, up to
      the first URL with no missing page left to go with it. */
  function Requests(urls: seq<string>, requested: seq<string>): (r: nat)
    ensures r <= |urls| && r <= |requested|
    ensures r == |urls| || r == |requested|
  {
    if |urls| <= |requested| then |urls| else |requested|
  }

  /** The tree a pass downloads into: for an episode with no record on disk
      the new record is written first. */
  function Synced(fs: Tree, epCache: Option<EpisodeCache>, record: EpisodeCache, epRoot: Path): Tree {
    if epCache.None? then SyncEpisode(fs, record, epRoot) else fs
  }

  /** The outcome of a pass and the tree it leaves. */
  datatype PassResult = PassResult(outcome: PassOutcome, fs: Tree)

  /** `run_task` as a function of the disk and the server's replies. */
  function Pass(fs: Tree, ep: EpisodeInfo, epCache: Option<EpisodeCache>, epRoot: Path,
                index: Option<EpisodeImages>, tokenReply: Option<TokenReply>,
                respond: nat -> Option<Response>, digest: Bytes -> string): PassResult
  {
    match PassRecord(ep, epCache, index, epRoot)
    case None => PassResult(Panicked, fs)
    case Some(record) =>
      var synced := Synced(fs, epCache, record, epRoot);
      var requested := Missing(record);
      match TokenReplyOutcome(tokenReply)
      case NoUrls => PassResult(Failure, synced)
      case TokenPanic => PassResult(Panicked, synced)
      case Urls(urls) =>
        var n := Requests(urls, requested);
        var stored := if epRoot in synced then |Fetched(requested, n, respond, digest)| else 0;
        PassResult(
          if |urls| > |requested| then Panicked else if stored == |requested| then Success else Failure,
          PagesStored(synced, epRoot, requested, n, respond, digest))
  }

  /** A pass succeeds exactly when it has a record to work from, the token
      reply holds one URL per missing page, and, when a page is missing, the
      episode directory exists to store into and every page reply is
      accepted. */
  lemma PassSucceedsIff(fs: Tree, ep: EpisodeInfo, epCache: Option<EpisodeCache>, epRoot: Path,
                        index: Option<EpisodeImages>, tokenReply: Option<TokenReply>,
                        respond: nat -> Option<Response>, digest: Bytes -> string)
    ensures Pass(fs, ep, epCache, epRoot, index, tokenReply, respond, digest).outcome == Success <==>
      && PassRecord(ep, epCache, index, epRoot).Some?
      && var record := PassRecord(ep, epCache, index, epRoot).value;
      && TokenReplyOutcome(tokenReply).Urls?
      && |TokenReplyOutcome(tokenReply).urls| == |Missing(record)|
      && (Missing(record) == [] || epRoot in Synced(fs, epCache, record, epRoot))
      && forall k :: 0 <= k < |Missing(record)| ==> Accepted(respond(k), digest)
  {
    var record := PassRecord(ep, epCache, index, epRoot);
    if record.Some? && TokenReplyOutcome(tokenReply).Urls? {
      var requested := Missing(record.value);
      var urls := TokenReplyOutcome(tokenReply).urls;
      var n := Requests(urls, requested);
      var synced := Synced(fs, epCache, record.value, epRoot);
      FetchedAll(requested, n, respond, digest);
      if |urls| == |requested| {
        assert n == |requested|;
      } else if |urls| < |requested| && epRoot in synced {
        assert |Fetched(requested, n, respond, digest)| < |requested|;
      }
    }
  }

  /** What a pass does to the disk: it only adds files, and directories on
      the way to the episode's; outside the episode directory nothing
      changes. With image pages only, a new episode's record is on disk
      afterwards and a known one's is untouched, and after a successful
      pass over the record on disk the episode loads back complete. */
  lemma PassEffects(fs: Tree, ep: EpisodeInfo, epCache: Option<EpisodeCache>, epRoot: Path,
                    index: Option<EpisodeImages>, tokenReply: Option<TokenReply>,
                    respond: nat -> Option<Response>, digest: Bytes -> string)
    ensures var pass := Pass(fs, ep, epCache, epRoot, index, tokenReply, respond, digest);
      var record := PassRecord(ep, epCache, index, epRoot);
      && GrowsOnly(fs, pass.fs, epRoot)
      && (epCache.None? && record.Some? && PagesAreImages(record.value.paths) ==>
            EpisodeRecord(pass.fs, epRoot) == Some(RecordOf(record.value)))
      && (epCache.Some? && PagesAreImages(epCache.value.paths) ==>
            EpisodeRecord(pass.fs, epRoot) == EpisodeRecord(fs, epRoot))
      && ((pass.outcome == Success && DirId(epRoot).Some? && (epCache.None? || epCache == LoadEpisode(fs, epRoot))
           && PagesAreImages(record.value.paths)) ==> Complete(pass.fs, epRoot))
  {
    var pass := Pass(fs, ep, epCache, epRoot, index, tokenReply, respond, digest);
    var record := PassRecord(ep, epCache, index, epRoot);
    if record.Some? {
      var cache := record.value;
      var synced := Synced(fs, epCache, cache, epRoot);
      var requested := Missing(cache);
      var tokens := TokenReplyOutcome(tokenReply);
      var success := pass.outcome == Success;
      if tokens.Urls? {
        var n := Requests(tokens.urls, requested);
        var downloaded := if epRoot in synced then Fetched(requested, n, respond, digest) else [];
        if epRoot in synced {
          StoredShape(synced[epRoot], requested, n, respond, digest);
          if success {
            FetchedEvery(requested, n, respond, digest);
          }
        }
        RunTaskEffects(fs, synced, pass.fs, epCache, epRoot, cache, requested, downloaded, success);
      } else {
        RunTaskEffects(fs, synced, synced, epCache, epRoot, cache, requested, [], false);
      }
    }
  }

  /** `run_task`: one pass over an episode. `record` is the entry the pass
      works from, `requested` the `not_downloaded` list computed once at
      its start, `downloaded` the files stored, `sizes` the `Size` events. */
  method RunTask(fs: Tree, ep: EpisodeInfo, epCache: Option<EpisodeCache>, epRoot: Path,
                 index: Option<EpisodeImages>, tokenReply: Option<TokenReply>,
                 respond: nat -> Option<Response>, digest: Bytes -> string)
    returns (outcome: PassOutcome, record: Option<EpisodeCache>, requested: seq<string>,
             downloaded: seq<string>, sizes: seq<nat>, fs': Tree)
    ensures record == PassRecord(ep, epCache, index, epRoot)
    ensures PassResult(outcome, fs') == Pass(fs, ep, epCache, epRoot, index, tokenReply, respond, digest)
    // the files stored and the sizes reported, request by request
    ensures record.Some? && TokenReplyOutcome(tokenReply).Urls? ==>
      var synced := Synced(fs, epCache, record.value, epRoot);
      var n := Requests(TokenReplyOutcome(tokenReply).urls, requested);
      && downloaded == (if epRoot in synced then Fetched(requested, n, respond, digest) else [])
      && sizes == (if epRoot in synced then FetchedSizes(n, respond, digest) else [])
    ensures record.None? || !TokenReplyOutcome(tokenReply).Urls? ==> downloaded == [] && sizes == []
    // no cached entry and no image index: the `unwrap` panics before anything is written
    ensures record.None? ==> outcome == Panicked && fs' == fs
    ensures record.Some? ==> requested == Missing(record.value)
    // the token request failed: the pass fails with no download
    ensures record.Some? && TokenReplyOutcome(tokenReply).NoUrls? ==> outcome == Failure && downloaded == []
    ensures record.Some? && TokenReplyOutcome(tokenReply).TokenPanic? ==> outcome == Panicked
    ensures record.Some? && TokenReplyOutcome(tokenReply).Urls? ==>
      var urls := TokenReplyOutcome(tokenReply).urls;
      && (outcome == Panicked <==> |urls| > |requested|)
      && (outcome == Success <==> |urls| <= |requested| && |downloaded| == |requested|)
    ensures |sizes| == |downloaded|
    ensures forall x :: x in downloaded ==> x in Basenames(requested)
    // files only grow: nothing is deleted anywhere
    ensures forall q :: q in fs ==> q in fs' && fs[q].Keys <= fs'[q].Keys
    ensures forall q :: q in fs && q != epRoot ==> fs'[q] == fs[q]
    ensures forall q :: q in fs' && q !in fs ==> IsPrefix(q, epRoot)
    // a new record is on disk, with its page list, before any download
    ensures epCache.None? && record.Some? && PagesAreImages(record.value.paths) ==>
      EpisodeRecord(fs', epRoot) == Some(RecordOf(record.value))
    ensures epCache.Some? && PagesAreImages(record.value.paths) ==>
      EpisodeRecord(fs', epRoot) == EpisodeRecord(fs, epRoot)
    // a successful pass leaves the episode complete on disk
    ensures (outcome == Success && DirId(epRoot).Some? && (epCache.None? || epCache == LoadEpisode(fs, epRoot))
             && PagesAreImages(record.value.paths)) ==> Complete(fs', epRoot)
  {
    record := PassRecord(ep, epCache, index, epRoot);
    fs' := fs;
    if record.None? {
      return Panicked, record, [], [], [], fs';
    }
    var cache := record.value;
    if epCache.None? {
      fs' := SyncEpisode(fs', cache, epRoot);
    }
    var synced := fs';
    requested := NotDownloaded(cache);
    var payload, tokens := ImageTokens(requested, tokenReply);
    outcome, downloaded, sizes, fs' := DownloadPass(fs, synced, epCache, epRoot, cache, requested, tokens, respond, digest);
  }

  /** The second half of a pass: with the reply to the token request in
      hand, the missing pages are downloaded, and the pass succeeds when
      every one of them was. */
  method DownloadPass(fs: Tree, synced: Tree, epCache: Option<EpisodeCache>, epRoot: Path, cache: EpisodeCache,
                      requested: seq<string>, tokens: TokenOutcome,
                      respond: nat -> Option<Response>, digest: Bytes -> string)
    returns (outcome: PassOutcome, downloaded: seq<string>, sizes: seq<nat>, fs': Tree)
    requires epCache.Some? ==> cache == epCache.value && synced == fs
    requires epCache.None? ==> cache.files == {} && synced == SyncEpisode(fs, cache, epRoot)
    requires requested == Missing(cache)
    ensures tokens.NoUrls? ==> outcome == Failure && downloaded == []
    ensures tokens.TokenPanic? ==> outcome == Panicked
    ensures !tokens.Urls? ==> fs' == synced && downloaded == [] && sizes == []
    ensures tokens.Urls? ==>
      var n := Requests(tokens.urls, requested);
      && downloaded == (if epRoot in synced then Fetched(requested, n, respond, digest) else [])
      && sizes == (if epRoot in synced then FetchedSizes(n, respond, digest) else [])
      && fs' == PagesStored(synced, epRoot, requested, n, respond, digest)
    ensures tokens.Urls? ==>
      && (outcome == Panicked <==> |tokens.urls| > |requested|)
      && (outcome == Success <==> |tokens.urls| <= |requested| && |downloaded| == |requested|)
    ensures |sizes| == |downloaded|
    ensures forall x :: x in downloaded ==> x in Basenames(requested)
    ensures forall q :: q in fs ==> q in fs' && fs[q].Keys <= fs'[q].Keys
    ensures forall q :: q in fs && q != epRoot ==> fs'[q] == fs[q]
    ensures forall q :: q in fs' && q !in fs ==> IsPrefix(q, epRoot)
    ensures epCache.None? && PagesAreImages(cache.paths) ==> EpisodeRecord(fs', epRoot) == Some(RecordOf(cache))
    ensures epCache.Some? && PagesAreImages(cache.paths) ==> EpisodeRecord(fs', epRoot) == EpisodeRecord(fs, epRoot)
    ensures (outcome == Success && DirId(epRoot).Some? && (epCache.None? || epCache == LoadEpisode(fs, epRoot))
             && PagesAreImages(cache.paths)) ==> Complete(fs', epRoot)
  {
    if !tokens.Urls? {
      outcome := if tokens.NoUrls? then Failure else Panicked;
      downloaded, sizes, fs' := [], [], synced;
    } else {
      var panicked;
      panicked, downloaded, sizes, fs' := DownloadPages(synced, epRoot, requested, tokens.urls, respond, digest);
      if panicked {
        outcome := Panicked;
      } else if |requested| == |downloaded| {
        outcome := Success;
      } else {
        outcome := Failure;
      }
      if outcome == Success && epRoot in synced {
        FetchedEvery(requested, |tokens.urls|, respond, digest);
      }
    }
    RunTaskEffects(fs, synced, fs', epCache, epRoot, cache, requested, downloaded, outcome == Success);
  }

  /** What a pass leaves on disk, given what the download loop promises. */
  lemma RunTaskEffects(fs: Tree, synced: Tree, after: Tree, epCache: Option<EpisodeCache>,
                       epRoot: Path, cache: EpisodeCache, requested: seq<string>, downloaded: seq<string>,
                       succeeded: bool)
    requires epCache.Some? ==> cache == epCache.value && synced == fs
    requires epCache.None? ==> cache.files == {} && synced == SyncEpisode(fs, cache, epRoot)
    requires requested == Missing(cache)
    requires forall x :: x in downloaded ==> x in Basenames(requested)
    requires after.Keys == synced.Keys
    requires forall q :: q in synced && q != epRoot ==> after[q] == synced[q]
    requires epRoot in synced ==> synced[epRoot].Keys <= after[epRoot].Keys
    requires epRoot in synced ==> forall n :: n in downloaded ==> n in after[epRoot]
    requires epRoot in synced ==> forall n :: n in synced[epRoot] && n !in downloaded ==> after[epRoot][n] == synced[epRoot][n]
    requires epRoot in synced ==> forall n :: n in after[epRoot] && n !in synced[epRoot] ==> n in downloaded
    requires succeeded ==> forall p :: p in requested ==> Basename(p) in downloaded
    ensures forall q :: q in fs ==> q in after && fs[q].Keys <= after[q].Keys
    ensures forall q :: q in fs && q != epRoot ==> after[q] == fs[q]
    ensures forall q :: q in after && q !in fs ==> IsPrefix(q, epRoot)
    ensures epCache.None? && PagesAreImages(cache.paths) ==> EpisodeRecord(after, epRoot) == Some(RecordOf(cache))
    ensures epCache.Some? && PagesAreImages(cache.paths) ==> EpisodeRecord(after, epRoot) == EpisodeRecord(fs, epRoot)
    ensures (succeeded && DirId(epRoot).Some? && (epCache.None? || epCache == LoadEpisode(fs, epRoot))
             && PagesAreImages(cache.paths)) ==> Complete(after, epRoot)
  {
    PassDiskShape(fs, synced, after, epCache, epRoot, cache);
    if PagesAreImages(cache.paths) && epRoot in synced {
      assert PagesAreImages(requested);
      RecordSurvivesPages(synced, after, epRoot, requested, downloaded);
    }
    if succeeded && DirId(epRoot).Some? && (epCache.None? || epCache == LoadEpisode(fs, epRoot))
       && PagesAreImages(cache.paths) {
      assert epRoot in synced;
      assert EpisodeRecord(synced, epRoot) == Some(RecordOf(cache));
      assert cache.files <= ImageFiles(synced[epRoot]);
      PassCompletes(synced, after, epRoot, cache, downloaded);
    }
  }

  /** A pass adds files and, for a new episode, its directory and the
      directories above it; it changes nothing outside the episode. */
  lemma PassDiskShape(fs: Tree, synced: Tree, after: Tree, epCache: Option<EpisodeCache>, epRoot: Path,
                      cache: EpisodeCache)
    requires epCache.Some? ==> synced == fs
    requires epCache.None? ==> cache.files == {} && synced == SyncEpisode(fs, cache, epRoot)
    requires after.Keys == synced.Keys
    requires forall q :: q in synced && q != epRoot ==> after[q] == synced[q]
    requires epRoot in synced ==> synced[epRoot].Keys <= after[epRoot].Keys
    ensures forall q :: q in fs ==> q in after && fs[q].Keys <= after[q].Keys
    ensures forall q :: q in fs && q != epRoot ==> after[q] == fs[q]
    ensures forall q :: q in after && q !in fs ==> IsPrefix(q, epRoot)
  {
    if epCache.None? {
      assert epRoot in synced;
    }
  }

  /* ---------------- episode selection ---------------- */

  /** The ordering key of a remote episode. */
  function EpOrd(ep: EpisodeInfo): real {
    ep.ord
  }

  /** The `retain` test of `fetch`: a locked episode is dropped, a cached
      one is kept when some page is still missing, an uncached one is kept. */
  function NeedsFetch(comic: ComicCache): EpisodeInfo -> bool {
    (ep: EpisodeInfo) =>
      !ep.isLocked && (GetEpisode(comic, ep.id).Some? ==> Missing(GetEpisode(comic, ep.id).value) != [])
  }

  /** An episode is fetched when it is unlocked and either not cached or
      cached with some page whose file is absent. */
  lemma NeedsFetchIff(comic: ComicCache, ep: EpisodeInfo)
    ensures NeedsFetch(comic)(ep) <==>
      !ep.isLocked
      && (ep.id in comic.episodes ==>
            exists i :: 0 <= i < |comic.episodes[ep.id].paths|
              && Basename(comic.episodes[ep.id].paths[i]) !in comic.episodes[ep.id].files)
  {
    if ep.id in comic.episodes {
      MissingEmptyIff(comic.episodes[ep.id]);
    }
  }

  /** What `fetch` goes on to download: the candidates that need pages,
      narrowed by the range in the remote order. */
  function Candidates(epList: seq<EpisodeInfo>, comic: ComicCache, range: string, parse: string -> Option<real>)
    : seq<EpisodeInfo>
    requires Filter(epList, NeedsFetch(comic)) == [] || range == "" || RangeWellFormed(range)
  {
    RangeSelection(Filter(epList, NeedsFetch(comic)), range, EpOrd, parse)
  }

  /** The selection step of `fetch`: `retain` the episodes that need pages,
      apply the range, stop when nothing is left (`None`), and otherwise
      sort by ordering key. */
  method SelectEpisodes(epList: seq<EpisodeInfo>, comic: ComicCache, range: string, parse: string -> Option<real>)
    returns (r: Option<seq<EpisodeInfo>>)
    requires Filter(epList, NeedsFetch(comic)) == [] || range == "" || RangeWellFormed(range)
    ensures r.None? <==> Candidates(epList, comic, range, parse) == []
    ensures r.Some? ==> multiset(r.value) == multiset(Candidates(epList, comic, range, parse))
    ensures r.Some? ==> SortedBy(r.value, EpOrd)
    ensures r.Some? ==> forall e :: e in r.value ==>
      e in epList && !e.isLocked && (e.id in comic.episodes ==> Missing(comic.episodes[e.id]) != [])
  {
    var list := Filter(epList, NeedsFetch(comic));
    list := ApplyRange(list, range, EpOrd, parse);
    if list == [] {
      return None;
    }
    SortByKeySorted(list, EpOrd);
    CandidatesNeedFetch(epList, comic, range, parse);
    r := Some(SortByKey(list, EpOrd));
    forall e | e in r.value
      ensures e in epList && !e.isLocked && (e.id in comic.episodes ==> Missing(comic.episodes[e.id]) != [])
    {
      assert e in multiset(r.value);
    }
  }

  /** Every candidate is a remote episode that needs fetching. */
  lemma CandidatesNeedFetch(epList: seq<EpisodeInfo>, comic: ComicCache, range: string, parse: string -> Option<real>)
    requires Filter(epList, NeedsFetch(comic)) == [] || range == "" || RangeWellFormed(range)
    ensures forall e :: e in Candidates(epList, comic, range, parse) ==>
      e in epList && !e.isLocked && (e.id in comic.episodes ==> Missing(comic.episodes[e.id]) != [])
  {
    var kept := Filter(epList, NeedsFetch(comic));
    forall e | e in Candidates(epList, comic, range, parse)
      ensures e in epList && !e.isLocked && (e.id in comic.episodes ==> Missing(comic.episodes[e.id]) != [])
    {
      assert e in kept;
      assert NeedsFetch(comic)(e);
    }
  }

  /** The range keeps the candidates in the remote order, and a candidate
      is dropped by the range only when its key is outside every interval. */
  lemma CandidatesInRemoteOrder(epList: seq<EpisodeInfo>, comic: ComicCache, range: string, parse: string -> Option<real>)
    requires Filter(epList, NeedsFetch(comic)) == [] || range == "" || RangeWellFormed(range)
    ensures IsSubseq(Candidates(epList, comic, range, parse), epList)
  {
    var kept := Filter(epList, NeedsFetch(comic));
    RangeSelectionIsSubseq(kept, range, EpOrd, parse);
    FilterIsSubseq(epList, NeedsFetch(comic));
    SubseqTrans(Candidates(epList, comic, range, parse), kept, epList);
  }

  /* ---------------- the download worker ---------------- */

  /** The server's replies during one pass: the image index, the token
      reply, and the reply to each page request. */
  datatype Attempt = Attempt(index: Option<EpisodeImages>, tokenReply: Option<TokenReply>,
                             respond: nat -> Option<Response>)

  /** How a worker ends: after `passes` passes the last one succeeded, a pass
      panicked and took the worker down, or the attempts given ran out while
      it was still retrying. */
  datatype WorkerEnd = Done(passes: nat) | WorkerPanicked | StillRetrying

  /** What is on disk as the episode's record lists image page names only. */
  predicate RecordPagesAreImages(fs: Tree, dir: Path) {
    EpisodeRecord(fs, dir).Some? ==> PagesAreImages(EpisodeRecord(fs, dir).value.paths)
  }

  /** The worker of one episode: load the episode's record from disk, run a
      pass, and start over after a failed one. `attempts` holds the replies
      of successive passes; the source retries without end. */
  method Worker(fs: Tree, ep: EpisodeInfo, epRoot: Path, attempts: seq<Attempt>, digest: Bytes -> string,
                ghost pass: (Tree, Attempt) -> PassResult)
    returns (end: WorkerEnd, outcomes: seq<PassOutcome>, fs': Tree)
    requires StepIs(pass, ep, epRoot, digest)
    ensures WorkerResult(end, outcomes, fs') == WorkerRun(fs, attempts, pass)
    ensures WorkerShape(WorkerResult(end, outcomes, fs'), |attempts|)
    ensures GrowsOnly(fs, fs', epRoot)
    ensures (DirId(epRoot).Some? && RecordPagesAreImages(fs, epRoot) && AttemptsAreImages(attempts))
            ==> RecordPagesAreImages(fs', epRoot) && (end.Done? ==> Complete(fs', epRoot))
  {
    ghost var run := WorkerRun(fs, attempts, pass);
    fs' := fs;
    outcomes := [];
    end := StillRetrying;
    WorkerStart(fs, attempts, pass);
    for i := 0 to |attempts|
      invariant end == StillRetrying && outcomes == Failures(i)
      invariant run == AfterFailures(i, WorkerRun(fs', attempts[i..], pass))
    {
      var outcome, next;
      outcome, next := WorkerPass(fs', ep, epRoot, attempts[i], digest, pass);
      WorkerAdvance(run, fs', attempts, i, pass);
      fs' := next;
      outcomes := outcomes + [outcome];
      if outcome == Success {
        end := Done(|outcomes|);
        assert WorkerResult(end, outcomes, fs') == run;
        break;
      }
      if outcome == Panicked {
        end := WorkerPanicked;
        assert WorkerResult(end, outcomes, fs') == run;
        break;
      }
    }
    if end == StillRetrying {
      WorkerFinish(run, fs', attempts, pass);
    }
    assert WorkerResult(end, outcomes, fs') == run;
    WorkerRunProperties(fs, ep, epRoot, attempts, digest, pass);
  }

  /** What the worker's run promises: the shape of its outcomes, a tree
      grown only inside the episode directory, and, when every index lists
      image pages only, a record that still does and a complete episode when
      it is done. */
  lemma WorkerRunProperties(fs: Tree, ep: EpisodeInfo, epRoot: Path, attempts: seq<Attempt>, digest: Bytes -> string,
                            pass: (Tree, Attempt) -> PassResult)
    requires StepIs(pass, ep, epRoot, digest)
    ensures var run := WorkerRun(fs, attempts, pass);
      && WorkerShape(run, |attempts|)
      && GrowsOnly(fs, run.fs, epRoot)
      && (DirId(epRoot).Some? && RecordPagesAreImages(fs, epRoot) && AttemptsAreImages(attempts) ==>
            RecordPagesAreImages(run.fs, epRoot) && (run.end.Done? ==> Complete(run.fs, epRoot)))
  {
    WorkerRunOutcomes(fs, attempts, pass);
    StepEffects(ep, epRoot, digest, pass);
    WorkerRunGrows(fs, attempts, pass, epRoot);
    if DirId(epRoot).Some? && RecordPagesAreImages(fs, epRoot) && AttemptsAreImages(attempts) {
      WorkerRunImages(fs, attempts, pass, epRoot);
    }
  }

  /** The image index of a pass, if it arrives, lists image pages only. */
  predicate AttemptIsImages(a: Attempt) {
    a.index.Some? ==> PagesAreImages(a.index.value.paths)
  }

  /** Every image index the server sends lists image pages only. */
  predicate AttemptsAreImages(attempts: seq<Attempt>) {
    forall i :: 0 <= i < |attempts| ==> AttemptIsImages(attempts[i])
  }

  /** The tree only grows, and only inside `dir`: no directory or file
      disappears, directories other than `dir` keep their files, and every
      new directory is `dir` or one above it. */
  predicate GrowsOnly(before: Tree, after: Tree, dir: Path) {
    && (forall q :: q in before ==> q in after && before[q].Keys <= after[q].Keys)
    && (forall q :: q in before && q != dir ==> after[q] == before[q])
    && (forall q :: q in after && q !in before ==> IsPrefix(q, dir))
  }

  /** A pass of the worker leaves the record on disk listing image pages
      only, and a successful one leaves the episode complete. */
  predicate KeepsImages(before: Tree, r: PassResult, dir: Path) {
    RecordPagesAreImages(before, dir) ==>
      RecordPagesAreImages(r.fs, dir) && (r.outcome == Success ==> Complete(r.fs, dir))
  }

  /** The worker's pass grows the tree only inside the episode directory,
      and, when its index lists image pages only, keeps the record's pages
      images and completes the episode when it succeeds. */
  lemma StepEffects(ep: EpisodeInfo, epRoot: Path, digest: Bytes -> string, pass: (Tree, Attempt) -> PassResult)
    requires StepIs(pass, ep, epRoot, digest)
    ensures forall t: Tree, a: Attempt :: GrowsOnly(t, pass(t, a).fs, epRoot)
    ensures DirId(epRoot).Some? ==> forall t: Tree, a: Attempt :: AttemptIsImages(a) ==> KeepsImages(t, pass(t, a), epRoot)
  {
    forall t: Tree, a: Attempt
      ensures GrowsOnly(t, pass(t, a).fs, epRoot)
      ensures DirId(epRoot).Some? && AttemptIsImages(a) ==> KeepsImages(t, pass(t, a), epRoot)
    {
      assert pass(t, a) == PassOn(t, ep, epRoot, a, digest);
      PassEffects(t, ep, LoadEpisode(t, epRoot), epRoot, a.index, a.tokenReply, a.respond, digest);
    }
  }

  /** A pass of the worker: the record is reloaded from disk first. */
  function PassOn(fs: Tree, ep: EpisodeInfo, epRoot: Path, a: Attempt, digest: Bytes -> string): PassResult {
    Pass(fs, ep, LoadEpisode(fs, epRoot), epRoot, a.index, a.tokenReply, a.respond, digest)
  }

  /** `pass` is the worker's pass: reload the record, then run `run_task`. */
  ghost predicate StepIs(pass: (Tree, Attempt) -> PassResult, ep: EpisodeInfo, epRoot: Path, digest: Bytes -> string) {
    forall t: Tree, a: Attempt {:trigger PassOn(t, ep, epRoot, a, digest)} :: pass(t, a) == PassOn(t, ep, epRoot, a, digest)
  }

  /** The pass the worker of `ep` runs on each turn. */
  function WorkerStep(ep: EpisodeInfo, epRoot: Path, digest: Bytes -> string): (r: (Tree, Attempt) -> PassResult)
    ensures StepIs(r, ep, epRoot, digest)
  {
    (fs: Tree, a: Attempt) => PassOn(fs, ep, epRoot, a, digest)
  }

  /** How a worker ends, the outcome of each of its passes, and the tree it
      leaves. */
  datatype WorkerResult = WorkerResult(end: WorkerEnd, outcomes: seq<PassOutcome>, fs: Tree)

  /** The worker's loop as a function of the disk and the replies of
      successive passes, each run by `pass` on the disk the previous one
      left: a failure starts another pass, and success or a panic ends it. */
  function WorkerRun(fs: Tree, attempts: seq<Attempt>, pass: (Tree, Attempt) -> PassResult): WorkerResult
    decreases |attempts|
  {
    if attempts == [] then WorkerResult(StillRetrying, [], fs)
    else
      var r := pass(fs, attempts[0]);
      if r.outcome == Success then WorkerResult(Done(1), [Success], r.fs)
      else if r.outcome == Panicked then WorkerResult(WorkerPanicked, [Panicked], r.fs)
      else AfterFailures(1, WorkerRun(r.fs, attempts[1..], pass))
  }

  /** The worker from its `i`-th attempt on: the pass of that attempt, then
      the rest when it failed. */
  lemma WorkerRunFrom(fs: Tree, attempts: seq<Attempt>, i: nat, pass: (Tree, Attempt) -> PassResult)
    requires i < |attempts|
    ensures var r := pass(fs, attempts[i]);
      WorkerRun(fs, attempts[i..], pass) ==
        if r.outcome == Success then WorkerResult(Done(1), [Success], r.fs)
        else if r.outcome == Panicked then WorkerResult(WorkerPanicked, [Panicked], r.fs)
        else AfterFailures(1, WorkerRun(r.fs, attempts[i + 1..], pass))
  {
    assert attempts[i..][0] == attempts[i] && attempts[i..][1..] == attempts[i + 1..];
  }

  /** Before the first pass, the whole run is ahead. */
  lemma WorkerStart(fs: Tree, attempts: seq<Attempt>, pass: (Tree, Attempt) -> PassResult)
    ensures WorkerRun(fs, attempts, pass) == AfterFailures(0, WorkerRun(fs, attempts[0..], pass))
  {
    assert attempts[0..] == attempts;
    assert Failures(0) + WorkerRun(fs, attempts, pass).outcomes == WorkerRun(fs, attempts, pass).outcomes;
  }

  /** After `i` failed passes, the `i`-th pass either ends the run or is
      one more failure before the rest. */
  lemma WorkerAdvance(run: WorkerResult, fs: Tree, attempts: seq<Attempt>, i: nat, pass: (Tree, Attempt) -> PassResult)
    requires i < |attempts|
    requires run == AfterFailures(i, WorkerRun(fs, attempts[i..], pass))
    ensures var r := pass(fs, attempts[i]);
      && (r.outcome == Success ==> run == WorkerResult(Done(i + 1), Failures(i) + [Success], r.fs))
      && (r.outcome == Panicked ==> run == WorkerResult(WorkerPanicked, Failures(i) + [Panicked], r.fs))
      && (r.outcome == Failure ==> run == AfterFailures(i + 1, WorkerRun(r.fs, attempts[i + 1..], pass)))
  {
    var r := pass(fs, attempts[i]);
    WorkerRunFrom(fs, attempts, i, pass);
    if r.outcome == Failure {
      AfterFailuresAdd(i, 1, WorkerRun(r.fs, attempts[i + 1..], pass));
    }
  }

  /** Once every attempt has failed, the run is over. */
  lemma WorkerFinish(run: WorkerResult, fs: Tree, attempts: seq<Attempt>, pass: (Tree, Attempt) -> PassResult)
    requires run == AfterFailures(|attempts|, WorkerRun(fs, attempts[|attempts|..], pass))
    ensures run == WorkerResult(StillRetrying, Failures(|attempts|), fs)
  {
    assert attempts[|attempts|..] == [];
    assert Failures(|attempts|) + [] == Failures(|attempts|);
  }

  /** A worker's result preceded by `k` failed passes. */
  function AfterFailures(k: nat, r: WorkerResult): WorkerResult {
    WorkerResult(if r.end.Done? then Done(r.end.passes + k) else r.end, Failures(k) + r.outcomes, r.fs)
  }

  /** `k` failed passes. */
  function Failures(k: nat): (r: seq<PassOutcome>)
    ensures |r| == k && forall i :: 0 <= i < k ==> r[i] == Failure
  {
    if k == 0 then [] else Failures(k - 1) + [Failure]
  }

  /** Failed passes add up. */
  lemma AfterFailuresAdd(i: nat, j: nat, r: WorkerResult)
    ensures AfterFailures(i, AfterFailures(j, r)) == AfterFailures(i + j, r)
  {
    FailuresAdd(i, j);
    assert Failures(i) + (Failures(j) + r.outcomes) == Failures(i + j) + r.outcomes;
  }

  lemma {:induction false} FailuresAdd(i: nat, j: nat)
    ensures Failures(i) + Failures(j) == Failures(i + j)
  {
    if j > 0 {
      FailuresAdd(i, j - 1);
      assert Failures(i) + Failures(j) == (Failures(i) + Failures(j - 1)) + [Failure];
    }
  }

  /** What a worker given `n` attempts can end with. */
  predicate WorkerShape(r: WorkerResult, n: nat) {
    && |r.outcomes| <= n
    && (forall i :: 0 <= i < |r.outcomes| - 1 ==> r.outcomes[i] == Failure)
    && (r.end.Done? <==> r.outcomes != [] && r.outcomes[|r.outcomes| - 1] == Success)
    && (r.end.Done? ==> r.end.passes == |r.outcomes|)
    && (r.end.WorkerPanicked? <==> r.outcomes != [] && r.outcomes[|r.outcomes| - 1] == Panicked)
    && (r.end.StillRetrying? <==> |r.outcomes| == n && (r.outcomes == [] || r.outcomes[|r.outcomes| - 1] == Failure))
  }

  /** The passes of a worker: all but the last failed; the worker is done
      exactly when the last succeeded, after as many passes as it ran, and
      panicked exactly when the last panicked; it runs at most one pass per
      attempt, and every one of them when it is still retrying. */
  lemma {:induction false} WorkerRunOutcomes(fs: Tree, attempts: seq<Attempt>, pass: (Tree, Attempt) -> PassResult)
    ensures WorkerShape(WorkerRun(fs, attempts, pass), |attempts|)
    decreases |attempts|
  {
    if attempts != [] && pass(fs, attempts[0]).outcome == Failure {
      WorkerRunOutcomes(pass(fs, attempts[0]).fs, attempts[1..], pass);
    }
  }

  /** Passes that each grow the tree only inside `dir` make a worker that
      does. */
  lemma {:induction false} WorkerRunGrows(fs: Tree, attempts: seq<Attempt>, pass: (Tree, Attempt) -> PassResult, dir: Path)
    requires forall t: Tree, a: Attempt :: GrowsOnly(t, pass(t, a).fs, dir)
    ensures GrowsOnly(fs, WorkerRun(fs, attempts, pass).fs, dir)
    decreases |attempts|
  {
    if attempts != [] {
      var r := pass(fs, attempts[0]);
      if r.outcome == Failure {
        WorkerRunGrows(r.fs, attempts[1..], pass, dir);
        GrowsTrans(fs, r.fs, WorkerRun(r.fs, attempts[1..], pass).fs, dir);
      }
    }
  }

  /** Passes that keep the record's pages images, and complete the episode
      when they succeed, make a worker that does. */
  lemma {:induction false} WorkerRunImages(fs: Tree, attempts: seq<Attempt>, pass: (Tree, Attempt) -> PassResult, dir: Path)
    requires forall t: Tree, a: Attempt :: AttemptIsImages(a) ==> KeepsImages(t, pass(t, a), dir)
    requires AttemptsAreImages(attempts)
    requires RecordPagesAreImages(fs, dir)
    ensures RecordPagesAreImages(WorkerRun(fs, attempts, pass).fs, dir)
    ensures WorkerRun(fs, attempts, pass).end.Done? ==> Complete(WorkerRun(fs, attempts, pass).fs, dir)
    decreases |attempts|
  {
    if attempts != [] {
      var r := pass(fs, attempts[0]);
      assert AttemptIsImages(attempts[0]);
      assert KeepsImages(fs, r, dir);
      if r.outcome == Failure {
        assert AttemptsAreImages(attempts[1..]) by {
          forall i | 0 <= i < |attempts[1..]| ensures AttemptIsImages(attempts[1..][i]) {
            assert attempts[1..][i] == attempts[i + 1];
          }
        }
        WorkerRunImages(r.fs, attempts[1..], pass, dir);
      }
    }
  }

  /** One turn of the worker's loop: reload the record from disk and run a
      pass with it. */
  method WorkerPass(fs: Tree, ep: EpisodeInfo, epRoot: Path, attempt: Attempt, digest: Bytes -> string,
                    ghost pass: (Tree, Attempt) -> PassResult)
    returns (outcome: PassOutcome, fs': Tree)
    requires StepIs(pass, ep, epRoot, digest)
    ensures PassResult(outcome, fs') == pass(fs, attempt)
  {
    var epCache := LoadEpisode(fs, epRoot);
    var record, requested, downloaded, sizes;
    outcome, record, requested, downloaded, sizes, fs' :=
      RunTask(fs, ep, epCache, epRoot, attempt.index, attempt.tokenReply, attempt.respond, digest);
    assert pass(fs, attempt) == PassOn(fs, ep, epRoot, attempt, digest);
  }

  /** Growing the tree inside `dir` twice is growing it once. */
  lemma GrowsTrans(a: Tree, b: Tree, c: Tree, dir: Path)
    requires GrowsOnly(a, b, dir) && GrowsOnly(b, c, dir)
    ensures GrowsOnly(a, c, dir)
  {
  }

  /* ---------------- refreshing the comic's cache entry ---------------- */

  /** The comic record `fetch` saves: a cached comic keeps its authors, tags
      and episodes and takes the remote title; an uncached one starts from
      the remote title, authors and styles with no episodes. */
  function RefreshedComic(comics: map<u32, ComicCache>, id: u32, info: ComicInfo): ComicCache {
    match GetComic(comics, id)
    case Some(comic) => comic.(title := info.title)
    case None => ComicCache(id, info.title, info.authorName, info.styles, map[])
  }

  /** The first half of `fetch`: make sure the comic's directory exists,
      refresh its record, download the cover when there is no `cover.jpg`
      (the process exits, `None`, when that fails) and sync the record.
      `coverReply` is the reply to the cover request. */
  method PrepareComic(fs: Tree, comics: map<u32, ComicCache>, cacheRoot: Path, id: u32, info: ComicInfo,
                      coverReply: Option<Response>, digest: Bytes -> string)
    returns (r: Option<ComicCache>, fs': Tree)
    ensures var dir := cacheRoot + [NatToString(id)];
      r.None? <==> (dir !in fs || CoverFile !in fs[dir]) && !Accepted(coverReply, digest)
    ensures r.Some? ==> r.value == RefreshedComic(comics, id, info)
    ensures r.Some? ==> var dir := cacheRoot + [NatToString(id)];
      && ComicRecord(fs', dir) == Some(ComicMeta(info.title, r.value.authorNames, r.value.tags))
      && CoverFile in fs'[dir]
      && forall e :: e in r.value.episodes ==>
           EpisodeRecord(fs', dir + [NatToString(e)]) == Some(RecordOf(r.value.episodes[e]))
    ensures forall q :: q in fs ==> q in fs' && fs[q].Keys <= fs'[q].Keys
    ensures forall q :: q in fs && !IsPrefix(cacheRoot + [NatToString(id)], q) ==> fs'[q] == fs[q]
    // new directories: the comic's directory, its ancestors and its episode directories
    ensures var dir := cacheRoot + [NatToString(id)];
      forall q :: q in fs' && q !in fs ==> IsPrefix(q, dir) || (r.Some? && q in EpisodeDirs(r.value, dir))
    // other directories keep their files; the comic's directory changes in `meta.toml` and
    // `cover.jpg`, an episode directory in `meta.toml` only
    ensures var dir := cacheRoot + [NatToString(id)];
      forall q :: q in fs' && q != dir && (r.None? || q !in EpisodeDirs(r.value, dir)) ==> fs'[q] == ListingOf(fs, q)
    ensures var dir := cacheRoot + [NatToString(id)];
      forall q :: q in fs' && q != dir ==> ChangedOnly(ListingOf(fs, q), fs'[q], {MetaFile})
    ensures var dir := cacheRoot + [NatToString(id)];
      dir in fs' && ChangedOnly(ListingOf(fs, dir), fs'[dir], {MetaFile, CoverFile})
    // an existing cover is kept, a downloaded one holds the received bytes
    ensures var dir := cacheRoot + [NatToString(id)];
      dir in fs && CoverFile in fs[dir] ==> fs'[dir][CoverFile] == fs[dir][CoverFile]
    ensures var dir := cacheRoot + [NatToString(id)];
      r.Some? && !(dir in fs && CoverFile in fs[dir]) ==> fs'[dir][CoverFile] == Blob(coverReply.value.body.value)
    // on exit the comic directory's files are as they were, with no `cover.jpg`
    ensures var dir := cacheRoot + [NatToString(id)];
      r.None? ==> fs'[dir] == ListingOf(fs, dir) && CoverFile !in fs'[dir]
  {
    var dir := cacheRoot + [NatToString(id)];
    var ok, covered := EnsureCover(fs, dir, coverReply, digest);
    if !ok {
      return None, covered;
    }
    r := Some(RefreshedComic(comics, id, info));
    fs' := SyncComic(covered, r.value, dir);
    PrepareFrame(fs, covered, fs', r.value, dir);
  }

  /** Covering then syncing the comic into `dir` changes only `meta.toml`
      files, the comic's `cover.jpg` and the directories syncing creates. */
  lemma PrepareFrame(fs: Tree, covered: Tree, synced: Tree, comic: ComicCache, dir: Path)
    requires forall q :: q in fs ==> q in covered
    requires forall q :: q in covered && q !in fs ==> IsPrefix(q, dir)
    requires forall q :: q in covered && q != dir ==> covered[q] == ListingOf(fs, q)
    requires dir in covered && ChangedOnly(ListingOf(fs, dir), covered[dir], {CoverFile})
    requires forall q :: q in covered ==> q in synced
    requires SyncFrame(covered, synced, comic, dir)
    ensures forall q :: q in synced && q !in fs ==> IsPrefix(q, dir) || q in EpisodeDirs(comic, dir)
    ensures forall q :: q in synced && q != dir && q !in EpisodeDirs(comic, dir) ==> synced[q] == ListingOf(fs, q)
    ensures forall q :: q in synced && q != dir ==> ChangedOnly(ListingOf(fs, q), synced[q], {MetaFile})
    ensures ChangedOnly(ListingOf(fs, dir), synced[dir], {MetaFile, CoverFile})
    ensures CoverFile in covered[dir] ==> CoverFile in synced[dir] && synced[dir][CoverFile] == covered[dir][CoverFile]
  {
    forall q | q != dir ensures ListingOf(covered, q) == ListingOf(fs, q) {
    }
    ChangedOnlyTrans(ListingOf(fs, dir), covered[dir], synced[dir], {CoverFile}, {MetaFile});
    assert {CoverFile} + {MetaFile} == {MetaFile, CoverFile};
    assert CoverFile != MetaFile;
  }

  /** The cover step of `fetch`: the comic's directory is created when
      missing, an existing `cover.jpg` is kept, otherwise the cover is
      downloaded into it; `false` when that download fails. */
  method EnsureCover(fs: Tree, dir: Path, coverReply: Option<Response>, digest: Bytes -> string)
    returns (ok: bool, fs': Tree)
    ensures ok <==> (dir in fs && CoverFile in fs[dir]) || Accepted(coverReply, digest)
    ensures ok ==> dir in fs' && CoverFile in fs'[dir]
    ensures forall q :: q in fs ==> q in fs' && fs[q].Keys <= fs'[q].Keys
    ensures forall q :: q in fs && !IsPrefix(dir, q) ==> fs'[q] == fs[q]
    // only `dir` and its missing ancestors are created, and only `cover.jpg` is written
    ensures dir in fs'
    ensures forall q :: q in fs' && q !in fs ==> IsPrefix(q, dir)
    ensures forall q :: q in fs' && q != dir ==> fs'[q] == ListingOf(fs, q)
    ensures ChangedOnly(ListingOf(fs, dir), fs'[dir], {CoverFile})
    ensures dir in fs && CoverFile in fs[dir] ==> fs' == fs
    ensures ok && !(dir in fs && CoverFile in fs[dir]) ==> fs'[dir][CoverFile] == Blob(coverReply.value.body.value)
    // a failed download writes nothing: no stray `cover.jpg` is left behind
    ensures !ok ==> fs'[dir] == ListingOf(fs, dir) && CoverFile !in fs'[dir]
  {
    assert IsPrefix(dir, dir);
    fs' := if dir in fs then fs else CreateDirAll(fs, dir);
    if CoverFile in fs'[dir] {
      return true, fs';
    }
    DownToEffect(fs', coverReply, digest, dir, CoverFile);
    var (size, written) := DownTo(fs', coverReply, digest, dir, CoverFile);
    ok, fs' := size.Some?, written;
  }

  /** Refreshing a cached comic replaces its title and nothing else. */
  lemma RefreshKeepsCachedComic(comics: map<u32, ComicCache>, id: u32, info: ComicInfo)
    requires id in comics
    ensures var c := RefreshedComic(comics, id, info);
      && c.title == info.title && c.id == comics[id].id && c.authorNames == comics[id].authorNames
      && c.tags == comics[id].tags && c.episodes == comics[id].episodes
  {
  }
}
