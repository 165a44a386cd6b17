/** The local cache (src/lib/cache.rs): one directory per comic, named by
    its id and holding `meta.toml` and `cover.jpg`, with one
    subdirectory per episode, named by its id and holding `meta.toml` and
    the page images. The filesystem is a value handed in and out. */
module Cache {
  import opened Wrappers
  import opened Text
  import opened Seqs
  import opened Entities

  /* ---------------- the directory tree ---------------- */

  /** The directories that exist, each with its regular files by name. */
  type Tree = map<Path, Listing>

  predicate IsPrefix(p: Path, q: Path) {
    |p| <= |q| && q[..|p|] == p
  }

  function Last(p: Path): string
    requires p != []
  {
    p[|p| - 1]
  }

  /** The names of the subdirectories of `dir`. */
  function ChildDirs(fs: Tree, dir: Path): (r: set<string>)
    ensures forall n :: n in r <==> dir + [n] in fs
  {
    var r := set q | q in fs && |q| == |dir| + 1 && q[..|dir|] == dir :: q[|dir|];
    forall n ensures n in r <==> dir + [n] in fs {
      var q := dir + [n];
      assert q[..|dir|] == dir && q[|dir|] == n;
      if n in r {
        var q' :| q' in fs && |q'| == |dir| + 1 && q'[..|dir|] == dir && q'[|dir|] == n;
        assert q' == q;
      }
    }
    r
  }

  /** `std::fs::create_dir_all`: `dir` and every missing ancestor are
      created empty; nothing that exists changes. */
  function CreateDirAll(fs: Tree, dir: Path): (r: Tree)
    ensures forall q :: q in r <==> q in fs || IsPrefix(q, dir)
    ensures forall q :: q in fs ==> r[q] == fs[q]
    ensures forall q :: q in r && q !in fs ==> r[q] == map[]
  {
    var made := set i | 0 <= i <= |dir| :: dir[..i];
    assert forall q :: IsPrefix(q, dir) ==> q in made by {
      forall q | IsPrefix(q, dir) ensures q in made {
        assert q == dir[..|q|];
      }
    }
    map q | q in fs.Keys + made :: if q in fs then fs[q] else map[]
  }

  /** `std::fs::remove_dir_all`: `dir` and everything below it go. */
  function RemoveDirAll(fs: Tree, dir: Path): (r: Tree)
    ensures forall q :: q in r <==> q in fs && !IsPrefix(dir, q)
    ensures forall q :: q in r ==> r[q] == fs[q]
  {
    map q | q in fs && !IsPrefix(dir, q) :: fs[q]
  }

  /** Creates or overwrites the file `name` in the existing directory `dir`. */
  function WriteFile(fs: Tree, dir: Path, name: string, content: Content): (r: Tree)
    requires dir in fs
    ensures r.Keys == fs.Keys && r[dir] == fs[dir][name := content]
    ensures forall q :: q in fs && q != dir ==> r[q] == fs[q]
  {
    fs[dir := fs[dir][name := content]]
  }

  /** The files of `q`, none when the directory does not exist. */
  function ListingOf(fs: Tree, q: Path): Listing {
    if q in fs then fs[q] else map[]
  }

  /** `after` holds the same files as `before`, with the same contents,
      except possibly those named in `names`. */
  ghost predicate ChangedOnly(before: Listing, after: Listing, names: set<string>) {
    forall n :: n !in names ==> (n in before <==> n in after) && (n in before ==> after[n] == before[n])
  }

  /** Changes to a listing confined to `n1`, then to `n2`, are confined to both. */
  lemma ChangedOnlyTrans(a: Listing, b: Listing, c: Listing, n1: set<string>, n2: set<string>)
    requires ChangedOnly(a, b, n1) && ChangedOnly(b, c, n2)
    ensures ChangedOnly(a, c, n1 + n2)
  {
  }

  /* ---------------- EpisodeCache::load / sync ---------------- */

  /** The episode record stored in `dir/meta.toml`, if that file holds one. */
  function EpisodeRecord(fs: Tree, dir: Path): Option<EpisodeMeta> {
    if dir in fs && MetaFile in fs[dir] && fs[dir][MetaFile].EpisodeToml?
    then Some(fs[dir][MetaFile].episode)
    else None
  }

  /** The comic record stored in `dir/meta.toml`, if that file holds one. */
  function ComicRecord(fs: Tree, dir: Path): Option<ComicMeta> {
    if dir in fs && MetaFile in fs[dir] && fs[dir][MetaFile].ComicToml?
    then Some(fs[dir][MetaFile].comic)
    else None
  }

  /** The id a directory's name stands for, if it is a `u32`. */
  function DirId(dir: Path): Option<u32> {
    if dir == [] then None else ParseU32(Last(dir))
  }

  /** The four fields of an episode that `meta.toml` keeps. */
  function RecordOf(ep: EpisodeCache): EpisodeMeta {
    EpisodeMeta(ep.title, ep.ord, ep.paths, ep.host)
  }

  /** A page image: a file whose extension is `jpg` or `png`. */
  predicate IsImageName(name: string) {
    Extension(name) == Some("jpg") || Extension(name) == Some("png")
  }

  /** The page images among a directory's regular files. */
  function ImageFiles(listing: Listing): (r: set<string>)
    ensures forall n :: n in r <==> n in listing && IsImageName(n)
    ensures MetaFile !in r
  {
    assert Extension(MetaFile) == Some("toml") by {
      assert LastIndexOf(MetaFile, '.') == Some(4);
      assert MetaFile[5..] == "toml";
    }
    set n | n in listing && IsImageName(n)
  }

  /** `meta.toml` is never taken for a page image. */
  lemma MetaFileNotImage()
    ensures !IsImageName(MetaFile)
  {
    assert MetaFile !in ImageFiles(map[MetaFile := Blob([])]);
  }

  /** `EpisodeCache::load`: nothing unless `meta.toml` holds an episode
      record and the directory name is a `u32`; otherwise the record's
      fields, the id from the directory name and the page images on disk. */
  function LoadEpisode(fs: Tree, dir: Path): (r: Option<EpisodeCache>)
    ensures r.Some? <==> EpisodeRecord(fs, dir).Some? && DirId(dir).Some?
    ensures r.Some? ==>
      && r.value.id == DirId(dir).value
      && RecordOf(r.value) == EpisodeRecord(fs, dir).value
      && r.value.files == ImageFiles(fs[dir])
      && r.value.rootDir == dir
  {
    match EpisodeRecord(fs, dir)
    case None => None
    case Some(meta) =>
      match DirId(dir)
      case None => None
      case Some(id) => Some(EpisodeCache(id, meta.title, ImageFiles(fs[dir]), meta.paths, meta.host, meta.ord, dir))
  }

  /** `EpisodeCache::sync`: creates `dir` when it is missing and stores the
      episode's record in its `meta.toml`. */
  function SyncEpisode(fs: Tree, ep: EpisodeCache, dir: Path): (r: Tree)
    ensures dir in r && forall q :: q in fs ==> q in r
    ensures forall q :: q in r && q !in fs ==> IsPrefix(q, dir)
    ensures forall q :: q in r && q !in fs && q != dir ==> r[q] == map[]
    ensures r[dir] == (if dir in fs then fs[dir] else map[])[MetaFile := EpisodeToml(RecordOf(ep))]
    ensures forall q :: q in fs && q != dir ==> r[q] == fs[q]
  {
    var made := if dir in fs then fs else CreateDirAll(fs, dir);
    assert IsPrefix(dir, dir);
    WriteFile(made, dir, MetaFile, EpisodeToml(RecordOf(ep)))
  }

  /** Loading what `sync` stored gives back the title, ordering key, page
      paths and host; the id comes from the directory name and the files
      are the images already in the directory. */
  lemma SyncThenLoadEpisode(fs: Tree, ep: EpisodeCache, dir: Path)
    requires DirId(dir).Some?
    ensures var e := LoadEpisode(SyncEpisode(fs, ep, dir), dir);
      && e.Some?
      && e.value.title == ep.title && e.value.ord == ep.ord
      && e.value.paths == ep.paths && e.value.host == ep.host
      && e.value.id == DirId(dir).value && e.value.rootDir == dir
      && e.value.files == (if dir in fs then ImageFiles(fs[dir]) else {})
  {
    var after := SyncEpisode(fs, ep, dir);
    assert EpisodeRecord(after, dir) == Some(RecordOf(ep));
    var before := if dir in fs then fs[dir] else map[];
    assert ImageFiles(after[dir]) == ImageFiles(before) by {
      assert after[dir] == before[MetaFile := EpisodeToml(RecordOf(ep))];
    }
  }

  /** An episode synced into the directory named after its id loads back
      as itself, except that its files are the images found on disk. */
  lemma SyncThenLoadOwnDir(fs: Tree, ep: EpisodeCache, comicDir: Path)
    ensures var dir := comicDir + [NatToString(ep.id)];
      LoadEpisode(SyncEpisode(fs, ep, dir), dir)
        == Some(ep.(files := if dir in fs then ImageFiles(fs[dir]) else {}, rootDir := dir))
  {
    var dir := comicDir + [NatToString(ep.id)];
    ParseNatToString(ep.id);
    SyncThenLoadEpisode(fs, ep, dir);
  }

  /** Loading a directory looks at that directory's own files only. */
  lemma LoadEpisodeLocal(fs1: Tree, fs2: Tree, dir: Path)
    requires dir in fs1 <==> dir in fs2
    requires dir in fs1 ==> fs1[dir] == fs2[dir]
    ensures LoadEpisode(fs1, dir) == LoadEpisode(fs2, dir)
  {
  }

  /* ---------------- not_downloaded / get_paths ---------------- */

  /** A page still has to be downloaded when no file carries the last
      `/`-segment of its path. */
  function NeedsDownload(files: set<string>): string -> bool {
    path => Basename(path) !in files
  }

  /** A page whose file is present. */
  function IsPresent(files: set<string>): string -> bool {
    path => Basename(path) in files
  }

  /** What `not_downloaded` returns: the page paths, in order, whose file is
      not present. */
  function Missing(ep: EpisodeCache): (r: seq<string>)
    ensures forall p :: p in r <==> p in ep.paths && Basename(p) !in ep.files
  {
    Filter(ep.paths, NeedsDownload(ep.files))
  }

  /** `EpisodeCache::not_downloaded`. */
  method NotDownloaded(ep: EpisodeCache) returns (missing: seq<string>)
    ensures missing == Missing(ep)
  {
    missing := [];
    for i := 0 to |ep.paths|
      invariant missing == Filter(ep.paths[..i], NeedsDownload(ep.files))
    {
      MissingStep(ep, i);
      var end := Basename(ep.paths[i]);
      if end !in ep.files {
        missing := missing + [ep.paths[i]];
      }
    }
    assert ep.paths[..|ep.paths|] == ep.paths;
  }

  /** One more page extends the missing list by that page when its file is
      not present. */
  lemma MissingStep(ep: EpisodeCache, i: nat)
    requires i < |ep.paths|
    ensures Filter(ep.paths[..i + 1], NeedsDownload(ep.files))
         == Filter(ep.paths[..i], NeedsDownload(ep.files)) + (if Basename(ep.paths[i]) !in ep.files then [ep.paths[i]] else [])
  {
    assert ep.paths[..i + 1] == ep.paths[..i] + [ep.paths[i]];
    FilterSnoc(ep.paths[..i], ep.paths[i], NeedsDownload(ep.files));
  }

  /** Nothing is missing exactly when every page's file is present. */
  lemma MissingEmptyIff(ep: EpisodeCache)
    ensures Missing(ep) == [] <==> forall i :: 0 <= i < |ep.paths| ==> Basename(ep.paths[i]) in ep.files
  {
    if Missing(ep) != [] {
      var p := Missing(ep)[0];
      assert p in Missing(ep);
    }
  }

  /** The missing pages keep the page order, and together with the present
      pages they account for every page. */
  lemma MissingShape(ep: EpisodeCache)
    ensures IsSubseq(Missing(ep), ep.paths)
    ensures |Missing(ep)| + |Filter(ep.paths, IsPresent(ep.files))| == |ep.paths|
  {
    FilterIsSubseq(ep.paths, NeedsDownload(ep.files));
    FilterPartition(ep.paths, NeedsDownload(ep.files), IsPresent(ep.files));
  }

  /** `EpisodeCache::get_paths`: each page's local file, in page order. */
  function GetPaths(ep: EpisodeCache): (r: seq<Path>)
    ensures |r| == |ep.paths|
    ensures forall i :: 0 <= i < |r| ==> r[i] == ep.rootDir + [Basename(ep.paths[i])]
  {
    seq(|ep.paths|, i requires 0 <= i < |ep.paths| => ep.rootDir + [Basename(ep.paths[i])])
  }

  /** For an episode loaded from disk with nothing missing, every local
      page path names an image file in the episode's directory. */
  lemma CompleteEpisodePagesOnDisk(fs: Tree, dir: Path)
    requires LoadEpisode(fs, dir).Some? && Missing(LoadEpisode(fs, dir).value) == []
    ensures var ep := LoadEpisode(fs, dir).value;
      forall i :: 0 <= i < |GetPaths(ep)| ==>
        var page := GetPaths(ep)[i];
        page[..|dir|] == dir && |page| == |dir| + 1 && Last(page) in fs[dir] && IsImageName(Last(page))
  {
    var ep := LoadEpisode(fs, dir).value;
    MissingEmptyIff(ep);
    forall i | 0 <= i < |GetPaths(ep)|
      ensures var page := GetPaths(ep)[i];
        page[..|dir|] == dir && |page| == |dir| + 1 && Last(page) in fs[dir] && IsImageName(Last(page))
    {
      var page := GetPaths(ep)[i];
      assert page == dir + [Basename(ep.paths[i])];
      assert Last(page) == Basename(ep.paths[i]);
    }
  }

  /* ---------------- ComicCache ---------------- */

  /** `ComicCache::get_episode`: the cached episode with that id, if any. */
  function GetEpisode(comic: ComicCache, id: u32): (r: Option<EpisodeCache>)
    ensures r.Some? <==> id in comic.episodes
    ensures r.Some? ==> r.value == comic.episodes[id]
  {
    if id in comic.episodes then Some(comic.episodes[id]) else None
  }

  /** A comic directory loads when `meta.toml` holds a comic record, its
      name is a `u32`, and so is the name of every subdirectory. */
  predicate ComicLoads(fs: Tree, dir: Path) {
    ComicRecord(fs, dir).Some? && DirId(dir).Some?
    && forall n :: n in ChildDirs(fs, dir) ==> ParseU32(n).Some?
  }

  /** `q` lies below a subdirectory of `dir` that does not load as an episode. */
  predicate UnderBrokenEpisode(fs: Tree, dir: Path, q: Path) {
    |q| > |dir| && q[..|dir|] == dir && LoadEpisode(fs, q[..|dir| + 1]).None?
  }

  /** `after` is `before` with some broken episode directories of `dir`
      (and what they hold) deleted, and nothing else changed. */
  predicate PrunedEpisodes(before: Tree, after: Tree, dir: Path) {
    && (forall q :: q in after ==> q in before && after[q] == before[q])
    && (forall q :: q in before && q !in after ==> UnderBrokenEpisode(before, dir, q))
  }

  /** `e` is the episode stored under key `k` of the comic in `dir`. */
  predicate EpisodeEntry(fs: Tree, dir: Path, k: u32, e: EpisodeCache) {
    |e.rootDir| == |dir| + 1 && e.rootDir[..|dir|] == dir
    && ParseU32(Last(e.rootDir)) == Some(k)
    && LoadEpisode(fs, e.rootDir) == Some(e) && e.id == k
  }

  /** Deleting one broken episode directory keeps the deletions confined
      to broken episodes and leaves the other unvisited ones in place. */
  lemma PruneBrokenEpisode(fs: Tree, cur: Tree, dir: Path, n: string, todo: set<string>)
    requires PrunedEpisodes(fs, cur, dir)
    requires n in todo && LoadEpisode(fs, dir + [n]).None?
    requires forall m :: m in todo ==> dir + [m] in cur && cur[dir + [m]] == fs[dir + [m]]
    ensures var after := RemoveDirAll(cur, dir + [n]);
      && PrunedEpisodes(fs, after, dir)
      && (forall m :: m in todo - {n} ==> dir + [m] in after && after[dir + [m]] == fs[dir + [m]])
      && dir + [n] !in after
      && forall q :: q in after ==> q in cur
  {
    var child := dir + [n];
    var after := RemoveDirAll(cur, child);
    forall q | q in fs && q !in after ensures UnderBrokenEpisode(fs, dir, q) {
      if q in cur {
        assert IsPrefix(child, q);
        assert q[..|dir| + 1] == child;
      }
    }
    forall m | m in todo - {n} ensures dir + [m] in after {
      assert (dir + [m])[|dir|] != child[|dir|];
    }
    assert IsPrefix(child, child);
  }

  /** The state of `ComicCache::load` with the subdirectories `todo` of
      `all` still to visit: those are untouched, every visited one was
      named by a `u32`, loaded into `episodes` or deleted. */
  predicate LoadProgress(fs: Tree, cur: Tree, dir: Path, all: set<string>, todo: set<string>,
                         episodes: map<u32, EpisodeCache>) {
    && todo <= all
    && PrunedEpisodes(fs, cur, dir)
    && (forall n :: n in todo ==> dir + [n] in cur && cur[dir + [n]] == fs[dir + [n]])
    && (forall n :: n in all - todo ==> ParseU32(n).Some?)
    && (forall n :: n in all - todo && LoadEpisode(fs, dir + [n]).Some? ==> ParseU32(n).value in episodes)
    && (forall n :: n in all - todo && LoadEpisode(fs, dir + [n]).None? ==> dir + [n] !in cur)
    && (forall k :: k in episodes ==> EpisodeEntry(fs, dir, k, episodes[k]))
  }

  /** One visit of `ComicCache::load`: a subdirectory whose name is not a
      `u32` stops the load (`ok` is false, nothing changes); otherwise it is
      loaded into the map, or deleted when it does not load. */
  method LoadEpisodeDir(fs: Tree, cur: Tree, dir: Path, all: set<string>, todo: set<string>,
                        episodes: map<u32, EpisodeCache>, n: string)
    returns (ok: bool, cur': Tree, episodes': map<u32, EpisodeCache>)
    requires n in todo && LoadProgress(fs, cur, dir, all, todo, episodes)
    ensures ok <==> ParseU32(n).Some?
    ensures !ok ==> cur' == cur
    ensures ok ==> LoadProgress(fs, cur', dir, all, todo - {n}, episodes')
  {
    cur' := cur;
    episodes' := episodes;
    var child := dir + [n];
    var id := ParseU32(n);
    if id.None? {
      return false, cur', episodes';
    }
    ok := true;
    LoadEpisodeLocal(fs, cur, child);
    var ep := LoadEpisode(cur, child);
    if ep.Some? {
      KeepEpisodeStep(fs, cur, dir, all, todo, episodes, n);
      episodes' := episodes[id.value := ep.value];
    } else {
      DropEpisodeStep(fs, cur, dir, all, todo, episodes, n);
      cur' := RemoveDirAll(cur, child);
    }
  }

  /** A subdirectory that loads goes into the map under its id. */
  lemma KeepEpisodeStep(fs: Tree, cur: Tree, dir: Path, all: set<string>, todo: set<string>,
                        episodes: map<u32, EpisodeCache>, n: string)
    requires n in todo && LoadProgress(fs, cur, dir, all, todo, episodes)
    requires ParseU32(n).Some? && LoadEpisode(fs, dir + [n]).Some?
    ensures LoadProgress(fs, cur, dir, all, todo - {n},
                         episodes[ParseU32(n).value := LoadEpisode(fs, dir + [n]).value])
  {
    var child := dir + [n];
    var k := ParseU32(n).value;
    var e := LoadEpisode(fs, child).value;
    assert child[..|dir|] == dir && Last(child) == n;
    EntryInsert(fs, dir, episodes, k, e, episodes[k := e]);
    VisitedInsert(fs, dir, all, todo, episodes, n, e);
  }

  lemma EntryInsert(fs: Tree, dir: Path, episodes: map<u32, EpisodeCache>, k: u32, e: EpisodeCache,
                    next: map<u32, EpisodeCache>)
    requires forall k' :: k' in episodes ==> EpisodeEntry(fs, dir, k', episodes[k'])
    requires EpisodeEntry(fs, dir, k, e) && next == episodes[k := e]
    ensures forall k' :: k' in next ==> EpisodeEntry(fs, dir, k', next[k'])
  {
  }

  lemma VisitedInsert(fs: Tree, dir: Path, all: set<string>, todo: set<string>,
                      episodes: map<u32, EpisodeCache>, n: string, e: EpisodeCache)
    requires ParseU32(n).Some?
    requires forall m :: m in all - todo && LoadEpisode(fs, dir + [m]).Some? ==> ParseU32(m).value in episodes
    ensures forall m :: m in all - (todo - {n}) && LoadEpisode(fs, dir + [m]).Some? ==>
      ParseU32(m).value in episodes[ParseU32(n).value := e]
  {
  }

  /** A subdirectory that does not load is deleted with everything in it. */
  lemma DropEpisodeStep(fs: Tree, cur: Tree, dir: Path, all: set<string>, todo: set<string>,
                        episodes: map<u32, EpisodeCache>, n: string)
    requires n in todo && LoadProgress(fs, cur, dir, all, todo, episodes)
    requires ParseU32(n).Some? && LoadEpisode(fs, dir + [n]).None?
    ensures LoadProgress(fs, RemoveDirAll(cur, dir + [n]), dir, all, todo - {n}, episodes)
  {
    PruneBrokenEpisode(fs, cur, dir, n, todo);
    var after := RemoveDirAll(cur, dir + [n]);
    forall m | m in all - (todo - {n}) && LoadEpisode(fs, dir + [m]).None? ensures dir + [m] !in after {
    }
  }

  /** `ComicCache::load`. Subdirectories are visited in no particular
      order; one that does not load as an episode is deleted, and one whose
      name is not a `u32` abandons the load (after the deletions so far). */
  method LoadComic(fs: Tree, dir: Path) returns (r: Option<ComicCache>, fs': Tree)
    ensures r.Some? <==> ComicLoads(fs, dir)
    ensures r.Some? ==> r.value.id == DirId(dir).value
    ensures r.Some? ==> ComicRecord(fs, dir) == Some(ComicMeta(r.value.title, r.value.authorNames, r.value.tags))
    ensures r.Some? ==> forall k :: k in r.value.episodes ==> EpisodeEntry(fs, dir, k, r.value.episodes[k])
    ensures r.Some? ==> forall n :: n in ChildDirs(fs, dir) && LoadEpisode(fs, dir + [n]).Some? ==>
      ParseU32(n).value in r.value.episodes
    ensures r.Some? ==> forall n :: n in ChildDirs(fs', dir) ==> LoadEpisode(fs', dir + [n]).Some?
    ensures PrunedEpisodes(fs, fs', dir)
    ensures ComicRecord(fs, dir).None? ==> fs' == fs
  {
    fs' := fs;
    var meta := ComicRecord(fs, dir);
    if meta.None? {
      return None, fs';
    }
    var all := ChildDirs(fs, dir);
    var todo := all;
    var episodes: map<u32, EpisodeCache> := map[];
    while todo != {}
      invariant LoadProgress(fs, fs', dir, all, todo, episodes)
      decreases todo
    {
      var n :| n in todo;
      var ok;
      ok, fs', episodes := LoadEpisodeDir(fs, fs', dir, all, todo, episodes, n);
      if !ok {
        return None, fs';
      }
      todo := todo - {n};
    }
    var comicId := DirId(dir);
    if comicId.None? {
      return None, fs';
    }
    r := Some(ComicCache(comicId.value, meta.value.title, meta.value.authorNames, meta.value.tags, episodes));
    forall n | n in ChildDirs(fs', dir) ensures LoadEpisode(fs', dir + [n]).Some? {
      LoadEpisodeLocal(fs, fs', dir + [n]);
    }
  }
  /** `ComicCache::sync`: creates `dir` when it is missing, stores the
      comic's record in its `meta.toml` and syncs every episode into the
      subdirectory named after its id, in no particular order. */
  method SyncComic(fs: Tree, comic: ComicCache, dir: Path) returns (fs': Tree)
    ensures ComicRecord(fs', dir) == Some(ComicMeta(comic.title, comic.authorNames, comic.tags))
    ensures forall id :: id in comic.episodes ==>
      EpisodeRecord(fs', dir + [NatToString(id)]) == Some(RecordOf(comic.episodes[id]))
    ensures forall q :: q in fs ==> q in fs' && fs[q].Keys <= fs'[q].Keys
    ensures forall q :: q in fs && !IsPrefix(dir, q) ==> fs'[q] == fs[q]
    ensures SyncFrame(fs, fs', comic, dir)
  {
    fs' := if dir in fs then fs else CreateDirAll(fs, dir);
    assert IsPrefix(dir, dir);
    var meta := ComicMeta(comic.title, comic.authorNames, comic.tags);
    SyncFrameStart(fs, comic, dir, meta);
    fs' := WriteFile(fs', dir, MetaFile, ComicToml(meta));
    var todo := comic.episodes.Keys;
    while todo != {}
      invariant todo <= comic.episodes.Keys
      invariant ComicRecord(fs', dir) == Some(meta)
      invariant forall id :: id in comic.episodes.Keys - todo ==>
        EpisodeRecord(fs', dir + [NatToString(id)]) == Some(RecordOf(comic.episodes[id]))
      invariant forall q :: q in fs ==> q in fs' && fs[q].Keys <= fs'[q].Keys
      invariant forall q :: q in fs && !IsPrefix(dir, q) ==> fs'[q] == fs[q]
      invariant SyncFrame(fs, fs', comic, dir)
      decreases todo
    {
      var id :| id in todo;
      SyncComicStep(fs, fs', comic, dir, meta, id, todo);
      assert IsPrefix(dir, dir + [NatToString(id)]);
      SyncEpisodeGrows(fs, fs', comic.episodes[id], dir, dir + [NatToString(id)]);
      SyncFrameStep(fs, fs', comic, dir, id);
      fs' := SyncEpisode(fs', comic.episodes[id], dir + [NatToString(id)]);
      todo := todo - {id};
    }
  }

  /** The subdirectories a comic's episodes are synced into. */
  function EpisodeDirs(comic: ComicCache, dir: Path): set<Path> {
    set id | id in comic.episodes :: dir + [NatToString(id)]
  }

  /** What syncing a comic into `dir` may change: it creates `dir`, its
      ancestors and episode directories, and writes `meta.toml` files in
      `dir` and the episode directories only. */
  ghost predicate SyncFrame(fs: Tree, cur: Tree, comic: ComicCache, dir: Path) {
    && (forall q :: q in fs ==> q in cur)
    && SyncNewDirs(fs, cur, comic, dir)
    && SyncKeptDirs(fs, cur, comic, dir)
    && (forall q :: q in cur ==> ChangedOnly(ListingOf(fs, q), cur[q], {MetaFile}))
  }

  ghost predicate SyncNewDirs(fs: Tree, cur: Tree, comic: ComicCache, dir: Path) {
    forall q :: q in cur && q !in fs ==> IsPrefix(q, dir) || q in EpisodeDirs(comic, dir)
  }

  ghost predicate SyncKeptDirs(fs: Tree, cur: Tree, comic: ComicCache, dir: Path) {
    forall q :: q in cur && q != dir && q !in EpisodeDirs(comic, dir) ==> cur[q] == ListingOf(fs, q)
  }

  /** Writing the comic's own `meta.toml` starts within `SyncFrame`. */
  lemma SyncFrameStart(fs: Tree, comic: ComicCache, dir: Path, meta: ComicMeta)
    ensures var made := if dir in fs then fs else CreateDirAll(fs, dir);
      dir in made && SyncFrame(fs, WriteFile(made, dir, MetaFile, ComicToml(meta)), comic, dir)
  {
    assert IsPrefix(dir, dir);
  }

  /** Syncing one more episode of the comic stays within `SyncFrame`. */
  lemma SyncFrameStep(fs: Tree, cur: Tree, comic: ComicCache, dir: Path, id: u32)
    requires id in comic.episodes && SyncFrame(fs, cur, comic, dir)
    ensures SyncFrame(fs, SyncEpisode(cur, comic.episodes[id], dir + [NatToString(id)]), comic, dir)
  {
    var epDir := dir + [NatToString(id)];
    var next := SyncEpisode(cur, comic.episodes[id], epDir);
    assert epDir in EpisodeDirs(comic, dir);
    SyncNewDirsStep(fs, cur, next, comic, dir, epDir);
    SyncKeptDirsStep(fs, cur, next, comic, dir, epDir);
    SyncChangedStep(fs, cur, next, epDir, EpisodeToml(RecordOf(comic.episodes[id])));
  }

  lemma SyncChangedStep(fs: Tree, cur: Tree, next: Tree, epDir: Path, meta: Content)
    requires forall q :: q in fs ==> q in cur
    requires forall q :: q in cur ==> ChangedOnly(ListingOf(fs, q), cur[q], {MetaFile})
    requires epDir in next && next[epDir] == ListingOf(cur, epDir)[MetaFile := meta]
    requires forall q :: q in next && q !in cur && q != epDir ==> next[q] == map[]
    requires forall q :: q in cur && q != epDir ==> q in next && next[q] == cur[q]
    ensures forall q :: q in next ==> ChangedOnly(ListingOf(fs, q), next[q], {MetaFile})
  {
    forall q | q in next ensures ChangedOnly(ListingOf(fs, q), next[q], {MetaFile}) {
      if q !in cur {
        assert q !in fs;
      }
    }
  }

  lemma SyncNewDirsStep(fs: Tree, cur: Tree, next: Tree, comic: ComicCache, dir: Path, epDir: Path)
    requires SyncNewDirs(fs, cur, comic, dir) && epDir in EpisodeDirs(comic, dir)
    requires |epDir| == |dir| + 1 && epDir[..|dir|] == dir
    requires forall q :: q in next && q !in cur ==> IsPrefix(q, epDir)
    ensures SyncNewDirs(fs, next, comic, dir)
  {
    forall q | q in next && q !in fs ensures IsPrefix(q, dir) || q in EpisodeDirs(comic, dir) {
      if q !in cur && q != epDir {
        assert |q| <= |dir| && q == epDir[..|q|];
        assert q == dir[..|q|];
      }
    }
  }

  lemma SyncKeptDirsStep(fs: Tree, cur: Tree, next: Tree, comic: ComicCache, dir: Path, epDir: Path)
    requires SyncKeptDirs(fs, cur, comic, dir) && epDir in EpisodeDirs(comic, dir)
    requires forall q :: q in fs ==> q in cur
    requires forall q :: q in next && q !in cur && q != epDir ==> next[q] == map[]
    requires forall q :: q in cur && q != epDir ==> q in next && next[q] == cur[q]
    ensures SyncKeptDirs(fs, next, comic, dir)
  {
  }

  /** Syncing one more episode of a comic keeps the comic record, the
      episodes synced so far and everything outside the comic's directory. */
  lemma SyncComicStep(fs: Tree, cur: Tree, comic: ComicCache, dir: Path, meta: ComicMeta, id: u32, todo: set<u32>)
    requires id in todo && todo <= comic.episodes.Keys
    requires ComicRecord(cur, dir) == Some(meta)
    requires forall i :: i in comic.episodes.Keys - todo ==>
      EpisodeRecord(cur, dir + [NatToString(i)]) == Some(RecordOf(comic.episodes[i]))
    ensures var next := SyncEpisode(cur, comic.episodes[id], dir + [NatToString(id)]);
      && ComicRecord(next, dir) == Some(meta)
      && (forall i :: i in comic.episodes.Keys - (todo - {id}) ==>
            EpisodeRecord(next, dir + [NatToString(i)]) == Some(RecordOf(comic.episodes[i])))
  {
    var epDir := dir + [NatToString(id)];
    var next := SyncEpisode(cur, comic.episodes[id], epDir);
    assert dir != epDir by {
      assert |epDir| == |dir| + 1;
    }
    assert ComicRecord(next, dir) == ComicRecord(cur, dir);
    forall other | other in comic.episodes.Keys - todo
      ensures EpisodeRecord(next, dir + [NatToString(other)]) == Some(RecordOf(comic.episodes[other]))
    {
      SyncOtherDir(cur, comic.episodes[id], dir, other, id);
    }
  }

  /** Syncing the episode directory of `id` leaves the record of every other
      episode directory of the same comic alone. */
  lemma SyncOtherDir(cur: Tree, ep: EpisodeCache, dir: Path, other: u32, id: u32)
    requires other != id
    ensures var next := SyncEpisode(cur, ep, dir + [NatToString(id)]);
      EpisodeRecord(next, dir + [NatToString(other)]) == EpisodeRecord(cur, dir + [NatToString(other)])
  {
    assert (dir + [NatToString(other)])[|dir|] == NatToString(other);
    assert (dir + [NatToString(id)])[|dir|] == NatToString(id);
  }

  /** Syncing an episode below `dir` only adds directories and files, and
      changes nothing outside `dir`. */
  lemma SyncEpisodeGrows(fs: Tree, cur: Tree, ep: EpisodeCache, dir: Path, epDir: Path)
    requires IsPrefix(dir, epDir)
    requires forall q :: q in fs ==> q in cur && fs[q].Keys <= cur[q].Keys
    requires forall q :: q in fs && !IsPrefix(dir, q) ==> cur[q] == fs[q]
    ensures var next := SyncEpisode(cur, ep, epDir);
      && (forall q :: q in fs ==> q in next && fs[q].Keys <= next[q].Keys)
      && (forall q :: q in fs && !IsPrefix(dir, q) ==> next[q] == fs[q])
  {
    var next := SyncEpisode(cur, ep, epDir);
    forall q | q in fs && !IsPrefix(dir, q) ensures next[q] == fs[q] {
      assert q != epDir;
    }
  }

  /** After a comic is synced into `dir`, each of its episodes loads back
      from the subdirectory named after its id, with that id and the same
      title, ordering key, page paths and host. */
  lemma SyncedEpisodeLoads(fs: Tree, dir: Path, id: u32, ep: EpisodeCache)
    requires EpisodeRecord(fs, dir + [NatToString(id)]) == Some(RecordOf(ep))
    ensures var e := LoadEpisode(fs, dir + [NatToString(id)]);
      e.Some? && e.value.id == id && RecordOf(e.value) == RecordOf(ep)
  {
    ParseNatToString(id);
  }

  /** `Cache::get_comic`: the cached comic with that id, if any. */
  function GetComic(comics: map<u32, ComicCache>, id: u32): (r: Option<ComicCache>)
    ensures r.Some? <==> id in comics
    ensures r.Some? ==> r.value == comics[id]
  {
    if id in comics then Some(comics[id]) else None
  }

  /** `t1` and `t2` agree on `dir` and everything below it. */
  ghost predicate SameSubtree(t1: Tree, t2: Tree, dir: Path) {
    forall q :: IsPrefix(dir, q) ==> (q in t1 <==> q in t2) && (q in t1 ==> t1[q] == t2[q])
  }

  /** Whether and what a comic directory loads depends on its subtree only. */
  lemma ComicLoadsLocal(t1: Tree, t2: Tree, dir: Path)
    requires SameSubtree(t1, t2, dir)
    ensures ComicRecord(t1, dir) == ComicRecord(t2, dir)
    ensures ChildDirs(t1, dir) == ChildDirs(t2, dir)
    ensures ComicLoads(t1, dir) == ComicLoads(t2, dir)
    ensures forall n :: LoadEpisode(t1, dir + [n]) == LoadEpisode(t2, dir + [n])
  {
    assert IsPrefix(dir, dir);
    forall n ensures (dir + [n] in t1 <==> dir + [n] in t2) && LoadEpisode(t1, dir + [n]) == LoadEpisode(t2, dir + [n]) {
      assert IsPrefix(dir, dir + [n]);
      LoadEpisodeLocal(t1, t2, dir + [n]);
    }
  }

  lemma ComicLoadsSame(t1: Tree, t2: Tree, dir: Path)
    requires SameSubtree(t1, t2, dir)
    ensures ComicRecord(t1, dir) == ComicRecord(t2, dir)
    ensures ComicLoads(t1, dir) == ComicLoads(t2, dir)
  {
    ComicLoadsLocal(t1, t2, dir);
  }

  /** Changes confined to the comic directory `root + [n]` leave the
      subtrees of the other comic directories as they were. */
  lemma OtherComicsUntouched(fs: Tree, cur: Tree, after: Tree, root: Path, n: string, todo: set<string>)
    requires forall q :: q in after ==> q in cur && after[q] == cur[q]
    requires forall q :: q in cur && q !in after ==> IsPrefix(root + [n], q)
    requires forall m :: m in todo ==> SameSubtree(fs, cur, root + [m])
    ensures forall m :: m in todo - {n} ==> SameSubtree(fs, after, root + [m])
    ensures forall q :: q in cur && !IsPrefix(root + [n], q) ==> q in after
  {
    forall m, q | m in todo - {n} && IsPrefix(root + [m], q)
      ensures (q in fs <==> q in after) && (q in fs ==> fs[q] == after[q])
    {
      assert q[..|root| + 1] == root + [m];
      assert (root + [m])[|root|] == m && (root + [n])[|root|] == n;
    }
  }

  /** One step of `Cache::load`: the comic directory `root + [n]` is kept
      exactly when it loads, and the other comic directories are as before. */
  lemma LoadCacheStep(fs: Tree, cur: Tree, after: Tree, root: Path, n: string, all: set<string>, todo: set<string>)
    requires n in todo && todo <= all
    requires forall q :: q in cur ==> q in fs && cur[q] == fs[q]
    requires forall m :: m in todo ==> SameSubtree(fs, cur, root + [m])
    requires forall m :: m in all - todo ==> (root + [m] in cur <==> ComicLoads(fs, root + [m]))
    requires forall q :: q in after ==> q in cur && after[q] == cur[q]
    requires forall q :: q in cur && q !in after ==> IsPrefix(root + [n], q)
    requires root + [n] in after <==> ComicLoads(fs, root + [n])
    ensures forall q :: q in after ==> q in fs && after[q] == fs[q]
    ensures forall m :: m in todo - {n} ==> SameSubtree(fs, after, root + [m])
    ensures forall m :: m in all - (todo - {n}) ==> (root + [m] in after <==> ComicLoads(fs, root + [m]))
  {
    OtherComicsUntouched(fs, cur, after, root, n, todo);
    forall m | m in all - (todo - {n}) && m != n
      ensures root + [m] in after <==> root + [m] in cur
    {
      assert (root + [m])[|root|] == m;
    }
  }

  /** The body of the loop of `Cache::load`: a comic directory is loaded,
      and deleted when that fails. */
  method LoadComicOrDelete(fs: Tree, dir: Path) returns (r: Option<ComicCache>, fs': Tree)
    requires dir in fs
    ensures r.Some? <==> ComicLoads(fs, dir)
    ensures r.Some? ==> r.value.id == DirId(dir).value
    ensures r.Some? ==> ComicRecord(fs, dir) == Some(ComicMeta(r.value.title, r.value.authorNames, r.value.tags))
    ensures r.Some? ==> forall k :: k in r.value.episodes ==> EpisodeEntry(fs, dir, k, r.value.episodes[k])
    ensures r.Some? ==> forall n :: n in ChildDirs(fs, dir) && LoadEpisode(fs, dir + [n]).Some? ==>
      ParseU32(n).value in r.value.episodes
    ensures forall q :: q in fs' ==> q in fs && fs'[q] == fs[q]
    // a comic that loads loses only broken episode directories; one that does not loses its whole subtree
    ensures forall q :: q in fs && q !in fs' ==> IsPrefix(dir, q) && (r.None? || UnderBrokenEpisode(fs, dir, q))
    ensures r.None? ==> forall q :: IsPrefix(dir, q) ==> q !in fs'
    ensures dir in fs' <==> r.Some?
    // a comic that loads keeps only episode directories that load
    ensures r.Some? ==> forall m :: m in ChildDirs(fs', dir) ==> LoadEpisode(fs', dir + [m]).Some?
  {
    var next;
    r, next := LoadComic(fs, dir);
    assert IsPrefix(dir, dir);
    if r.Some? {
      fs' := next;
      forall q | q in fs && q !in fs' ensures IsPrefix(dir, q) && UnderBrokenEpisode(fs, dir, q) {
        assert UnderBrokenEpisode(fs, dir, q);
      }
    } else {
      fs' := RemoveDirAll(next, dir);
      forall q | q in fs && q !in fs' ensures IsPrefix(dir, q) {
        if q !in next {
          assert UnderBrokenEpisode(fs, dir, q);
        }
      }
    }
  }

  /** The state of `Cache::load` with the comic directories `todo` still to
      visit: the tree only lost entries, unvisited directories are as they
      were, a visited one survives exactly when it loads, and every stored
      comic is keyed by its id and traced to its directory. */
  ghost predicate CacheProgress(fs: Tree, cur: Tree, root: Path, all: set<string>, todo: set<string>,
                                comics: map<u32, ComicCache>, dirOf: map<u32, string>,
                                traced: set<(string, ComicCache)>)
  {
    TreeProgress(fs, cur, root, all, todo) && PruneProgress(fs, cur, root, all, todo)
    && StoreProgress(fs, root, all, todo, comics, dirOf, traced)
  }

  /** `q` lies strictly below `root`. */
  predicate Below(root: Path, q: Path) {
    |q| > |root| && q[..|root|] == root
  }

  /** The comic directory (child of the cache root `root`) that holds `q`. */
  function ComicDirOf(root: Path, q: Path): Path
    requires Below(root, q)
  {
    root + [q[|root|]]
  }

  /** `Cache::load` may delete `q`: it lies in a comic directory that does
      not load, or in a broken episode directory of one that does. */
  predicate RemovedByLoad(fs: Tree, root: Path, q: Path) {
    Below(root, q) && ComicDirOf(root, q) in fs
    && (!ComicLoads(fs, ComicDirOf(root, q)) || UnderBrokenEpisode(fs, ComicDirOf(root, q), q))
  }

  /** The deletion part of `CacheProgress`: every path gone was removed by
      a load, and what is left of a visited comic directory is in one that
      loads. */
  ghost predicate PruneProgress(fs: Tree, cur: Tree, root: Path, all: set<string>, todo: set<string>) {
    && (forall q :: q in fs && q !in cur ==> RemovedByLoad(fs, root, q))
    && (forall q :: q in cur && Below(root, q) && q[|root|] in all - todo ==> ComicLoads(fs, ComicDirOf(root, q)))
  }

  /** Loading or deleting the comic directory `root + [n]` keeps the
      deletion part of the invariant. */
  lemma PruneStep(fs: Tree, cur: Tree, after: Tree, root: Path, all: set<string>, todo: set<string>, n: string)
    requires all == ChildDirs(fs, root) && n in todo
    requires TreeProgress(fs, cur, root, all, todo) && PruneProgress(fs, cur, root, all, todo)
    requires forall q :: q in after ==> q in cur
    requires forall q :: q in cur && q !in after ==>
      IsPrefix(root + [n], q) && (!ComicLoads(cur, root + [n]) || UnderBrokenEpisode(cur, root + [n], q))
    requires !ComicLoads(cur, root + [n]) ==> forall q :: IsPrefix(root + [n], q) ==> q !in after
    ensures PruneProgress(fs, after, root, all, todo - {n})
  {
    assert n in all;
    ComicLoadsSame(fs, cur, root + [n]);
    PruneRemovedStep(fs, cur, after, root, n);
    PruneKeptStep(fs, cur, after, root, all, todo, n);
  }

  lemma PruneRemovedStep(fs: Tree, cur: Tree, after: Tree, root: Path, n: string)
    requires root + [n] in fs && SameSubtree(fs, cur, root + [n])
    requires forall q :: q in fs && q !in cur ==> RemovedByLoad(fs, root, q)
    requires forall q :: q in after ==> q in cur
    requires forall q :: q in cur && q !in after ==>
      IsPrefix(root + [n], q) && (!ComicLoads(cur, root + [n]) || UnderBrokenEpisode(cur, root + [n], q))
    ensures forall q :: q in fs && q !in after ==> RemovedByLoad(fs, root, q)
  {
    forall q | q in fs && q in cur && q !in after ensures RemovedByLoad(fs, root, q) {
      RemovedOne(fs, cur, root, n, q);
    }
  }

  /** A path of `root + [n]` that a load of that comic directory may
      delete in `cur` may be deleted by a load in `fs`. */
  lemma RemovedOne(fs: Tree, cur: Tree, root: Path, n: string, q: Path)
    requires root + [n] in fs && SameSubtree(fs, cur, root + [n])
    requires IsPrefix(root + [n], q) && (!ComicLoads(cur, root + [n]) || UnderBrokenEpisode(cur, root + [n], q))
    ensures RemovedByLoad(fs, root, q)
  {
    var c := root + [n];
    assert q[..|root|] == c[..|root|] == root;
    assert q[|root|] == c[|root|] == n;
    assert ComicDirOf(root, q) == c;
    ComicLoadsSame(fs, cur, c);
    if ComicLoads(cur, c) {
      var e := q[..|c| + 1];
      assert e[..|c|] == c;
      assert IsPrefix(c, e);
      LoadEpisodeLocal(fs, cur, e);
    }
  }

  lemma PruneKeptStep(fs: Tree, cur: Tree, after: Tree, root: Path, all: set<string>, todo: set<string>, n: string)
    requires forall q :: q in cur && Below(root, q) && q[|root|] in all - todo ==> ComicLoads(fs, ComicDirOf(root, q))
    requires forall q :: q in after ==> q in cur
    requires !ComicLoads(fs, root + [n]) ==> forall q :: IsPrefix(root + [n], q) ==> q !in after
    ensures forall q :: q in after && Below(root, q) && q[|root|] in all - (todo - {n}) ==>
      ComicLoads(fs, ComicDirOf(root, q))
  {
    forall q | q in after && Below(root, q) && q[|root|] == n ensures ComicLoads(fs, ComicDirOf(root, q)) {
      assert ComicDirOf(root, q) == root + [n];
      assert q[..|root| + 1] == root + [n];
      assert IsPrefix(root + [n], q);
    }
  }

  /** The tree part of `CacheProgress`. */
  ghost predicate TreeProgress(fs: Tree, cur: Tree, root: Path, all: set<string>, todo: set<string>) {
    todo <= all
    && (forall q :: q in cur ==> q in fs && cur[q] == fs[q])
    && (forall m :: m in todo ==> SameSubtree(fs, cur, root + [m]))
    && (forall m :: m in all - todo ==> (root + [m] in cur <==> ComicLoads(fs, root + [m])))
  }

  /** The stored-comics part of `CacheProgress`. */
  ghost predicate StoreProgress(fs: Tree, root: Path, all: set<string>, todo: set<string>,
                                comics: map<u32, ComicCache>, dirOf: map<u32, string>,
                                traced: set<(string, ComicCache)>)
  {
    VisitedStored(fs, root, all, todo, comics) && StoredFrom(all, comics, dirOf, traced) && AllTraced(fs, root, traced)
  }

  /** Every visited comic directory that loads has its comic stored. */
  ghost predicate VisitedStored(fs: Tree, root: Path, all: set<string>, todo: set<string>, comics: map<u32, ComicCache>) {
    forall m :: m in all - todo && ComicLoads(fs, root + [m]) ==> ParseU32(m).value in comics
  }

  /** Every stored comic is keyed by its id and traced to its directory. */
  ghost predicate StoredFrom(all: set<string>, comics: map<u32, ComicCache>, dirOf: map<u32, string>,
                             traced: set<(string, ComicCache)>) {
    forall k :: k in comics ==>
      k in dirOf && dirOf[k] in all && comics[k].id == k && (dirOf[k], comics[k]) in traced
  }

  /** Every comic loaded so far is what its directory holds. */
  ghost predicate AllTraced(fs: Tree, root: Path, traced: set<(string, ComicCache)>) {
    forall p :: p in traced ==> CachedFrom(fs, root, p.0, p.1)
  }

  /** One iteration of `Cache::load`: the comic directory `root + [n]` is
      loaded and its comic stored, or it is deleted. */
  method LoadCacheEntry(fs: Tree, cur: Tree, root: Path, all: set<string>, todo: set<string>,
                        comics: map<u32, ComicCache>, ghost dirOf: map<u32, string>,
                        ghost traced: set<(string, ComicCache)>, n: string)
    returns (comics': map<u32, ComicCache>, cur': Tree, ghost dirOf': map<u32, string>,
             ghost traced': set<(string, ComicCache)>)
    requires all == ChildDirs(fs, root) && n in todo
    requires CacheProgress(fs, cur, root, all, todo, comics, dirOf, traced)
    ensures CacheProgress(fs, cur', root, all, todo - {n}, comics', dirOf', traced')
    ensures comics.Keys <= comics'.Keys
    ensures root + [n] in cur' <==> ComicLoads(fs, root + [n])
    ensures ComicLoads(fs, root + [n]) ==>
      ParseU32(n).Some? && ParseU32(n).value in comics' && CachedFrom(fs, root, n, comics'[ParseU32(n).value])
    ensures !ComicLoads(fs, root + [n]) ==> comics' == comics
    ensures forall q :: q in cur' ==> q in cur && cur'[q] == cur[q]
    ensures forall m :: m in ChildDirs(cur', root + [n]) ==> LoadEpisode(cur', root + [n] + [m]).Some?
  {
    var child := root + [n];
    assert child in fs by { assert n in ChildDirs(fs, root); }
    var comic;
    comic, cur' := LoadComicOrDelete(cur, child);
    forall m | m in ChildDirs(cur', child) ensures comic.Some? {
      assert IsPrefix(child, child + [m]);
    }
    if comic.Some? {
      assert Last(child) == n;
      CacheEntryKept(fs, cur, cur', root, all, todo, comics, dirOf, traced, n, comic.value);
      comics', dirOf' := comics[comic.value.id := comic.value], dirOf[comic.value.id := n];
      traced' := traced + {(n, comic.value)};
    } else {
      CacheEntryDropped(fs, cur, cur', root, all, todo, comics, dirOf, traced, n);
      comics', dirOf', traced' := comics, dirOf, traced;
    }
  }

  /** One iteration of `Cache::load` that stores the comic it loaded keeps
      the loop's invariant. */
  lemma CacheEntryKept(fs: Tree, cur: Tree, after: Tree, root: Path, all: set<string>, todo: set<string>,
                       comics: map<u32, ComicCache>, dirOf: map<u32, string>, traced: set<(string, ComicCache)>,
                       n: string, comic: ComicCache)
    requires all == ChildDirs(fs, root) && n in todo && root + [n] in cur
    requires CacheProgress(fs, cur, root, all, todo, comics, dirOf, traced)
    requires CachedFrom(cur, root, n, comic)
    requires forall q :: q in after ==> q in cur && after[q] == cur[q]
    requires forall q :: q in cur && q !in after ==> IsPrefix(root + [n], q) && UnderBrokenEpisode(cur, root + [n], q)
    requires root + [n] in after
    ensures CacheProgress(fs, after, root, all, todo - {n}, comics[comic.id := comic], dirOf[comic.id := n],
                          traced + {(n, comic)})
    ensures CachedFrom(fs, root, n, comic)
  {
    TreeStep(fs, cur, after, root, all, todo, n);
    PruneStep(fs, cur, after, root, all, todo, n);
    CachedFromLocal(fs, cur, root, n, comic);
    StoreStep(fs, root, all, todo, comics, dirOf, traced, n, comic);
  }

  /** What a comic directory holds depends on its subtree only. */
  lemma CachedFromLocal(t1: Tree, t2: Tree, root: Path, n: string, comic: ComicCache)
    requires SameSubtree(t1, t2, root + [n])
    ensures CachedFrom(t1, root, n, comic) == CachedFrom(t2, root, n, comic)
  {
    var dir := root + [n];
    ComicLoadsLocal(t1, t2, dir);
    forall k | k in comic.episodes
      ensures EpisodeEntry(t1, dir, k, comic.episodes[k]) == EpisodeEntry(t2, dir, k, comic.episodes[k])
    {
      EpisodeEntryLocal(t1, t2, dir, k, comic.episodes[k]);
    }
  }

  /** Whether an episode is the entry of `dir` under key `k` depends only
      on what the sub-directories of `dir` load. */
  lemma EpisodeEntryLocal(t1: Tree, t2: Tree, dir: Path, k: u32, e: EpisodeCache)
    requires forall m :: LoadEpisode(t1, dir + [m]) == LoadEpisode(t2, dir + [m])
    ensures EpisodeEntry(t1, dir, k, e) == EpisodeEntry(t2, dir, k, e)
  {
    if |e.rootDir| == |dir| + 1 && e.rootDir[..|dir|] == dir {
      assert e.rootDir == dir + [e.rootDir[|dir|]];
    }
  }

  /** Storing the comic loaded from `root + [n]` keeps the stored-comics
      part of the invariant. */
  lemma StoreStep(fs: Tree, root: Path, all: set<string>, todo: set<string>,
                  comics: map<u32, ComicCache>, dirOf: map<u32, string>, traced: set<(string, ComicCache)>,
                  n: string, comic: ComicCache)
    requires n in todo && todo <= all && StoreProgress(fs, root, all, todo, comics, dirOf, traced)
    requires CachedFrom(fs, root, n, comic)
    ensures StoreProgress(fs, root, all, todo - {n}, comics[comic.id := comic], dirOf[comic.id := n],
                          traced + {(n, comic)})
  {
    CacheInsert(all, comics, dirOf, traced, n, comic);
    TracedInsert(fs, root, traced, n, comic);
    CacheStored(fs, root, all, todo, comics, comics[comic.id := comic], n);
  }

  /** One iteration of `Cache::load` that deletes a comic directory which
      does not load keeps the loop's invariant. */
  lemma CacheEntryDropped(fs: Tree, cur: Tree, after: Tree, root: Path, all: set<string>, todo: set<string>,
                          comics: map<u32, ComicCache>, dirOf: map<u32, string>, traced: set<(string, ComicCache)>,
                          n: string)
    requires all == ChildDirs(fs, root) && n in todo && root + [n] in cur
    requires CacheProgress(fs, cur, root, all, todo, comics, dirOf, traced)
    requires !ComicLoads(cur, root + [n])
    requires forall q :: q in after ==> q in cur && after[q] == cur[q]
    requires forall q :: q in cur && q !in after ==> IsPrefix(root + [n], q)
    requires forall q :: IsPrefix(root + [n], q) ==> q !in after
    ensures CacheProgress(fs, after, root, all, todo - {n}, comics, dirOf, traced)
  {
    assert IsPrefix(root + [n], root + [n]);
    TreeStep(fs, cur, after, root, all, todo, n);
    PruneStep(fs, cur, after, root, all, todo, n);
    CacheStored(fs, root, all, todo, comics, comics, n);
  }

  /** Loading or deleting the comic directory `root + [n]` keeps the tree
      part of the invariant; that directory reads in `cur` as in `fs`. */
  lemma TreeStep(fs: Tree, cur: Tree, after: Tree, root: Path, all: set<string>, todo: set<string>, n: string)
    requires n in todo && TreeProgress(fs, cur, root, all, todo)
    requires forall q :: q in after ==> q in cur && after[q] == cur[q]
    requires forall q :: q in cur && q !in after ==> IsPrefix(root + [n], q)
    requires root + [n] in after <==> ComicLoads(cur, root + [n])
    ensures TreeProgress(fs, after, root, all, todo - {n})
    ensures ComicLoads(cur, root + [n]) == ComicLoads(fs, root + [n])
    ensures ComicRecord(cur, root + [n]) == ComicRecord(fs, root + [n])
  {
    var child := root + [n];
    assert IsPrefix(child, child);
    ComicLoadsSame(fs, cur, child);
    LoadCacheStep(fs, cur, after, root, n, all, todo);
  }

  /** After a step, every visited directory that loads has its comic stored. */
  lemma CacheStored(fs: Tree, root: Path, all: set<string>, todo: set<string>,
                    comics: map<u32, ComicCache>, comics': map<u32, ComicCache>, n: string)
    requires comics.Keys <= comics'.Keys
    requires ComicLoads(fs, root + [n]) ==> ParseU32(n).Some? && ParseU32(n).value in comics'
    requires VisitedStored(fs, root, all, todo, comics)
    ensures VisitedStored(fs, root, all, todo - {n}, comics')
  {
  }

  /** `comic` is what the comic directory `root + [n]` holds: the
      directory loads, its name is the id, its `meta.toml` is the record,
      every episode is what its subdirectory loads as, and every
      subdirectory that loads is among the episodes. */
  predicate CachedFrom(fs: Tree, root: Path, n: string, comic: ComicCache) {
    var dir := root + [n];
    && ParseU32(n) == Some(comic.id)
    && ComicLoads(fs, dir)
    && ComicRecord(fs, dir) == Some(ComicMeta(comic.title, comic.authorNames, comic.tags))
    && (forall k :: k in comic.episodes ==> EpisodeEntry(fs, dir, k, comic.episodes[k]))
    && (forall m :: m in ChildDirs(fs, dir) && LoadEpisode(fs, dir + [m]).Some? ==> ParseU32(m).value in comic.episodes)
  }

  /** Storing a loaded comic under its id keeps every stored comic keyed by
      its id and traced to its directory. */
  lemma CacheInsert(all: set<string>, comics: map<u32, ComicCache>, dirOf: map<u32, string>,
                    traced: set<(string, ComicCache)>, n: string, comic: ComicCache)
    requires n in all && StoredFrom(all, comics, dirOf, traced)
    ensures StoredFrom(all, comics[comic.id := comic], dirOf[comic.id := n], traced + {(n, comic)})
  {
  }

  /** Recording a comic loaded from `root + [n]` keeps `AllTraced`. */
  lemma TracedInsert(fs: Tree, root: Path, traced: set<(string, ComicCache)>, n: string, comic: ComicCache)
    requires AllTraced(fs, root, traced) && CachedFrom(fs, root, n, comic)
    ensures AllTraced(fs, root, traced + {(n, comic)})
  {
  }

  /** Every sub-directory left in a comic directory `root + [m]`, for `m`
      in `done`, loads as an episode. */
  predicate EpisodesPruned(fs: Tree, root: Path, done: set<string>) {
    forall m, e :: m in done && e in ChildDirs(fs, root + [m]) ==> LoadEpisode(fs, root + [m] + [e]).Some?
  }

  /** Loading the comic directory `root + [n]`, which removes entries only
      and keeps only episode directories that load, extends `EpisodesPruned`
      to `n`. */
  lemma EpisodesPrunedStep(cur: Tree, after: Tree, root: Path, all: set<string>, todo: set<string>, n: string)
    requires EpisodesPruned(cur, root, all - todo)
    requires forall q :: q in after ==> q in cur && after[q] == cur[q]
    requires forall e :: e in ChildDirs(after, root + [n]) ==> LoadEpisode(after, root + [n] + [e]).Some?
    ensures EpisodesPruned(after, root, all - (todo - {n}))
  {
    forall m, e | m in all - todo && e in ChildDirs(after, root + [m])
      ensures LoadEpisode(after, root + [m] + [e]).Some?
    {
      KeptEpisodeLoads(cur, after, root + [m], e);
    }
  }

  /** An episode directory that survives a deletion unchanged loads as it
      did before. */
  lemma KeptEpisodeLoads(cur: Tree, after: Tree, dir: Path, e: string)
    requires forall q :: q in after ==> q in cur && after[q] == cur[q]
    requires e in ChildDirs(after, dir)
    requires e in ChildDirs(cur, dir) ==> LoadEpisode(cur, dir + [e]).Some?
    ensures LoadEpisode(after, dir + [e]).Some?
  {
    var q := dir + [e];
    assert q in after;
    LoadEpisodeLocal(cur, after, q);
  }

  /** `Cache::load`. A missing cache root is created and nothing is
      cached; otherwise every comic directory is loaded, in no particular
      order, and one that does not load is deleted. */
  method LoadCache(fs: Tree, root: Path) returns (comics: map<u32, ComicCache>, fs': Tree)
    ensures root !in fs ==> comics == map[] && fs' == CreateDirAll(fs, root)
    ensures root in fs ==> forall q :: q in fs' ==> q in fs && fs'[q] == fs[q]
    ensures root in fs ==> forall n :: n in ChildDirs(fs, root) ==>
      (root + [n] in fs' <==> ComicLoads(fs, root + [n]))
    ensures root in fs ==> forall n :: n in ChildDirs(fs, root) && ComicLoads(fs, root + [n]) ==>
      ParseU32(n).value in comics
    ensures forall k :: k in comics ==> comics[k].id == k
    ensures forall k :: k in comics ==> exists n :: n in ChildDirs(fs, root) && CachedFrom(fs, root, n, comics[k])
    // deletions: only what a load removes, and nothing is left of a comic directory that does not load
    ensures root in fs ==> forall q :: q in fs && q !in fs' ==> RemovedByLoad(fs, root, q)
    ensures root in fs ==> forall q :: q in fs' && Below(root, q) && ComicDirOf(root, q) in fs ==>
      ComicLoads(fs, ComicDirOf(root, q))
    // every broken episode directory of a surviving comic is gone
    ensures root in fs ==> EpisodesPruned(fs', root, ChildDirs(fs, root))
  {
    comics := map[];
    if root !in fs {
      return comics, CreateDirAll(fs, root);
    }
    fs' := fs;
    var all := ChildDirs(fs, root);
    var todo := all;
    ghost var dirOf: map<u32, string> := map[];
    ghost var traced: set<(string, ComicCache)> := {};
    while todo != {}
      invariant CacheProgress(fs, fs', root, all, todo, comics, dirOf, traced)
      invariant EpisodesPruned(fs', root, all - todo)
      decreases todo
    {
      var n :| n in todo;
      ghost var before := fs';
      comics, fs', dirOf, traced := LoadCacheEntry(fs, fs', root, all, todo, comics, dirOf, traced, n);
      EpisodesPrunedStep(before, fs', root, all, todo, n);
      todo := todo - {n};
    }
    assert all - todo == all;
    forall k | k in comics
      ensures comics[k].id == k && exists n :: n in ChildDirs(fs, root) && CachedFrom(fs, root, n, comics[k])
    {
      assert (dirOf[k], comics[k]) in traced;
    }
    forall q | q in fs' && Below(root, q) && ComicDirOf(root, q) in fs ensures ComicLoads(fs, ComicDirOf(root, q)) {
      assert q[|root|] in all;
    }
  }
}
