/** The `export` command (src/commands/export.rs, duplicated in
    src/lib/mod.rs): find the comic in the cache, sort its episodes by
    ordering key, apply the range, plan the output files, choose the output
    directory and the format, and export. */
module ExportCommand {
  import opened Wrappers
  import opened Text
  import opened Seqs
  import opened Entities
  import opened Utils
  import opened Cache
  import opened Exports
  import opened Fetch

  /** How the command ends. */
  datatype ExportOutcome =
    | Exited            // the id or link names no comic id
    | NotCached         // the comic is not in the cache
    | RangePanic        // a range fragment without `-`
    | NothingToExport   // the range selects no episode
    | Exported(outDir: Path, format: Format, jobs: seq<Job>)

  /* ---------------- the episode list ---------------- */

  /** `ids` lists every key of `keys` once: the order in which a `HashMap`
      yields its entries, which the program does not control. */
  predicate IsKeyListing(ids: seq<u32>, keys: set<u32>) {
    (forall i, j :: 0 <= i < j < |ids| ==> ids[i] != ids[j])
    && (forall x :: x in ids ==> x in keys)
    && (forall x :: x in keys ==> x in ids)
  }

  /** The iteration order of a `HashMap` over `keys`: some listing of them. */
  method KeyOrder(keys: set<u32>) returns (ids: seq<u32>)
    ensures IsKeyListing(ids, keys)
  {
    ids := [];
    var rest := keys;
    while rest != {}
      invariant rest <= keys
      invariant forall i, j :: 0 <= i < j < |ids| ==> ids[i] != ids[j]
      invariant forall x :: x in ids ==> x in keys && x !in rest
      invariant forall x :: x in keys ==> x in ids || x in rest
      decreases rest
    {
      var x :| x in rest;
      ids := ids + [x];
      rest := rest - {x};
    }
  }

  /** `comic_cache.episodes.values()` in the order of `ids`. */
  function Listed(episodes: map<u32, EpisodeCache>, ids: seq<u32>): (r: seq<EpisodeCache>)
    requires forall x :: x in ids ==> x in episodes
    ensures |r| == |ids| && forall k :: 0 <= k < |ids| ==> r[k] == episodes[ids[k]]
  {
    seq(|ids|, k requires 0 <= k < |ids| => episodes[ids[k]])
  }

  /** A listing is empty exactly when there is nothing to list. */
  lemma KeyListingEmpty(ids: seq<u32>, keys: set<u32>)
    requires IsKeyListing(ids, keys)
    ensures ids == [] <==> keys == {}
  {
    if ids != [] {
      assert ids[0] in ids;
    }
    if keys != {} {
      var x :| x in keys;
      assert x in ids;
    }
  }

  /** `apply_range` does not panic on the comic's episodes: there are none,
      the range is empty, or every fragment holds a `-`. */
  predicate RangeOk(comic: ComicCache, range: string) {
    comic.episodes.Keys == {} || range == "" || RangeWellFormed(range)
  }

  /** The episodes the command exports, in order, for one iteration order
      of the cached episodes: sorted by key, then narrowed by the range. */
  function Selected(comic: ComicCache, ids: seq<u32>, range: string, parse: string -> Option<real>): seq<EpisodeCache>
    requires IsKeyListing(ids, comic.episodes.Keys) && RangeOk(comic, range)
  {
    KeyListingEmpty(ids, comic.episodes.Keys);
    var sorted := SortByKey(Listed(comic.episodes, ids), OrdOf);
    RangeSelection(sorted, range, OrdOf, parse)
  }

  /** Which episodes are exported does not depend on the iteration order
      of the cached episodes (only the order of episodes with equal keys
      may). */
  lemma SelectedSameMembers(comic: ComicCache, ids1: seq<u32>, ids2: seq<u32>, range: string,
                            parse: string -> Option<real>)
    requires IsKeyListing(ids1, comic.episodes.Keys) && IsKeyListing(ids2, comic.episodes.Keys)
    requires RangeOk(comic, range)
    ensures forall e :: e in Selected(comic, ids1, range, parse) <==> e in Selected(comic, ids2, range, parse)
    ensures Selected(comic, ids1, range, parse) == [] <==> Selected(comic, ids2, range, parse) == []
  {
    var l1, l2 := Listed(comic.episodes, ids1), Listed(comic.episodes, ids2);
    var s1, s2 := SortByKey(l1, OrdOf), SortByKey(l2, OrdOf);
    ListedMembers(comic.episodes, ids1);
    ListedMembers(comic.episodes, ids2);
    SameMembers(l1, s1);
    SameMembers(l2, s2);
    if s1 != [] {
      SortByKeySorted(l1, OrdOf);
      SortByKeySorted(l2, OrdOf);
      SameLastKey(s1, s2);
    }
    KeyListingEmpty(ids1, comic.episodes.Keys);
    KeyListingEmpty(ids2, comic.episodes.Keys);
    SelectionSameMembers(s1, s2, range, parse);
  }

  /** Narrowing two sorted lists with the same members by one range keeps
      the same members. */
  lemma SelectionSameMembers(s1: seq<EpisodeCache>, s2: seq<EpisodeCache>, range: string, parse: string -> Option<real>)
    requires s1 == [] || range == "" || RangeWellFormed(range)
    requires s2 == [] || range == "" || RangeWellFormed(range)
    requires forall e :: e in s1 <==> e in s2
    requires s1 != [] ==> s2 != [] && OrdOf(s1[|s1| - 1]) == OrdOf(s2[|s2| - 1])
    ensures forall e :: e in RangeSelection(s1, range, OrdOf, parse) <==> e in RangeSelection(s2, range, OrdOf, parse)
    ensures RangeSelection(s1, range, OrdOf, parse) == [] <==> RangeSelection(s2, range, OrdOf, parse) == []
  {
    var r1, r2 := RangeSelection(s1, range, OrdOf, parse), RangeSelection(s2, range, OrdOf, parse);
    if s2 != [] {
      assert s2[0] in s1;
    }
    if r1 != [] {
      assert r1[0] in r2;
    }
    if r2 != [] {
      assert r2[0] in r1;
    }
  }

  /** A permutation has the same members. */
  lemma SameMembers(a: seq<EpisodeCache>, b: seq<EpisodeCache>)
    requires multiset(a) == multiset(b)
    ensures forall e :: e in a <==> e in b
  {
    forall e ensures e in a <==> e in b {
      assert e in a <==> e in multiset(a);
      assert e in b <==> e in multiset(b);
    }
  }

  /** The episodes listed are the cached ones. */
  lemma ListedMembers(episodes: map<u32, EpisodeCache>, ids: seq<u32>)
    requires IsKeyListing(ids, episodes.Keys)
    ensures forall e :: e in Listed(episodes, ids) <==> e in episodes.Values
  {
    forall e | e in episodes.Values ensures e in Listed(episodes, ids) {
      var x :| x in episodes && episodes[x] == e;
      assert x in ids;
      var k :| 0 <= k < |ids| && ids[k] == x;
      assert Listed(episodes, ids)[k] == e;
    }
    forall e | e in Listed(episodes, ids) ensures e in episodes.Values {
      ListedCached(episodes, ids, e);
    }
  }

  /** Two lists sorted by key with the same members end on the same key. */
  lemma SameLastKey(s1: seq<EpisodeCache>, s2: seq<EpisodeCache>)
    requires SortedBy(s1, OrdOf) && SortedBy(s2, OrdOf) && s1 != []
    requires forall e :: e in s1 <==> e in s2
    ensures s2 != [] && OrdOf(s1[|s1| - 1]) == OrdOf(s2[|s2| - 1])
  {
    assert s1[|s1| - 1] in s2;
    LastKeyIsMax(s1, s2[|s2| - 1]);
    LastKeyIsMax(s2, s1[|s1| - 1]);
  }

  /** In a list sorted by key the last key is the largest. */
  lemma LastKeyIsMax(s: seq<EpisodeCache>, x: EpisodeCache)
    requires SortedBy(s, OrdOf) && x in s
    ensures OrdOf(x) <= OrdOf(s[|s| - 1])
  {
    var i :| 0 <= i < |s| && s[i] == x;
    if i < |s| - 1 {
      assert OrdOf(s[i]) <= OrdOf(s[|s| - 1]);
    }
  }

  /** The exported episodes are in ascending key order. */
  lemma SelectedSorted(comic: ComicCache, ids: seq<u32>, range: string, parse: string -> Option<real>)
    requires IsKeyListing(ids, comic.episodes.Keys) && RangeOk(comic, range)
    ensures SortedBy(Selected(comic, ids, range, parse), OrdOf)
  {
    KeyListingEmpty(ids, comic.episodes.Keys);
    var sorted := SortByKey(Listed(comic.episodes, ids), OrdOf);
    SortByKeySorted(Listed(comic.episodes, ids), OrdOf);
    if sorted != [] && range != "" {
      FilterKeepsSorted(sorted, Keeper(Split(range, ","), OrdOf(sorted[|sorted| - 1]), parse, OrdOf), OrdOf);
    }
  }

  /** The exported episodes are cached episodes of the comic. */
  lemma SelectedCached(comic: ComicCache, ids: seq<u32>, range: string, parse: string -> Option<real>)
    requires IsKeyListing(ids, comic.episodes.Keys) && RangeOk(comic, range)
    ensures forall e :: e in Selected(comic, ids, range, parse) ==> e in comic.episodes.Values
  {
    var listed := Listed(comic.episodes, ids);
    var sorted := SortByKey(listed, OrdOf);
    forall e | e in Selected(comic, ids, range, parse) ensures e in comic.episodes.Values {
      assert e in sorted;
      assert e in multiset(listed);
      ListedCached(comic.episodes, ids, e);
    }
  }

  lemma ListedCached(episodes: map<u32, EpisodeCache>, ids: seq<u32>, e: EpisodeCache)
    requires forall x :: x in ids ==> x in episodes
    requires e in Listed(episodes, ids)
    ensures e in episodes.Values
  {
    var k :| 0 <= k < |ids| && Listed(episodes, ids)[k] == e;
    assert ids[k] in ids;
  }

  /* ---------------- the plan ---------------- */

  /** One `Single` item per episode, in order. */
  function Singles(list: seq<EpisodeCache>): (r: seq<Item>)
    ensures |r| == |list| && forall k :: 0 <= k < |list| ==> r[k] == Single(list[k])
  {
    seq(|list|, k requires 0 <= k < |list| => Single(list[k]))
  }

  lemma {:induction false} SinglesCover(list: seq<EpisodeCache>)
    ensures Episodes(Singles(list)) == list
    decreases |list|
  {
    if list != [] {
      var init := list[..|list| - 1];
      SinglesCover(init);
      assert Singles(list)[..|list| - 1] == Singles(init);
      assert list == init + [list[|list| - 1]];
    }
  }

  /** The items of the export: one per episode when splitting, chunks of
      `grouping` episodes when that is positive, otherwise one group of
      every episode. */
  function Plan(list: seq<EpisodeCache>, split: bool, grouping: nat): (r: seq<Item>)
    ensures list != [] ==> GroupsNonEmpty(r)
  {
    if split then Singles(list)
    else if grouping > 0 then Chunks(list, grouping)
    else [Group(list)]
  }

  /** The plan step of the command (the `if` over `split_episodes` and
      `grouping`), computing `Plan`. */
  method PlanItems(list: seq<EpisodeCache>, split: bool, grouping: nat) returns (items: seq<Item>)
    requires list != []
    ensures items == Plan(list, split, grouping)
    ensures Episodes(items) == list
    ensures GroupsNonEmpty(items)
    ensures split ==> items == Singles(list)
    ensures !split && grouping > 0 ==>
      && NonEmptyGroups(items)
      && (forall k :: 0 <= k < |items| - 1 ==> |items[k].eps| == grouping)
      && |items[|items| - 1].eps| <= grouping
    ensures !split && grouping == 0 ==> items == [Group(list)]
  {
    if split {
      items := Singles(list);
      SinglesCover(list);
    } else if grouping > 0 {
      items := MakeGroups(list, grouping);
    } else {
      items := [Group(list)];
      assert Episodes(items) == Episodes([]) + list;
    }
  }

  /* ---------------- format dispatch ---------------- */

  /** The content of the comic's `cover.jpg`, when it is a file. */
  function CoverContent(fs: Tree, dir: Path): (r: Option<Content>)
    ensures r.Some? <==> dir in fs && CoverFile in fs[dir]
  {
    if dir in fs && CoverFile in fs[dir] then Some(fs[dir][CoverFile]) else None
  }

  /** The format named on the command line: "pdf", "epub" with the cover
      when there is one, anything else a zip archive. */
  function DispatchFormat(name: string, cover: Option<Content>): (r: Format)
    ensures r.Epub? ==> r.cover == cover
    ensures !r.Cbz?
  {
    if name == "pdf" then Pdf
    else if name == "epub" then Epub(cover)
    else Zip
  }

  /** The extension of the output files is the requested format name when
      it is "pdf" or "epub", and "zip" for every other name. */
  lemma DispatchExtension(name: string, cover: Option<Content>)
    ensures FileExtension(DispatchFormat(name, cover)) == if name == "pdf" || name == "epub" then name else "zip"
  {
  }

  /* ---------------- export ---------------- */

  /** The episodes to export: sorted by key, then narrowed by the range;
      `true` when a range fragment without `-` makes `apply_range` panic. */
  method SelectForExport(comic: ComicCache, ids: seq<u32>, range: string, parse: string -> Option<real>)
    returns (panicked: bool, list: seq<EpisodeCache>)
    requires IsKeyListing(ids, comic.episodes.Keys)
    ensures panicked <==> !RangeOk(comic, range)
    ensures !panicked ==> list == Selected(comic, ids, range, parse)
    ensures !panicked ==> SortedBy(list, OrdOf) && forall e :: e in list ==> e in comic.episodes.Values
  {
    KeyListingEmpty(ids, comic.episodes.Keys);
    var sorted := SortByKey(Listed(comic.episodes, ids), OrdOf);
    if !(sorted == [] || range == "" || RangeWellFormed(range)) {
      return true, [];
    }
    panicked := false;
    list := ApplyRange(sorted, range, OrdOf, parse);
    SelectedSorted(comic, ids, range, parse);
    SelectedCached(comic, ids, range, parse);
  }

  /** The range selects no episode, whatever the iteration order. */
  ghost predicate NothingSelected(comic: ComicCache, range: string, parse: string -> Option<real>) {
    RangeOk(comic, range)
    && forall ids :: IsKeyListing(ids, comic.episodes.Keys) ==> Selected(comic, ids, range, parse) == []
  }

  /** The comic `id` was exported to `outDir` in `format` as `jobs`: the
      directory is `{export dir}/{comic title}`, the format is the one
      named (an epub carrying the cached cover), and for some iteration
      order the jobs are the output files of the plan of the selected
      episodes. */
  ghost predicate ExportedAs(comic: ComicCache, id: u32, fs: Tree, outDir: Path, format: Format, jobs: seq<Job>,
                             range: string, grouping: nat, split: bool, exportDir: Option<Path>, defaultDir: Path,
                             cacheRoot: Path, formatName: string, parse: string -> Option<real>,
                             showOrd: real -> string)
  {
    && outDir == exportDir.GetOr(defaultDir) + [comic.title]
    && format == DispatchFormat(formatName, CoverContent(fs, cacheRoot + [NatToString(id)]))
    && RangeOk(comic, range)
    && exists ids :: IsKeyListing(ids, comic.episodes.Keys)
         && var list := Selected(comic, ids, range, parse);
         && list != []
         && JobEpisodes(jobs) == list
         && jobs == JobsFor(comic, Plan(list, split, grouping), outDir, format, showOrd)
  }

  /** The command once the comic is found: select, plan, create the output
      directory `{export dir}/{comic title}` and export in the chosen format. */
  method ExportComic(comic: ComicCache, id: u32, fs: Tree, range: string, grouping: nat, split: bool,
                     exportDir: Option<Path>, defaultDir: Path, cacheRoot: Path, formatName: string,
                     parse: string -> Option<real>, showOrd: real -> string)
    returns (r: ExportOutcome, fs': Tree)
    ensures r.Exited? == false && r.NotCached? == false
    ensures r.RangePanic? <==> !RangeOk(comic, range)
    ensures r.NothingToExport? <==> NothingSelected(comic, range, parse)
    ensures r.Exported? ==>
      && ExportedAs(comic, id, fs, r.outDir, r.format, r.jobs, range, grouping, split, exportDir, defaultDir,
                    cacheRoot, formatName, parse, showOrd)
      && r.outDir in fs'
      && SortedBy(JobEpisodes(r.jobs), OrdOf)
      && (forall e :: e in JobEpisodes(r.jobs) ==> e in comic.episodes.Values)
    ensures !r.Exported? ==> fs' == fs
    ensures forall q :: q in fs ==> q in fs' && fs'[q] == fs[q]
    ensures forall q :: q in fs' && q !in fs ==> r.Exported? && IsPrefix(q, r.outDir) && fs'[q] == map[]
  {
    fs' := fs;
    var ids := KeyOrder(comic.episodes.Keys);
    var panicked, list := SelectForExport(comic, ids, range, parse);
    if panicked {
      return RangePanic, fs';
    }
    if list == [] {
      forall ids' | IsKeyListing(ids', comic.episodes.Keys) ensures Selected(comic, ids', range, parse) == [] {
        SelectedSameMembers(comic, ids, ids', range, parse);
      }
      return NothingToExport, fs';
    }
    var items := PlanItems(list, split, grouping);
    var outDir := exportDir.GetOr(defaultDir) + [comic.title];
    fs' := MakeOutDir(fs, outDir);
    var format := DispatchFormat(formatName, CoverContent(fs, cacheRoot + [NatToString(id)]));
    var jobs := Exports.Export(comic, items, outDir, format, showOrd);
    r := Exported(outDir, format, jobs);
    assert IsKeyListing(ids, comic.episodes.Keys) && Selected(comic, ids, range, parse) == list;
    assert !NothingSelected(comic, range, parse);
  }

  /** `create_dir_all` of the output directory when it does not exist. */
  method MakeOutDir(fs: Tree, outDir: Path) returns (fs': Tree)
    ensures outDir in fs'
    ensures forall q :: q in fs ==> q in fs' && fs'[q] == fs[q]
    ensures forall q :: q in fs' && q !in fs ==> IsPrefix(q, outDir) && fs'[q] == map[]
    ensures outDir in fs ==> fs' == fs
  {
    assert IsPrefix(outDir, outDir);
    fs' := if outDir in fs then fs else CreateDirAll(fs, outDir);
  }

  /** The whole command: `comics` and `fs` are the loaded cache and disk. */
  method Export(comics: map<u32, ComicCache>, fs: Tree, idOrLink: string, isNumeric: char -> bool,
                range: string, grouping: nat, split: bool, exportDir: Option<Path>, defaultDir: Path,
                cacheRoot: Path, formatName: string, parse: string -> Option<real>, showOrd: real -> string)
    returns (r: ExportOutcome, fs': Tree)
    ensures r.Exited? <==> ParseId(idOrLink, isNumeric).None?
    ensures r.NotCached? <==> ParseId(idOrLink, isNumeric).Some? && ParseId(idOrLink, isNumeric).value !in comics
    ensures var id := ParseId(idOrLink, isNumeric);
      r.RangePanic? <==> id.Some? && id.value in comics && !RangeOk(comics[id.value], range)
    ensures var id := ParseId(idOrLink, isNumeric);
      r.NothingToExport? <==> id.Some? && id.value in comics && NothingSelected(comics[id.value], range, parse)
    ensures !r.Exported? ==> fs' == fs
    ensures r.Exported? ==> var id := ParseId(idOrLink, isNumeric).value;
      && id in comics
      && ExportedAs(comics[id], id, fs, r.outDir, r.format, r.jobs, range, grouping, split, exportDir, defaultDir,
                    cacheRoot, formatName, parse, showOrd)
      && r.outDir in fs'
      && SortedBy(JobEpisodes(r.jobs), OrdOf)
      && (forall e :: e in JobEpisodes(r.jobs) ==> e in comics[id].episodes.Values)
    ensures forall q :: q in fs ==> q in fs' && fs'[q] == fs[q]
    ensures forall q :: q in fs' && q !in fs ==> r.Exported? && IsPrefix(q, r.outDir) && fs'[q] == map[]
  {
    var target := ParseIdOrLink(idOrLink, isNumeric);
    if target.Exit? {
      return Exited, fs;
    }
    var found := GetComic(comics, target.id);
    if found.None? {
      return NotCached, fs;
    }
    r, fs' := ExportComic(found.value, target.id, fs, range, grouping, split, exportDir, defaultDir,
                          cacheRoot, formatName, parse, showOrd);
  }
}
