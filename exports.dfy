/** Export naming and planning (src/lib/exports.rs): the MIME type of a
    page, the extension of each output format, the ordering-key span of a
    group, the output file names, the entry names inside a zip archive, the
    CBZ metadata fields, and the list of files `export` writes. The writers
    themselves (epub, pdf and zip assembly) are not modelled; `showOrd` is
    Rust's `{}` rendering of an `f64` ordering key, a parameter. */
module Exports {
  import opened Wrappers
  import opened Text
  import opened Seqs
  import opened Entities
  import opened Cache

  /* ---------------- guess_mime ---------------- */

  /** `Epub::guess_mime`: the MIME type of a page file, by suffix, the
      suffixes tried in order. */
  function GuessMime(path: string): (r: string)
    ensures r == "application/octet-stream" <==>
      !(EndsWith(path, ".jpg") || EndsWith(path, ".jpeg") || EndsWith(path, ".png")
        || EndsWith(path, ".gif") || EndsWith(path, ".svg"))
  {
    if EndsWith(path, ".jpg") || EndsWith(path, ".jpeg") then "image/jpeg"
    else if EndsWith(path, ".png") then "image/png"
    else if EndsWith(path, ".gif") then "image/gif"
    else if EndsWith(path, ".svg") then "image/svg+xml"
    else "application/octet-stream"
  }

  /** A string ending in `a` does not end in `b` when the two suffixes
      differ `k` characters from their ends. */
  lemma SuffixesDiffer(s: string, a: string, b: string, k: nat)
    requires EndsWith(s, a) && k < |a| && k < |b| && a[|a| - 1 - k] != b[|b| - 1 - k]
    ensures !EndsWith(s, b)
  {
    assert s[|s| - 1 - k] == a[|a| - 1 - k];
    if |b| <= |s| {
      assert s[|s| - |b|..][|b| - 1 - k] == s[|s| - 1 - k];
    }
  }

  /** Every page image the cache keeps (a `jpg` or `png` file) is given the
      image type of its own extension, never a generic type. */
  lemma ImageMime(name: string)
    requires IsImageName(name)
    ensures GuessMime(name) == (if Extension(name) == Some("jpg") then "image/jpeg" else "image/png")
  {
    if Extension(name) == Some("jpg") {
      assert "." + "jpg" == ".jpg";
      assert EndsWith(name, ".jpg");
    } else {
      assert "." + "png" == ".png";
      assert EndsWith(name, ".png");
      SuffixesDiffer(name, ".png", ".jpg", 2);
      SuffixesDiffer(name, ".png", ".jpeg", 1);
    }
  }

  /* ---------------- export formats ---------------- */

  /** The output formats (`ExportFormatEnum`); an epub carries the content
      of the comic's cover file, if it has one. */
  datatype Format = Pdf | Epub(cover: Option<Content>) | Zip | Cbz

  /** `get_extension` of each format. */
  function FileExtension(format: Format): (r: string)
    ensures |r| == 3 || |r| == 4
  {
    match format
    case Pdf => "pdf"
    case Epub(_) => "epub"
    case Zip => "zip"
    case Cbz => "cbz"
  }

  /** Different formats have different extensions: the extension tells
      which writer produced a file. */
  lemma ExtensionsDistinct(f: Format, g: Format)
    requires FileExtension(f) == FileExtension(g)
    ensures f.Pdf? == g.Pdf? && f.Epub? == g.Epub? && f.Zip? == g.Zip? && f.Cbz? == g.Cbz?
  {
    var e, x := FileExtension(f), FileExtension(g);
    assert e[0] == x[0] && |e| == |x|;
    if f.Zip? || g.Zip? {
      assert e[0] == 'z';
    }
  }

  /* ---------------- get_min_max_ord ---------------- */

  /** `f64::MAX`, where the running minimum of `get_min_max_ord` starts. */
  const F64Max: real := 179769313486231570814527423731704356798070567525844996598917476803157260780028538760589558632766878171540458953514382464234321326889464182768467546703537516986049910576551282076245490090389328944075868508455133942304583236903222948165808559332123348274797826204144723168738177180919299881250404026184124858368.0

  /** The running minimum of `get_min_max_ord` after the given episodes:
      the smallest key, or `f64::MAX` when there is none below it. */
  function MinOrd(eps: seq<EpisodeCache>): (r: real)
    ensures r <= F64Max
    ensures forall k :: 0 <= k < |eps| ==> r <= eps[k].ord
    ensures r == F64Max || exists k :: 0 <= k < |eps| && r == eps[k].ord
  {
    if eps == [] then F64Max
    else
      var m := MinOrd(eps[..|eps| - 1]);
      assert forall k :: 0 <= k < |eps| - 1 ==> eps[..|eps| - 1][k] == eps[k];
      if eps[|eps| - 1].ord < m then eps[|eps| - 1].ord else m
  }

  /** The running maximum of `get_min_max_ord` after the given episodes:
      the largest key, or 0 when every key is below 0. */
  function MaxOrd(eps: seq<EpisodeCache>): (r: real)
    ensures 0.0 <= r
    ensures forall k :: 0 <= k < |eps| ==> eps[k].ord <= r
    ensures r == 0.0 || exists k :: 0 <= k < |eps| && r == eps[k].ord
  {
    if eps == [] then 0.0
    else
      var m := MaxOrd(eps[..|eps| - 1]);
      assert forall k :: 0 <= k < |eps| - 1 ==> eps[..|eps| - 1][k] == eps[k];
      if eps[|eps| - 1].ord > m then eps[|eps| - 1].ord else m
  }

  /** `get_min_max_ord`: one pass keeping the running minimum and maximum. */
  method GetMinMaxOrd(eps: seq<EpisodeCache>) returns (min: real, max: real)
    ensures min == MinOrd(eps) && max == MaxOrd(eps)
  {
    min, max := F64Max, 0.0;
    for i := 0 to |eps|
      invariant min == MinOrd(eps[..i]) && max == MaxOrd(eps[..i])
    {
      assert eps[..i + 1][..i] == eps[..i];
      if eps[i].ord < min {
        min := eps[i].ord;
      }
      if eps[i].ord > max {
        max := eps[i].ord;
      }
    }
    assert eps[..|eps|] == eps;
  }

  /** The keys of a list sorted by key that are neither negative nor above
      `f64::MAX` span from its first to its last episode. */
  lemma SortedSpan(eps: seq<EpisodeCache>)
    requires eps != [] && SortedBy(eps, OrdOf)
    requires 0.0 <= eps[0].ord && eps[|eps| - 1].ord <= F64Max
    ensures MinOrd(eps) == eps[0].ord && MaxOrd(eps) == eps[|eps| - 1].ord
  {
    var min, max := MinOrd(eps), MaxOrd(eps);
    assert OrdOf(eps[0]) <= OrdOf(eps[|eps| - 1]) || |eps| == 1;
    if min != F64Max {
      var k :| 0 <= k < |eps| && min == eps[k].ord;
      assert k == 0 || OrdOf(eps[0]) <= OrdOf(eps[k]);
    }
    if max != 0.0 {
      var k :| 0 <= k < |eps| && max == eps[k].ord;
      assert k == |eps| - 1 || OrdOf(eps[k]) <= OrdOf(eps[|eps| - 1]);
    }
  }

  /** The ordering key of a cached episode. */
  function OrdOf(ep: EpisodeCache): real {
    ep.ord
  }

  /* ---------------- make_file_name ---------------- */

  /** `Item::make_file_name`: "{ord}. {title}" for one episode; for a group
      "{min}. {first title}" when its keys span a single value, otherwise
      "{min}-{max}. {first title}-{last title}". A group has at least one
      episode (`eps[0]` panics otherwise). */
  function FileName(item: Item, showOrd: real -> string): (r: string)
    requires item.Group? ==> item.eps != []
    ensures item.Single? ==> EndsWith(r, ". " + item.ep.title)
    ensures item.Group? ==> EndsWith(r, ". " + item.eps[0].title) || EndsWith(r, "-" + item.eps[|item.eps| - 1].title)
  {
    match item
    case Single(ep) =>
      NameEndsWith(showOrd(ep.ord), ". ", ep.title);
      showOrd(ep.ord) + ". " + ep.title
    case Group(eps) =>
      var min, max := MinOrd(eps), MaxOrd(eps);
      if min == max then
        NameEndsWith(showOrd(min), ". ", eps[0].title);
        showOrd(min) + ". " + eps[0].title
      else
        NameEndsWith(showOrd(min) + "-" + showOrd(max) + ". " + eps[0].title, "-", eps[|eps| - 1].title);
        showOrd(min) + "-" + showOrd(max) + ". " + eps[0].title + "-" + eps[|eps| - 1].title
  }

  lemma NameEndsWith(head: string, sep: string, tail: string)
    ensures EndsWith(head + sep + tail, sep + tail)
  {
    assert (head + sep + tail)[|head|..] == sep + tail;
  }

  /** A group of one episode whose key is neither negative nor above
      `f64::MAX` is named like that episode exported on its own. */
  lemma OneEpisodeGroupName(ep: EpisodeCache, showOrd: real -> string)
    requires 0.0 <= ep.ord <= F64Max
    ensures FileName(Group([ep]), showOrd) == FileName(Single(ep), showOrd)
  {
    assert MinOrd([ep]) == ep.ord && MaxOrd([ep]) == ep.ord;
  }

  /** A group sorted by key, its keys neither negative nor above `f64::MAX`,
      is named after its first and last episodes: one key when they share
      it, the span of the two keys otherwise. */
  lemma SortedGroupName(eps: seq<EpisodeCache>, showOrd: real -> string)
    requires eps != [] && SortedBy(eps, OrdOf)
    requires 0.0 <= eps[0].ord && eps[|eps| - 1].ord <= F64Max
    ensures var first, last := eps[0], eps[|eps| - 1];
      FileName(Group(eps), showOrd) ==
        if first.ord == last.ord then showOrd(first.ord) + ". " + first.title
        else showOrd(first.ord) + "-" + showOrd(last.ord) + ". " + first.title + "-" + last.title
  {
    SortedSpan(eps);
  }

  /* ---------------- zip entry names ---------------- */

  /** The name of the i-th page of an episode inside a zip archive,
      "{ord} - {title}/{i}.{ext}". */
  function ZipEntryName(ep: EpisodeCache, i: nat, ext: string, showOrd: real -> string): string {
    showOrd(ep.ord) + " - " + ep.title + "/" + NatToString(i) + "." + ext
  }

  /** The extension of a local page file (`path.extension().unwrap()`). */
  function PageExtension(page: Path): (r: Option<string>)
    requires page != []
  {
    Extension(Last(page))
  }

  /** Every page file of the episode has an extension: the `unwrap` of
      `Zip::write_single_episode` panics otherwise. */
  predicate PagesHaveExtensions(ep: EpisodeCache) {
    forall i :: 0 <= i < |ep.paths| ==> PageExtension(GetPaths(ep)[i]).Some?
  }

  /** `Zip::write_single_episode`: one entry per page, in page order, named
      after the episode, the page's position and its file extension; no two
      entries share a name. The first page file without an extension makes
      the `unwrap` panic (`panicked`), after the entries of the pages
      before it were started. */
  method ZipEntries(ep: EpisodeCache, showOrd: real -> string) returns (panicked: bool, names: seq<string>)
    ensures panicked <==> !PagesHaveExtensions(ep)
    ensures !panicked ==> |names| == |ep.paths|
    ensures panicked ==> |names| < |ep.paths| && PageExtension(GetPaths(ep)[|names|]).None?
    ensures |names| <= |ep.paths|
    ensures forall i :: 0 <= i < |names| ==>
      && PageExtension(GetPaths(ep)[i]).Some?
      && names[i] == ZipEntryName(ep, i, PageExtension(GetPaths(ep)[i]).value, showOrd)
    ensures forall i, j :: 0 <= i < j < |names| ==> names[i] != names[j]
  {
    var paths := GetPaths(ep);
    names := [];
    ghost var exts: seq<string> := [];
    for i := 0 to |paths|
      invariant |names| == i && |exts| == i
      invariant forall k :: 0 <= k < i ==> PageExtension(paths[k]) == Some(exts[k])
      invariant forall k :: 0 <= k < i ==> names[k] == ZipEntryName(ep, k, exts[k], showOrd)
      invariant forall k, l :: 0 <= k < l < i ==> names[k] != names[l]
    {
      var ext := PageExtension(paths[i]);
      if ext.None? {
        return true, names;
      }
      EntriesSnoc(ep, exts + [ext.value], names, i, showOrd);
      names := names + [ZipEntryName(ep, i, ext.value, showOrd)];
      exts := exts + [ext.value];
    }
    panicked := false;
  }

  /** Appending the entry of page `i` to the distinct entries of the pages
      before it gives the distinct entries of the pages up to `i`. */
  lemma EntriesSnoc(ep: EpisodeCache, exts: seq<string>, names: seq<string>, i: nat, showOrd: real -> string)
    requires i < |exts| && |names| == i
    requires forall k :: 0 <= k < i ==> names[k] == ZipEntryName(ep, k, exts[k], showOrd)
    requires forall k, l :: 0 <= k < l < i ==> names[k] != names[l]
    ensures var next := names + [ZipEntryName(ep, i, exts[i], showOrd)];
      && (forall k :: 0 <= k < i + 1 ==> next[k] == ZipEntryName(ep, k, exts[k], showOrd))
      && (forall k, l :: 0 <= k < l < i + 1 ==> next[k] != next[l])
  {
    var name := ZipEntryName(ep, i, exts[i], showOrd);
    var next := names + [name];
    NewEntryDistinct(ep, exts, names, i, showOrd);
    forall k | 0 <= k < i + 1 ensures next[k] == ZipEntryName(ep, k, exts[k], showOrd) {
      if k < i {
        assert next[k] == names[k];
      } else {
        assert next[k] == name;
      }
    }
    forall k, l | 0 <= k < l < i + 1 ensures next[k] != next[l] {
      if l < i {
        assert next[k] == names[k] && next[l] == names[l];
      } else {
        assert next[k] == names[k] && next[l] == name;
      }
    }
  }

  /** The entry of page `i` differs from the entries of the pages before it. */
  lemma NewEntryDistinct(ep: EpisodeCache, exts: seq<string>, names: seq<string>, i: nat, showOrd: real -> string)
    requires i < |exts| && |names| == i
    requires forall k :: 0 <= k < i ==> names[k] == ZipEntryName(ep, k, exts[k], showOrd)
    ensures forall k :: 0 <= k < i ==> names[k] != ZipEntryName(ep, i, exts[i], showOrd)
  {
    forall k | 0 <= k < i ensures names[k] != ZipEntryName(ep, i, exts[i], showOrd) {
      ZipEntryInjective(ep, k, i, exts[k], exts[i], showOrd);
    }
  }

  /** Two pages of one episode never share an entry name: the name gives
      back the page's position and extension. */
  lemma ZipEntryInjective(ep: EpisodeCache, i: nat, j: nat, e1: string, e2: string, showOrd: real -> string)
    ensures ZipEntryName(ep, i, e1, showOrd) == ZipEntryName(ep, j, e2, showOrd) ==> i == j && e1 == e2
  {
    var head := showOrd(ep.ord) + " - " + ep.title + "/";
    var a, b := NatToString(i) + "." + e1, NatToString(j) + "." + e2;
    assert ZipEntryName(ep, i, e1, showOrd) == head + a;
    assert ZipEntryName(ep, j, e2, showOrd) == head + b;
    if head + a == head + b {
      assert a == (head + a)[|head|..];
      assert b == (head + b)[|head|..];
      DigitsDotInjective(NatToString(i), NatToString(j), e1, e2);
    }
  }

  /** A run of digits followed by a dot is found again by the dot. */
  lemma DigitsDotInjective(a: string, b: string, e1: string, e2: string)
    requires AllDigits(a) && AllDigits(b)
    requires a + "." + e1 == b + "." + e2
    ensures a == b && e1 == e2
  {
    var s := a + "." + e1;
    assert s[|a|] == '.';
    assert forall j :: 0 <= j < |b| ==> s[j] == b[j];
    assert |a| >= |b|;
    assert s == b + "." + e2 && s[|b|] == '.';
    assert forall j :: 0 <= j < |a| ==> s[j] == a[j];
    assert |b| >= |a|;
    assert a == s[..|a|] && b == s[..|b|];
    assert e1 == s[|a| + 1..] && e2 == s[|b| + 1..];
  }

  /* ---------------- Cbz::prepare_metadata ---------------- */

  /** A credit line of the CBZ metadata. */
  datatype Credit = Credit(person: string, role: string)

  /** The fields of the CBZ `ComicBookInfo/1.0` metadata. */
  datatype CbzInfo = CbzInfo(
    title: string, series: string, publisher: string, issue: Option<real>,
    genre: string, language: string, credits: seq<Credit>, tags: seq<string>)

  /** The publisher named in every CBZ archive, 哔哩哔哩漫画. */
  const Publisher: string := "\U{54D4}\U{54E9}\U{54D4}\U{54E9}\U{6F2B}\U{753B}"

  /** `Cbz::prepare_metadata`: `None` stands for the panic on a comic
      without tags (the genre is its first tag). */
  function PrepareMetadata(comic: ComicCache, title: string, ord: Option<real>): (r: Option<CbzInfo>)
    ensures r.Some? <==> comic.tags != []
    ensures r.Some? ==> r.value.genre == comic.tags[0] && r.value.tags == comic.tags
    ensures r.Some? ==> r.value.title == title && r.value.series == comic.title && r.value.issue == ord
    ensures r.Some? ==> |r.value.credits| == |comic.authorNames|
    ensures r.Some? ==> forall i :: 0 <= i < |comic.authorNames| ==>
      r.value.credits[i] == Credit(comic.authorNames[i], "Creator")
  {
    if comic.tags == [] then None
    else
      var credits := seq(|comic.authorNames|, i requires 0 <= i < |comic.authorNames| => Credit(comic.authorNames[i], "Creator"));
      Some(CbzInfo(title, comic.title, Publisher, ord, comic.tags[0], "Chineses", credits, comic.tags))
  }

  /* ---------------- export ---------------- */

  /** One output file of `export`: its path, the episodes written into it
      in order, and the title and ordering key the writer receives (which
      become the epub title and description and the CBZ title and issue). */
  datatype Job = Job(path: Path, episodes: seq<EpisodeCache>, title: string, ord: Option<real>)

  /** The output file for one item: "{file name}.{extension}" in `outDir`;
      one episode is written under its own title and key, a group under the
      comic's title and no key. */
  function JobFor(comic: ComicCache, item: Item, outDir: Path, format: Format, showOrd: real -> string): Job
    requires item.Group? ==> item.eps != []
  {
    var path := outDir + [FileName(item, showOrd) + "." + FileExtension(format)];
    match item
    case Single(ep) => Job(path, [ep], ep.title, Some(ep.ord))
    case Group(eps) => Job(path, eps, comic.title, None)
  }

  /** Each output file lies directly in `outDir`, carries the format's
      extension and writes the item's episodes; only a single episode passes
      its ordering key to the writer. */
  lemma JobShape(comic: ComicCache, item: Item, outDir: Path, format: Format, showOrd: real -> string)
    requires item.Group? ==> item.eps != []
    ensures var r := JobFor(comic, item, outDir, format, showOrd);
      && |r.path| == |outDir| + 1 && r.path[..|outDir|] == outDir
      && EndsWith(Last(r.path), "." + FileExtension(format))
      && r.episodes == ItemEpisodes(item)
      && (r.ord.Some? <==> item.Single?)
  {
    var name := FileName(item, showOrd);
    NameEndsWith(name, ".", FileExtension(format));
    assert name + "." + FileExtension(format) == name + ("." + FileExtension(format));
    var path := outDir + [name + "." + FileExtension(format)];
    assert path[..|outDir|] == outDir;
  }

  /** The episodes written by a sequence of output files, in order. */
  function JobEpisodes(jobs: seq<Job>): seq<EpisodeCache> {
    if jobs == [] then [] else JobEpisodes(jobs[..|jobs| - 1]) + jobs[|jobs| - 1].episodes
  }

  /** Every group of the plan has at least one episode. */
  predicate GroupsNonEmpty(items: seq<Item>) {
    forall k :: 0 <= k < |items| ==> items[k].Group? ==> items[k].eps != []
  }

  /** The output files of a plan, one per item, in order. */
  function JobsFor(comic: ComicCache, items: seq<Item>, outDir: Path, format: Format, showOrd: real -> string): (r: seq<Job>)
    requires GroupsNonEmpty(items)
    ensures |r| == |items|
  {
    seq(|items|, k requires 0 <= k < |items| => JobFor(comic, items[k], outDir, format, showOrd))
  }

  /** `export`: one output file per item, in order; together they write
      every planned episode once, in the planned order. */
  method Export(comic: ComicCache, items: seq<Item>, outDir: Path, format: Format, showOrd: real -> string)
    returns (jobs: seq<Job>)
    requires GroupsNonEmpty(items)
    ensures |jobs| == |items|
    ensures forall k :: 0 <= k < |items| ==> jobs[k] == JobFor(comic, items[k], outDir, format, showOrd)
    ensures JobEpisodes(jobs) == Episodes(items)
    ensures jobs == JobsFor(comic, items, outDir, format, showOrd)
  {
    jobs := [];
    for k := 0 to |items|
      invariant |jobs| == k
      invariant forall l :: 0 <= l < k ==> jobs[l] == JobFor(comic, items[l], outDir, format, showOrd)
      invariant JobEpisodes(jobs) == Episodes(items[..k])
    {
      var job := JobFor(comic, items[k], outDir, format, showOrd);
      JobShape(comic, items[k], outDir, format, showOrd);
      ExportStep(jobs, job, items, k);
      JobsSnoc(comic, items, outDir, format, showOrd, jobs, k);
      jobs := jobs + [job];
    }
    assert items[..|items|] == items;
    assert jobs == JobsFor(comic, items, outDir, format, showOrd);
  }

  /** Appending the output file of item `k` to those of the items before it
      gives the output files of the items up to `k`. */
  lemma JobsSnoc(comic: ComicCache, items: seq<Item>, outDir: Path, format: Format, showOrd: real -> string,
                 jobs: seq<Job>, k: nat)
    requires k < |items| && |jobs| == k && GroupsNonEmpty(items)
    requires forall l :: 0 <= l < k ==> jobs[l] == JobFor(comic, items[l], outDir, format, showOrd)
    ensures var next := jobs + [JobFor(comic, items[k], outDir, format, showOrd)];
      forall l :: 0 <= l < k + 1 ==> next[l] == JobFor(comic, items[l], outDir, format, showOrd)
  {
    var job := JobFor(comic, items[k], outDir, format, showOrd);
    var next := jobs + [job];
    forall l | 0 <= l < k + 1 ensures next[l] == JobFor(comic, items[l], outDir, format, showOrd) {
      if l < k {
        assert next[l] == jobs[l];
      } else {
        assert next[l] == job;
      }
    }
  }

  /** One more output file writes the episodes of one more item. */
  lemma ExportStep(jobs: seq<Job>, job: Job, items: seq<Item>, k: nat)
    requires k < |items| && JobEpisodes(jobs) == Episodes(items[..k])
    requires job.episodes == ItemEpisodes(items[k])
    ensures JobEpisodes(jobs + [job]) == Episodes(items[..k + 1])
  {
    assert (jobs + [job])[..|jobs|] == jobs;
    assert items[..k + 1] == items[..k] + [items[k]];
    EpisodesSnoc(items[..k], items[k]);
  }

  /** Two single-episode output files have different paths as long as the
      episodes differ in rendered key or title and no rendered key holds a
      dot. */
  lemma SingleJobsDistinct(comic: ComicCache, e1: EpisodeCache, e2: EpisodeCache, outDir: Path, format: Format, showOrd: real -> string)
    requires showOrd(e1.ord) != showOrd(e2.ord) || e1.title != e2.title
    requires '.' !in showOrd(e1.ord) && '.' !in showOrd(e2.ord)
    ensures JobFor(comic, Single(e1), outDir, format, showOrd).path != JobFor(comic, Single(e2), outDir, format, showOrd).path
  {
    var ext := FileExtension(format);
    var n1, n2 := showOrd(e1.ord) + ". " + e1.title, showOrd(e2.ord) + ". " + e2.title;
    OrdPrefix(showOrd(e1.ord), showOrd(e2.ord), e1.title, e2.title);
    SuffixCancel(n1, n2, "." + ext);
    assert n1 + "." + ext == n1 + ("." + ext) && n2 + "." + ext == n2 + ("." + ext);
    assert JobFor(comic, Single(e1), outDir, format, showOrd).path[|outDir|] == n1 + "." + ext;
    assert JobFor(comic, Single(e2), outDir, format, showOrd).path[|outDir|] == n2 + "." + ext;
  }

  /** Equal strings with the same tail have the same head. */
  lemma SuffixCancel(x: string, z: string, y: string)
    ensures x + y == z + y ==> x == z
  {
    if x + y == z + y {
      assert x == (x + y)[..|x|] && z == (z + y)[..|z|];
    }
  }

  /** A rendered key without a dot is found again by the ". " after it. */
  lemma OrdPrefix(a: string, b: string, t1: string, t2: string)
    requires '.' !in a && '.' !in b
    ensures a + ". " + t1 == b + ". " + t2 ==> a == b && t1 == t2
  {
    var s := a + ". " + t1;
    if s == b + ". " + t2 {
      assert s[|a|] == '.';
      assert forall j :: 0 <= j < |b| ==> s[j] == b[j];
      assert |a| >= |b|;
      assert s[|b|] == '.';
      assert forall j :: 0 <= j < |a| ==> s[j] == a[j];
      assert |b| >= |a|;
      assert a == s[..|a|] && b == s[..|b|];
      assert t1 == s[|a| + 2..] && t2 == s[|b| + 2..];
    }
  }
}
