# bilibili comics downloader — a Dafny model of its core

The downloader fetches comics from Bilibili Manga into a local cache, one
directory per comic (named after its numeric id, holding `meta.toml` and
`cover.jpg`) and one sub-directory per episode (named after the episode id,
holding `meta.toml` and the page images). It then exports cached episodes as
PDF, EPUB, ZIP or CBZ files.

This project models the sequential logic of that program and proves what it
promises:

- **Episode selection and id parsing** (module `Utils`):
  - `apply_range` keeps the episodes whose ordering key falls in one of the
    comma-separated `a-b` / `a-` / `-b` fragments;
  - `make_groups` cuts a list into fixed-size chunks;
  - `parse_id` accepts `29911`, `mc29911` or a URL containing `mc29911`.
- **The local cache** (module `Cache`):
  - the file system is a value, `Tree = map<Path, Listing>`: each directory
    maps to its regular files;
  - a file is raw bytes or one of the two `meta.toml` records;
  - TOML writing and reading is storing and reading that record;
  - modelled operations: loading and syncing episode and comic records,
    pruning corrupt directories, the missing-pages diff and the local page
    paths.
- **Network helpers** (module `Network`):
  - sanitising titles into file names, and normalising episode titles and
    lock flags;
  - the image-token request and the signed URLs;
  - the QR-login status codes;
  - the checksum decision of `down_to`, and the one file it writes.
- **Fetching** (module `Fetch`):
  - the per-episode download pass `run_task`;
  - the retry loop of each worker;
  - refreshing the comic record and cover;
  - selecting the episodes to download.
- **Exporting** (modules `Exports` and `ExportCommand`):
  - MIME types, per-format extensions and the min/max ordering key of a group;
  - output file names, ZIP entry names and the CBZ metadata fields;
  - the Single/Group plan, the output directory and format dispatch.

The model threads everything a step depends on through parameters:

- **Network replies and the file system:** each step receives them and
  returns the new file system.
- **Computations the model does not spell out:**
  - `showOrd` is Rust's `{}` formatting of an `f64`;
  - `parse` is `str::parse::<f64>`;
  - `isNumeric` is `char::is_numeric`;
  - `digest` is base64 of the MD5 of some bytes.
- **Keys and iteration order:**
  - ordering keys are `real`;
  - ids are `u32`, a subset of `nat`;
  - the iteration order of a `HashMap` is whatever order `KeyOrder` picks.
- **Panics and exits:** a panic or a process exit that depends on the
  input, the cache contents or a server reply is an outcome value
  (`Panicked`, `RangePanic`, `Exited`, `None`, the `panicked` results of
  `DownloadPages`, `ZipEntries` and `SelectForExport`). There are two
  exceptions:
  - A range fragment without `-` is a precondition of `RangeSelection`,
    `ApplyRange` and the fetch-side `SelectEpisodes`. The export command
    checks the same condition and reports `RangePanic`.
  - The `unwrap`s on file-system calls and on the `content-md5` header text
    are assumed not to fail (see "## Left out").
- **The worker's pass:** `Worker` and `WorkerPass` take a ghost parameter
  `pass`, required to be the pass the worker runs: `Pass` with the record
  reloaded from disk. `WorkerRun` folds `pass` over the attempts. Lemmas
  about `Pass` (`PassSucceedsIff`, `PassEffects`) then carry over to the
  worker through `StepEffects`.

Where the two copies of a routine exist (`src/utils.rs` and `src/lib/mod.rs`,
`src/lib/mod.rs` and `src/commands/fetch.rs`), one member models both. Where
they differ from a prose reading of the program, the model follows the code:

- a failed page does not stop a pass; the remaining pages are still tried;
- only `jpg` and `png` files count as present pages, so an episode that
  lists any other page is never complete (`NonImagePageNeverComplete`); the
  completion guarantees of a pass and a worker are stated for episodes
  whose pages are all `jpg`/`png`;
- the fetch code builds a new comic record without `author_names` and `tags`,
  which does not compile as written; the model fills them with the remote
  author list and styles;
- the export command hands `exports::export` the comic's title where the
  function expects the comic; the model hands it the comic;
- `exports.rs` reads `comic.subjects`, a field the comic record does not
  have; the model reads `tags`;
- the CBZ language field is the literal `"Chineses"`, as written.

## Model

| member | source | states |
|---|---|---|
| Utils.RangeSelection | src/utils.rs:21-52 | An empty list or empty range returns the list. Otherwise an item is kept iff its key lies in `[from, to]` of some fragment, with a missing `from` meaning 0 and a missing `to` meaning the key of the last item. Items with equal keys are kept or dropped together. |
| Utils.ApplyRange | src/utils.rs:21-52 | The loop over fragments and keys followed by `retain` computes exactly `RangeSelection` (the copy at src/lib/mod.rs:510-541 is the same code). |
| Utils.RangeSelectionIsSubseq | src/utils.rs:41-50 | The output is a subsequence of the input, in the original order. |
| Utils.RangeIdempotent | src/utils.rs:21-52 | Applying the same range twice equals applying it once. |
| Utils.SelectsTwo | src/utils.rs:29-40 | With two fragments, a key is selected iff it lies in the closed interval of one of them. |
| Utils.RangeExampleOpenEnd | src/utils.rs:28-39 | Keys 1..5 with "1-2,4-" give [1,2,4,5]. |
| Utils.RangeExampleEmptyFragment | src/utils.rs:37-39 | Keys 1..5 with "5-2,1-3" give [1,2,3]: a fragment with `from > to` adds nothing. |
| Utils.OpenRangeEndsAtLastKey | src/utils.rs:35-36 | An open end means the key of the last item, not the largest: keys [3,1] with "2-" select nothing. |
| Utils.MakeGroups | src/utils.rs:1-15 | The groups concatenate to the input, none is empty, every group but the last has `num` items and the last at most `num`, and there are no groups iff the input is empty. With `num > 0` the result is `Chunks`, the only grouping with those properties; with `num == 0` it is one group of everything (copy at src/lib/mod.rs:490-505). |
| Utils.Chunks | src/utils.rs:1-15 | The cut into consecutive chunks of `num`: no chunk is empty, and there are none iff the list is empty. |
| Utils.ChunksUnique | src/utils.rs:1-15 | Any grouping that concatenates to the list, has no empty group, and has `num` items in every group but a last one of at most `num` is exactly `Chunks`. |
| Utils.ParseId | src/utils.rs:54-69 | A whole-string `u32` parse wins. Otherwise, without "mc", the result is `None`. Otherwise it is the `u32` parse of the leading numeric characters after the first "mc". |
| Utils.ParseIdPlain | src/utils.rs:55-57 | "29911" parses to 29911. |
| Utils.ParseIdLink | src/utils.rs:58-67 | "mc29911?from=manga_detail" gives 29911. |
| Utils.LinkId | src/utils.rs:58-67 | For any link "mc" + digits + tail, where the digits are a `u32` without a leading `+` and the tail starts with a non-numeric character, the id is the digits' value. |
| Utils.ParseIdOverflow | src/utils.rs:54-69 | "4294967296" overflows `u32` and gives `None`. |
| Text.ParseU32 | src/lib/cache.rs:64 | Rust's `str::parse::<u32>`: an optional `+` then one or more ASCII digits, with a value below 2^32. |
| Text.ParseNatToString | src/lib/cache.rs:179-181 | A directory named with `id.to_string()` parses back to `id`. |
| Text.Extension | src/lib/cache.rs:60 | `Path::extension`: the text after the last dot, which contains no dot and is preceded by a non-empty stem. |
| Text.Basename | src/lib/cache.rs:94 | The last `/`-separated segment contains no `/`. |
| Cache.LoadEpisode | src/lib/cache.rs:50-72 | An episode loads iff its directory holds an episode `meta.toml` and its name parses as `u32`. The id is that name, the four metadata fields come from the record, and `files` is the set of regular `jpg`/`png` files. |
| Cache.ImageFiles | src/lib/cache.rs:56-62 | A file is listed iff it is in the directory and has extension `jpg` or `png`; `meta.toml` never is. |
| Cache.SyncEpisode | src/lib/cache.rs:73-88 | Creates the directory if absent and writes the record with title, ord, paths and host. Every other directory and every other file is unchanged. |
| Cache.SyncThenLoadEpisode | src/lib/cache.rs:63-87 | Loading after syncing returns the four synced fields unchanged, the directory's id, and `files` recomputed from disk. |
| Cache.SyncThenLoadOwnDir | src/lib/cache.rs:63-87 | Syncing into `comic/{id}` and loading back gives the same episode, with only `files` and `root_dir` recomputed. |
| Cache.LoadEpisodeLocal | src/lib/cache.rs:50-72 | Loading an episode reads only its own directory. |
| Cache.Missing | src/lib/cache.rs:90-100 | A path is missing iff it is one of the episode's paths and its basename is not a present file. |
| Cache.NotDownloaded | src/lib/cache.rs:90-100 | The loop returns exactly `Missing`: the paths whose basename is absent, in their original order. |
| Cache.MissingEmptyIff | src/lib/cache.rs:90-100 | Nothing is missing iff every page's basename is present. |
| Cache.MissingShape | src/lib/cache.rs:90-100 | The missing list is a subsequence of the paths, and missing plus present pages add up to all pages. |
| Cache.GetPaths | src/lib/cache.rs:102-107 | One local path per page, in page order: the episode's directory joined with the page's basename. |
| Cache.CompleteEpisodePagesOnDisk | src/lib/cache.rs:50-107 | When a loaded episode misses nothing, every local page path names a page image in the episode's directory. |
| Cache.GetEpisode | src/lib/cache.rs:159-161 | Some exactly for a cached id, and then that id's episode. |
| Cache.LoadComic | src/lib/cache.rs:129-157 | A comic loads iff its `meta.toml` holds a comic record, its name is a `u32` and every sub-directory name is a `u32`. Each key maps to the episode loaded from that sub-directory, every loadable episode is kept, every sub-directory that fails to load is removed, and nothing else changes. |
| Cache.LoadEpisodeDir | src/lib/cache.rs:139-147 | One sub-directory: a non-`u32` name aborts the comic; otherwise a loadable episode is inserted under its id and a broken one is removed, keeping the loop invariant. |
| Cache.PruneBrokenEpisode | src/lib/cache.rs:144-147 | Removing a broken episode directory keeps the loop's invariant and leaves the other directories untouched. |
| Cache.SyncComic | src/lib/cache.rs:163-183 | After the sync, the comic record holds title, authors and tags, and every episode's directory holds its record. Files only grow, and nothing outside the comic's directory changes. Inside it, only `meta.toml` files change, and the only new directories are the comic's directory, its ancestors and its episode directories. |
| Cache.SyncComicStep | src/lib/cache.rs:179-182 | Syncing one more episode keeps the comic record and the records of the episodes already synced. |
| Cache.SyncFrameStep | src/lib/cache.rs:179-182 | Syncing one more episode changes only `meta.toml` files, and creates only that episode's directory and its ancestors. |
| Cache.SyncedEpisodeLoads | src/lib/cache.rs:179-182 | An episode directory written by the comic sync loads back with that id and those four fields. |
| Cache.GetComic | src/lib/cache.rs:219-221 | Some exactly for a cached id, and then that comic. |
| Cache.LoadComicOrDelete | src/lib/cache.rs:205-211 | A comic survives iff it loads, and then its id, record and episodes are the ones on disk. A comic that fails to load loses its whole subtree. A comic that loads loses only broken episode directories, every one of them: each sub-directory left loads as an episode (src/lib/cache.rs:144-147). Nothing outside its directory changes. |
| Cache.LoadCacheEntry | src/lib/cache.rs:203-212 | One root entry keeps the loop invariant and only removes entries. The entry's directory survives iff the comic loads, and every sub-directory left in it loads as an episode. A comic that loads is stored under its id and traced to its directory; one that does not load leaves the map unchanged. |
| Cache.PruneStep | src/lib/cache.rs:205-211 | Deleting what one entry's load removes keeps the pruning invariant: every deleted directory belongs to a comic that fails to load or to one of its broken episodes. |
| Cache.EpisodesPrunedStep | src/lib/cache.rs:203-212 | Loading one more comic directory, which removes entries only and leaves only loadable episode directories in it, keeps every visited comic's sub-directories loadable. |
| Cache.CachedFromLocal | src/lib/cache.rs:129-157 | Whether a comic was loaded from a directory depends only on that directory's subtree. |
| Cache.LoadCache | src/lib/cache.rs:192-218 | A missing root is created and gives no comics. Otherwise no file changes, and the only directories deleted are those a failed comic or episode load removes. A comic directory survives iff it loads, and every sub-directory left in a surviving comic loads as an episode. Every loadable comic is in the map under its own id, and each entry equals the comic loaded from one of the root's directories. |
| Network.Sanitized | src/lib/network.rs:190-208 | Same length; each of `/ \ : * ? " < > \|` becomes `_` and every other character is kept. |
| Network.FixEpisodeTitle | src/lib/network.rs:190-208 | The loop of `replace` calls computes exactly `Sanitized`. |
| Network.SanitizedClean | src/lib/network.rs:193-206 | The result contains none of the nine reserved characters. |
| Network.SanitizedIdempotent | src/lib/network.rs:190-208 | Sanitising twice equals sanitising once. |
| Network.SanitizedFixpoint | src/lib/network.rs:190-208 | A title is left unchanged iff it has no reserved character. |
| Network.RawTitleClean | src/lib/network.rs:228-231 | The trimmed title, or `第{ord}话` when it is empty, is non-empty and has no white space at either end. |
| Network.NormalizeEpisode | src/lib/network.rs:226-237 | One loop body: trim, default, sanitise the title; clear the lock of a free episode. |
| Network.NormalizeComicInfo | src/lib/network.rs:226-237 | Every episode is normalised in place, in order; nothing else in the comic changes. |
| Network.NormalizedEpisodeFacts | src/lib/network.rs:226-237 | A normalised title is non-empty, has no reserved character and is trimmed. A free episode is unlocked; others keep their lock flag; id and ord are kept. |
| Network.SanitizedEnds | src/lib/network.rs:232 | Sanitising a trimmed title keeps it trimmed. |
| Network.QuotedAll | src/lib/network.rs:289 | Each path is wrapped in double quotes, in order. |
| Network.TokenPayloadNamesPaths | src/lib/network.rs:289-290 | The `urls` payload is bracketed, and for comma-free paths it splits back into exactly the quoted paths, in order. |
| Network.TokenUrlsShape | src/lib/network.rs:294-301 | URLs come out iff every entry has string `token` and `url`; then there is one per entry, `url?token=token`, in reply order. A panic implies some entry lacks `token`. |
| Network.ImageTokens | src/lib/network.rs:286-302 | The request payload is the quoted-path list, and the outcome is the one the reply decides. |
| Network.QrStatusOf | src/lib/network.rs:137-155 | 86101 → NotScan, 86090 → Scanning, 86038 → Invalid, 0 with `SESSDATA=` in the URL → Complete; other codes exit. |
| Network.SessdataShape | src/lib/network.rs:150-153 | The session value is the text after the first `SESSDATA=`, up to the next `&` or the next `SESSDATA=` or the end, and contains neither. |
| Network.DownTo | src/lib/network.rs:304-329 | Succeeds iff the request and body arrive, the `content-md5` header (when present) equals the digest of the body, and the target directory exists; it then returns the body's length. |
| Network.DownToEffect | src/lib/network.rs:309-328 | A failure writes nothing. A success writes exactly the received bytes to the target file, whose digest then matches the header, and changes nothing else. |
| Fetch.ParseIdOrLink | src/lib/mod.rs:210-231 | The id is `parse_id`'s when that succeeds; otherwise the process exits. |
| Fetch.NewRecordRequestsEverything | src/lib/mod.rs:286-300 | A fresh record has no files, so the pass requests every page of the index. |
| Fetch.Fetched | src/lib/mod.rs:303-315 | The basenames stored by the first `n` transfers, each one a missing page's. |
| Fetch.FetchedAll | src/lib/mod.rs:303-321 | All `n` transfers store a file iff each reply is accepted, and then the stored names are the first `n` basenames in order. |
| Fetch.FetchedEvery | src/lib/mod.rs:316-321 | When the count equals the missing count, every missing page's basename was stored. |
| Fetch.AcceptedUpTo | src/commands/fetch.rs:42-54 | The indices of the accepted requests among the first `n`, strictly increasing and all of them. |
| Fetch.FetchedByIndex | src/commands/fetch.rs:42-54 | The j-th stored name and the j-th `Size` event both come from the j-th accepted request: its page's basename, and the length of its body. |
| Fetch.LastWriter | src/commands/fetch.rs:47-50 | The last accepted request among the first `n` whose page has a given basename, or none when no accepted request has it. |
| Fetch.StoredWritten | src/commands/fetch.rs:47-50 | A name some accepted request stored holds the body of the last such request. |
| Fetch.StoredUntouched | src/commands/fetch.rs:47-50 | A name no accepted request stored is present iff it was before, with the same content. |
| Fetch.StoredShape | src/commands/fetch.rs:42-54 | The transfers only add files. Every stored name is a file, earlier files stay, a file not stored again is unchanged, and every new file is a stored one. |
| Fetch.DownloadPages | src/commands/fetch.rs:42-54 | Panics iff there are more URLs than missing pages. It tries every URL even after a failure. It makes one request per URL, up to the panic. The stored names are the accepted requests' basenames, the sizes are their body lengths, and the tree is `PagesStored` of those requests. Files only grow, and only inside `ep_root` (same loop at src/lib/mod.rs:303-315). |
| Fetch.NonImagePageNeverComplete | src/lib/cache.rs:56-62 | An episode whose page list has a page that is not `jpg` or `png` never loads back complete, since `files` never lists that page (see `not_downloaded`, src/lib/cache.rs:90-100). |
| Fetch.Requests | src/commands/fetch.rs:42-46 | The number of page requests a pass makes: one per URL when there are at most as many URLs as missing pages, else one per missing page. |
| Fetch.PassSucceedsIff | src/commands/fetch.rs:10-61 | A pass succeeds iff all of these hold: it has a record to work from; the token reply holds one URL per missing page; and, when a page is missing, the episode directory exists and every page reply is accepted. |
| Fetch.PassEffects | src/commands/fetch.rs:10-61 | A pass only grows the tree, and only inside `ep_root`. When the record's pages are all `jpg`/`png`, a new record is on disk afterwards, a known one is unchanged, and a success over the record on disk leaves the episode complete. |
| Fetch.PassCompletes | src/lib/mod.rs:316-321 | When every missing page was stored, the record survives and its pages are all `jpg`/`png`, the episode loads back with nothing missing. |
| Fetch.RecordSurvivesPages | src/lib/mod.rs:303-315 | Storing page images does not touch the episode's `meta.toml`. |
| Fetch.RunTask | src/commands/fetch.rs:10-61 | The outcome and tree are those of `Pass`. A cached record is used unchanged; otherwise a fresh one is synced before any download, or the pass panics without an index. A failed token request fails with no download. The stored names and sizes are those of the requests made. The pass succeeds iff the stored count equals the missing count computed at the start. Files only grow. When every page is a `jpg`/`png`, a success leaves the episode complete (same logic at src/lib/mod.rs:271-322). |
| Fetch.DownloadPass | src/commands/fetch.rs:39-60 | The pass after the record is settled. A failed token request leaves the synced tree. Otherwise the stored names, the sizes and the tree are those of the requests made, and the outcome follows from the URL and stored counts. It gives the same file-system guarantees as `RunTask`. |
| Fetch.RunTaskEffects | src/commands/fetch.rs:19-60 | Syncing the record then storing pages only grows the tree inside `ep_root`. When the pages are all `jpg`/`png`, it keeps or writes the record and leaves a complete episode on success. |
| Fetch.NeedsFetchIff | src/lib/mod.rs:359-367 | An episode is kept iff it is unlocked and either uncached or cached with some page whose file is absent. |
| Fetch.SelectEpisodes | src/lib/mod.rs:358-374 | `None` iff nothing survives the filter and range. Otherwise the list is a permutation of the filtered-then-ranged episodes, sorted by ord, each unlocked and needing pages (same logic at src/commands/fetch.rs:96-112). |
| Fetch.CandidatesNeedFetch | src/lib/mod.rs:358-368 | Every candidate is a remote episode that is unlocked and not fully cached. |
| Fetch.CandidatesInRemoteOrder | src/lib/mod.rs:358-368 | The range is applied to the remote order: candidates are a subsequence of the remote list. |
| Fetch.Worker | src/commands/fetch.rs:150-161 | The worker's results are those of `WorkerRun`: each attempt reloads the record from disk and runs a pass on the tree the previous one left. It stops exactly at the first success or panic, and every earlier pass failed. Files only grow, inside `ep_root`. When every record and index lists `jpg`/`png` pages only, a finished worker leaves the episode complete (same loop at src/lib/mod.rs:412-422). |
| Fetch.WorkerPass | src/commands/fetch.rs:152-154 | One turn: reload the record from disk and run `run_task`. Outcome and tree are the worker's pass on that tree. |
| Fetch.WorkerStep | src/commands/fetch.rs:152-154 | The worker's pass is `Pass` with the record loaded from disk. |
| Fetch.WorkerRunOutcomes | src/commands/fetch.rs:150-161 | A run makes at most one pass per attempt. All passes but the last failed. The worker is done iff the last succeeded, with its pass count, and panicked iff the last panicked. It is still retrying iff every attempt failed. |
| Fetch.FailuresAdd | src/commands/fetch.rs:150-161 | Failed passes add up: `i` failures then `j` failures are `i + j` failures. |
| Fetch.WorkerRunGrows | src/commands/fetch.rs:150-161 | Passes that each grow the tree only inside `ep_root` make a run that does. |
| Fetch.WorkerRunImages | src/commands/fetch.rs:150-161 | Passes that keep the record's pages images, and complete the episode on success, make a run that does, and that ends complete when done. |
| Fetch.StepEffects | src/commands/fetch.rs:152-154 | The worker's pass grows the tree only inside `ep_root`. With image pages only, it keeps the record's pages images and completes the episode on success. |
| Fetch.WorkerRunProperties | src/commands/fetch.rs:150-161 | A run has the outcome shape of `WorkerRunOutcomes` and grows the tree only inside `ep_root`. With image pages only, it ends complete when done. |
| Fetch.PrepareComic | src/commands/fetch.rs:68-93 | Exits iff there is no `cover.jpg` and the cover download fails. Otherwise the refreshed comic is synced with the remote title and every episode record, and the cover is present. Files only grow, and nothing outside the comic's directory changes. Only `meta.toml` files and the comic's `cover.jpg` change. An existing cover is kept, and a downloaded one holds the received bytes. On exit the comic directory's files are as they were, with no `cover.jpg` (same code at src/lib/mod.rs:330-355). |
| Fetch.PrepareFrame | src/commands/fetch.rs:68-93 | Covering then syncing changes only `meta.toml` files and the comic's `cover.jpg`, and creates only the comic's directories and its episode directories. |
| Fetch.EnsureCover | src/lib/mod.rs:331-354 | The comic directory is created if missing. The cover is there afterwards iff it was there before or the download was accepted. An existing cover is kept, and a downloaded one holds the received bytes. A failed download leaves the directory's files as they were, with no `cover.jpg`. |
| Fetch.RefreshKeepsCachedComic | src/commands/fetch.rs:74-77 | A cached comic keeps its id, authors, tags and episodes and takes the remote title. |
| Exports.GuessMime | src/lib/exports.rs:169-181 | The result is `application/octet-stream` iff no listed suffix matches. |
| Exports.ImageMime | src/lib/exports.rs:169-181 | A cached page image gets `image/jpeg` for `jpg` and `image/png` for `png`. |
| Exports.FileExtension | src/lib/exports.rs:38-40 | Each format has a three- or four-letter extension: pdf, epub, zip, cbz (also lines 185-187, 381-383, 457-459). |
| Exports.ExtensionsDistinct | src/lib/exports.rs:38-40 | Different formats have different extensions. |
| Exports.MinOrd | src/lib/exports.rs:548-560 | The smallest key, or `f64::MAX` when smaller than every key or the list is empty. |
| Exports.MaxOrd | src/lib/exports.rs:548-560 | The largest key, or 0 when that is larger: the maximum starts at 0.0. |
| Exports.GetMinMaxOrd | src/lib/exports.rs:548-560 | The loop computes exactly `MinOrd` and `MaxOrd`. |
| Exports.SortedSpan | src/lib/exports.rs:548-560 | For a sorted non-negative group, min and max are the first and last keys. |
| Exports.FileName | src/lib/exports.rs:563-575 | One episode is named "…. {title}". A group's name ends with its first title, or with "-" and its last title. |
| Exports.OneEpisodeGroupName | src/lib/exports.rs:563-575 | A one-episode group is named exactly like that single episode. |
| Exports.SortedGroupName | src/lib/exports.rs:563-575 | A sorted group is "{first}. {title}" when its keys span one value, else "{first}-{last}. {first title}-{last title}". |
| Exports.ZipEntries | src/lib/exports.rs:368-377 | Panics iff some page has no extension, and then stops at the first such page. Otherwise there is one entry per page, named "{ord} - {title}/{i}.{ext}" with `i` the page index in `get_paths` order. No two entries share a name. |
| Exports.ZipEntryInjective | src/lib/exports.rs:374 | Two entry names of one episode are equal only for the same index and extension. |
| Exports.PrepareMetadata | src/lib/exports.rs:427-449 | Panics iff the comic has no tags. Otherwise: genre is the first tag, tags are the comic's, title, series and issue are as passed, and there is one "Creator" credit per author, in order. |
| Exports.JobShape | src/lib/exports.rs:592-616 | Each output file lies directly in the output directory, ends with "." and the format's extension, and writes the item's episodes. Only a single episode passes its key to the writer (also lines 465 and 475). |
| Exports.JobsFor | src/lib/exports.rs:577-618 | One output file per plan item. |
| Exports.Export | src/lib/exports.rs:577-618 | One output file per item, in order, each the item's `JobFor`. Together they write every planned episode once, in plan order. |
| Exports.SingleJobsDistinct | src/lib/exports.rs:592-595 | Two single episodes whose keys render differently, or whose titles differ, get different output paths. |
| ExportCommand.KeyOrder | src/commands/export.rs:23 | `episodes.values()` visits every cached episode exactly once, in some order. |
| ExportCommand.Listed | src/commands/export.rs:23 | The episodes of the listed ids, in listing order. |
| ExportCommand.KeyListingEmpty | src/commands/export.rs:23 | A listing of the cached keys is empty iff there are no keys. |
| ExportCommand.SelectedSorted | src/commands/export.rs:23-26 | After sorting by ord and applying the range, the list is sorted by ord. |
| ExportCommand.SelectedCached | src/commands/export.rs:23-26 | Every selected episode is a cached one. |
| ExportCommand.SelectedSameMembers | src/commands/export.rs:23-26 | Two iteration orders of the `HashMap` select the same episodes, and one selects nothing iff the other does. |
| ExportCommand.Singles | src/commands/export.rs:31-32 | One `Single` per episode, in order. |
| ExportCommand.SinglesCover | src/commands/export.rs:31-32 | The singles plan writes exactly the selected episodes, in order. |
| ExportCommand.Plan | src/commands/export.rs:31-37 | For a non-empty list, every group of the plan is non-empty. |
| ExportCommand.PlanItems | src/commands/export.rs:31-37 | Computes `Plan`, which covers the list in order. Split gives singles, `grouping > 0` gives `make_groups`' chunks of `grouping` with a last chunk of at most `grouping`, and otherwise one group of everything (copy at src/lib/mod.rs:573-579). |
| ExportCommand.CoverContent | src/commands/export.rs:46-60 | The cover bytes are present iff `cache_dir/{id}/cover.jpg` is a file. |
| ExportCommand.DispatchFormat | src/commands/export.rs:49-65 | "epub" carries the cover iff it exists, and the command never picks CBZ. |
| ExportCommand.DispatchExtension | src/commands/export.rs:49-65 | "pdf" and "epub" give their own extension; any other name gives "zip". |
| ExportCommand.SelectForExport | src/commands/export.rs:23-26 | Panics iff the comic has episodes, the range is non-empty and some fragment lacks `-`. Otherwise the list is the cached episodes sorted by ord, then ranged; it is sorted and holds cached episodes only. |
| ExportCommand.MakeOutDir | src/commands/export.rs:41-43 | The output directory exists afterwards. It is unchanged if it existed; otherwise only it and its missing ancestors are added, empty. |
| ExportCommand.ExportComic | src/commands/export.rs:13-67 | A malformed range panics, and a selection that is empty in every iteration order returns; neither writes anything. Otherwise, for some iteration order, the output directory is `export_dir` (or the default) joined with the title, the format is dispatched by name, and the jobs are the output files of the plan of the selected episodes. Those are cached, sorted by ord, and the only new directories are the output directory and its ancestors (copy at src/lib/mod.rs:555-610). |
| ExportCommand.Export | src/commands/export.rs:1-71 | An unparseable id exits and an uncached comic reports an error. A malformed range panics and an empty selection returns. None of these writes anything. Otherwise the comic is exported as `ExportComic` states. |

## Left out

- Progress bars, the throughput reporter, terminal output, the ctrl-c handler, the `select` race and the 3-second sleep between retries. They concern concurrency and wall-clock time.
- Fetch.Worker: the workers run one after another in the model, each on its own episode directory. The source's retry loop has no bound, so the model takes a finite sequence of attempts and ends `StillRetrying` when they run out.
- Fetch.RunTask: the record and completion guarantees are stated only for episodes whose pages are all `jpg`/`png`. For other pages the pass still runs as modelled, but a page is never counted present (`NonImagePageNeverComplete`), and a page named `meta.toml` would replace the record.
- Fetch.Worker: the completion guarantee needs every record and index to list `jpg`/`png` pages only, for the same reason.
- Fetch.WorkerPass: states only that it runs the worker's pass; what that pass does to the disk is stated once, by `StepEffects` and `PassEffects`.
- Network.DownTo: the `content-md5` header is a string in the model. The source panics when the header is not visible ASCII (`to_str().unwrap()`, src/lib/network.rs:315); the model has no such header, so that panic is not modelled. The `write_all(..).unwrap()` of the page file (src/lib/network.rs:327) is assumed to succeed. The failure of `File::create` is modelled as a missing directory.
- The file-system `unwrap`s of the cache are assumed not to fail: `create_dir_all`, `File::create` and `write_all` in the episode and comic syncs (src/lib/cache.rs:73-88, 163-177), `toml::to_string` of the records, and `remove_dir_all` in `Cache::load` and `ComicCache::load` (src/lib/cache.rs:144-147, 210). Permissions, full disks and I/O errors are not modelled.
- The sequence of `fetch` as one procedure: `PrepareComic`, `SelectEpisodes` and one `Worker` per selected episode are its steps, but the model does not compose them into a single member.
- `bytes_with_unit`, `delete_all_files` and `get_dir_size`: float formatting and recursive traversal of the real file system.
- src/lib/pdf.rs and the EPUB, PDF and ZIP writers: page geometry and library calls with no visible contract. The model stops at the file names, entry names, MIME types and metadata fields they are given.
- HTTP requests, JSON decoding, the config files, the CLI dispatch, login polling and the list/search/info commands. Replies are parameters; the QR status mapping is modelled, the polling loop is not.
- The `{}` formatting of `f64` (the `showOrd` parameter), `str::parse::<f64>` (the `parse` parameter), `char::is_numeric` (the `isNumeric` parameter) and base64 of MD5 (the `digest` parameter) are not defined. NaN keys are not modelled; `partial_cmp(...).unwrap()` would panic on them.
- Exports.SortedSpan: stated for keys between 0 and `f64::MAX`; beyond those bounds `get_min_max_ord` returns the bound, which `MinOrd` and `MaxOrd` state.
- Exports.FileName: states only how the name ends; `SortedGroupName` and `OneEpisodeGroupName` give the full text.
- ExportCommand.ExportComic: the output directory is the base directory with the comic title appended as one path component. `Path::join` treats a title containing `/`, an absolute title, or `.`/`..` differently, and comic titles are not sanitised. The model assumes the title is a plain name.
- ExportCommand.DispatchFormat: CBZ exists as a format but the command never selects it, so CBZ metadata is modelled without a caller.
- The order in which a `HashMap` is iterated: `KeyOrder` returns an arbitrary listing of the keys, and the sync and load loops visit a set in an arbitrary order.
- The JSON serialisation of the CBZ metadata and the EPUB description text.
