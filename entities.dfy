/** The entities of the downloader: what the remote index says about a
    comic and its episodes, the cached records of both, the export items,
    and the contents of files on disk. */
module Entities {
  import opened Text

  type Bytes = seq<bv8>

  /** A filesystem path as its sequence of components. */
  type Path = seq<string>

  /** One episode of the remote index (`EpisodeInfo`, src/lib/network.rs). */
  datatype EpisodeInfo = EpisodeInfo(title: string, id: u32, isLocked: bool, isInFree: bool, ord: real)

  /** The remote index of a comic (`ComicInfo`, src/lib/network.rs). */
  datatype ComicInfo = ComicInfo(
    id: u32, title: string, authorName: seq<string>, styles: seq<string>,
    epList: seq<EpisodeInfo>, verticalCover: string)

  /** What the server says an episode is made of (`EpisodeImages`). */
  datatype EpisodeImages = EpisodeImages(host: string, paths: seq<string>)

  /** The record an episode's `meta.toml` holds. */
  datatype EpisodeMeta = EpisodeMeta(title: string, ord: real, paths: seq<string>, host: string)

  /** A cached episode: its record, the page order `paths` (the remote
      relative paths) and the image files present in `rootDir`. */
  datatype EpisodeCache = EpisodeCache(
    id: u32, title: string, files: set<string>, paths: seq<string>,
    host: string, ord: real, rootDir: Path)

  /** The record a comic's `meta.toml` holds. */
  datatype ComicMeta = ComicMeta(title: string, authorNames: seq<string>, tags: seq<string>)

  /** A cached comic with its cached episodes by episode id. */
  datatype ComicCache = ComicCache(
    id: u32, title: string, authorNames: seq<string>, tags: seq<string>,
    episodes: map<u32, EpisodeCache>)

  /** One output file of an export: one episode, or several merged. */
  datatype Item = Single(ep: EpisodeCache) | Group(eps: seq<EpisodeCache>)

  /** The episodes an item covers, in order. */
  function ItemEpisodes(item: Item): seq<EpisodeCache> {
    match item
    case Single(ep) => [ep]
    case Group(eps) => eps
  }

  /** The episodes a sequence of items covers, in order. */
  function Episodes(items: seq<Item>): seq<EpisodeCache> {
    if items == [] then [] else Episodes(items[..|items| - 1]) + ItemEpisodes(items[|items| - 1])
  }

  lemma EpisodesSnoc(items: seq<Item>, item: Item)
    ensures Episodes(items + [item]) == Episodes(items) + ItemEpisodes(item)
  {
    assert (items + [item])[..|items|] == items;
  }

  lemma {:induction false} EpisodesCons(item: Item, items: seq<Item>)
    ensures Episodes([item] + items) == ItemEpisodes(item) + Episodes(items)
    decreases |items|
  {
    if items == [] {
      assert [item] + items == [] + [item];
      EpisodesSnoc([], item);
    } else {
      var init, last := items[..|items| - 1], items[|items| - 1];
      var left := [item] + init;
      EpisodesCons(item, init);
      assert [item] + items == left + [last];
      EpisodesSnoc(left, last);
      assert Episodes(items) == Episodes(init) + ItemEpisodes(last);
      calc {
        Episodes([item] + items);
        Episodes(left) + ItemEpisodes(last);
        (ItemEpisodes(item) + Episodes(init)) + ItemEpisodes(last);
        ItemEpisodes(item) + (Episodes(init) + ItemEpisodes(last));
      }
    }
  }

  /** The content of a regular file. A `meta.toml` written by `sync` holds
      the serialised record; reading it back gives that record, and bytes
      from anywhere else never read as a record. */
  datatype Content = Blob(bytes: Bytes) | EpisodeToml(episode: EpisodeMeta) | ComicToml(comic: ComicMeta)

  /** The regular files of one directory, by name. */
  type Listing = map<string, Content>

  const MetaFile: string := "meta.toml"
  const CoverFile: string := "cover.jpg"
}
