/** The logic inside the HTTP client (src/lib/network.rs): making episode
    titles usable as file names, normalising the episode list of a comic,
    the shape of the image-token request and of the URLs built from its
    reply, the QR-login status codes, and the check-then-write decision
    of a download. The requests themselves are left out: each reply is a
    parameter. */
module Network {
  import opened Wrappers
  import opened Text
  import opened Entities
  import opened Cache

  /* ---------------- fix_episode_title ---------------- */

  /** The characters that cannot appear in a file name. */
  predicate IsReserved(c: char) {
    c == '/' || c == '\\' || c == ':' || c == '*' || c == '?' || c == '"'
    || c == '<' || c == '>' || c == '|'
  }

  /** Rust's `s.replace(c, "_")`: every `c` becomes an underscore. */
  function ReplaceChar(s: string, c: char): (r: string)
    ensures |r| == |s|
    ensures forall i :: 0 <= i < |s| ==> r[i] == (if s[i] == c then '_' else s[i])
  {
    if s == [] then []
    else ReplaceChar(s[..|s| - 1], c) + [if s[|s| - 1] == c then '_' else s[|s| - 1]]
  }

  /** What `fix_episode_title` computes: each reserved character replaced by
      an underscore. */
  function Sanitized(title: string): (r: string)
    ensures |r| == |title|
    ensures forall i :: 0 <= i < |title| ==> r[i] == (if IsReserved(title[i]) then '_' else title[i])
  {
    if title == [] then []
    else Sanitized(title[..|title| - 1]) + [if IsReserved(title[|title| - 1]) then '_' else title[|title| - 1]]
  }

  /** `fix_episode_title`: for every reserved character of the title, all
      its occurrences in the result are replaced. */
  method FixEpisodeTitle(title: string) returns (result: string)
    ensures result == Sanitized(title)
  {
    result := title;
    for i := 0 to |title|
      invariant |result| == |title|
      invariant forall j :: 0 <= j < |title| ==>
        result[j] == (if IsReserved(title[j]) && title[j] in title[..i] then '_' else title[j])
    {
      assert title[..i + 1] == title[..i] + [title[i]];
      var c := title[i];
      if IsReserved(c) {
        result := ReplaceChar(result, c);
      }
    }
    assert title[..|title|] == title;
  }

  /** A sanitised title holds no reserved character, and only reserved
      characters were changed. */
  lemma SanitizedClean(title: string)
    ensures forall c :: c in Sanitized(title) ==> !IsReserved(c)
    ensures forall i :: 0 <= i < |title| && !IsReserved(title[i]) ==> Sanitized(title)[i] == title[i]
  {
    forall c | c in Sanitized(title) ensures !IsReserved(c) {
      var i :| 0 <= i < |title| && Sanitized(title)[i] == c;
    }
  }

  /** Sanitising twice is sanitising once. */
  lemma SanitizedIdempotent(title: string)
    ensures Sanitized(Sanitized(title)) == Sanitized(title)
  {
    SanitizedClean(title);
    var s := Sanitized(title);
    forall i | 0 <= i < |s| ensures Sanitized(s)[i] == s[i] {
      assert s[i] in s;
    }
  }

  /** A title is left as it is exactly when it holds no reserved character. */
  lemma SanitizedFixpoint(title: string)
    ensures Sanitized(title) == title <==> forall c :: c in title ==> !IsReserved(c)
  {
    if Sanitized(title) == title {
      SanitizedClean(title);
    } else {
      var i :| 0 <= i < |title| && Sanitized(title)[i] != title[i];
      assert title[i] in title;
    }
  }

  /* ---------------- episode normalisation in get_comic_info ---------------- */

  /** The title an episode ends up with: trimmed, `第{ord}话` when nothing
      is left, then sanitised. `showOrd` is Rust's `{}` rendering of the
      ordering key. */
  function EpisodeTitle(ep: EpisodeInfo, showOrd: real -> string): string {
    Sanitized(RawTitle(ep, showOrd))
  }

  /** The title before sanitising: trimmed, or `第{ord}话` when empty. */
  function RawTitle(ep: EpisodeInfo, showOrd: real -> string): string {
    var t := Trim(ep.title);
    if t == [] then "第" + showOrd(ep.ord) + "话" else t
  }

  /** The title before sanitising is not empty and has no white space at
      either end. */
  lemma RawTitleClean(ep: EpisodeInfo, showOrd: real -> string)
    ensures var raw := RawTitle(ep, showOrd);
      raw != [] && !IsWhiteSpace(raw[0]) && !IsWhiteSpace(raw[|raw| - 1])
  {
    if Trim(ep.title) == [] {
      DefaultTitleClean(showOrd(ep.ord));
    }
  }

  /** An episode as `get_comic_info` hands it out. */
  function NormalizedEpisode(ep: EpisodeInfo, showOrd: real -> string): EpisodeInfo {
    ep.(title := EpisodeTitle(ep, showOrd), isLocked := if ep.isInFree then false else ep.isLocked)
  }

  /** The body of the normalisation loop, for one episode. */
  method NormalizeEpisode(ep: EpisodeInfo, showOrd: real -> string) returns (n: EpisodeInfo)
    ensures n == NormalizedEpisode(ep, showOrd)
  {
    var title := Trim(ep.title);
    if title == [] {
      title := "第" + showOrd(ep.ord) + "话";
    }
    title := FixEpisodeTitle(title);
    n := ep.(title := title);
    if n.isInFree {
      n := n.(isLocked := false);
    }
  }

  /** The loop of `get_comic_info` over the episode list: each episode's
      title is trimmed, given a default and sanitised, and a free episode
      is unlocked. */
  method NormalizeComicInfo(info: ComicInfo, showOrd: real -> string) returns (r: ComicInfo)
    ensures r == info.(epList := r.epList)
    ensures |r.epList| == |info.epList|
    ensures forall i :: 0 <= i < |info.epList| ==> r.epList[i] == NormalizedEpisode(info.epList[i], showOrd)
  {
    var eps := info.epList;
    for i := 0 to |eps|
      invariant |eps| == |info.epList|
      invariant forall j :: 0 <= j < i ==> eps[j] == NormalizedEpisode(info.epList[j], showOrd)
      invariant forall j :: i <= j < |eps| ==> eps[j] == info.epList[j]
    {
      var ep := NormalizeEpisode(eps[i], showOrd);
      eps := eps[i := ep];
    }
    r := info.(epList := eps);
  }

  /** A normalised title is never empty, holds no reserved character and
      does not start or end with white space; a free episode is unlocked,
      any other keeps its lock; id, ordering key and free flag are kept. */
  lemma NormalizedEpisodeFacts(ep: EpisodeInfo, showOrd: real -> string)
    ensures var n := NormalizedEpisode(ep, showOrd);
      && n.title != []
      && (forall c :: c in n.title ==> !IsReserved(c))
      && !IsWhiteSpace(n.title[0]) && !IsWhiteSpace(n.title[|n.title| - 1])
      && (ep.isInFree ==> !n.isLocked)
      && (!ep.isInFree ==> n.isLocked == ep.isLocked)
      && n.id == ep.id && n.ord == ep.ord && n.isInFree == ep.isInFree
  {
    RawTitleClean(ep, showOrd);
    SanitizedEnds(RawTitle(ep, showOrd));
    SanitizedClean(RawTitle(ep, showOrd));
  }

  /** The default title `第{ord}话` is not empty and has no white space at
      either end. */
  lemma DefaultTitleClean(ordText: string)
    ensures var d := "第" + ordText + "话";
      d != [] && !IsWhiteSpace(d[0]) && !IsWhiteSpace(d[|d| - 1])
  {
  }

  /** Sanitising keeps a title non-empty and free of white space at its ends. */
  lemma SanitizedEnds(raw: string)
    requires raw != [] && !IsWhiteSpace(raw[0]) && !IsWhiteSpace(raw[|raw| - 1])
    ensures var s := Sanitized(raw); s != [] && !IsWhiteSpace(s[0]) && !IsWhiteSpace(s[|s| - 1])
  {
    SanitizedClean(raw);
  }

  /* ---------------- get_image_tokens ---------------- */

  /** A page path in double quotes. */
  function Quoted(path: string): string {
    "\"" + path + "\""
  }

  function QuotedAll(paths: seq<string>): (r: seq<string>)
    ensures |r| == |paths| && forall i :: 0 <= i < |paths| ==> r[i] == Quoted(paths[i])
  {
    seq(|paths|, i requires 0 <= i < |paths| => Quoted(paths[i]))
  }

  /** The `urls` field of the token request: the quoted paths, joined by
      commas, in brackets. */
  function TokenPayload(paths: seq<string>): string {
    "[" + Join(QuotedAll(paths), ",") + "]"
  }

  /** The request names exactly the paths asked for, in order: for paths
      without commas, the text between the brackets splits at the commas
      into the quoted paths. */
  lemma TokenPayloadNamesPaths(paths: seq<string>)
    requires paths != []
    requires forall k :: 0 <= k < |paths| ==> ',' !in paths[k]
    ensures var p := TokenPayload(paths);
      var pieces := Split(p[1..|p| - 1], ",");
      && p[0] == '[' && p[|p| - 1] == ']'
      && |pieces| == |paths|
      && forall k :: 0 <= k < |paths| ==>
        |pieces[k]| >= 2 && pieces[k][1..|pieces[k]| - 1] == paths[k]
  {
    var q := QuotedAll(paths);
    forall k | 0 <= k < |q| ensures ',' !in q[k] {
      assert q[k] == ['"'] + paths[k] + ['"'];
    }
    SplitJoinChar(q, ',');
    var p := TokenPayload(paths);
    assert p[1..|p| - 1] == Join(q, ",");
    forall k | 0 <= k < |paths| ensures q[k][1..|q[k]| - 1] == paths[k] {
      assert q[k] == ['"'] + paths[k] + ['"'];
    }
  }

  /** A JSON field: missing, a string, or some other JSON value. */
  datatype JsonText = Absent | Text(s: string) | NotText

  /** One object of the reply's `data` array. */
  datatype TokenEntry = TokenEntry(token: JsonText, url: JsonText)

  /** The body of the token reply: no `data` field (or not JSON), a `data`
      that is not an array, or an array of objects. */
  datatype TokenReply = NoData | NotArray | Entries(entries: seq<TokenEntry>)

  /** What `get_image_tokens` gives: the signed URLs, `None`, or a panic
      (a missing `token` field is `unwrap`ped). */
  datatype TokenOutcome = Urls(urls: seq<string>) | NoUrls | TokenPanic

  /** The signed URL of one page. */
  function SignedUrl(url: string, token: string): string {
    url + "?token=" + token
  }

  /** An entry that yields a URL: both fields are strings. */
  predicate Usable(e: TokenEntry) {
    e.token.Text? && e.url.Text?
  }

  /** The entries read in order; the first one that is not usable decides
      the outcome. */
  function TokenUrls(entries: seq<TokenEntry>): TokenOutcome {
    if entries == [] then Urls([])
    else
      var e := entries[0];
      if e.token.Absent? then TokenPanic
      else if !Usable(e) then NoUrls
      else Prefixed([SignedUrl(e.url.s, e.token.s)], TokenUrls(entries[1..]))
  }

  function Prefixed(us: seq<string>, o: TokenOutcome): TokenOutcome {
    match o
    case Urls(rest) => Urls(us + rest)
    case _ => o
  }

  /** URLs come out exactly when every entry is usable: one per entry, in
      reply order, each the entry's URL with its token appended. */
  lemma {:induction false} TokenUrlsShape(entries: seq<TokenEntry>)
    ensures TokenUrls(entries).Urls? <==> forall i :: 0 <= i < |entries| ==> Usable(entries[i])
    ensures TokenUrls(entries).Urls? ==>
      var urls := TokenUrls(entries).urls;
      |urls| == |entries| && forall i :: 0 <= i < |entries| ==>
        urls[i] == SignedUrl(entries[i].url.s, entries[i].token.s)
    ensures TokenUrls(entries).TokenPanic? ==> exists i :: 0 <= i < |entries| && entries[i].token.Absent?
    decreases |entries|
  {
    if entries != [] {
      TokenUrlsShape(entries[1..]);
      assert forall i :: 1 <= i < |entries| ==> entries[i] == entries[1..][i - 1];
      if !Usable(entries[0]) {
        assert !(forall i :: 0 <= i < |entries| ==> Usable(entries[i]));
      }
    }
  }

  /** What `get_image_tokens` makes of a reply (`None` when the request
      fails): no `data` panics, a `data` that is not an array gives `None`,
      and an array is read entry by entry. */
  function TokenReplyOutcome(reply: Option<TokenReply>): TokenOutcome {
    match reply
    case None => NoUrls
    case Some(NoData) => TokenPanic
    case Some(NotArray) => NoUrls
    case Some(Entries(entries)) => TokenUrls(entries)
  }

  /** `get_image_tokens`: the payload it sends and the URLs it reads from
      the reply. */
  method ImageTokens(paths: seq<string>, reply: Option<TokenReply>) returns (payload: string, r: TokenOutcome)
    ensures payload == TokenPayload(paths)
    ensures r == TokenReplyOutcome(reply)
  {
    payload := "[" + Join(QuotedAll(paths), ",") + "]";
    if reply.None? {
      return payload, NoUrls;
    }
    match reply.value
    case NoData => r := TokenPanic;
    case NotArray => r := NoUrls;
    case Entries(entries) =>
      var urls := [];
      for i := 0 to |entries|
        invariant TokenUrls(entries) == Prefixed(urls, TokenUrls(entries[i..]))
      {
        var e := entries[i];
        assert entries[i..][0] == e && entries[i..][1..] == entries[i + 1..];
        if e.token.Absent? {
          return payload, TokenPanic;
        }
        if !e.token.Text? || !e.url.Text? {
          return payload, NoUrls;
        }
        urls := urls + [SignedUrl(e.url.s, e.token.s)];
      }
      assert entries[|entries|..] == [];
      r := Urls(urls);
  }

  /* ---------------- check_qr_status ---------------- */

  /** What polling the QR login gives; `QrExit` is the process exit on an
      unknown code and `QrPanic` the out-of-range index when the reply URL
      has no `SESSDATA=`. */
  datatype QrStatus = NotScan | Scanning | Complete(sessdata: string) | Invalid | QrExit | QrPanic

  /** `check_qr_status` on the reply's `code` and `url`. */
  function QrStatusOf(code: int, url: string): (r: QrStatus)
    ensures r == NotScan <==> code == 86101
    ensures r == Scanning <==> code == 86090
    ensures r == Invalid <==> code == 86038
    ensures r.Complete? <==> code == 0 && Contains(url, "SESSDATA=")
    ensures r == QrExit <==> code !in {86101, 86090, 86038, 0}
  {
    if code == 86101 then NotScan
    else if code == 86090 then Scanning
    else if code == 86038 then Invalid
    else if code == 0 then
      if Contains(url, "SESSDATA=") then Complete(Split(SecondPiece(url, "SESSDATA="), "&")[0]) else QrPanic
    else QrExit
  }

  /** The session token is the text right after the first `SESSDATA=`, up
      to the next `&` or `SESSDATA=` or the end. */
  lemma SessdataShape(code: int, url: string)
    requires QrStatusOf(code, url).Complete?
    ensures var s := QrStatusOf(code, url).sessdata;
      var after := AfterFirst(url, "SESSDATA=");
      && |s| <= |after| && s == after[..|s|]
      && (s == after || IsAt(after, |s|, "&") || IsAt(after, |s|, "SESSDATA="))
      && !Contains(s, "&") && !Contains(s, "SESSDATA=")
  {
    var after := AfterFirst(url, "SESSDATA=");
    var piece := SecondPiece(url, "SESSDATA=");
    assert piece == Split(after, "SESSDATA=")[0];
    NestedHead(after, "SESSDATA=", "&");
  }

  /** The first `sep2`-piece of the first `sep1`-piece of `t` is a prefix of
      `t` that contains neither separator and ends where `t` ends or where
      one of them starts. */
  lemma NestedHead(t: string, sep1: string, sep2: string)
    requires |sep1| > 0 && |sep2| > 0
    ensures var piece := Split(t, sep1)[0];
      var s := Split(piece, sep2)[0];
      && |s| <= |t| && s == t[..|s|]
      && (s == t || IsAt(t, |s|, sep2) || IsAt(t, |s|, sep1))
      && !Contains(s, sep2) && !Contains(s, sep1)
  {
    var piece := Split(t, sep1)[0];
    SplitHead(t, sep1);
    SplitPiecesFree(t, sep1);
    SplitHead(piece, sep2);
    SplitPiecesFree(piece, sep2);
    var s := Split(piece, sep2)[0];
    if s != piece {
      assert IsAt(piece, |s|, sep2);
      assert piece[|s|..|s| + |sep2|] == t[|s|..|s| + |sep2|];
    }
    NoPatternInPrefix(piece, s, sep1);
  }

  /** A prefix of a string without `pat` has no `pat` either. */
  lemma NoPatternInPrefix(s: string, t: string, pat: string)
    requires !Contains(s, pat) && |t| <= |s| && t == s[..|t|]
    ensures !Contains(t, pat)
  {
    forall j | 0 <= j <= |t| ensures !IsAt(t, j, pat) {
      if j + |pat| <= |t| {
        assert !IsAt(s, j, pat);
        assert t[j..j + |pat|] == s[j..j + |pat|];
      }
    }
  }

  /* ---------------- down_to ---------------- */

  /** A reply to a download: its `content-md5` header, if any, and its body
      (`None` when reading it fails). */
  datatype Response = Response(contentMd5: Option<string>, body: Option<Bytes>)

  /** The reply is kept: it arrived, its body was read, and when it carries
      a `content-md5` header, the base64 MD5 digest of the body equals it.
      `digest` stands for base64(MD5(·)). */
  predicate Accepted(resp: Option<Response>, digest: Bytes -> string) {
    resp.Some? && resp.value.body.Some?
    && (resp.value.contentMd5.None? || digest(resp.value.body.value) == resp.value.contentMd5.value)
  }

  /** `down_to`: the size written, or `None` with the tree untouched. The
      file cannot be created when its directory is missing. `resp` is the
      reply to the request (`None` when sending fails). */
  function DownTo(fs: Tree, resp: Option<Response>, digest: Bytes -> string, dir: Path, name: string)
    : (r: (Option<nat>, Tree))
    ensures r.0.Some? <==> Accepted(resp, digest) && dir in fs
    ensures r.0.Some? ==> r.0.value == |resp.value.body.value|
  {
    if Accepted(resp, digest) && dir in fs
    then (Some(|resp.value.body.value|), WriteFile(fs, dir, name, Blob(resp.value.body.value)))
    else (None, fs)
  }

  /** A download changes nothing when it fails; when it succeeds it writes
      exactly the received bytes, which match the header digest if there was
      one, to `dir/name`, and changes nothing else. */
  lemma DownToEffect(fs: Tree, resp: Option<Response>, digest: Bytes -> string, dir: Path, name: string)
    ensures var (size, fs') := DownTo(fs, resp, digest, dir, name);
      && (size.None? ==> fs' == fs)
      && (size.Some? ==>
        && fs'.Keys == fs.Keys
        && fs'[dir] == fs[dir][name := Blob(resp.value.body.value)]
        && (forall q :: q in fs && q != dir ==> fs'[q] == fs[q])
        && (resp.value.contentMd5.Some? ==> digest(fs'[dir][name].bytes) == resp.value.contentMd5.value))
  {
  }
}
