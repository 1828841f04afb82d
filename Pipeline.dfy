/** The `index` route: in sync mode it lists the games directory, keeps
    folders and `.rar`/`.zip` archives, applies the optional limit, derives
    each game's cleaned name, reuses the record cached under that name or
    builds a fresh one from the store, and replaces the cache by the records
    of this scan; in cache-only mode it lists the cached records. Either way
    it collects the genre filter list. The directory listing, the file-system
    tests and every remote reply are inputs. */
module Pipeline {
  import opened Common
  import NameCleaner
  import CatalogMatcher
  import Fetchers
  import InstallerLocator
  import Genres

  // ---------------------------------------------------------------------
  // The directory listing
  // ---------------------------------------------------------------------

  /** What `os.path.isdir` / `os.path.isfile` say of a listed name; `Other`
      is neither (a broken link, a device). */
  datatype Kind = Directory | RegularFile | Other

  /** One name of `os.listdir(GAMES_DIR)`. */
  datatype DirEntry = DirEntry(name: string, kind: Kind)

  /** Kept by the scan: a folder, or a name ending in ".rar" or ".zip" in any case. */
  predicate IsGameItem(e: DirEntry) {
    e.kind == Directory || EndsWithIgnoringCase(e.name, ".rar") || EndsWithIgnoringCase(e.name, ".zip")
  }

  /** The listing entries that are game items, in listing order. */
  function GameItems(listing: seq<DirEntry>): (r: seq<DirEntry>)
    ensures |r| <= |listing|
    ensures forall e :: e in r <==> e in listing && IsGameItem(e)
  {
    if listing == [] then []
    else
      var prev := GameItems(listing[..|listing| - 1]);
      var e := listing[|listing| - 1];
      assert forall x :: x in listing <==> x in listing[..|listing| - 1] || x == e;
      if IsGameItem(e) then prev + [e] else prev
  }

  /** Filtering keeps listing order: the items of a listing are those of
      its front part followed by those of its back part. */
  lemma {:induction false} GameItemsAppend(a: seq<DirEntry>, b: seq<DirEntry>)
    ensures GameItems(a + b) == GameItems(a) + GameItems(b)
    decreases |b|
  {
    if b == [] {
      assert a + b == a;
    } else {
      var c := a + b;
      assert c[..|c| - 1] == a + b[..|b| - 1];
      assert c[|c| - 1] == b[|b| - 1];
      GameItemsAppend(a, b[..|b| - 1]);
    }
  }

  /** A single entry is kept exactly when it is a game item. */
  lemma GameItemsSingle(e: DirEntry)
    ensures GameItems([e]) == if IsGameItem(e) then [e] else []
  {
    assert [e][..0] == [];
  }

  /** The loop that builds `current_game_items`. */
  method SelectGameItems(listing: seq<DirEntry>) returns (items: seq<DirEntry>)
    ensures items == GameItems(listing)
  {
    items := [];
    var i := 0;
    while i < |listing|
      invariant 0 <= i <= |listing|
      invariant items == GameItems(listing[..i])
    {
      assert listing[..i + 1][..i] == listing[..i];
      if IsGameItem(listing[i]) {
        items := items + [listing[i]];
      }
      i := i + 1;
    }
    assert listing[..i] == listing;
  }

  /** A listing that only holds game items is kept whole. */
  lemma {:induction false} GameItemsKeepsAll(listing: seq<DirEntry>)
    requires forall i :: 0 <= i < |listing| ==> IsGameItem(listing[i])
    ensures GameItems(listing) == listing
  {
    if listing != [] {
      GameItemsKeepsAll(listing[..|listing| - 1]);
      assert listing[..|listing| - 1] + [listing[|listing| - 1]] == listing;
    }
  }

  /** Filtering the listing twice is filtering it once. */
  lemma GameItemsIdempotent(listing: seq<DirEntry>)
    ensures GameItems(GameItems(listing)) == GameItems(listing)
  {
    var r := GameItems(listing);
    forall i | 0 <= i < |r|
      ensures IsGameItem(r[i])
    {
      assert r[i] in r;
    }
    GameItemsKeepsAll(r);
  }

  /** `items[:limit] if limit else items`: a falsy limit (`None` or 0) keeps
      everything, a positive one keeps at most that many, a negative one
      drops that many from the end. */
  function Truncate(items: seq<DirEntry>, limit: Option<int>): (r: seq<DirEntry>)
    ensures r <= items
    ensures !Truthy(limit) ==> r == items
    ensures Truthy(limit) && limit.value > 0 ==>
              |r| == if limit.value < |items| then limit.value else |items|
    ensures Truthy(limit) && limit.value < 0 ==>
              |r| == if |items| + limit.value > 0 then |items| + limit.value else 0
  {
    if !Truthy(limit) then items
    else if limit.value >= 0 then items[..if limit.value < |items| then limit.value else |items|]
    else items[..if |items| + limit.value > 0 then |items| + limit.value else 0]
  }

  // ---------------------------------------------------------------------
  // Names and URLs
  // ---------------------------------------------------------------------

  /** Position of the last '.' in `s`, if any. */
  function LastDot(s: string): (r: Option<nat>)
    ensures r.Some? ==> r.value < |s| && s[r.value] == '.' && forall j :: r.value < j < |s| ==> s[j] != '.'
    ensures r.None? ==> forall j :: 0 <= j < |s| ==> s[j] != '.'
  {
    if s == [] then None
    else if s[|s| - 1] == '.' then Some(|s| - 1)
    else LastDot(s[..|s| - 1])
  }

  /** `os.path.splitext(name)` for a name without separators: the
      extension starts at the last '.', provided some character other than
      '.' comes before it; otherwise there is none. */
  function SplitExt(name: string): (r: (string, string))
    ensures r.0 + r.1 == name
    ensures r.1 == [] || r.1[0] == '.'
  {
    match LastDot(name)
    case Some(d) =>
      if exists j :: 0 <= j < d && name[j] != '.' then (name[..d], name[d..]) else (name, "")
    case None => (name, "")
  }

  /** Some character other than '.' comes before a '.' in `name`. */
  predicate HasExtension(name: string) {
    exists i, j :: 0 <= j < i < |name| && name[i] == '.' && name[j] != '.'
  }

  /** The two parts of `SplitExt` put back together give the name, and the
      extension is empty or one '.' followed by dot-free text. */
  lemma SplitExtParts(name: string)
    ensures SplitExt(name).0 + SplitExt(name).1 == name
    ensures var ext := SplitExt(name).1;
            ext == [] || (ext[0] == '.' && forall k :: 1 <= k < |ext| ==> ext[k] != '.')
  {
    match LastDot(name)
    case Some(d) =>
      assert name[..d] + name[d..] == name;
    case None =>
  }

  /** The extension is empty exactly when no '.' follows some other
      character. */
  lemma SplitExtEmptyIff(name: string)
    ensures SplitExt(name).1 == [] <==> !HasExtension(name)
  {
    match LastDot(name)
    case Some(d) =>
      if exists j :: 0 <= j < d && name[j] != '.' {
        var j :| 0 <= j < d && name[j] != '.';
        assert name[d..] != [];
        assert name[d] == '.' && name[j] != '.';
      } else {
        forall i, j | 0 <= j < i < |name| && name[i] == '.'
          ensures name[j] == '.'
        {
          assert i <= d;
        }
      }
    case None =>
  }

  /** `folder_name`: a regular file loses its extension, anything else keeps
      its whole name. */
  function FolderName(item: DirEntry): (r: string)
    ensures r <= item.name
    ensures item.kind != RegularFile ==> r == item.name
  {
    if item.kind == RegularFile then SplitExt(item.name).0 else item.name
  }

  /** An archive file loses its ".rar" or ".zip" before cleaning (unless
      its name is only dots before the extension); a folder keeps its whole
      name, dots included. */
  lemma ArchiveLosesExtension(item: DirEntry)
    requires item.kind == RegularFile && IsGameItem(item)
    requires exists j :: 0 <= j < |item.name| - 4 && item.name[j] != '.'
    ensures FolderName(item) == item.name[..|item.name| - 4]
  {
    var name := item.name;
    var d := |name| - 4;
    if EndsWithIgnoringCase(name, ".rar") {
      LastDotOfExtension(name, ".rar");
    } else {
      LastDotOfExtension(name, ".zip");
    }
    assert SplitExt(name) == (name[..d], name[d..]);
  }

  /** A name ending in '.' and three non-dots, in any case, has its last
      '.' four from the end. */
  lemma LastDotOfExtension(name: string, ext: string)
    requires |ext| == 4 && ext[0] == '.' && '.' !in ext[1..]
    requires EndsWithIgnoringCase(name, ext)
    ensures LastDot(name) == Some(|name| - 4)
  {
    var d := |name| - 4;
    assert AsciiLower(name[d]) == '.';
    forall j | d < j < |name|
      ensures name[j] != '.'
    {
      assert ext[j - d] in ext[1..];
      assert AsciiLower(name[j]) == ext[j - d];
    }
  }

  /** The name a listed item is cached and shown under, for a given name
      cleaner; the dashboard's is `NameCleaner.CleanGameName`. */
  function Key(clean: string -> string, item: DirEntry): string {
    clean(FolderName(item))
  }

  const StoreUrlPrefix := "https://store.steampowered.com/app/"
  const SearchUrlPrefix := "https://www.google.com/search?q="
  const SearchUrlSuffix := "+game"
  const DefaultCoverUrl := "/static/default_cover.png"

  /** `name.replace(' ', '+')` */
  function ReplaceSpaces(s: string): (r: string)
    ensures |r| == |s| && ' ' !in r
    ensures forall i :: 0 <= i < |s| ==> r[i] == if s[i] == ' ' then '+' else s[i]
  {
    seq(|s|, i requires 0 <= i < |s| => if s[i] == ' ' then '+' else s[i])
  }

  /** `s.replace('+', ' ')`, the decoding a search engine applies. */
  function RestoreSpaces(s: string): (r: string)
    ensures |r| == |s| && '+' !in r
    ensures forall i :: 0 <= i < |s| ==> r[i] == if s[i] == '+' then ' ' else s[i]
  {
    seq(|s|, i requires 0 <= i < |s| => if s[i] == '+' then ' ' else s[i])
  }

  /** For a name without '+', the search query decodes back to the name. */
  lemma SpacesRoundTrip(s: string)
    requires '+' !in s
    ensures RestoreSpaces(ReplaceSpaces(s)) == s
  {
    var r := RestoreSpaces(ReplaceSpaces(s));
    forall i | 0 <= i < |s|
      ensures r[i] == s[i]
    {
      assert s[i] != '+';
    }
  }

  /** `steam_url`: the store page for a truthy app id, else a web search
      for the name followed by "game". */
  function SteamUrl(name: string, appId: Option<int>): (r: string)
    ensures Truthy(appId) ==> StoreUrlPrefix <= r
    ensures !Truthy(appId) ==> SearchUrlPrefix <= r && |r| == |SearchUrlPrefix| + |name| + |SearchUrlSuffix|
  {
    if Truthy(appId) then StoreUrlPrefix + IntToDecimal(appId.value)
    else SearchUrlPrefix + ReplaceSpaces(name) + SearchUrlSuffix
  }

  /** A link never contains a space. A store link gives back its app id. A
      search link is the prefix, the name with each space turned into '+'
      and every other character kept, and "+game"; for a name without '+'
      it decodes back to the name. */
  lemma SteamUrlProps(name: string, appId: Option<int>)
    ensures ' ' !in SteamUrl(name, appId)
    ensures Truthy(appId) ==>
              var url := SteamUrl(name, appId);
              StoreUrlPrefix <= url && ParseInt(url[|StoreUrlPrefix|..]) == appId
    ensures !Truthy(appId) ==>
              var url := SteamUrl(name, appId);
              && SearchUrlPrefix <= url
              && |url| == |SearchUrlPrefix| + |name| + |SearchUrlSuffix|
              && url[|url| - |SearchUrlSuffix|..] == SearchUrlSuffix
              && url[|SearchUrlPrefix|..|url| - |SearchUrlSuffix|] == ReplaceSpaces(name)
    ensures !Truthy(appId) && '+' !in name ==>
              var url := SteamUrl(name, appId);
              RestoreSpaces(url[|SearchUrlPrefix|..|url| - |SearchUrlSuffix|]) == name
  {
    var url := SteamUrl(name, appId);
    if Truthy(appId) {
      assert url[|StoreUrlPrefix|..] == IntToDecimal(appId.value);
      IntRoundTrip(appId.value);
    } else {
      assert url[|SearchUrlPrefix|..|url| - |SearchUrlSuffix|] == ReplaceSpaces(name);
      assert url[|url| - |SearchUrlSuffix|..] == SearchUrlSuffix;
      if '+' !in name {
        SpacesRoundTrip(name);
      }
    }
  }

  /** `cover_url or url_for('static', filename='default_cover.png')` */
  function CoverOrDefault(cover: Option<string>): (r: string)
    ensures r != ""
    ensures cover.Some? && cover.value != "" ==> r == cover.value
    ensures !(cover.Some? && cover.value != "") ==> r == DefaultCoverUrl
  {
    match cover
    case Some(c) => if c != "" then c else DefaultCoverUrl
    case None => DefaultCoverUrl
  }

  // ---------------------------------------------------------------------
  // Game records
  // ---------------------------------------------------------------------

  /** `game_data`, as shown and cached. */
  datatype Record = Record(
    name: string,
    coverUrl: string,
    steamUrl: string,
    reviewDesc: string,
    totalReviews: int,
    installerPath: Option<string>,
    releaseDate: string,
    genres: seq<string>,
    shortDescription: string,
    screenshots: seq<string>,
    videoUrl: Option<string>,
    storage: string)

  /** The replies of the outside world, fixed for one page load: the app
      list download, the cover probes for a name and id, the review and
      details replies for an id, and the files `os.walk` finds below a path. */
  datatype Remote = Remote(
    catalog: Option<seq<CatalogMatcher.App>>,
    coverProbes: (string, Option<int>) -> Fetchers.CoverProbes,
    reviews: int -> Option<Fetchers.ReviewReply>,
    details: int -> Option<Fetchers.DetailsReply>,
    walks: string -> seq<InstallerLocator.WalkEntry>)

  /** One scan's setting: the games directory, the name cleaner and the
      outside world. */
  datatype Env = Env(gamesDir: string, clean: string -> string, remote: Remote)

  /** The dashboard's setting, with its name cleaner. */
  function DashboardEnv(gamesDir: string, remote: Remote): Env {
    Env(gamesDir, NameCleaner.CleanGameName, remote)
  }

  function ReviewReplyFor(remote: Remote, appId: Option<int>): Option<Fetchers.ReviewReply> {
    if appId.Some? then remote.reviews(appId.value) else None
  }

  function DetailsReplyFor(remote: Remote, appId: Option<int>): Option<Fetchers.DetailsReply> {
    if appId.Some? then remote.details(appId.value) else None
  }

  /** `installer_path`: the largest `.exe` inside a folder, the item itself
      otherwise. */
  function InstallerPath(remote: Remote, item: DirEntry, path: string): Option<string> {
    if item.kind == Directory then InstallerLocator.Installer(true, remote.walks(path)) else Some(path)
  }

  /** The record built from the store for an item that the cache lacks. */
  function FreshRecord(env: Env, item: DirEntry): (r: Record)
    ensures r.name == Key(env.clean, item)
    ensures ' ' !in r.steamUrl && r.coverUrl != "" && r.reviewDesc != ""
    ensures item.kind != Directory ==> r.installerPath == Some(JoinPath(env.gamesDir, item.name))
  {
    var remote := env.remote;
    var cleaned := Key(env.clean, item);
    var path := JoinPath(env.gamesDir, item.name);
    var appId := CatalogMatcher.MatchedAppId(remote.catalog, cleaned);
    var cover := Fetchers.GetGameCover(appId, remote.coverProbes(cleaned, appId));
    var review := Fetchers.GetReview(appId, ReviewReplyFor(remote, appId));
    var details := Fetchers.GetDetails(appId, DetailsReplyFor(remote, appId));
    SteamUrlProps(cleaned, appId);
    Record(cleaned, CoverOrDefault(cover), SteamUrl(cleaned, appId), review.desc, review.total,
           InstallerPath(remote, item, path), details.releaseDate, details.genres,
           details.shortDescription, details.screenshots, details.videoUrl, details.storage)
  }

  /** Each field of a fresh record comes from its source: the link from the
      app id the catalog match gives for the cleaned name (the store page
      when that id is truthy), the cover, review and details from the three
      fetchers for that id, and a folder's installer from `find_installer`
      on its path. */
  lemma FreshRecordFromFetchers(env: Env, item: DirEntry)
    ensures var r := FreshRecord(env, item);
            var remote := env.remote;
            var id := CatalogMatcher.MatchedAppId(remote.catalog, r.name);
            var review := Fetchers.GetReview(id, ReviewReplyFor(remote, id));
            var details := Fetchers.GetDetails(id, DetailsReplyFor(remote, id));
            && r.steamUrl == SteamUrl(r.name, id)
            && (Truthy(id) ==> r.steamUrl == StoreUrlPrefix + IntToDecimal(id.value))
            && r.coverUrl == CoverOrDefault(Fetchers.GetGameCover(id, remote.coverProbes(r.name, id)))
            && r.reviewDesc == review.desc && r.totalReviews == review.total
            && r.releaseDate == details.releaseDate && r.genres == details.genres
            && r.shortDescription == details.shortDescription && r.screenshots == details.screenshots
            && r.videoUrl == details.videoUrl && r.storage == details.storage
            && (item.kind == Directory ==>
                  r.installerPath == InstallerLocator.Installer(true, remote.walks(JoinPath(env.gamesDir, item.name))))
  {
  }

  /** What the cache rebuild depends on: the name cleaner and the builder
      of a fresh record for an item the cache lacks. */
  datatype Scan = Scan(clean: string -> string, build: DirEntry -> Record)

  /** The scan of a setting: fresh records come from the store. */
  function ScanOf(env: Env): Scan {
    Scan(env.clean, item => FreshRecord(env, item))
  }

  /** The dashboard's scan. */
  function DashboardScan(gamesDir: string, remote: Remote): Scan {
    ScanOf(DashboardEnv(gamesDir, remote))
  }

  /** A builder that names each fresh record after its item. */
  ghost predicate BuildsNamed(scan: Scan) {
    forall item :: scan.build(item).name == Key(scan.clean, item)
  }

  /** The store-backed builder names each record after its item, and builds
      exactly `FreshRecord`. */
  lemma ScanOfBuildsNamed(env: Env)
    ensures ScanOf(env).clean == env.clean
    ensures forall item :: ScanOf(env).build(item) == FreshRecord(env, item)
    ensures BuildsNamed(ScanOf(env))
  {
  }

  /** The record listed for an item: the cached one under its name, or a
      fresh one. */
  function RecordFor(scan: Scan, oldCache: map<string, Record>, item: DirEntry): (r: Record)
    ensures Key(scan.clean, item) in oldCache ==> r == oldCache[Key(scan.clean, item)]
    ensures Key(scan.clean, item) !in oldCache ==> r == scan.build(item)
  {
    var k := Key(scan.clean, item);
    if k in oldCache then oldCache[k] else scan.build(item)
  }

  /** `games_list` after the scan: one record per item, in item order. */
  function GamesFor(scan: Scan, oldCache: map<string, Record>, items: seq<DirEntry>): (r: seq<Record>)
    ensures |r| == |items|
    ensures forall i :: 0 <= i < |items| ==> r[i] == RecordFor(scan, oldCache, items[i])
  {
    seq(|items|, i requires 0 <= i < |items| => RecordFor(scan, oldCache, items[i]))
  }

  /** `new_cache` after the scan: each item's record stored under its name,
      a later item overwriting an earlier one with the same name. */
  function CacheFor(scan: Scan, oldCache: map<string, Record>, items: seq<DirEntry>): (r: map<string, Record>)
    ensures |r.Keys| <= |items|
  {
    if items == [] then map[]
    else
      var last := items[|items| - 1];
      CacheFor(scan, oldCache, items[..|items| - 1])[Key(scan.clean, last) := RecordFor(scan, oldCache, last)]
  }

  /** The fetching half of the loop body: what `index` does for an item
      whose name the cache lacks. */
  method FetchRecord(env: Env, item: DirEntry) returns (record: Record)
    ensures record == FreshRecord(env, item)
  {
    var remote := env.remote;
    var path := JoinPath(env.gamesDir, item.name);
    var cleaned := env.clean(FolderName(item));
    var appId := CatalogMatcher.FindAppId(remote.catalog, cleaned);
    var cover := Fetchers.GetGameCover(appId, remote.coverProbes(cleaned, appId));
    var review := Fetchers.GetReview(appId, ReviewReplyFor(remote, appId));
    var details := Fetchers.GetDetails(appId, DetailsReplyFor(remote, appId));
    var installer: Option<string>;
    if item.kind == Directory {
      installer := InstallerLocator.FindInstaller(true, remote.walks(path));
    } else {
      installer := Some(path);
    }
    record := Record(cleaned, CoverOrDefault(cover), SteamUrl(cleaned, appId), review.desc, review.total,
                     installer, details.releaseDate, details.genres,
                     details.shortDescription, details.screenshots, details.videoUrl, details.storage);
  }

  /** The sync loop of `index`. */
  method ProcessItems(env: Env, oldCache: map<string, Record>, items: seq<DirEntry>)
    returns (games: seq<Record>, newCache: map<string, Record>)
    ensures games == GamesFor(ScanOf(env), oldCache, items)
    ensures newCache == CacheFor(ScanOf(env), oldCache, items)
  {
    games := [];
    newCache := map[];
    var i := 0;
    while i < |items|
      invariant 0 <= i <= |items|
      invariant games == GamesFor(ScanOf(env), oldCache, items[..i])
      invariant newCache == CacheFor(ScanOf(env), oldCache, items[..i])
    {
      var item := items[i];
      var cleaned := env.clean(FolderName(item));
      var record: Record;
      if cleaned in oldCache {
        record := oldCache[cleaned];
      } else {
        record := FetchRecord(env, item);
      }
      assert record == RecordFor(ScanOf(env), oldCache, item);
      ScanStep(ScanOf(env), oldCache, items, i);
      games := games + [record];
      newCache := newCache[cleaned := record];
      i := i + 1;
    }
    assert items[..i] == items;
  }

  /** One more item appends its record to the listing and stores it under
      its name. */
  lemma ScanStep(scan: Scan, oldCache: map<string, Record>, items: seq<DirEntry>, i: nat)
    requires i < |items|
    ensures GamesFor(scan, oldCache, items[..i + 1]) == GamesFor(scan, oldCache, items[..i]) + [RecordFor(scan, oldCache, items[i])]
    ensures CacheFor(scan, oldCache, items[..i + 1]) ==
            CacheFor(scan, oldCache, items[..i])[Key(scan.clean, items[i]) := RecordFor(scan, oldCache, items[i])]
  {
    GamesSnoc(scan, oldCache, items, i);
    CacheSnoc(scan, oldCache, items, i);
  }

  lemma GamesSnoc(scan: Scan, oldCache: map<string, Record>, items: seq<DirEntry>, i: nat)
    requires i < |items|
    ensures GamesFor(scan, oldCache, items[..i + 1]) == GamesFor(scan, oldCache, items[..i]) + [RecordFor(scan, oldCache, items[i])]
  {
    var l, r := GamesFor(scan, oldCache, items[..i + 1]), GamesFor(scan, oldCache, items[..i]) + [RecordFor(scan, oldCache, items[i])];
    assert |l| == |r|;
    forall j | 0 <= j < i + 1
      ensures l[j] == r[j]
    {
      assert items[..i + 1][j] == items[j];
      if j < i {
        assert items[..i][j] == items[j];
      }
    }
  }

  lemma CacheSnoc(scan: Scan, oldCache: map<string, Record>, items: seq<DirEntry>, i: nat)
    requires i < |items|
    ensures CacheFor(scan, oldCache, items[..i + 1]) ==
            CacheFor(scan, oldCache, items[..i])[Key(scan.clean, items[i]) := RecordFor(scan, oldCache, items[i])]
  {
    var s := items[..i + 1];
    assert s[..i] == items[..i] && s[i] == items[i] && |s| == i + 1;
  }

  /** The names of the rebuilt cache are exactly the names of this scan's
      items: a game no longer on disk (or beyond the limit) leaves the cache. */
  lemma {:induction false} CacheKeys(scan: Scan, oldCache: map<string, Record>, items: seq<DirEntry>)
    ensures forall k :: k in CacheFor(scan, oldCache, items) <==>
                        exists i :: 0 <= i < |items| && Key(scan.clean, items[i]) == k
  {
    if items != [] {
      var prefix := items[..|items| - 1];
      CacheKeys(scan, oldCache, prefix);
      forall k | exists i :: 0 <= i < |items| && Key(scan.clean, items[i]) == k
        ensures k in CacheFor(scan, oldCache, items)
      {
        var i :| 0 <= i < |items| && Key(scan.clean, items[i]) == k;
        if i < |items| - 1 {
          assert Key(scan.clean, prefix[i]) == k;
        }
      }
    }
  }

  /** Under each name the cache holds the record of the last item with
      that name. */
  lemma {:induction false} CacheLastWins(scan: Scan, oldCache: map<string, Record>, items: seq<DirEntry>, j: nat)
    requires j < |items|
    requires forall l :: j < l < |items| ==> Key(scan.clean, items[l]) != Key(scan.clean, items[j])
    ensures Key(scan.clean, items[j]) in CacheFor(scan, oldCache, items)
    ensures CacheFor(scan, oldCache, items)[Key(scan.clean, items[j])] == RecordFor(scan, oldCache, items[j])
  {
    var prefix := items[..|items| - 1];
    var last := items[|items| - 1];
    var k := Key(scan.clean, items[j]);
    var before := CacheFor(scan, oldCache, prefix);
    assert CacheFor(scan, oldCache, items) == before[Key(scan.clean, last) := RecordFor(scan, oldCache, last)];
    if j < |items| - 1 {
      assert forall l :: j < l < |prefix| ==> prefix[l] == items[l];
      CacheLastWins(scan, oldCache, prefix, j);
      assert prefix[j] == items[j];
      assert Key(scan.clean, last) != k;
    }
  }

  /** A name already cached keeps its cached record: no request is made
      for it. */
  lemma CacheCarriesOver(scan: Scan, oldCache: map<string, Record>, items: seq<DirEntry>, k: string)
    requires k in oldCache && k in CacheFor(scan, oldCache, items)
    ensures CacheFor(scan, oldCache, items)[k] == oldCache[k]
  {
    CacheKeys(scan, oldCache, items);
    var j :| 0 <= j < |items| && Key(scan.clean, items[j]) == k;
    var last := LastWithKey(scan, items, k, j);
    CacheLastWins(scan, oldCache, items, last);
  }

  /** The last position holding a given name, found from one that does. */
  lemma {:induction false} LastWithKey(scan: Scan, items: seq<DirEntry>, k: string, j: nat) returns (last: nat)
    requires j < |items| && Key(scan.clean, items[j]) == k
    ensures j <= last < |items| && Key(scan.clean, items[last]) == k
    ensures forall l :: last < l < |items| ==> Key(scan.clean, items[l]) != k
    decreases |items| - j
  {
    if exists l :: j < l < |items| && Key(scan.clean, items[l]) == k {
      var l :| j < l < |items| && Key(scan.clean, items[l]) == k;
      last := LastWithKey(scan, items, k, l);
    } else {
      last := j;
    }
  }

  /** Every cached record is stored under its own name. */
  predicate WellKeyed(cache: map<string, Record>) {
    forall k :: k in cache ==> cache[k].name == k
  }

  /** A scan keeps the cache well keyed. */
  lemma {:induction false} CacheWellKeyed(scan: Scan, oldCache: map<string, Record>, items: seq<DirEntry>)
    requires WellKeyed(oldCache) && BuildsNamed(scan)
    ensures WellKeyed(CacheFor(scan, oldCache, items))
  {
    if items != [] {
      CacheWellKeyed(scan, oldCache, items[..|items| - 1]);
    }
  }

  /** A second scan of the same items over the cache the first one wrote
      finds every name cached, so it asks the outside world nothing: it
      writes the same cache back and lists each item's cached record. */
  lemma SecondScanIsStable(scan: Scan, again: Scan, oldCache: map<string, Record>, items: seq<DirEntry>)
    requires again.clean == scan.clean
    ensures var c := CacheFor(scan, oldCache, items);
            && (forall i :: 0 <= i < |items| ==> Key(scan.clean, items[i]) in c)
            && CacheFor(again, c, items) == c
            && GamesFor(again, c, items) == seq(|items|, i requires 0 <= i < |items| => c[Key(scan.clean, items[i])])
  {
    var c := CacheFor(scan, oldCache, items);
    CacheKeys(scan, oldCache, items);
    assert forall i :: 0 <= i < |items| ==> Key(again.clean, items[i]) in c;
    AllCachedRebuild(again, c, items);
    AllCachedListing(again, c, items);
  }

  /** When every item's name is cached, the listing is the cached records. */
  lemma AllCachedListing(scan: Scan, c: map<string, Record>, items: seq<DirEntry>)
    requires forall i :: 0 <= i < |items| ==> Key(scan.clean, items[i]) in c
    ensures GamesFor(scan, c, items) == seq(|items|, i requires 0 <= i < |items| => c[Key(scan.clean, items[i])])
  {
  }

  /** When every item's name is cached, the rebuilt cache is the old one
      restricted to those names. */
  lemma {:induction false} AllCachedRebuild(scan: Scan, c: map<string, Record>, items: seq<DirEntry>)
    requires forall i :: 0 <= i < |items| ==> Key(scan.clean, items[i]) in c
    requires forall k :: k in c <==> exists i :: 0 <= i < |items| && Key(scan.clean, items[i]) == k
    ensures CacheFor(scan, c, items) == c
  {
    var n := CacheFor(scan, c, items);
    CacheKeys(scan, c, items);
    forall k | k in c
      ensures n[k] == c[k]
    {
      CacheCarriesOver(scan, c, items, k);
    }
  }

  // ---------------------------------------------------------------------
  // The route
  // ---------------------------------------------------------------------

  const NotFoundMessage := "Games directory not found. Please check the GAMES_DIR path in the script."

  /** What `index` answers: the rendered page, with the cache written in
      sync mode, or the 404 for a missing games directory. */
  datatype Response =
    | Page(games: seq<Record>, allGenres: seq<string>, cacheOnly: bool, savedCache: Option<map<string, Record>>)
    | NotFound(message: string, status: int)

  /** `all_genres` of a listing. */
  function GenresOf(games: seq<Record>): (r: seq<string>)
    ensures Genres.StrictlySorted(r)
    ensures forall y :: y in r <==> exists i :: 0 <= i < |games| && y in games[i].genres
  {
    var lists := seq(|games|, i requires 0 <= i < |games| => games[i].genres);
    forall y
      ensures Genres.HasGenre(lists, y) <==> exists i :: 0 <= i < |games| && y in games[i].genres
    {
      if exists i :: 0 <= i < |games| && y in games[i].genres {
        var i :| 0 <= i < |games| && y in games[i].genres;
        assert y in lists[i];
      }
    }
    Genres.AllGenres(lists)
  }

  /** The items one sync scan processes. */
  function ScanItems(listing: seq<DirEntry>, limit: Option<int>): seq<DirEntry> {
    Truncate(GameItems(listing), limit)
  }

  /** `list(cache.values())`: every cached record once per name, in some
      order of the names. */
  method CachedGames(cache: map<string, Record>) returns (games: seq<Record>, ghost keys: seq<string>)
    ensures |keys| == |games| == |cache|
    ensures forall k :: k in cache <==> k in keys
    ensures forall i, j :: 0 <= i < j < |keys| ==> keys[i] != keys[j]
    ensures forall i :: 0 <= i < |keys| ==> games[i] == cache[keys[i]]
  {
    games := [];
    keys := [];
    var rest := cache.Keys;
    while rest != {}
      invariant rest <= cache.Keys
      invariant forall k :: k in cache <==> k in keys || k in rest
      invariant forall k :: k in keys ==> k !in rest
      invariant |keys| == |games| == |cache| - |rest|
      invariant forall i, j :: 0 <= i < j < |keys| ==> keys[i] != keys[j]
      invariant forall i :: 0 <= i < |keys| ==> games[i] == cache[keys[i]]
      decreases |rest|
    {
      var k :| k in rest;
      games := games + [cache[k]];
      keys := keys + [k];
      rest := rest - {k};
    }
  }

  /** A listing of the cache by distinct keys holds every cached record,
      and nothing else. */
  lemma ListingCoversCache(cache: map<string, Record>, games: seq<Record>, keys: seq<string>)
    requires |keys| == |games|
    requires forall k :: k in cache <==> k in keys
    requires forall i :: 0 <= i < |keys| ==> games[i] == cache[keys[i]]
    ensures forall k :: k in cache ==> cache[k] in games
    ensures forall g :: g in games ==> exists k :: k in cache && cache[k] == g
  {
    forall k | k in cache
      ensures cache[k] in games
    {
      var i :| 0 <= i < |keys| && keys[i] == k;
      assert games[i] == cache[k];
    }
    forall g | g in games
      ensures exists k :: k in cache && cache[k] == g
    {
      var i :| 0 <= i < |games| && games[i] == g;
      assert keys[i] in keys;
    }
  }

  /** The sync branch of `index` once the games directory exists. */
  method SyncScan(gamesDir: string, remote: Remote, listing: seq<DirEntry>, limit: Option<int>, cache: map<string, Record>)
    returns (games: seq<Record>, newCache: map<string, Record>)
    ensures games == GamesFor(DashboardScan(gamesDir, remote), cache, ScanItems(listing, limit))
    ensures newCache == CacheFor(DashboardScan(gamesDir, remote), cache, ScanItems(listing, limit))
  {
    var items := SelectGameItems(listing);
    items := Truncate(items, limit);
    games, newCache := ProcessItems(DashboardEnv(gamesDir, remote), cache, items);
  }

  /** `index()`: cache-only mode lists the cache; sync mode answers 404
      without a games directory, and otherwise scans, rebuilds the cache and
      hands it to `save_cache`. */
  method Index(cacheOnly: bool, limit: Option<int>, gamesDir: string, gamesDirExists: bool,
               listing: seq<DirEntry>, cache: map<string, Record>, remote: Remote)
    returns (resp: Response)
    ensures cacheOnly ==> resp.Page? && resp.savedCache.None? && resp.cacheOnly
    ensures cacheOnly ==> |resp.games| == |cache|
                          && (forall g :: g in resp.games ==> exists k :: k in cache && cache[k] == g)
                          && (forall k :: k in cache ==> cache[k] in resp.games)
    ensures !cacheOnly && !gamesDirExists ==> resp == NotFound(NotFoundMessage, 404)
    ensures !cacheOnly && gamesDirExists ==>
              var items := ScanItems(listing, limit);
              var scan := DashboardScan(gamesDir, remote);
              resp == Page(GamesFor(scan, cache, items), GenresOf(GamesFor(scan, cache, items)),
                           false, Some(CacheFor(scan, cache, items)))
    ensures resp.Page? ==> resp.allGenres == GenresOf(resp.games)
  {
    if cacheOnly {
      var games, keys := CachedGames(cache);
      ListingCoversCache(cache, games, keys);
      return Page(games, GenresOf(games), true, None);
    }
    if !gamesDirExists {
      return NotFound(NotFoundMessage, 404);
    }
    var games, newCache := SyncScan(gamesDir, remote, listing, limit, cache);
    return Page(games, GenresOf(games), false, Some(newCache));
  }

  /** In sync mode the limit bounds the scan: the saved cache has at most
      `limit` names, and every one of them belongs to a listed game item. */
  lemma LimitBoundsCache(scan: Scan, listing: seq<DirEntry>, limit: int, cache: map<string, Record>)
    requires limit > 0
    ensures var c := CacheFor(scan, cache, ScanItems(listing, Some(limit)));
            && |c.Keys| <= limit
            && forall k :: k in c ==> exists e :: e in listing && IsGameItem(e) && Key(scan.clean, e) == k
  {
    var items := ScanItems(listing, Some(limit));
    CacheNamesFromListing(scan, listing, Some(limit), cache);
  }

  /** Every name of the rebuilt cache is that of a listed game item. */
  lemma CacheNamesFromListing(scan: Scan, listing: seq<DirEntry>, limit: Option<int>, cache: map<string, Record>)
    ensures forall k :: k in CacheFor(scan, cache, ScanItems(listing, limit)) ==>
              exists e :: e in listing && IsGameItem(e) && Key(scan.clean, e) == k
  {
    var items := ScanItems(listing, limit);
    CacheKeys(scan, cache, items);
    forall k | k in CacheFor(scan, cache, items)
      ensures exists e :: e in listing && IsGameItem(e) && Key(scan.clean, e) == k
    {
      var i :| 0 <= i < |items| && Key(scan.clean, items[i]) == k;
      assert items[i] in GameItems(listing);
    }
  }

  /** Over a well-keyed cache every listed record carries its item's name. */
  lemma ListedNames(scan: Scan, oldCache: map<string, Record>, items: seq<DirEntry>)
    requires WellKeyed(oldCache) && BuildsNamed(scan)
    ensures forall i :: 0 <= i < |items| ==> GamesFor(scan, oldCache, items)[i].name == Key(scan.clean, items[i])
  {
  }

  /** With the dashboard's cleaner, every name the cache is rebuilt under is
      clean: no '.', no bracketed tag, no version token, no surrounding
      whitespace. */
  lemma DashboardNamesAreClean(gamesDir: string, remote: Remote, oldCache: map<string, Record>, items: seq<DirEntry>)
    ensures forall k :: k in CacheFor(DashboardScan(gamesDir, remote), oldCache, items) ==>
              && '.' !in k
              && NameCleaner.BracketFree(k)
              && NameCleaner.VersionFree(k)
              && (k == [] || (!IsSpace(k[0]) && !IsSpace(k[|k| - 1])))
  {
    var scan := DashboardScan(gamesDir, remote);
    CacheKeys(scan, oldCache, items);
    forall k | k in CacheFor(scan, oldCache, items)
      ensures '.' !in k && NameCleaner.BracketFree(k) && NameCleaner.VersionFree(k)
      ensures k == [] || (!IsSpace(k[0]) && !IsSpace(k[|k| - 1]))
    {
      var i :| 0 <= i < |items| && Key(scan.clean, items[i]) == k;
      assert k == NameCleaner.CleanGameName(FolderName(items[i]));
    }
  }
}
