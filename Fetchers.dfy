/** The metadata fetchers `get_steam_review`, `get_game_details` and
    `get_game_cover`, each as a function from the app id and the reply the
    service gave (an input) to the value the source returns. A reply of
    `None` stands for a request that raised `RequestException` (transport
    error, non-2xx status or a body that is not JSON); the source turns all of
    these into its neutral defaults. */
module Fetchers {
  import opened Common

  // ---------------------------------------------------------------------
  // get_steam_review
  // ---------------------------------------------------------------------

  /** `query_summary` of an appreviews reply; a missing key is `None`. */
  datatype ReviewSummary = ReviewSummary(reviewScoreDesc: Option<string>, totalReviews: Option<int>)

  /** Body of an appreviews reply; `querySummary == None` is a missing key. */
  datatype ReviewReply = ReviewReply(success: Scalar, querySummary: Option<ReviewSummary>)

  /** `(review_score_desc, total_reviews)` as returned. */
  datatype Review = Review(desc: string, total: int)

  const NoIdReview := Review("N/A", 0)
  const NoUserReviews := Review("No User Reviews", 0)

  /** The reply carries a usable review: `success == 1` and a non-empty
      `review_score_desc`. */
  predicate HasReview(reply: ReviewReply) {
    && EqualsOne(reply.success)
    && reply.querySummary.Some?
    && reply.querySummary.value.reviewScoreDesc.Some?
    && reply.querySummary.value.reviewScoreDesc.value != ""
  }

  /** `get_steam_review(app_id)`, with `reply` the response to the request
      that the source makes only for a truthy id. */
  function GetReview(appId: Option<int>, reply: Option<ReviewReply>): (r: Review)
    ensures r.desc != ""
    ensures !Truthy(appId) ==> r == NoIdReview
    ensures Truthy(appId) && reply.Some? && HasReview(reply.value) ==>
              r.desc == reply.value.querySummary.value.reviewScoreDesc.value
              && r.total == reply.value.querySummary.value.totalReviews.GetOr(0)
    ensures Truthy(appId) && !(reply.Some? && HasReview(reply.value)) ==> r == NoUserReviews
  {
    if !Truthy(appId) then NoIdReview
    else match reply
      case None => NoUserReviews
      case Some(data) =>
        if EqualsOne(data.success) then
          var summary := data.querySummary.GetOr(ReviewSummary(None, None));
          match summary.reviewScoreDesc
          case Some(desc) => if desc != "" then Review(desc, summary.totalReviews.GetOr(0)) else NoUserReviews
          case None => NoUserReviews
        else NoUserReviews
  }

  /** Without a truthy id no request is made: the reply cannot matter. */
  lemma ReviewIgnoresReplyWithoutId(appId: Option<int>, a: Option<ReviewReply>, b: Option<ReviewReply>)
    requires !Truthy(appId)
    ensures GetReview(appId, a) == GetReview(appId, b) == Review("N/A", 0)
  {
  }

  /** A non-zero review count can only come from a successful reply that
      carries a description. */
  lemma ReviewCountNeedsSuccess(appId: Option<int>, reply: Option<ReviewReply>)
    requires GetReview(appId, reply).total != 0
    ensures Truthy(appId) && reply.Some? && HasReview(reply.value)
    ensures reply.value.querySummary.value.totalReviews == Some(GetReview(appId, reply).total)
  {
  }

  // ---------------------------------------------------------------------
  // Storage size: re.search(r'(\d+\s*GB)', text)
  // ---------------------------------------------------------------------

  /** `m` is, as a whole, a match of `\d+\s*GB`: digits, then whitespace only,
      then "GB". */
  predicate IsStorageToken(m: string) {
    && |m| >= 3
    && m[|m| - 2..] == "GB"
    && DigitRun(m, 0) >= 1
    && forall k :: DigitRun(m, 0) <= k < |m| - 2 ==> IsSpace(m[k])
  }

  /** Where the greedy match of `\d+\s*GB` that starts at i ends, if there is one. */
  function StorageMatchAt(s: string, i: nat): Option<nat>
    requires i <= |s|
  {
    if i < |s| && IsDigit(s[i]) then
      var w := SpaceRun(s, DigitRun(s, i));
      if w + 2 <= |s| && s[w] == 'G' && s[w + 1] == 'B' then Some(w + 2) else None
    else None
  }

  lemma {:induction false} DigitRunIs(s: string, i: nat, j: nat)
    requires i <= j <= |s|
    requires forall k :: i <= k < j ==> IsDigit(s[k])
    requires j == |s| || !IsDigit(s[j])
    ensures DigitRun(s, i) == j
    decreases j - i
  {
    if i < j {
      DigitRunIs(s, i + 1, j);
    }
  }

  lemma {:induction false} SpaceRunIs(s: string, i: nat, j: nat)
    requires i <= j <= |s|
    requires forall k :: i <= k < j ==> IsSpace(s[k])
    requires j == |s| || !IsSpace(s[j])
    ensures SpaceRun(s, i) == j
    decreases j - i
  {
    if i < j {
      SpaceRunIs(s, i + 1, j);
    }
  }

  /** What the scan finds at i is a match of the pattern. */
  lemma MatchAtSound(s: string, i: nat)
    requires i <= |s| && StorageMatchAt(s, i).Some?
    ensures i < StorageMatchAt(s, i).value <= |s|
    ensures IsStorageToken(s[i..StorageMatchAt(s, i).value])
  {
    var d := DigitRun(s, i);
    var w := SpaceRun(s, d);
    var m := s[i..w + 2];
    DigitRunIs(m, 0, d - i);
    assert m[|m| - 2..] == s[w..w + 2];
  }

  /** Any match of the pattern at i is the one the scan finds there. */
  lemma MatchAtComplete(s: string, i: nat, e: nat)
    requires i <= e <= |s| && IsStorageToken(s[i..e])
    ensures StorageMatchAt(s, i) == Some(e)
  {
    var m := s[i..e];
    var d0 := DigitRun(m, 0);
    assert m[|m| - 2] == 'G';
    assert d0 <= |m| - 2;
    DigitRunIs(s, i, i + d0);
    assert forall k :: i + d0 <= k < e - 2 ==> s[k] == m[k - i];
    SpaceRunIs(s, i + d0, e - 2);
    assert s[e - 2] == m[|m| - 2] && s[e - 1] == m[|m| - 1];
  }

  /** No match of the pattern starts at k. */
  predicate NoTokenAt(s: string, k: nat)
    requires k <= |s|
  {
    forall e :: k <= e <= |s| ==> !IsStorageToken(s[k..e])
  }

  lemma NoMatchAt(s: string, i: nat)
    requires i <= |s| && StorageMatchAt(s, i).None?
    ensures NoTokenAt(s, i)
  {
    forall e | i <= e <= |s| && IsStorageToken(s[i..e])
      ensures false
    {
      MatchAtComplete(s, i, e);
    }
  }

  /** A match of the pattern starts with a digit. */
  lemma TokenStartsWithDigit(s: string, k: nat, e: nat)
    requires k <= e <= |s| && IsStorageToken(s[k..e])
    ensures k < |s| && IsDigit(s[k])
  {
    assert s[k] == s[k..e][0];
  }

  /** `re.search` from position i: the leftmost match, as (start, end). */
  function StorageSearch(s: string, i: nat): (r: Option<(nat, nat)>)
    requires i <= |s|
    ensures r.Some? ==> i <= r.value.0 < r.value.1 <= |s| && IsStorageToken(s[r.value.0..r.value.1])
    ensures r.Some? ==> forall k :: i <= k < r.value.0 ==> NoTokenAt(s, k)
    ensures r.None? ==> forall k :: i <= k <= |s| ==> NoTokenAt(s, k)
    decreases |s| - i
  {
    if i == |s| then None
    else match StorageMatchAt(s, i)
      case Some(e) => MatchAtSound(s, i); Some((i, e))
      case None => NoMatchAt(s, i); StorageSearch(s, i + 1)
  }

  /** `match.group(1)` of `re.search(r'(\d+\s*GB)', text)`, or `None`. */
  function StorageIn(text: string): (r: Option<string>)
    ensures r.Some? ==> IsStorageToken(r.value)
  {
    match StorageSearch(text, 0)
    case Some((a, b)) => Some(text[a..b])
    case None => None
  }

  /** `m` is a match of the pattern at offset a of `text`, and no match
      starts further left. */
  predicate LeftmostToken(text: string, a: nat, m: string) {
    && a + |m| <= |text|
    && text[a..a + |m|] == m
    && IsStorageToken(m)
    && forall k :: 0 <= k < a ==> NoTokenAt(text, k)
  }

  /** The extracted size is the leftmost match of the pattern, and it is
      absent exactly when the pattern matches nowhere. */
  lemma StorageInLeftmost(text: string)
    ensures StorageIn(text).Some? ==> exists a: nat :: LeftmostToken(text, a, StorageIn(text).value)
    ensures StorageIn(text).None? <==> forall k :: 0 <= k <= |text| ==> NoTokenAt(text, k)
  {
    match StorageSearch(text, 0)
    case Some((a, b)) =>
      assert LeftmostToken(text, a, text[a..b]);
      assert !NoTokenAt(text, a);
    case None =>
  }

  /** "Storage: 50 GB available space" yields "50 GB". */
  lemma StorageExample(text: string)
    requires text == "Storage: 50 GB available space"
    ensures StorageIn(text) == Some("50 GB")
  {
    FiftyGigabytes(text);
    assert !NoTokenAt(text, 9);
    var r := StorageSearch(text, 0);
    var a, b := r.value.0, r.value.1;
    assert a <= 9;
    TokenStartsWithDigit(text, a, b);
    NoDigitBefore(text);
    MatchAtComplete(text, a, b);
    MatchAtComplete(text, 9, 14);
  }

  lemma FiftyGigabytes(text: string)
    requires text == "Storage: 50 GB available space"
    ensures text[9..14] == "50 GB" && IsStorageToken(text[9..14])
  {
    var m := text[9..14];
    assert m == "50 GB";
    DigitRunIs(m, 0, 2);
  }

  lemma NoDigitBefore(text: string)
    requires text == "Storage: 50 GB available space"
    ensures forall k :: 0 <= k < 9 ==> !IsDigit(text[k])
  {
    var p := text[..9];
    assert p == "Storage: ";
    assert p[0] == 'S' && p[1] == 't' && p[2] == 'o' && p[3] == 'r' && p[4] == 'a';
    assert p[5] == 'g' && p[6] == 'e' && p[7] == ':' && p[8] == ' ';
  }

  /** A requirement without a 'G' in it has no storage size. */
  lemma NoGigabytesNoStorage(text: string)
    requires 'G' !in text
    ensures StorageIn(text) == None
  {
    if StorageSearch(text, 0).Some? {
      var (a, b) := StorageSearch(text, 0).value;
      TokenEndsWithGB(text, a, b);
    }
  }

  /** A match of the pattern ends with "GB". */
  lemma TokenEndsWithGB(s: string, k: nat, e: nat)
    requires k <= e <= |s| && IsStorageToken(s[k..e])
    ensures 2 <= e && s[e - 2] == 'G' && s[e - 1] == 'B'
  {
    assert s[e - 2] == s[k..e][e - k - 2];
    assert s[e - 1] == s[k..e][e - k - 1];
  }

  // ---------------------------------------------------------------------
  // get_game_details
  // ---------------------------------------------------------------------

  datatype Genre = Genre(id: string, description: string)
  datatype Screenshot = Screenshot(id: int, pathThumbnail: string, pathFull: string)
  /** `mp4` of a movie: the `"480"` and `"max"` renditions. */
  datatype Mp4 = Mp4(sd: string, max: string)
  datatype Movie = Movie(name: string, mp4: Mp4)
  /** `release_date`; `date == None` is a missing key. */
  datatype ReleaseDate = ReleaseDate(comingSoon: bool, date: Option<string>)
  /** `pc_requirements`: an object (with `minimum` possibly missing) or, as
      the store sends for apps without requirements, something else (`[]`). */
  datatype PcRequirements = RequirementsObject(minimum: Option<string>) | RequirementsOther

  /** `data` of an appdetails entry; each `None` is a missing key. */
  datatype AppData = AppData(
    releaseDate: Option<ReleaseDate>,
    genres: Option<seq<Genre>>,
    shortDescription: Option<string>,
    screenshots: Option<seq<Screenshot>>,
    movies: Option<seq<Movie>>,
    pcRequirements: Option<PcRequirements>)

  /** One entry of an appdetails reply. */
  datatype AppEntry = AppEntry(success: Scalar, data: AppData)

  /** The appdetails reply: entries keyed by the decimal app id. */
  type DetailsReply = map<string, AppEntry>

  /** `(release_date, genres, short_description, screenshots, video_url, storage_req)` */
  datatype Details = Details(
    releaseDate: string,
    genres: seq<string>,
    shortDescription: string,
    screenshots: seq<string>,
    videoUrl: Option<string>,
    storage: string)

  const NoDetails := Details("N/A", [], "", [], None, "N/A")

  /** `[genre['description'] for genre in genres]` */
  function GenreNames(genres: seq<Genre>): (r: seq<string>)
    ensures |r| == |genres|
    ensures forall i :: 0 <= i < |genres| ==> r[i] == genres[i].description
  {
    seq(|genres|, i requires 0 <= i < |genres| => genres[i].description)
  }

  /** `[ss['path_full'] for ss in screenshots]` */
  function FullPaths(shots: seq<Screenshot>): (r: seq<string>)
    ensures |r| == |shots|
    ensures forall i :: 0 <= i < |shots| ==> r[i] == shots[i].pathFull
  {
    seq(|shots|, i requires 0 <= i < |shots| => shots[i].pathFull)
  }

  /** The storage string: the regex match in `pc_requirements['minimum']`
      when `pc_requirements` is an object that has `minimum`, else 'N/A'. */
  function StorageRequirement(req: Option<PcRequirements>): (r: string)
    ensures !(req.Some? && req.value.RequirementsObject? && req.value.minimum.Some?) ==> r == "N/A"
    ensures req.Some? && req.value.RequirementsObject? && req.value.minimum.Some? ==>
              var text := req.value.minimum.value;
              && (r == "N/A" <==> forall k :: 0 <= k <= |text| ==> NoTokenAt(text, k))
              && (r != "N/A" ==> exists a: nat :: LeftmostToken(text, a, r))
  {
    match req
    case Some(RequirementsObject(Some(minimum))) =>
      StorageInLeftmost(minimum);
      StorageIn(minimum).GetOr("N/A")
    case _ => "N/A"
  }

  /** The success branch of `get_game_details`. */
  function DetailsOf(app: AppData): (r: Details)
    ensures r.genres == GenreNames(app.genres.GetOr([]))
    ensures r.screenshots == FullPaths(app.screenshots.GetOr([]))
    ensures r.videoUrl.Some? <==> app.movies.Some? && app.movies.value != []
    ensures r.videoUrl.Some? ==> r.videoUrl.value == app.movies.value[0].mp4.max
    ensures r.storage == "N/A" || IsStorageToken(r.storage)
    ensures r.storage == StorageRequirement(app.pcRequirements)
    ensures r.releaseDate == if app.releaseDate.Some? then app.releaseDate.value.date.GetOr("N/A") else "N/A"
    ensures r.shortDescription == app.shortDescription.GetOr("")
  {
    Details(
      match app.releaseDate
      case Some(rd) => rd.date.GetOr("N/A")
      case None => "N/A",
      GenreNames(app.genres.GetOr([])),
      app.shortDescription.GetOr(""),
      FullPaths(app.screenshots.GetOr([])),
      match app.movies
      case Some(ms) => if ms != [] then Some(ms[0].mp4.max) else None
      case None => None,
      StorageRequirement(app.pcRequirements))
  }

  /** `get_game_details(app_id)`, with `reply` the response to the request
      that the source makes only for a truthy id. */
  function GetDetails(appId: Option<int>, reply: Option<DetailsReply>): (r: Details)
    ensures !Truthy(appId) || reply.None? ==> r == NoDetails
    ensures Truthy(appId) && reply.Some? ==>
              var key := IntToDecimal(appId.value);
              r == if key in reply.value && ScalarTruthy(reply.value[key].success)
                   then DetailsOf(reply.value[key].data) else NoDetails
  {
    if !Truthy(appId) then NoDetails
    else match reply
      case None => NoDetails
      case Some(data) =>
        var key := IntToDecimal(appId.value);
        if key in data && ScalarTruthy(data[key].success) then DetailsOf(data[key].data) else NoDetails
  }

  /** Without a truthy id no request is made: the reply cannot matter. */
  lemma DetailsIgnoreReplyWithoutId(appId: Option<int>, a: Option<DetailsReply>, b: Option<DetailsReply>)
    requires !Truthy(appId)
    ensures GetDetails(appId, a) == GetDetails(appId, b) == NoDetails
  {
  }

  /** A reply is read under the entry of the requested id only: entries for
      other ids never change the result. */
  lemma DetailsReadOwnEntry(id: int, reply: DetailsReply, other: int, entry: AppEntry)
    requires id != 0 && other != id
    ensures GetDetails(Some(id), Some(reply[IntToDecimal(other) := entry])) == GetDetails(Some(id), Some(reply))
  {
    if IntToDecimal(other) == IntToDecimal(id) {
      IntToDecimalInjective(other, id);
    }
  }

  /** Genres and screenshots come back in reply order, one per element. */
  lemma DetailsKeepOrder(id: int, reply: DetailsReply, i: nat)
    requires id != 0
    requires IntToDecimal(id) in reply && ScalarTruthy(reply[IntToDecimal(id)].success)
    ensures var d := GetDetails(Some(id), Some(reply));
            var app := reply[IntToDecimal(id)].data;
            && |d.genres| == |app.genres.GetOr([])|
            && |d.screenshots| == |app.screenshots.GetOr([])|
            && (i < |d.genres| ==> d.genres[i] == app.genres.value[i].description)
            && (i < |d.screenshots| ==> d.screenshots[i] == app.screenshots.value[i].pathFull)
  {
  }

  // ---------------------------------------------------------------------
  // get_game_cover (the probes are inputs)
  // ---------------------------------------------------------------------

  function HeaderImageUrl(id: int): string {
    "https://cdn.akamai.steamstatic.com/steam/apps/" + IntToDecimal(id) + "/header.jpg"
  }

  /** Outcomes of the requests `get_game_cover` may make:
      whether the HEAD request for the header image answered 200 (an
      exception counts as not), whether a SteamGridDB key is configured, the
      game ids of a 200 SteamGridDB search (`None`: other status or an
      exception), and the image URLs of a 200 grid listing for a game id. */
  datatype CoverProbes = CoverProbes(
    headerFound: bool,
    apiKeySet: bool,
    gridSearch: Option<seq<int>>,
    gridImages: int -> Option<seq<string>>)

  /** The SteamGridDB fallback: first image of the first search hit. */
  function GridCover(p: CoverProbes): Option<string> {
    match p.gridSearch
    case Some(ids) =>
      if ids == [] then None
      else (match p.gridImages(ids[0])
        case Some(urls) => if urls != [] then Some(urls[0]) else None
        case None => None)
    case None => None
  }

  /** `get_game_cover(game_name, steam_app_id)`. */
  function GetGameCover(appId: Option<int>, p: CoverProbes): (r: Option<string>)
    ensures Truthy(appId) && p.headerFound ==> r == Some(HeaderImageUrl(appId.value))
    ensures !(Truthy(appId) && p.headerFound) && !p.apiKeySet ==> r == None
    ensures !(Truthy(appId) && p.headerFound) && p.apiKeySet ==> r == GridCover(p)
  {
    if Truthy(appId) && p.headerFound then Some(HeaderImageUrl(appId.value))
    else if !p.apiKeySet then None
    else GridCover(p)
  }

  /** A cover always comes from the store's header image or from a
      SteamGridDB listing, and the latter only with a key configured. */
  lemma CoverOrigin(appId: Option<int>, p: CoverProbes)
    requires GetGameCover(appId, p).Some?
    ensures || (Truthy(appId) && GetGameCover(appId, p).value == HeaderImageUrl(appId.value))
            || (p.apiKeySet && p.gridSearch.Some? && p.gridSearch.value != []
                && p.gridImages(p.gridSearch.value[0]).Some?
                && GetGameCover(appId, p).value == p.gridImages(p.gridSearch.value[0]).value[0])
  {
  }
}
