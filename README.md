# Game dashboard: name resolution and cache rebuild

A Dafny model of the logic in `game_dashboard.py`, the local web page that
lists the games in one folder with metadata from the Steam store.

The page is built in these steps:

1. List the games directory. Keep the folders and the `.rar`/`.zip` archives,
   and apply the optional `--limit`.
2. Turn every item into a display name (`clean_game_name`).
3. Reuse the record cached under that name, or build a fresh one. A fresh
   record takes:
   - the Steam app id, from the first catalog entry whose normalised name
     contains the normalised title;
   - the cover, review and store details;
   - the largest `.exe` of a folder as its installer.
4. Replace the cache by the records of this scan.
5. Collect the sorted, duplicate-free list of genres.

Everything the program asks the outside world is an input of the model:
- the HTTP replies (`Pipeline.Remote`, `Fetchers.CoverProbes`);
- the directory listing and the `isdir`/`isfile` tests (`Pipeline.DirEntry`);
- the `os.walk` listing with the file sizes (`InstallerLocator.WalkEntry`);
- the cache file's contents.

A request that raised `RequestException` is an input of `None`.

Modules, one file each:

- `Common`: Option, Python truthiness, `\d` and `str.isspace`, `str(int)`
  and its inverse, case-insensitive `endswith`, and `ntpath.join`.
- `NameCleaner`: `clean_game_name`, written as the four substitutions in
  order. Each regular expression is the scan `re.sub` performs for that one
  pattern: the lazy `\[.*?\]`, whose `.` stops at a line break, and the
  greedy `v\d+(\.\d+)*`.
- `CatalogMatcher`: the normalisation and the first-match loop of
  `get_steam_app_id`.
- `Fetchers`:
  - `get_steam_review` and `get_game_details` as functions of the app id and
    the reply, including the storage size taken from `\d+\s*GB`;
  - `get_game_cover` as a choice over the outcomes of its probes.
- `InstallerLocator`: `find_installer`. It is a loop, proved against a
  function that picks the position of the installer.
- `Genres`: Python's string order and `sorted(set(...))` for `all_genres`.
- `Pipeline`:
  - the item filter and the limit;
  - `splitext` and the record's name, link and installer path;
  - the sync loop, proved against the functions `GamesFor` and `CacheFor`;
  - the `index` route, both modes.

The cache rebuild depends on two things. The first is the name cleaner. The
second is the builder of a fresh record. Both are fields of `Pipeline.Scan`,
so the cache lemmas hold for any cleaner and any builder.
`Pipeline.DashboardScan` supplies `NameCleaner.CleanGameName` and
`Pipeline.FreshRecord` over the replies of one page load.
`Pipeline.DashboardNamesAreClean` uses what the cleaner promises, and
`Pipeline.FreshRecordFromFetchers` says where each field of a fresh record
comes from.

Under `re.search`, the storage size is the leftmost `\d+\s*GB`. In a
typical requirements text the memory line ("8 GB RAM") comes before the
storage line, so the extracted "storage" is often the memory size. The model
keeps this, as the code does.

The code and its description differ in one place. The description says a
malformed catalog reply means "no match". In the code, a catalog entry
without `name` or `appid` raises an uncaught `KeyError`. The model follows
the code: only well-formed replies are inputs (see "Left out").

## Model

| member | source | states |
|---|---|---|
| Common.IntRoundTrip | game_dashboard.py:91-92 | `int(str(n)) == n`: the decimal key of an app id reads back as that id |
| Common.IntToDecimalInjective | game_dashboard.py:91-92 | different app ids render to different strings, so `str(app_id)` selects only the requested entry |
| Common.JoinPath | game_dashboard.py:209 | `os.path.join` puts a backslash between directory and name unless the directory is empty, a bare drive or ends in a separator; the result starts with the directory and ends with the name |
| Common.JoinKeepsSuffix | game_dashboard.py:166-167 | the joined path still ends, case-insensitively, with whatever the file name ended with |
| NameCleaner.CloseIndex | game_dashboard.py:37 | the lazy `.*?` ends at the first `]`, with no `]` or line break before it |
| NameCleaner.StripBrackets | game_dashboard.py:37 | the tag substitution never lengthens the text (what it removes is stated by the lemmas below) |
| NameCleaner.StripBracketsFree | game_dashboard.py:37 | after the tag substitution no `[` is followed by a `]` on the same line |
| NameCleaner.BracketFreeFixpoint | game_dashboard.py:37 | the tag substitution leaves text without tags unchanged |
| NameCleaner.StripBracketsPlain | game_dashboard.py:37 | text without `[` passes the tag substitution untouched, whatever follows |
| NameCleaner.TagBetween | game_dashboard.py:37 | one tag between plain texts is removed whole and nothing else changes |
| NameCleaner.StripVersionsFree | game_dashboard.py:38 | after the version substitution no `v` is followed by a digit |
| NameCleaner.VersionFreeFixpoint | game_dashboard.py:38 | the version substitution leaves text without version tokens unchanged |
| NameCleaner.StripVersionsBracketFree | game_dashboard.py:37-38 | removing version tokens cannot create a tag |
| NameCleaner.StripVersionsPlain | game_dashboard.py:38 | text without `v` passes the version substitution untouched, whatever follows |
| NameCleaner.ShortVersionCut | game_dashboard.py:38 | a `v` and one digit followed by text that does not continue the token is removed alone |
| NameCleaner.StripVersions | game_dashboard.py:38 | the version substitution never lengthens the text (what it removes is stated by the lemmas below) |
| NameCleaner.VersionInsideWord | game_dashboard.py:38 | the version pattern also cuts into words: "Dev2 Tycoon" becomes "De Tycoon" |
| NameCleaner.ReplaceDots | game_dashboard.py:39 | `replace('.', ' ')`: same length, each dot a space, every other character kept |
| NameCleaner.ReplaceDotsBracketFree | game_dashboard.py:37-39 | turning dots into spaces cannot create a tag |
| NameCleaner.Strip | game_dashboard.py:39 | `strip()` leaves no whitespace at either end, never lengthens the text, and leaves text without whitespace unchanged |
| NameCleaner.StripIsSlice | game_dashboard.py:39 | `strip()` returns a slice of its input, and everything cut off on either side is whitespace |
| NameCleaner.StripFixpoint | game_dashboard.py:39 | text that starts and ends with a non-space is its own `strip()` |
| NameCleaner.CleanGameName | game_dashboard.py:35-40 | the cleaned name has no `.`, no leading or trailing whitespace, no bracketed tag and no version token |
| NameCleaner.CleanIdempotent | game_dashboard.py:35-40 | cleaning a cleaned name changes nothing |
| NameCleaner.CleanExample | game_dashboard.py:35-40 | "Cool.Game.[FLT].v1.2.3" cleans to "Cool Game" |
| CatalogMatcher.NormalChars | game_dashboard.py:49 | one character of `lower()` then `[^a-z0-9]` removal: an ASCII capital becomes its lower-case letter, a character of `[a-z0-9]` is kept, every other character except the two non-ASCII ones that lower-case into `[a-z]` is removed |
| CatalogMatcher.Normalize | game_dashboard.py:49 | the normalised string holds only `[a-z0-9]` |
| CatalogMatcher.NormalizeIdempotent | game_dashboard.py:49-53 | normalising twice is normalising once |
| CatalogMatcher.NormalizeAppend | game_dashboard.py:49-53 | normalisation works character by character: it distributes over concatenation |
| CatalogMatcher.ContainsIff | game_dashboard.py:56 | `q in t` holds exactly when `q` occurs in `t` at some offset |
| CatalogMatcher.ContainsChars | game_dashboard.py:56 | every character of a contained string occurs in the containing one |
| CatalogMatcher.FirstMatchIndex | game_dashboard.py:51-58 | the position found matches and no earlier entry does; none is found exactly when no entry matches |
| CatalogMatcher.FindAppId | game_dashboard.py:43-61 | the loop returns the id of the first matching entry, and no id on a failed download or when nothing matches |
| CatalogMatcher.MatchedAppId | game_dashboard.py:43-61 | no id on a failed download; otherwise no id exactly when no entry matches, and a found id is that of a matching entry with no match before it |
| CatalogMatcher.EmptyQueryMatchesFirst | game_dashboard.py:49-58 | a title that normalises to nothing matches the first entry of a non-empty catalog |
| CatalogMatcher.NoMatchNoId | game_dashboard.py:51-61 | a failed download or a catalog without a match gives no id |
| CatalogMatcher.HalfLifeExample | game_dashboard.py:49-58 | "Half-Life 2" is found by the query "halflife2" and not by "portal" |
| Fetchers.GetReview | game_dashboard.py:63-81 | "N/A", 0 for a falsy id; the description and `total_reviews` (0 when absent) only when `success == 1` and the description is non-empty; "No User Reviews", 0 for every other reply or a failed request |
| Fetchers.ReviewIgnoresReplyWithoutId | game_dashboard.py:64-65 | without a truthy id the reply cannot matter |
| Fetchers.ReviewCountNeedsSuccess | game_dashboard.py:72-78 | a non-zero review count comes only from a successful reply with a description, and it is that reply's `total_reviews` |
| Fetchers.MatchAtSound | game_dashboard.py:105 | what the scan finds at a position is a match of `\d+\s*GB` |
| Fetchers.MatchAtComplete | game_dashboard.py:105 | any match of `\d+\s*GB` at a position is the one the scan finds there |
| Fetchers.StorageSearch | game_dashboard.py:105 | `re.search` returns a match with no match starting further left, or nothing when no position has a match |
| Fetchers.StorageIn | game_dashboard.py:105-107 | a storage size found is a match of `\d+\s*GB` |
| Fetchers.StorageInLeftmost | game_dashboard.py:105-107 | the storage size is the leftmost match, and it is absent exactly when the pattern matches nowhere |
| Fetchers.StorageRequirement | game_dashboard.py:101-107 | "N/A" unless `pc_requirements` is an object with a `minimum`; then "N/A" exactly when the pattern matches nowhere in it, and otherwise the leftmost match |
| Fetchers.StorageExample | game_dashboard.py:105-107 | "Storage: 50 GB available space" yields "50 GB" |
| Fetchers.NoGigabytesNoStorage | game_dashboard.py:105-107 | text without a `G` has no storage size |
| Fetchers.TokenEndsWithGB | game_dashboard.py:105 | a match ends with "GB" |
| Fetchers.GenreNames | game_dashboard.py:94 | one genre description per genre, in reply order |
| Fetchers.FullPaths | game_dashboard.py:96 | one `path_full` per screenshot, in reply order |
| Fetchers.DetailsOf | game_dashboard.py:92-110 | the release date, "N/A" without `release_date` or `date`; the short description, "" when absent; the genres and screenshots as listed; a video exactly when there is a first movie, and it is that movie's `mp4.max`; storage is `StorageRequirement` of `pc_requirements` |
| Fetchers.GetDetails | game_dashboard.py:83-113 | the neutral tuple for a falsy id, a failed request or an entry that is missing or not successful; otherwise the details of the entry under `str(app_id)` |
| Fetchers.DetailsIgnoreReplyWithoutId | game_dashboard.py:84-85 | without a truthy id the reply cannot matter |
| Fetchers.DetailsReadOwnEntry | game_dashboard.py:91-92 | entries for other ids never change the details |
| Fetchers.DetailsKeepOrder | game_dashboard.py:94-96 | genres and screenshots keep reply order and count |
| Fetchers.GetGameCover | game_dashboard.py:115-155 | the header image for a truthy id whose probe answered 200; otherwise nothing without an API key, else the first grid image of the first search hit |
| Fetchers.CoverOrigin | game_dashboard.py:115-155 | a cover is the header image of a truthy id or the first grid image of the first search hit with a key configured |
| InstallerLocator.LargestIndex | game_dashboard.py:161-174 | the chosen file is a readable `.exe`, as large as every readable `.exe` and strictly larger than every earlier one; there is none exactly when no readable `.exe` exists |
| InstallerLocator.Installer | game_dashboard.py:157-178 | nothing for a non-directory; for a directory nothing exactly when no readable `.exe` exists, and a found path is that of a readable `.exe` |
| InstallerLocator.FindInstaller | game_dashboard.py:157-178 | the loop with `max_size = -1` returns the path of the file `LargestIndex` chooses, and `None` for a non-directory |
| InstallerLocator.InstallerIsLargestExe | game_dashboard.py:157-178 | a found installer is a path ending in ".exe" in any case, of a readable file at least as large as every readable `.exe`, the first such file in walk order |
| InstallerLocator.LargestIndexUnique | game_dashboard.py:164-172 | the first file of maximal size is the one chosen |
| InstallerLocator.WalkOrderIrrelevant | game_dashboard.py:164-172 | when readable `.exe` sizes are distinct, the walk order does not change the installer |
| InstallerLocator.UnreadableIgnored | game_dashboard.py:168-174 | removing a file whose size raised `OSError` leaves the installer unchanged |
| InstallerLocator.NoReadableExeNoInstaller | game_dashboard.py:157-178 | no installer for a folder whose `.exe` files are all unreadable |
| Genres.StrLessIrreflexive | game_dashboard.py:258 | Python's string `<` is irreflexive |
| Genres.StrLessTransitive | game_dashboard.py:258 | Python's string `<` is transitive |
| Genres.StrLessTotal | game_dashboard.py:258 | any two different strings are ordered one way or the other |
| Genres.StrLessAsymmetric | game_dashboard.py:258 | Python's string `<` is asymmetric |
| Genres.Insert | game_dashboard.py:258 | adding a genre keeps the list strictly sorted and adds exactly that genre |
| Genres.SortedUnique | game_dashboard.py:258 | `sorted(set(xs))` is strictly sorted and holds exactly the elements of `xs` |
| Genres.Flatten | game_dashboard.py:258 | the generator yields exactly the genres of the listed games |
| Genres.AllGenres | game_dashboard.py:258 | `all_genres` is strictly sorted and holds exactly the genres some listed game has |
| Genres.SortedListingUnique | game_dashboard.py:258 | a set of strings has exactly one strictly sorted listing |
| Genres.AllGenresDependsOnlyOnGenres | game_dashboard.py:258 | reordering games or repeating a genre leaves `all_genres` unchanged |
| Pipeline.GameItems | game_dashboard.py:199-203 | the kept items are exactly the listed folders and `.rar`/`.zip` names, in any case |
| Pipeline.GameItemsAppend | game_dashboard.py:199-203 | filtering a listing is filtering each part and concatenating: the kept items keep listing order |
| Pipeline.GameItemsSingle | game_dashboard.py:202-203 | a single entry is kept exactly when it is a folder or a `.rar`/`.zip` name |
| Pipeline.SelectGameItems | game_dashboard.py:199-203 | the filtering loop builds `GameItems` of the listing |
| Pipeline.GameItemsKeepsAll | game_dashboard.py:199-203 | a listing of game items only is kept whole and in order |
| Pipeline.GameItemsIdempotent | game_dashboard.py:199-203 | filtering twice is filtering once |
| Pipeline.Truncate | game_dashboard.py:205-206 | a prefix of the items; everything for `None` or 0; at most `limit` for a positive limit; all but the last `-limit` for a negative one |
| Pipeline.SplitExt | game_dashboard.py:212 | root and extension put together give the name, and the extension is empty or starts with `.` |
| Pipeline.LastDot | game_dashboard.py:212 | the position of the last `.`, or none when there is no `.` |
| Pipeline.SplitExtParts | game_dashboard.py:212 | root and extension put together give the name; the extension is empty or a `.` followed by dot-free text |
| Pipeline.SplitExtEmptyIff | game_dashboard.py:212 | the extension is empty exactly when no `.` follows a non-dot character |
| Pipeline.LastDotOfExtension | game_dashboard.py:202-212 | a name ending in ".rar" or ".zip", in any case, has its last dot four characters from the end |
| Pipeline.ArchiveLosesExtension | game_dashboard.py:211-214 | an archive is cleaned without its ".rar" or ".zip" |
| Pipeline.FolderName | game_dashboard.py:211-214 | the name to clean is a prefix of the item name, and the whole name for a folder |
| Pipeline.ReplaceSpaces | game_dashboard.py:236 | same length, each space a `+`, every other character kept |
| Pipeline.RestoreSpaces | game_dashboard.py:236 | same length, each `+` a space, every other character kept |
| Pipeline.SpacesRoundTrip | game_dashboard.py:236 | for a name without `+`, the search query decodes back to the name |
| Pipeline.SteamUrl | game_dashboard.py:232-236 | a truthy id gives a store link; otherwise a search link as long as prefix, name and suffix together |
| Pipeline.SteamUrlProps | game_dashboard.py:232-236 | the link has no space; a store link reads back as the app id; a search link is the prefix, the name with spaces as `+`, then "+game", and decodes back to a name without `+` |
| Pipeline.CoverOrDefault | game_dashboard.py:240 | a non-empty cover URL, the found one when it is non-empty and the default cover otherwise |
| Pipeline.FreshRecord | game_dashboard.py:225-251 | a fresh record carries the item's cleaned name, a link without spaces, a non-empty cover and review text, and for an archive its own path as installer |
| Pipeline.FreshRecordFromFetchers | game_dashboard.py:226-251 | the link is `SteamUrl` of the catalog match for the cleaned name, the store page when that id is truthy; the cover, review and details fields are those the three fetchers give for that id; a folder's installer is `find_installer` of its path |
| Pipeline.ScanOfBuildsNamed | game_dashboard.py:219-239 | the dashboard's scan builds exactly `FreshRecord`, so every fresh record carries its item's cleaned name |
| Pipeline.RecordFor | game_dashboard.py:219-230 | the cached record under the item's name when there is one, else a fresh one |
| Pipeline.FetchRecord | game_dashboard.py:225-251 | the fetching branch builds `FreshRecord` of the item |
| Pipeline.GamesFor | game_dashboard.py:208-254 | one record per processed item, in item order: the cached one under its name, else a fresh one |
| Pipeline.CacheFor | game_dashboard.py:219-253 | the new cache has at most one name per processed item |
| Pipeline.ProcessItems | game_dashboard.py:208-254 | the loop ends with `games_list == GamesFor` and `new_cache == CacheFor` of the processed items |
| Pipeline.ScanStep | game_dashboard.py:219-253 | one more item appends its record and stores it under its name |
| Pipeline.GamesSnoc | game_dashboard.py:222-252 | one more item appends its record to the listing |
| Pipeline.CacheSnoc | game_dashboard.py:221-253 | one more item stores its record under its name |
| Pipeline.CacheKeys | game_dashboard.py:194-253 | the new cache's names are exactly the cleaned names of the processed items, so names no longer on disk drop out |
| Pipeline.CacheLastWins | game_dashboard.py:221-253 | under a name shared by several items the cache holds the record of the last one |
| Pipeline.CacheCarriesOver | game_dashboard.py:219-223 | a name already cached keeps its cached record unchanged, with nothing fetched |
| Pipeline.LastWithKey | game_dashboard.py:208-253 | some item with a given name is the last one with that name |
| Pipeline.CacheWellKeyed | game_dashboard.py:219-253 | when every cached record is stored under its own name and fresh records carry their item's name, every record of the new cache is stored under its own name |
| Pipeline.SecondScanIsStable | game_dashboard.py:208-256 | rescanning the same items over the cache just written, with the same cleaner and any builder (any replies), writes the same cache back and lists the cached records |
| Pipeline.AllCachedRebuild | game_dashboard.py:219-223 | when every item's name is cached and nothing else is, the rebuilt cache equals the old one |
| Pipeline.AllCachedListing | game_dashboard.py:219-222 | when every item's name is cached, the listing is the cached records in item order |
| Pipeline.CachedGames | game_dashboard.py:186-189 | `list(cache.values())` holds each cached record once per name |
| Pipeline.ListingCoversCache | game_dashboard.py:189 | that listing holds every cached record and nothing else |
| Pipeline.GenresOf | game_dashboard.py:258 | `all_genres` of the listing is strictly sorted and holds exactly the genres some listed game has |
| Pipeline.SyncScan | game_dashboard.py:191-254 | filter, limit and loop give `GamesFor` and `CacheFor` of the scanned items under the dashboard's cleaner |
| Pipeline.Index | game_dashboard.py:182-260 | cache-only lists the cache and saves nothing; a missing games directory gives the 404 message; sync mode lists `GamesFor`, saves `CacheFor`; `all_genres` is always that of the listed games |
| Pipeline.LimitBoundsCache | game_dashboard.py:205-256 | with a positive limit the saved cache has at most `limit` names, each that of a listed game item |
| Pipeline.CacheNamesFromListing | game_dashboard.py:199-253 | every name of the new cache is the cleaned name of a listed game item |
| Pipeline.ListedNames | game_dashboard.py:219-252 | over a well-keyed cache, with fresh records named after their items, each listed record carries its item's cleaned name |
| Pipeline.DashboardNamesAreClean | game_dashboard.py:216 | every name of the new cache has no `.`, tag, version token or surrounding whitespace |

## Left out

- Network access (`requests.get`/`requests.head`) is not modelled; each reply is an input value, and `None` stands for an exception or a non-2xx status. The same catalog reply is used for every `get_steam_app_id` call of one page load, while the code downloads the catalog again for each call.
- Replies whose shape the code does not expect are left out: a catalog entry without `name`, a genre without `description`, a movie without `mp4.max` and the like raise an uncaught `KeyError` or `TypeError` in the code. App ids and review counts are integers; JSON floats are not modelled.
- `load_cache`/`save_cache` are file I/O. The cache is an input, and the cache written is the `savedCache` of the response. A malformed cache file (an uncaught `JSONDecodeError`) is not modelled.
- `install_game` (`os.startfile`), the Flask app, `render_template`, `argparse`, `webbrowser`, `Timer` and every `print` are not modelled. `url_for` for the default cover is the constant `/static/default_cover.png`.
- `os.walk` is a flat list of (directory, file name, size) entries in walk order. How the walk orders and nests directories is not modelled.
- Pipeline.CachedGames: lists the cached records in an unspecified order of names, where Python lists them in dict insertion order; dict order is not modelled, since the cache is a `map`.
- Common.IsDigit: `\d` is ASCII `0-9`. Python's `\d` on `str` also matches other Unicode decimal digits.
- CatalogMatcher.NormalChars: `lower()` is modelled for ASCII letters plus the only two other characters that lower-case into `[a-z0-9]`. Other case mappings change no result because they are removed anyway.
- Common.EndsWithIgnoringCase: only ASCII letters are lowered. This is exact for the suffixes ".exe", ".rar" and ".zip", because no other character lower-cases to text ending in one of them.
- Common.JoinPath: models `ntpath.join` for a name without separator or drive, as `os.listdir` and `os.walk` produce. UNC roots and the POSIX `posixpath.join` are not modelled.
- Pipeline.SplitExt: models `os.path.splitext` for a name without separators, which is what `os.listdir` yields.
- `get_steam_app_id` prints the match; logging is dropped everywhere.
- Pipeline.Remote: reviews, details, cover probes and walks are functions fixed for one page load, so two fresh items with the same app id, name or path get the same replies, where the code makes a new request for each.
- A `GAMES_DIR` that exists but is not a directory makes `os.listdir` raise in the code; the model treats an existing games directory as a directory.
- Pipeline.CacheFor: the cache is a `map`, so the insertion order of `new_cache` is not modelled: neither the key order of the saved JSON nor the order in which cache-only mode lists it.
