# steam-screenshots, modelled in Dafny

steam-screenshots is a small Go web server. It lists the Steam screenshot directories it
finds, serves the images and thumbnails, shows the game name for each appid, and accepts
uploads from whitelisted hosts. This project models the logic of the server's core files
and proves what each part promises:

- `image.go`: the image-dimension store `ImageData` (two parallel slices plus a cursor),
  the line format `Save` writes, and how `parseLine` and `LoadCachedImageData` read it back
  (module `Images`, file `image.dfy`).
- `gamelist.go`: the appid-to-name table `GameList` and how `LoadGameList` treats a
  missing file (module `GameLists`).
- `datatree.go`: the screenshot tree `DataTree`, replaced wholesale (module `DataTrees`).
- `handlers.go`: `SortKeysByValue`, the case-insensitive order `StringSliceNoCase`, the
  every-third "clearme" rule, and how the thumbnail, image and banner handlers take their
  request paths apart (modules `Handlers` and `KeyOrder`).
- `main.go`: `SliceContains`, `GetKeys`, the directory selection of `discover`, and the
  steamdb name cache of `getGameName` (module `Discovery`).
- `server.go`: `loadSettings`, the throttled refresh `updateGamesJson` with its override
  order, and `getGameName` (module `ServerCore`).
- `api.go`: the request check `checkApiKey` (module `Api`).

Module `Strings` states the parts of Go's `strings`, `strconv`, `sort` and `path/filepath`
that these files use. Module `Results` holds `Option` and `Result`.

The two generations of the program (`package main` and `package steamscreenshots`) are
modelled file by file, each on its own. The outside world enters only as inputs:

- file contents and glob results;
- the clock;
- the Steam and steamdb HTTP responses;
- `net.SplitHostPort`, `net.ParseIP` and `net.LookupHost`, passed as functions.

Code that mutates state keeps that form in the model:

- `ImageData`, `GameList`, `DataTree` and the servers are classes whose methods update
  their fields;
- the source's loops are `while` loops, each proved against a specification function.

## Model

| member | source | states |
|---|---|---|
| Images.ImageData.constructor | image.go:39-45 | `NewImageData`: an empty store that satisfies the length invariant, with the cursor at 0 |
| Images.ImageData.Length | image.go:95-97 | counts the paths alone, without checking the invariant |
| Images.ImageData.GetByIndex | image.go:83-93 | `MismatchError` when the slices differ in length; index-out-of-range when `idx >= Length()`; otherwise the entry at `idx` |
| Images.ImageData.Add | image.go:99-107 | `MismatchError` and no change when the invariant is broken. Otherwise: appends at the end, duplicates allowed; length grows by one; `GetByIndex(old length)` is the new entry; every earlier entry is unchanged |
| Images.ImageData.GetByPath | image.go:69-81 | `MismatchError` when the invariant is broken; otherwise the dimensions of the first entry with that path, or not-found when no key matches |
| Images.ImageData.Remove | image.go:109-134 | `MismatchError` and no change when the invariant is broken. Otherwise: drops every entry with that path and keeps the others in order; returns the last dropped entry; with no match, returns nothing, reports no error and changes nothing |
| Images.FilterPath | image.go:117-129 | the rebuild loop of `Remove`: the kept entries are `Without(entries, path)`, and the entry returned is `LastEntry`, the entry of the last key equal to `path` |
| Images.Without | image.go:120-126 | the entries kept by `Remove`: none has the removed path, and there are no more of them than before |
| Images.FilterPathDone | image.go:117-133 | what the rebuild loop holds once every key has been seen |
| Images.RemoveStep | image.go:120-128 | one round of the rebuild loop: a matching key is dropped and becomes the last match; any other key is kept |
| Images.LastEntryStep | image.go:121-124 | the entry recorded as removed is the latest match |
| Images.WithoutAbsent | image.go:109-134 | removing a path that no entry has changes nothing |
| Images.WithoutConcat | image.go:120-129 | removal works entry by entry, so it distributes over concatenation |
| Images.WithoutIdempotent | image.go:109-134 | removing the same path twice equals removing it once |
| Images.WithoutKeeps | image.go:120-129 | every entry with another path survives removal |
| Images.ImageData.Next | image.go:136-147 | `MismatchError` when the invariant is broken. Otherwise: the entry under the cursor, and the cursor advances by one; `NoMoreImages` with the cursor unchanged once it reaches `Length()` |
| Images.ImageData.Merge | image.go:47-67 | `MismatchError` and no change when either store breaks the invariant. Otherwise: `n`'s entries follow this store's own, in `n`'s order; the lengths add; `n` is unchanged (merging a store into itself doubles it) |
| Images.ParseLine | image.go:231-248 | accepts exactly three tab-separated fields whose width and height are decimals below 2^32, and then gives field 0 as the path and the decimal values of fields 1 and 2 as width and height. The fields join back to the line. Fewer or more fields give the malformed-line error; then a bad width is reported with the width field, and a bad height with the height field |
| Images.ParseLineAsWritten | image.go:242-245 | `parseLine` as written: it agrees with the intended parser except that its height error quotes the width field |
| Images.HeightErrorQuotesWidth | image.go:244 | for the line `a\t1\tx`, the code as written names `1` as the invalid height, where the intended parser names `x` |
| Images.ParseSavedLine | image.go:231-248 | for a path without a tab and dimensions in [0, 2^32), parsing the line `Save` writes gives the same entry back (also image.go:257-258) |
| Images.NegativeDimensionRefused | image.go:258 | a negative width or height is written with a minus sign, and `parseLine` then refuses the line (also image.go:237-245) |
| Images.ReadString | image.go:158 | `ReadString('\n')`: the next line with its newline, or the rest without one together with EOF (also image.go:180) |
| Images.ReadStringLine | image.go:158 | a line ending in its first newline is read whole, and the rest is left unread (also image.go:180) |
| Images.LoadFromStep | image.go:159-181 | one round of the load loop: a blank line spins, a malformed one fails the load, a good one is added and the next line read |
| Images.LoadCachedImageData | image.go:149-189 | agrees with `LoadSpec` over the file's text (an unopenable file fails; otherwise `LoadFrom`, the loop as written, runs from the first line read); returns a store exactly when the outcome is `Loaded`, and that store is fresh, valid, has its cursor at 0 and holds the loaded entries |
| Images.LoadFromPrefix | image.go:159-181 | saved lines are consumed one after another, adding their entries in order (also image.go:257-258) |
| Images.LoadSavedText | image.go:149-189 | the loader reads back what `Save` wrote, and ignores text after the last newline (also image.go:257-258) |
| Images.LoadAfterSave | image.go:250-265 | loading the text `Save` writes for a store (`ImageData.SaveText`: one `SavedLine` per stored path, in order) gives its entries back, in order (also image.go:149-189) |
| Images.BlankLineSpins | image.go:161-164 | a blank line after any saved lines makes the loader as written spin forever |
| Images.MalformedLineFails | image.go:169-171 | a malformed line after any saved lines fails the whole load, carrying the parse error (also image.go:183-185) |
| Images.LoadTolerant | image.go:160-172 | the loader as its comments describe it: a readable file always loads |
| Images.TolerantAgrees | image.go:149-189 | wherever the loader as written loads, the corrected one gives the same entries |
| Images.TolerantSkipsBlank | image.go:160-164 | the corrected loader skips a blank line between saved lines and keeps every entry |
| Images.TolerantSkipsMalformed | image.go:166-172 | the corrected loader skips a malformed line between saved lines and keeps every entry |
| Images.LoadTolerantFrom | image.go:160-181 | the corrected loop always loads, and the entries it returns start with those already added |
| Images.TolerantPrefix | image.go:159-181 | the corrected loader consumes saved lines as the loader as written does |
| Images.SavedLineShape | image.go:258 | the line `Save` writes for an entry (`SavedLine`: path, width, height, tab-separated; `Lines` puts a newline after each) holds no newline and is left alone by `TrimSpace` (also image.go:161) |
| Images.Zip | image.go:28-33 | the i-th path paired with the i-th dimensions |
| Images.LastIndexOf | image.go:120-124 | the last position of a value, with no later occurrence |
| Images.FirstIndex | image.go:74-78 | the first position of a value |
| GameLists.GameList.Get | gamelist.go:58-66 | the stored name when `id` is present, otherwise `id` itself |
| GameLists.GameList.Set | gamelist.go:68-74 | stores or overwrites `val` under `id` and returns `val`; every other id keeps its name |
| GameLists.GameList.Update | gamelist.go:76-83 | copies every pair of `list` in, one key at a time: `list` wins on shared keys, and keys outside `list` keep their names |
| GameLists.Overlay | gamelist.go:80-82 | the keys of the result are those of both maps; `list`'s names win |
| GameLists.GameList.GetMap | gamelist.go:85-94 | a copy, built key by key, equal to the current table |
| GameLists.GameList.Length | gamelist.go:96-101 | the number of distinct ids stored |
| GameLists.SetLength | gamelist.go:68-74 | a `Set` on a new id grows the table by one; on a stored id the size stays (also gamelist.go:96-101) |
| GameLists.CachedName | gamelist.go:58-66 | `Get(id)` differs from `id` exactly when a different name is stored for it |
| GameLists.LoadGameList | gamelist.go:20-45 | a missing file gives an empty table bound to `filename` and no error; any other open or decode failure gives no table and an error; otherwise the decoded table |
| DataTrees.DataTree.constructor | datatree.go:12-17 | `NewDataTree`: the tree starts with nil data |
| DataTrees.DataTree.GetKeys | datatree.go:19-34 | nil exactly when the data is nil. Otherwise every key once, and nothing else; an empty map gives an empty, non-nil list |
| DataTrees.DataTree.Update | datatree.go:36-41 | the new map replaces the old one wholesale |
| Handlers.CollectValues | handlers.go:22-25 | the first loop: one value per key, in the map's iteration order |
| Handlers.AppendKeysWithValue | handlers.go:30-34 | the inner loop: appends exactly the keys whose value is `s`, in the map's iteration order |
| Handlers.AppendBlocks | handlers.go:28-35 | the outer loop: for each sorted value, in order, the block of keys carrying it |
| Handlers.SortKeysByValue | handlers.go:21-38 | every result is a key, and every key appears. Values are non-decreasing along the result. A key appears as often as keys share its value; with distinct values the result is a permutation of the keys |
| KeyOrder.ValuesIn | handlers.go:22-25 | the values of the given keys, in that order |
| KeyOrder.KeysWithValue | handlers.go:30-34 | only keys with value `v` are selected |
| KeyOrder.KeysWithValueNext | handlers.go:30-34 | one more key appends itself exactly when its value is `v` |
| KeyOrder.KeysWithValueOnce | handlers.go:30-34 | over distinct keys, each key with value `v` is selected once and every other key never |
| KeyOrder.ValuesMultiplicity | handlers.go:22-25 | the collected values hold `v` as often as keys carry it |
| KeyOrder.MultiplicityRemove | handlers.go:22-25 | removing a key lowers the count of its own value by one |
| KeyOrder.DistinctOnce | handlers.go:30-34 | in a list without repetitions each member occurs once |
| KeyOrder.BlocksStart | handlers.go:28 | before the outer loop nothing is built |
| KeyOrder.BlockCounts | handlers.go:29-35 | a block adds one occurrence of each key carrying the value |
| KeyOrder.BlockOrder | handlers.go:27-35 | over sorted values, each block sorts after everything before it |
| KeyOrder.ConcatOrdered | handlers.go:29-35 | keys ordered by value, followed by keys that all carry a value no smaller, stay ordered |
| KeyOrder.BlockStep | handlers.go:29-35 | one round of the outer loop keeps what is built well-formed |
| KeyOrder.BlockStepIf | handlers.go:29-35 | `BlockStep`, with its conditions as a hypothesis |
| KeyOrder.BlocksNext | handlers.go:29-35 | one more round appends the block of the next value |
| KeyOrder.SortedAdjacent | handlers.go:27 | a sorted list has each value no greater than the next |
| KeyOrder.BlocksInvariant | handlers.go:27-35 | the outer loop's output over sorted values is well-formed at every round |
| KeyOrder.BlocksCount | handlers.go:21-38 | once every value is handled, every key appears, as often as keys share its value |
| KeyOrder.BlocksPermutation | handlers.go:21-38 | with distinct values, every key appears once and the length is the map's size |
| KeyOrder.BlocksFinal | handlers.go:21-38 | the postcondition of `SortKeysByValue`, from what the outer loop built |
| KeyOrder.MultiplicityWithin | handlers.go:22-25 | no value is carried by more keys than the map has |
| Handlers.NoCaseIrreflexive | handlers.go:18 | `Less(i, i)` never holds |
| Handlers.NoCaseTransitive | handlers.go:18 | `Less` is transitive |
| Handlers.NoCaseUnordered | handlers.go:18 | two positions are unordered exactly when their lower-cased texts are equal, so `sort.Sort` sees a strict weak order |
| Handlers.NoCaseIgnoresCase | handlers.go:18 | `Less`, modelled by `NoCaseLess` as Go's `<` on the lower-cased names, leaves texts that differ only in the case of ASCII letters unordered |
| Handlers.Swap | handlers.go:19 | exchanges positions i and j and nothing else, so it permutes the slice |
| Handlers.ClearClass | handlers.go:75-79 | " clearme" exactly when the index is divisible by 3, and "" otherwise (also handlers.go:116-120) |
| Handlers.ClearedAmongCount | handlers.go:73-87 | of the first n items, (n + 2) / 3 carry the class (also handlers.go:115-128) |
| Handlers.ClearStartsRow | handlers.go:75-79 | each row of three starts with its one cleared item (also handlers.go:116-120) |
| Handlers.Segments | handlers.go:139 | at least one segment, and no segment holds a slash (also handlers.go:156, handlers.go:172) |
| Handlers.ThumbPath | handlers.go:138-153 | a split error carrying the segments unless the path has exactly three; otherwise `<root>/<dir>/screenshots/thumbnails/<file>` as the parts given to `filepath.Join` |
| Handlers.ImagePath | handlers.go:155-169 | a split error carrying the segments unless the path has exactly three; otherwise `<root>/<dir>/screenshots/<file>` |
| Handlers.SegmentsOfLink | handlers.go:139 | splitting `/` + a join of slash-free parts gives the parts back |
| Handlers.LinkSegments | handlers.go:82-83 | `/<prefix>/<dir>/<file>` splits into those three segments (also handlers.go:139) |
| Handlers.ThumbLinkServed | handlers.go:83 | the thumbnail link of the list page names that directory's thumbnail file (also handlers.go:138-150) |
| Handlers.ImageLinkServed | handlers.go:82 | the image link of the list page names that directory's screenshot (also handlers.go:155-166) |
| Handlers.BannerAppidBase | handlers.go:179-182 | the segment cut before its last "."; unchanged without a "." |
| Handlers.BannerBaseOfName | handlers.go:179-182 | only the last extension is cut; dots in the name stay |
| Handlers.BannerAppid | handlers.go:171-189 | the appid of a banner path: a split error carrying the segments unless there are two; the placeholder when the base name does not parse as a 64-bit unsigned decimal; otherwise that parsed value, below 2^64 |
| Handlers.BannerRequest | handlers.go:171-191 | handler_banner as intended: a split error exactly when the path lacks two segments, the placeholder exactly when the appid does not parse, otherwise the file `banners/<appid>.jpg` |
| Handlers.BannerRequestAsWritten | handlers.go:171-191 | handler_banner as written: serves a file exactly when the intended handler does, and agrees with it on every error and placeholder case; only the `%s`-formatted file name differs |
| Handlers.BannerSegments | handlers.go:172-182 | `/banner/<appid>.jpg` splits into two segments, and the appid text is cut from the second |
| Handlers.BannerRoundTrip | handlers.go:171-191 | the intended handler serves `/banner/<n>.jpg` from `banners/<n>.jpg`, for every n below 2^64 |
| Handlers.BannerAsWritten | handlers.go:191 | as written, `/banner/<n>.jpg` is looked up as `banners/%!s(uint64=<n>).jpg` |
| Handlers.BannerVerbMismatch | handlers.go:191 | as written, the banner of appid 570 is looked up as `banners/%!s(uint64=570).jpg` |
| Handlers.BannerIntended | handlers.go:191 | the intended handler looks it up as `banners/570.jpg` |
| Discovery.SliceContains | main.go:87-94 | true exactly when `val` occurs in `s` (also server.go:197-204) |
| Discovery.GetKeys | main.go:96-103 | every key of the map exactly once, and nothing else |
| Discovery.Found | main.go:68-77 | the `.jpg` matches followed by the `.png` matches; a failed glob adds nothing |
| Discovery.Record | main.go:64-81 | an entry whose base name has no leading dot and that holds an image is stored under its base name; any other entry changes nothing |
| Discovery.DiscoverNext | main.go:63-82 | one more entry examined is one more `Record` |
| Discovery.Discover | main.go:53-85 | a failed root glob is an error; otherwise the map `DiscoverSpec` builds by applying `Record` to each entry in order, a later entry winning (main.go:62-81) |
| Discovery.DiscoverAt | main.go:79-81 | the last entry sets a name exactly when it is recorded under it, and keeps it otherwise |
| Discovery.DiscoverKeys | main.go:63-82 | a name is a key exactly when some examined entry is recorded under it |
| Discovery.DiscoverFrom | main.go:63-82 | an entry recorded under a name puts the name among the keys |
| Discovery.DiscoverValue | main.go:63-82 | the list stored under a key is the image list of the last entry recorded under it |
| Discovery.LastRecordedExtend | main.go:63-82 | an entry not recorded under a name leaves that name's last recorded entry in place |
| Discovery.DiscoverWellFormed | main.go:63-82 | no key starts with a dot, and every stored list is non-empty |
| Discovery.GameNames.GetGameName | main.go:138-180 | ".stfolder" as given; a cached name with no fetch and no change. Otherwise a scraped name is the unquoted match when `strconv.Unquote` succeeds and the HTML-unescaped match when it fails. It is stored under the appid and a failed save is reported; with a nil table the store panics (`NilMapWrite`) and nothing changes. A failed fetch, read or match returns the appid with that error and changes nothing |
| Discovery.GameNames.Cached | main.go:142-144 | the name cached for the appid exactly when the table is non-nil and holds the appid; a nil table caches nothing |
| Discovery.NilTablePanics | main.go:166 | with the nil table `loadGames` leaves when `games.json` is missing or holds `null` (main.go:124-135), the first scraped name panics |
| ServerCore.ClampRefresh | server.go:233-235 | the refresh interval is at least 1, and an interval of 1 or more is kept |
| ServerCore.Server.LoadSettings | server.go:220-240 | a read or decode failure is an error and changes nothing. Otherwise the settings are stored with the interval clamped, and the name table comes from `games.cache`. A missing cache gives an empty table; a broken cache gives an error and no table |
| ServerCore.SetAll | server.go:295-303 | setting pairs in order adds exactly their ids to the table |
| ServerCore.SetAllNext | server.go:295-303 | one more `Set` extends the sequence of sets |
| ServerCore.SetAllLast | server.go:295-303 | the last pair that sets an id decides its name |
| ServerCore.SetAllUntouched | server.go:295-303 | an id no pair sets keeps its name, or stays absent |
| ServerCore.AppPairs | server.go:295-298 | each fetched app as its decimal appid and its name |
| ServerCore.OverridePairs | server.go:300-303 | each override as its appid and name |
| ServerCore.OverridesWin | server.go:295-303 | an override wins over any fetched name, being set after it |
| ServerCore.FetchedNameKept | server.go:295-298 | without an override, the last fetched name of an appid is kept |
| ServerCore.RefreshKeepsIds | server.go:295-303 | a refresh never forgets an id |
| ServerCore.Server.UpdateGamesJson | server.go:266-319 | nothing happens while the last refresh is under 30 minutes old (`Throttled`). Otherwise the refresh time is stamped; a failed fetch, read or decode is reported; a fetched list sets every fetched name, then every override (`Refreshed`), and a failed save is reported. `UpdateOutcome` and `UpdatedGames` name the error and the table this leaves |
| ServerCore.Server.GetGameName | server.go:242-264 | ".stfolder" as given, consulting nothing. Then a cached name that differs from the appid. Then, for an uncached appid longer than 18 characters, the stored `NonSteamName`, "Non-Steam game (<appid>)" (server.go:254-256). Otherwise the refreshed name if the refresh succeeded and produced one, else the appid. The error is always nil |
| ServerCore.RefreshedNameFound | server.go:258-262 | an override that names an uncached appid differently makes the refreshed lookup find it |
| Api.Lookups | api.go:115-134 | the host names the loop resolves: entries that are not IP literals, up to the first that resolves to the host |
| Api.LookupsFrom | api.go:116-133 | one round of the resolution loop: IP literals are skipped, and the loop stops at a match |
| Api.NameResolvesFrom | api.go:116-133 | some entry from `i` on resolves to the host when entry `i` does or a later one does |
| Api.ResolveWhitelist | api.go:115-134 | `found` exactly when some non-IP entry resolves to the host, failed lookups skipped; the names looked up are `Lookups` |
| Api.LookupsEndOnMatch | api.go:115-134 | a resolving entry exists exactly when the last name looked up resolves to the host |
| Api.CheckApiKey | api.go:94-158 | accepts exactly when the whitelist is non-empty, the remote address splits, the host passes the address stage and the `api-key` header equals the configured key. The address stage is a literal match, a DNS match, or 127.0.0.1 forwarding a whitelisted `X-Real-Ip` |
| Api.RealIpOnlyFromLoopback | api.go:137-142 | the forwarded address matters only for requests from 127.0.0.1 |
| Api.LiteralHostResolvesNothing | api.go:110-115 | a host listed literally causes no DNS lookup |
| Strings.Split | image.go:232 | `strings.Split` on one character: one more part than separators, and no part holds the separator (also handlers.go:139) |
| Strings.SplitJoin | image.go:232 | splitting a join of separator-free parts gives the parts back (also image.go:258) |
| Strings.JoinSplit | image.go:232 | joining the parts of a split gives the string back (also image.go:247) |
| Strings.JoinThree | image.go:258 | a three-part join is the parts with the separator between them (also handlers.go:82-83) |
| Strings.Trim | handlers.go:139 | `strings.Trim` on one character |
| Strings.TrimLeading | handlers.go:139 | trimming removes a leading `/` and leaves a slash-free core alone |
| Strings.TrimSpaceOfLine | image.go:161 | `TrimSpace` strips the newline of a line that has no blank edges |
| Strings.TrimSpaceBlank | image.go:161-162 | a line holding only a newline trims to nothing |
| Strings.LastIndex | handlers.go:180 | -1 exactly when the character is absent; otherwise its last position |
| Strings.Base | main.go:64 | `filepath.Base`: never empty, and slash-free unless it is `/` (also main.go:80) |
| Strings.ParseUint | image.go:237 | `strconv.ParseUint` base 10: a non-empty digit string whose value is below 2^bitSize, with that value (also image.go:242, handlers.go:184) |
| Strings.FormatNat | image.go:258 | `%d` of a natural number: one or more digits (also server.go:296) |
| Strings.FormatInt | image.go:258 | `%d` of a negative number is a minus sign before its magnitude |
| Strings.DigitsValueFormat | image.go:258 | the digits `%d` writes have the number as value (also image.go:237) |
| Strings.ParseFormat | image.go:237-247 | parsing the decimal rendering of a number below the limit gives the number back (also image.go:258) |
| Strings.ParseRejectsNegative | image.go:237-245 | a negative number's rendering never parses as unsigned (also image.go:258) |
| Strings.LexLessIrreflexive | handlers.go:18 | Go's `<` on strings is irreflexive (also handlers.go:27) |
| Strings.LexLessTransitive | handlers.go:18 | Go's `<` on strings is transitive (also handlers.go:27) |
| Strings.LexLessTotal | handlers.go:18 | Go's `<` on strings is total (also handlers.go:27) |
| Strings.SortStrings | handlers.go:27 | `sort.Strings`: a sorted permutation of its input |
| Strings.Insert | handlers.go:27 | inserting into a sorted list keeps it sorted and adds exactly the inserted string |
| Strings.ToLower | handlers.go:18 | `strings.ToLower`, character by character |

## Left out

- I/O, the clock and the network are inputs. This covers file contents, glob results, the
  Steam app list and steamdb responses, `net.SplitHostPort`, `net.ParseIP` and DNS
  lookups. `ServeFile`, templates, gzip serving, the upload handler and static-files.go are
  not modelled.
- `sync.Mutex` and `sync.RWMutex` locking: every operation runs single-threaded.
- `ParseImages`, `readImage` (JPEG decoding) and `Dump` (printing) are not modelled. Of
  `Save`, only the text it writes is modelled (`ImageData.SaveText`); creating the file and
  its write errors are not.
- JSON encoding and decoding are not modelled: settings, games and the app list arrive
  already decoded. `ParseGames` (gamelist.go:47-56) is that decoding alone, so it is left
  out. A partial decode, where Go fills some fields before failing, counts as a failure.
- `getGameBanner`, the banner download and the `exists` check are not modelled. The banner
  handler is modelled up to the file name it looks up.
- `loadGames` (main.go:124-135) is file reading and JSON decoding, so it is not modelled as
  such. `Discovery.GameNames` starts from the table it leaves, with `None` for the nil map
  that remains when `games.json` is missing or holds `null`.
- The random API-key generation and `Run` are I/O and are not modelled.
- The per-game image cache (`GameImages`, `Scan`) is not part of this model.
- `discover` calls `loadSettings` (main.go:54) and ignores its result. The model takes the
  screenshot root's listing as input instead.
- The `SliceContains` of server.go is the same function as main.go's; `Discovery.SliceContains`
  models both.
- Strings are sequences of code points, not bytes. `Strings.ToLower` and `Strings.LowerChar`
  lower-case ASCII letters only, where Go's `strings.ToLower` handles all of Unicode.
- `Strings.Base` is `filepath.Base` for `/`-separated paths. Paths built for `filepath.Join` are modelled as the list of their
  parts, left uncleaned.
- `Strings.ParseUint`: does not say which error `strconv.ParseUint` reports (syntax or
  range), because no caller looks at the error's kind.
- `Images.ImageDimensions`: widths and heights are unbounded integers. Go's `int` on a
  64-bit target holds every value `parseLine` produces, so no wrap-around arises.
- `Images.LoadFrom` uses the corrected `parseLine` error message (quoting the height field).
  The carried error is the only place the two versions differ; see `Images.ParseLineAsWritten`.
- `ServerCore.Server.UpdateGamesJson`: `time.Since(...).Minutes() < 30` is modelled on
  integer nanoseconds (`now - lastUpdate < 30 minutes`). The float rounding of `Minutes()`
  is not modelled.
- Helper methods: `Images.FilterPath` is `Remove`'s rebuild loop, and `Handlers.CollectValues`,
  `Handlers.AppendBlocks` and `Handlers.AppendKeysWithValue` are the loops of
  `SortKeysByValue`. They are split out of their callers, and each runs the same steps in
  the same order.
- Go map iteration order is unspecified. Loops over a map pick their next key with
  `:|`, so the proofs hold for every order.

## Findings

| source | as written | input that shows it | evidently intended | confidence | as-written member | corrected member |
|---|---|---|---|---|---|---|
| image.go:161-164 | a blank line `continue`s without reading the next line, so the loop runs forever | a cache file whose text is `"\n"`, or any saved lines followed by an empty line | skip the blank line and read on ("Skip blank lines") | high; derived by proof, not executed | Images.BlankLineSpins | Images.TolerantSkipsBlank |
| image.go:169-185 | a malformed line leaves `err` set (lines 169-171), which ends the loop and fails the whole load (lines 183-185) | saved lines followed by the line `x` | skip the malformed line ("Skip malformed lines") | high; derived by proof, not executed | Images.MalformedLineFails | Images.TolerantSkipsMalformed |
| image.go:244 | the invalid-height message quotes `items[1]`, the width field | the line `a\t1\tx` reports invalid height `"1"` | quote `items[2]` | high; derived by proof, not executed | Images.HeightErrorQuotesWidth | Images.ParseLine |
| handlers.go:191 | `fmt.Sprintf("banners/%s.jpg", appid)` with a `uint64` appid gives `banners/%!s(uint64=570).jpg` | `handler_banner` given the path `/banner/570.jpg`; the defect is latent, because no route of the program reaches `handler_banner` (main.go:36-39 registers `/`, `/thumb/` and `/img/`, and server.go:116 has the banner route commented out) | `banners/570.jpg` (`%d`) | high; derived by proof, not executed | Handlers.BannerVerbMismatch | Handlers.BannerIntended |
