# go-pkgspy: cache, lookup and humaniser logic in Dafny

go-pkgspy is a small web server. It shows the name, version and author of
a fixed list of npm package identifiers. It looks each one up on the npm
registry and caches the results for 24 hours. This project models the
logic of `main.go` and proves properties of it:

- **SpecParser**: the identifier parser at the start of `fetchVersion`. It
  splits an identifier such as `@ng-select/ng-select/8.3.0` on `/` with
  Go's `strings.Split` semantics and returns a (package name, tag) pair by
  the source's three ordered branches.
- **Registry**: the rest of `fetchVersion` after the network exchange. A
  `Response` is either a failure of any network or decoding step, or the
  decoded top-level JSON object. Fields are extracted from that object: a
  string `version` is required, and `author.name` is best-effort.
- **Refresh**: the collection step of `refreshCache`. For each identifier,
  a lookup fills the slot with the same index in an array of zero-valued
  records. A loop then appends every slot with a non-empty name to
  `filtered`, in index order. `filtered` stays nil (`None`) when nothing was
  appended.
- **CacheStore**: the cache entry `{Data, ExpiresAt, LastUpdated}`, held by
  a `Store` object. `Read` is `getCachedData`: it serves the held data when
  `now < ExpiresAt` and the data is non-nil, and refreshes otherwise.
  `Refresh` is `refreshCache`: it replaces all three fields together.
  `ReadStep` and `ReadMany` give the same behaviour as pure functions, and
  the properties of repeated reads are proved on them.
- **Humanize**: `timeAgo`, on an elapsed time in nanoseconds. The decimal
  count and the singular or plural wording are modelled exactly. A parser for
  the phrase shows that each rendered phrase names exactly one bucket and
  one count.
- **PkgTypes**: the records `PackageInfo` (name, version, author) and
  `CacheEntry` (data, expiry, last update) of `main.go:17-27`, the decoded
  JSON values, and the constant durations. The configured identifier list of
  `main.go:38-42` is `SpecParser.Packages`.

The network, the clock and the lookup outcomes are parameters. `now` is an
integer count of nanoseconds, and one refresh reads the clock once. A
refresh receives one `Response` per configured identifier, in list order.

Two behaviours of the code are worth knowing:

- The snapshot keeps the slots whose `Name` is not empty
  (`main.go:176`). A lookup can succeed and still be dropped, when its
  identifier parses to an empty package name (for example `""` or
  `"/1.0"`).
- "Data is non-empty" in the freshness test means Go's "slice is not nil".
  Because `filtered` is nil when no record survived, an all-failure refresh
  makes every later read refresh again, before the expiry as well.

## Model

| member | source | states |
|---|---|---|
| `SpecParser.Split` | main.go:190 | Go's split on `/` yields one more piece than the identifier has separators, so never an empty slice |
| `SpecParser.SplitAround` | main.go:190 | splitting `a + "/" + b` gives the pieces of `a` followed by the pieces of `b` |
| `SpecParser.SplitPartsNoSlash` | main.go:190 | no piece of a split contains `/` |
| `SpecParser.JoinSplit` | main.go:190-200 | joining the pieces of a split with `/` rebuilds the identifier |
| `SpecParser.SplitJoin` | main.go:190-200 | splitting the `/`-join of non-empty runs of `/`-free pieces gives those pieces back, so join and split are inverse |
| `SpecParser.Parse` | main.go:189-206 | the parser never fails; the tag never contains `/`; an identifier without `/` is (itself, `"latest"`); any other identifier is `name/tag` followed by nothing or by a `/` |
| `SpecParser.ScopedBranch` | main.go:194-197 | an identifier that starts with `@` and has at least 3 pieces gets name `parts[0] + "/" + parts[1]` and tag `parts[2]` |
| `SpecParser.ExtraSegmentsIgnored` | main.go:194-197 | adding `/extra` to such an identifier does not change the parse |
| `SpecParser.LastSeparatorBranch` | main.go:198-201 | otherwise, an identifier that contains `/` gives `name + "/" + tag == pkg` with a `/`-free tag; this includes a two-piece scoped identifier such as `@scope/pkg` |
| `SpecParser.ScopedThree` | main.go:194-197 | a scoped identifier of exactly three `/`-free pieces `a/b/c` parses to (`a/b`, `c`) |
| `SpecParser.TwoPieces` | main.go:198-201 | an identifier of exactly two `/`-free pieces `a/b` parses to (`a`, `b`), also when `a` starts with `@` |
| `SpecParser.ConfiguredScoped` | main.go:40 | the configured `@ng-select/ng-select/8.3.0` parses to (`@ng-select/ng-select`, `8.3.0`) |
| `SpecParser.ConfiguredLatest` | main.go:39 | the configured `expr-eval/latest` parses to (`expr-eval`, `latest`) |
| `SpecParser.ConfiguredPinned` | main.go:41 | the configured `sweetalert2/11.10.1` parses to (`sweetalert2`, `11.10.1`) |
| `SpecParser.BareNameFallsBack` | main.go:202-205 | a bare `sweetalert2` is looked up at tag `latest` |
| `Registry.AuthorOf` | main.go:240-245 | the author is `author.name` when `author` is an object with a string `name`, and `""` in every other case |
| `Registry.ExtractInfo` | main.go:235-247 | extraction fails with "invalid version data" exactly when `version` is missing or not a string; on success the name is the parsed one, the version is copied as is, and the author is `author.name` when `author` is an object with a string `name`, otherwise `""` |
| `Registry.FetchVersion` | main.go:189-248 | a lookup yields a record exactly when the response was decoded and has a string version; a failed exchange is an error; the record carries the parsed name |
| `Registry.ExtractEncode` | main.go:235-247 | a response that carries a record's version and author is extracted back into exactly that record |
| `Registry.AuthorNeverFails` | main.go:240-245 | any value under `author` leaves extraction successful, with the same name and version |
| `Registry.OtherKeysIgnored` | main.go:235-247 | keys other than `version` and `author` do not affect extraction |
| `Refresh.Slot` | main.go:162-167 | a successful lookup stores its own record in the slot; a failed lookup leaves the zero value; a slot with a name came from a decoded response with a version and carries the parsed package name |
| `Refresh.Slots` | main.go:156-171 | there is one slot per identifier; slot `i` holds lookup `i`'s record when that lookup succeeded and is zero when it failed, and when named holds the parsed name of identifier `i` |
| `Refresh.Survivors` | main.go:174-179 | the filtered slice is never longer than the slot array |
| `Refresh.Gather` | main.go:155-179 | filling the slot array and then filtering it gives exactly the in-order survivors of the slots; the result is nil exactly when no slot survived |
| `Refresh.FillSlots` | main.go:156-171 | after the fan-out, the slot array holds exactly the slots: each successful lookup's record at its own index, the zero value elsewhere |
| `Refresh.Filter` | main.go:174-179 | the append loop over the slot array yields the in-order survivors, nil when none |
| `Refresh.SurvivorsConcat` | main.go:174-179 | the filter distributes over concatenation of slot sequences |
| `Refresh.SurvivorsFromSlots` | main.go:174-179 | every record in the snapshot has a non-empty name and is one of the slots |
| `Refresh.SurvivorsAreSubsequence` | main.go:173-179 | the snapshot is the subsequence of slots at strictly increasing indices, and those indices are exactly the slots with a non-empty name |
| `Refresh.RankLocates` | main.go:173-179 | a surviving slot `m` is the record at position "number of survivors before `m`" |
| `Refresh.OrderPreserved` | main.go:173-179 | for surviving slots `i < j`, record `i` comes strictly before record `j` |
| `Refresh.FailureOmitted` | main.go:162-167 | a lookup that fails in any way (a failed exchange, or a response without a string version as at main.go:236-237) leaves its slot at the zero value and changes no other slot; the snapshot is then the survivors on either side of it |
| `Refresh.SurvivorsWithoutSlot` | main.go:175-178 | zeroing one slot removes exactly that slot's contribution and keeps the others in order |
| `Refresh.MiddleFailureDropped` | main.go:158-179 | with lookups A, B, C where B fails, the snapshot is [A, C] |
| `CacheStore.Refreshed` | main.go:174-185 | a refresh installs the in-order survivors, nil exactly when there are none, stamped with the refresh time and valid for exactly 24 hours after it |
| `CacheStore.ReadStep` | main.go:140-149 | a fresh entry is served and kept; otherwise the entry becomes the refreshed one and its snapshot is served |
| `CacheStore.Store.constructor` | main.go:34-36 | the cache starts as Go's zero value: no data, zero times |
| `CacheStore.Store.Refresh` | main.go:151-187 | data, expiry and last-update time are replaced together by (filtered slots, `now + 24h`, `now`), even when the snapshot is empty |
| `CacheStore.Store.Read` | main.go:140-149 | within the window (`now < ExpiresAt` and data not nil) the held data is returned and the cache is unchanged; otherwise the cache is refreshed and the refreshed data returned |
| `CacheStore.FreshnessBoundary` | main.go:142 | with data held, a read 1 ns before the expiry is a hit, and a read at or after the expiry is not |
| `CacheStore.ServedWithinWindow` | main.go:142-145 | after a refresh at `t` that kept a record, any read before `t + 24h` serves that snapshot and changes nothing |
| `CacheStore.EmptyRefreshNeverServes` | main.go:174-186 | after a refresh that kept nothing the data is nil, so the next read refreshes again, whatever the expiry |
| `CacheStore.ReadsWithinWindow` | main.go:142-145 | any number of reads inside the window all serve the same snapshot, perform no lookup and leave the entry unchanged |
| `CacheStore.AtMostOneRefresh` | main.go:140-149 | reads in clock order, each less than 24 hours after the first read, trigger at most one refresh, when the lookups of every read would keep a record |
| `Humanize.Classify` | main.go:109-133 | below one minute, "just now"; otherwise minutes below one hour, hours below 24 hours, and days after that, each count being the floor of elapsed time over the unit and at least 1 |
| `Humanize.NatToString` | main.go:119 | `%d` of a count is a non-empty string of decimal digits with no leading zero unless the count is 0 |
| `Humanize.ParseNatToString` | main.go:119 | reading the decimal digits back gives the count |
| `Humanize.Render` | main.go:112-132 | a count phrase starts with a digit, so it is never "just now", and has the plural `s` before " ago" exactly when the count is not 1 |
| `Humanize.WordingsDistinct` | main.go:116-131 | the six unit wordings are told apart, including singular from plural |
| `Humanize.RenderParses` | main.go:112-132 | every phrase reads back as its bucket and count; the singular wording is used exactly when the count is 1 |
| `Humanize.TimeAgo` | main.go:109-133 | the phrase for any elapsed time reads back as the bucket and count that `Classify` chose |
| `Humanize.JustNowExactly` | main.go:112-113 | the phrase is "just now" exactly when less than a minute has elapsed |

## Left out

- The HTTP server, routing and the two handlers (`main`, `handleIndex`, `handleRefresh`): request plumbing. The call `timeAgo(cache.LastUpdated)` in `handleIndex` is modelled as `Humanize.TimeAgo(now - lastUpdated)`.
- The HTML and JavaScript template and its execution: presentation with no invariants.
- The network exchange in `fetchVersion` (`url.PathEscape`, building the request, the bearer header, `client.Do`, reading the body, `json.Unmarshal`). Its outcome is the `Registry.Response` parameter. JSON that Go decodes into a nil map (the literal `null`) is the same as an empty object, and both fail for lack of a version.
- The tag (and the escaped name) affect only which response arrives, which is a parameter; neither appears in the record.
- Goroutines, `sync.WaitGroup` and `sync.RWMutex`. The lookups run one after another, and each writes only its own slot. Each cache operation runs to completion before the next. The model does not capture two concurrent missing reads. In Go, both can pass the read-locked check before either refreshes, so both refresh.
- `CacheStore.AtMostOneRefresh`: proved for reads that run one after another, not for the interleavings of concurrent handlers described in the item above.
- `CacheStore.AtMostOneRefresh`: also assumes the lookups of every read in the sequence would keep a record, not only those of the read that refreshes.
- Wall-clock calls: `time.Now()` and `time.Since` become the integer `now`. `CacheStore.Store.Read` uses one `now` both for the freshness test (main.go:142) and for the refresh stamps (main.go:183-184). Go reads the clock separately for each of these, and the stamps are read only after every lookup has finished, so in Go `LastUpdated` is later than the freshness test by the duration of the lookups, and `ExpiresAt` and `LastUpdated` can differ from exactly 24 hours apart by a few nanoseconds.
- Logging of a failed lookup: a side effect with no behaviour.
- `Humanize.Classify`: counts use integer floor division of nanoseconds, not Go's float64 `Minutes()`, `Hours()` and `Hours()/24`. In the minute and hour buckets the two agree. In the day bucket they differ from 171 days on, a few nanoseconds before each day boundary: `Hours()` rounds up to the next whole hour once the hour count reaches 4096. For 171 days minus 1 ns, Go shows 171 days and the model 170. In this program it does not arise: `handleIndex` (main.go:53-55) calls `getCachedData` before `timeAgo`, and that call refreshes any entry older than 24 hours, so the elapsed time passed to `timeAgo` is at most about a day.
- Integer widths: times and durations are unbounded integers. The model does not capture Go's int64 nanosecond limits or the saturation of `time.Since`.
- JSON numbers are kept as integers, since extraction never looks at their values.
