/**
 The values shared by every part of the package-metadata server: the
 package record shown on the page, the cache entry that holds one refresh's
 records, the decoded JSON of a registry response, and the small
 Option/Result wrappers used in place of Go's nil and error returns.
 */
module PkgTypes {

  datatype Option<+T> = None | Some(value: T)

  datatype Result<+T, +E> = Ok(value: T) | Err(error: E)

  /** One package row: canonical name, resolved version and author (possibly ""). */
  datatype PackageInfo = PackageInfo(name: string, version: string, author: string)

  /** Go's zero value `PackageInfo{}`, which an unfilled result slot keeps. */
  const ZeroInfo: PackageInfo := PackageInfo("", "", "")

  /**
   The cached snapshot. `data` is None for Go's nil slice (before the first
   refresh, or after a refresh in which no record survived). Times are
   nanoseconds on one clock.
   */
  datatype CacheEntry = CacheEntry(data: Option<seq<PackageInfo>>, expiresAt: int, lastUpdated: int)

  /** Go's zero value of the global `cache`: no data, zero times. */
  const EmptyEntry: CacheEntry := CacheEntry(None, 0, 0)

  /**
   A decoded JSON value as `encoding/json` produces it into `interface{}`.
   Numbers are kept as integers; their exact value is never inspected.
   */
  datatype JsonValue =
    | JNull
    | JBool(b: bool)
    | JNumber(n: int)
    | JString(s: string)
    | JArray(items: seq<JsonValue>)
    | JObject(fields: map<string, JsonValue>)

  /** Nanoseconds in a minute, an hour and a day (Go's time.Minute, time.Hour, 24*time.Hour). */
  const MinuteNs: int := 60_000_000_000
  const HourNs: int := 3_600_000_000_000
  const DayNs: int := 86_400_000_000_000
}
