# mass-shootings-count, modelled in Dafny

The repository serves a count of the day's mass shootings, read from the
Gun Violence Archive's paginated report table, and caches what it fetches.
This project models its three pieces of logic and proves properties of them:

- **Calendar dates** (`gva.dfy`, with `gotime.dfy` underneath): a
  `gva.Date` wraps a `time.Time` whose clock is ignored. `Eq`, `Before`
  and `After` drop the clock (`withoutClock`) and then compare the
  instants; `Add` moves the instant and then drops the clock. `GoTime` models the parts of Go's `time`
  package that these call: normalised times in one fixed zone, instants in
  nanoseconds from Go's zero Time, `time.Date`, `Time.Add`, `Equal`,
  `Before` and `After`. The proofs show that the comparisons of midnights
  are the (year, month, day) order and that this order is total and strict.
- **The date scan** (`mass_shootings.dfy`): `MassShootingsOnDate` asks the
  scraper for pages 0, 1, 2, … and keeps the records dated the target day.
  It stops at an empty page, at a page whose last record is older than the
  day, or after page 0 if that page's newest record is already older. It
  aborts on a fetch error or when the pause between pages is cancelled. The
  method is proved against the recursive specification `ScanFrom`. The
  lemmas show that on a source listed newest first the scan returns exactly
  the source's records of that day, in order.
- **The refresh cache** (`watcher.dfy`): `Watcher[T]` caches the `(value,
  error)` pair of a fetch function for a TTL. It has a blocking mode, which
  renews in place, and a `WatchAllowStale` mode, which moves the timestamp
  forward, starts a background renewal and serves the old value. The class
  `Watcher.Watcher` keeps the source's fields and is proved against the step
  function `GetStep`. Lemmas over runs of calls state freshness,
  single-flight and the caching of errors.

Clock readings, the outcome of `TryRLock`, the answer of `fetch`, the pages
the scraper returns, the page fetches that fail and the cancellations of the
context are all inputs to the model.

## Model

| member | source | states |
|---|---|---|
| GoTime.FromNanos | gva/gva.go:68-70 | every instant has exactly one normalised Time, and the Time built from an instant has that instant |
| GoTime.FromNanosOfNanos | gva/gva.go:68-70 | reading a Time back from its own instant gives the same Time (so distinct Times are distinct instants) |
| GoTime.DateOfFields | gva/gva.go:87-93 | `time.Date` called with the fields of a normalised Time returns that Time |
| GoTime.InstantOrder | gva/gva.go:73-85 | `Time.Equal`, `Before` and `After` hold exactly when the instants are equal, smaller or larger |
| GoTime.OrdinalOrder | gva/gva.go:73-85 | day numbers are ordered exactly as (year, month, day) is, and equal exactly on the same calendar day |
| Gva.WithoutClockIsMidnight | gva/gva.go:87-93 | `withoutClock(t)` is `time.Date(year, month, day, 0, 0, 0, 0)` of `t`: the same calendar day with a zero clock |
| Gva.WithoutClockIdempotent | gva/gva.go:87-93 | dropping the clock twice is dropping it once |
| Gva.CompareMidnights | gva/gva.go:72-85 | `Eq`, `Before` and `After` are equality and order of the instants of the two midnights |
| Gva.CompareByDay | gva/gva.go:72-85 | `Eq`, `Before` and `After` are `==`, `<` and `>` on day numbers |
| Gva.EqIffSameDay | gva/gva.go:73-75 | two dates are `Eq` exactly when they fall on the same year, month and day, whatever their clocks |
| Gva.BeforeIffEarlierDay | gva/gva.go:78-80 | `Before` is the lexicographic order on (year, month, day) |
| Gva.DateOrder | gva/gva.go:72-85 | `Eq` is reflexive, symmetric and transitive; `Before(a, b)` iff `After(b, a)`; `Before` is irreflexive, transitive and compatible with `Eq`; exactly one of `Before`, `Eq`, `After` holds |
| Gva.AddDropsClock | gva/gva.go:68-70 | `Add` always yields a date with zero hour, minute, second and nanosecond |
| Gva.AddZero | gva/gva.go:68-75 | `d.Add(0)` is `d` without its clock, and is `Eq` to `d` |
| Gva.AddDays | gva/gva.go:68-70 | in a zone without daylight-saving time, adding `k` times 24 hours moves the day number by exactly `k` |
| MassShootings.OnDateMembers | gva/mass-shootings.go:120-124 | the range filter keeps exactly the page's records that are `Eq` the date, and never more records than the page has |
| MassShootings.OnDateConcat | gva/mass-shootings.go:120-124 | filtering two pages one after the other is filtering their concatenation |
| MassShootings.AppendOnDate | gva/mass-shootings.go:120-124 | the range loop appends the page's records dated `date`, in page order, to those already gathered |
| MassShootings.MassShootingsOnDate | gva/mass-shootings.go:104-146 | the records or error returned are those of `ScanFrom`; on error no records are returned; pages are requested as 0, 1, 2, … with none skipped or repeated; every page but the last one requested lets the scan go on, and the last one stops it |
| MassShootings.ScanPrefix | gva/mass-shootings.go:109-143 | the result is the matches of the pages passed over, in order, followed by the result from the current page |
| MassShootings.FetchErrorAborts | gva/mass-shootings.go:110-113 | a page that cannot be fetched ends the scan with the error wrapped with that page's index, and no records |
| MassShootings.EmptyPageEnds | gva/mass-shootings.go:115-118 | an empty page ends the scan successfully with the matches of the earlier pages |
| MassShootings.OldFirstPageStops | gva/mass-shootings.go:126-130 | if page 0's first record is older than the date, the result is page 0's matches and no later page is fetched |
| MassShootings.OldLastRecordStops | gva/mass-shootings.go:132-137 | a page whose last record is older than the date is the last page fetched, and the result is the matches up to and including it |
| MassShootings.CancelledSleepAborts | gva/mass-shootings.go:139-142 | a cancelled pause ends the scan with the context's error and no records |
| MassShootings.ScanSound | gva/mass-shootings.go:120-124 | every record returned is `Eq` the date |
| MassShootings.ScanSucceeds | gva/mass-shootings.go:104-146 | with no fetch errors and no cancellation the scan succeeds |
| MassShootings.FirstCheckImplied | gva/mass-shootings.go:126-137 | on a newest-first page the page-0 early exit is implied by the last-record check |
| MassShootings.OlderFromHere | gva/mass-shootings.go:132-137 | in a newest-first list no record after one older than the date is dated the date |
| MassShootings.MatchesEndAtOldRecord | gva/mass-shootings.go:126-137 | in a newest-first source, once a page holds a record older than the date (its first or its last, as the two checks test), the records after that page hold no match |
| MassShootings.NewestFirstSuffix | gva/mass-shootings.go:104-105 | what follows a page in a newest-first source is itself newest first |
| MassShootings.ScanCompleteFrom | gva/mass-shootings.go:104-146 | from any page on, a successful scan of a newest-first source of non-empty pages returns all that source's records of the date, in order |
| MassShootings.ScanFindsEveryMatch | gva/mass-shootings.go:104-105 | a successful scan of a newest-first source returns exactly its records dated the date, in source order |
| Watcher.Gets | internal/watcher/watcher.go:54-101 | a run of calls returns one value per call; each call starts at most one renewal and calls `fetch` at most once, so neither count ever decreases or grows by more than the number of calls |
| Watcher.NewWatcherIsUnfetched | internal/watcher/watcher.go:26-31 | a new watcher holds the unfetched sentinel (not ok, error "watcher value unfetched") and is fresh exactly while `now` is before `age` |
| Watcher.ServedUntilExpiry | internal/watcher/watcher.go:59-81 | while `last + age` is after `now`, every `get` returns the stored value (or, in allow-stale mode, the sentinel when `TryRLock` fails) and changes nothing: no fetch, no renewal, no new timestamp |
| Watcher.CachedUntilExpiry | internal/watcher/watcher.go:97-111 | in blocking mode a stale `get` calls `fetch` once and returns its pair, error included, as ok; every `get` until the TTL lapses returns that same pair without fetching; the first `get` after it fetches again |
| Watcher.SingleFlight | internal/watcher/watcher.go:83-96 | in allow-stale mode a stale `get` sets `last` to now, dispatches exactly one renewal and returns the old value if ok, else the sentinel; while that renewal has not finished, `get`s before the TTL lapses dispatch nothing, fetch nothing and see only the old value or the sentinel (once it finishes, `RenewalIsServed` applies) |
| Watcher.RenewalIsServed | internal/watcher/watcher.go:86-90 | once the background renewal finishes, the next fresh `get` returns its pair |
| Watcher.LastNeverDecreases | internal/watcher/watcher.go:83-111 | if clock readings never go backwards, `last` never decreases over any run of `get`s and renewals |
| Watcher.Watcher.constructor | internal/watcher/watcher.go:44-51 | `Watch` builds a watcher holding the unfetched sentinel, last fetched at the zero Time, with the given TTL and options |
| Watcher.Watcher.Renew | internal/watcher/watcher.go:103-111 | `renew` stores fetch's pair as ok, stamps it now and calls `fetch` once |
| Watcher.Watcher.GetValue | internal/watcher/watcher.go:59-101 | `get` is the step function `GetStep`: a failed `TryRLock` returns the sentinel and changes nothing; a fresh value is returned unchanged; blocking mode renews and returns the new pair; allow-stale mode sets `last`, dispatches one renewal and returns the old value or the sentinel; allow-stale mode never changes `value` in `get` |
| Watcher.Watcher.Get | internal/watcher/watcher.go:54-57 | `Get` returns exactly the value and error of what `get` chose |
| Watcher.Watcher.CompleteRenewal | internal/watcher/watcher.go:86-90 | the background goroutine renews the value and finishes one renewal in flight |

## Left out

- Time zones: `GoTime` uses one fixed zone without daylight-saving time. `withoutClock` keeps the zone (`Location`) of its argument, and a single zone keeps it trivially.
- Gva.AddDays: holds only because the model's zone has no daylight-saving time. The program's zone is America/New_York (gva/gva.go:24-30). There, adding 24 hours to 2024-11-03 00:00 EDT stays on November 3, and subtracting 24 hours from 2024-03-11 00:00 EDT lands on March 9, so the day number moves by 0 or 2 instead of 1.
- Unbounded pagination: the scraper has finitely many pages, and every page past the last is empty. That bound is what makes the scan terminate. The source loop has no bound and never ends on a source that keeps returning non-empty pages none of whose last records is older than the date. The model does not represent that case.
- Go's 64-bit limits: instants and durations are unbounded integers. `Time.Add` saturation and `int64` overflow of `time.Duration` are not modelled.
- The claim in the comment on `Date.Add` that durations under 24 hours do nothing is not proved. The code drops the clock only after adding, so a date that carries a clock can move to the next day.
- The records keep `IncidentID` and `IncidentDate`. The other columns (`State`, `CityCounty`, `Address`, `NoKilled`, `NoInjured`, the URLs) and the HTML scraping that fills them (`Scraper.MassShootings`, `getHTML`) are not modelled. Pages come from the `Scraper` oracle, whose `MassShootings` method is the function `FetchPage`.
- `sleep`'s timer and context are an oracle: for each page, the pause either completes or ends with the context's error.
- Real concurrency in `Watcher`: the `RWMutex`, the interleaving of goroutines and lock discipline are not modelled. The outcome of `TryRLock` is an argument, a background renewal is a count of renewals in flight, and `CompleteRenewal` finishes one. The re-check of `isValid` under the write lock (line 79) is modelled, but in a sequential run it never succeeds.
- Watcher.Watcher.GetValue: each call reads the clock once. The source reads `time.Now()` separately in `isValid`, at line 84 and in `renew`, after `fetch` returns.
- Watcher.SingleFlight: a renewal still running when the new TTL lapses lets a later `get` dispatch a second one. The lemma covers only the calls before the TTL lapses.
- `Today`, `NewDate`, `ParseDate`, formatting and JSON marshalling of dates, the HTTP handlers and the templates are not part of this model.
- Call sites are left out. Both front-ends call `MassShootingsOnDate` with two arguments, and one reads three results from `Get`, which returns two. The comment on `Get` also mentions a timestamp that the code does not return. The model follows the definitions.
