# market-opp surge scanner, modelled in Dafny

This project models the core of market-opp, a service that scans the top 2000 tokens of a
ranked market list. For every token it reads a 30-day daily price and volume history and
flags volume-and-price "surges". Tokens that surge are stored by id in a token table. A
timed scheduler runs the scan and picks the API key index after the stored one (meant to
rotate the key; see Findings). An HTTP handler enqueues the 20 page jobs when no scan
completed within the hour and no job is active, and rejects with CONFLICT if a job is
active. When it does not reject, it then reports the tokens stored in the last day.

The modules follow the source:

- `Numerals`, `Lex` and `Calendar` give the JavaScript building blocks that the day keys
  rest on:
  - `String(n)` and `padStart`, which `formatDate` uses;
  - the UTC calendar getters of a time value, taken from the ECMAScript day, year and
    month definitions, which `formatDate` uses;
  - the default string order of `Array.prototype.sort`, modelled as a character-by-character
    comparison of Unicode code points. `run` sorts the day keys of a history with it
    (`Object.keys(..).sort()` in src/scripts/fetch-market.ts:85).
- `Series` covers `history`. It folds `[timestamp, value]` samples into a JavaScript object
  keyed by day. The object is a `Dict`: its keys in insertion order, plus a map.
- `Surge` is the statistical rule in the token loop of `run`, taken out as the function
  `Detect`. JavaScript division by zero and `undefined` operands are modelled with `Num`
  (finite, ±Infinity, NaN), so those edge cases follow the code instead of being excluded.
- `MarketScan` covers the rest of `run`:
  - the token loop, where a failed fetch is skipped;
  - the per-page transaction of upserts, modelled as the class `TokenStore`;
  - the 20-page scan.

  Network and database results are parameters: a `PageFeed` per page and a `Fetched` per token.
- `Scheduling` covers `schedulerLoop`: the key-index rotation and the lastUpdate upsert,
  with the scheduler state as a class.
- `DisplayDate` covers `dateLocale`, together with a reader that recovers the displayed
  fields.
- `Controller` covers the `data` handler:
  - the one-hour refresh gate;
  - the conflict check on active jobs;
  - the 20 refresh jobs, modelled as the class `JobQueue`;
  - the one-day token window.

## Model

| member | source | states |
|---|---|---|
| Numerals.NatStr | src/scripts/fetch-market.ts:39 | String(n) is a non-empty run of digits; it starts with 0 only for 0 and has one digit exactly below 10 |
| Numerals.PadStart | src/scripts/fetch-market.ts:39 | padStart gives max(length, width) characters, ends with the original string and is filled with the pad character before it |
| Numerals.ParseNatStr | src/scripts/fetch-market.ts:39 | reading the digits of String(n) back gives n |
| Numerals.NatStrInjective | src/scripts/fetch-market.ts:39 | distinct numbers have distinct renderings |
| Numerals.Pad2RoundTrip | src/scripts/fetch-market.ts:39 | two-digit zero padding of n < 100 is exactly two digits that read back as n |
| Numerals.IntStrRoundTrip | src/scripts/fetch-market.ts:39 | reading String(y) back, minus sign included, gives y for every integer year |
| Lex.LessIrreflexive | src/scripts/fetch-market.ts:85 | no string sorts before itself |
| Lex.LessTransitive | src/scripts/fetch-market.ts:85 | the default sort order is transitive |
| Lex.LessTotal | src/scripts/fetch-market.ts:85 | of two distinct strings one sorts before the other |
| Lex.NatStrOrder | src/scripts/fetch-market.ts:39 | numerals of equal length compare as the numbers they denote |
| Lex.Sort | src/scripts/fetch-market.ts:85 | Object.keys(..).sort() is sorted and a permutation of the keys |
| Lex.SortStrict | src/scripts/fetch-market.ts:85 | distinct keys come out strictly increasing |
| Calendar.YearLength | src/scripts/fetch-market.ts:39 | a year spans 366 days if leap, 365 otherwise |
| Calendar.YearOfDay | src/scripts/fetch-market.ts:39 | getUTCFullYear is the year whose first day is at or before the day and whose successor starts after it |
| Calendar.CivilOfDay | src/scripts/fetch-market.ts:38-39 | the UTC year, month and date of a day form a valid date naming that day |
| Calendar.CivilRoundTrip | src/scripts/fetch-market.ts:38-39 | every valid date is the date of its own day number |
| Calendar.CivilOfDayMonotone | src/scripts/fetch-market.ts:38-39 | later days have later dates |
| Calendar.DayKeyShape | src/scripts/fetch-market.ts:39 | for four-digit years, a key has the form YYYY-MM-DD: 10 characters, dashes at 4 and 7, and the three fields read back as year, month and day |
| Calendar.DayKeyRoundTrip | src/scripts/fetch-market.ts:39 | the key of every valid date, whatever the year's width or sign, reads back as that date |
| Calendar.FormatDate | src/scripts/fetch-market.ts:37-40 | the key of a valid time value reads back as its UTC year, month and day; an out-of-range value gives "NaN-NaN-NaN", which reads as no date |
| Calendar.DayKeyOrder | src/scripts/fetch-market.ts:39 | for four-digit years, one key sorts before another exactly when its date is earlier |
| Calendar.SameKeyIffSameDay | src/scripts/fetch-market.ts:37-40 | two valid time values, in any year, share a key exactly when they fall on the same UTC day |
| Calendar.FormatDateChronological | src/scripts/fetch-market.ts:37-40 | for four-digit years, one time value's key sorts before another's exactly when it falls on an earlier UTC day |
| Series.Dict.Put | src/scripts/fetch-market.ts:63 | assigning to an object overwrites an existing key in place and appends a new key at the end, keeping keys distinct |
| Series.FromSamples | src/scripts/fetch-market.ts:62-68 | the object is valid (distinct keys, one value per key), has at most one key per sample, and holds the day key of every sample |
| Series.KeysOfSamples | src/scripts/fetch-market.ts:62-64 | the object holds a day key exactly when some sample falls on that day |
| Series.LastSampleWins | src/scripts/fetch-market.ts:62-68 | a day's entry is the value of the last sample on that day |
| Series.History | src/scripts/fetch-market.ts:59-70 | the two loops build the price and volume objects that folding the samples in order gives |
| Surge.FirstSpike | src/scripts/fetch-market.ts:95-103 | the loop with break finds nothing exactly when no scanned day spikes; otherwise it stops at a spiking day with no spiking day before it |
| Surge.Detect | src/scripts/fetch-market.ts:85-127 | fewer than 15 days give no result; a result names one of the last two dates as surge day, its volume spikes against the 14-day average, and the price change is at least 20 |
| Surge.ShortHistoryNoSurge | src/scripts/fetch-market.ts:85-86 | fewer than 15 distinct price days yield no result |
| Surge.AverageOfFourteen | src/scripts/fetch-market.ts:91 | the average is the sum of exactly the 14 volumes at positions n-15..n-2, excluding the last day, over 14 |
| Surge.MissingVolumeNoSurge | src/scripts/fetch-market.ts:91-98 | a missing volume among those 14 days makes the average NaN, and then nothing is emitted |
| Surge.ScanOfLastTwo | src/scripts/fetch-market.ts:93-105 | only dates n-2 and n-1 are scanned, in that order; the first that spikes is the surge day, so n-2 wins when both do |
| Surge.NoSpikeNoSurge | src/scripts/fetch-market.ts:93-105 | with no spike on either day there is no result, whatever the price did |
| Surge.EmitsIffPriceRose | src/scripts/fetch-market.ts:107-112 | once a surge day exists, a record is emitted exactly when the percent change from dates[n-15] to the surge day is at least 20 |
| Surge.SurgeFields | src/scripts/fetch-market.ts:113-126 | an emitted record carries priceStart = prices[dates[n-15]], priceSurge, priceToday = prices[dates[n-1]], surgeVolume, avgVolume = round(avg), multiplier = volume/avg, and a change of at least 20 |
| Surge.SurgeVolumeExceedsAverage | src/scripts/fetch-market.ts:98-100 | the surge volume is at least 1.5 times the average; for a positive average the multiplier is finite and at least 1.5 |
| Surge.SurgePriceRise | src/scripts/fetch-market.ts:107-112 | a positive start price means the surge price is at least 1.2 times it; a zero start price means a positive surge price and an infinite change |
| Surge.DatesFollowDays | src/scripts/fetch-market.ts:85-89 | for four-digit years, sorted date keys follow the UTC days of the samples they came from |
| MarketScan.Upper | src/scripts/fetch-market.ts:115 | in the ASCII model, each letter a..z becomes A..Z and every other character is kept, so the length is unchanged |
| MarketScan.Evaluate | src/scripts/fetch-market.ts:82-130 | a token whose try body threw yields nothing; a record comes only from a successful fetch and carries the token's id, page URL and market cap and the surge the rule found |
| MarketScan.ProcessPage | src/scripts/fetch-market.ts:77-131 | the token loop collects exactly the batch of the page's evaluations in token order |
| MarketScan.BatchConcat | src/scripts/fetch-market.ts:80-131 | a page's batch is its parts' batches one after another |
| MarketScan.FailedTokenSkipped | src/scripts/fetch-market.ts:82-130 | a token whose fetch throws is skipped without changing the rest of the page's batch |
| MarketScan.BatchMembers | src/scripts/fetch-market.ts:80-127 | a record is in the batch exactly when some token of the page evaluates to it |
| MarketScan.RecordOfToken | src/scripts/fetch-market.ts:113-117 | a token yields a record exactly when its fetch succeeded and the rule found a surge; the record has the token's id, page URL and market cap and the surge found |
| MarketScan.Upsert | src/scripts/fetch-market.ts:134 | the rows gain exactly the record's id; that row holds the record and the write time as updatedAt and keeps an existing createdAt; every other row is unchanged |
| MarketScan.UpsertAll | src/scripts/fetch-market.ts:133-134 | after a transaction the rows are the old rows plus exactly the ids the batch names |
| MarketScan.UpsertAllAt | src/scripts/fetch-market.ts:134 | after a transaction a named id holds the last record written for it, keeping an existing creation time, and other rows are untouched |
| MarketScan.UpsertAllIdempotent | src/scripts/fetch-market.ts:134 | writing the same batch twice at one time leaves what writing it once leaves |
| MarketScan.UpsertReplaces | src/scripts/fetch-market.ts:134 | a second detection of an id replaces the record in a single row and keeps its creation time |
| MarketScan.TokenStore.Commit | src/scripts/fetch-market.ts:134 | the transaction applies the upserts in order |
| MarketScan.ScanPages | src/scripts/fetch-market.ts:74-135 | a scan that rejects does so at one of the pages it was given |
| MarketScan.ScanHalts | src/scripts/fetch-market.ts:74-135 | the scan completes exactly when no page halts it (a failed list fetch, or a failed transaction of a non-empty batch); otherwise it rejects at the first such page |
| MarketScan.ScanPage | src/scripts/fetch-market.ts:75-134 | halts exactly when the page halts the scan (its list fetch throws, or it found something and its transaction throws), leaving the rows unchanged; otherwise the rows become the page's batch upserted in one transaction when the batch is non-empty, and stay unchanged when it is empty |
| MarketScan.PageStep | src/scripts/fetch-market.ts:74-135 | a halting first page makes the scan reject at that page with the rows untouched; any other first page leaves the rows from which the remaining pages, numbered on, continue the scan |
| MarketScan.NextPage | src/scripts/fetch-market.ts:75-134 | one page of the loop either rejects the scan at that page with the rows it found, or leaves rows whose scan of the remaining pages is the scan of all of them |
| MarketScan.Run | src/scripts/fetch-market.ts:73-136 | pages 1..20 in order, each writing its batch only when non-empty; it stops at the first page whose list fetch or transaction fails |
| MarketScan.EmptyPageWritesNothing | src/scripts/fetch-market.ts:133 | a page with no result writes nothing, so its transaction cannot fail the scan |
| MarketScan.ListFailureEndsScan | src/scripts/fetch-market.ts:74-75 | a failed list fetch ends the scan without completing it, and later pages have no effect |
| MarketScan.ScanAddsOnlyDetections | src/scripts/fetch-market.ts:74-135 | a scan never deletes a row, and every row it adds belongs to a record some page detected |
| Scheduling.KeyIndex | src/scripts/fetch-market.ts:143 | 0 without a row, and (key + 1) mod 12 for a stored key in 0..11, so the index stays in 0..11 |
| Scheduling.RecordRunAsWritten | src/scripts/fetch-market.ts:148 | the row gets the run's time; a new row stores the key index used, but an existing row keeps its key, so the next run picks the same key index again |
| Scheduling.RecordRun | src/scripts/fetch-market.ts:148 | corrected upsert: the row gets the run's time and the key index used, so the next run picks the following key modulo 12 |
| Scheduling.AsWrittenKeyFrozen | src/scripts/fetch-market.ts:148 | with the upsert as written, the first run uses key 0 and every later run key 1 |
| Scheduling.AsWrittenThreeRuns | src/scripts/fetch-market.ts:143-148 | three completed runs from an empty table use keys 0, 1, 1 |
| Scheduling.RotationCycles | src/scripts/fetch-market.ts:143-148 | when the key is stored on every run, the n-th completed run uses key n mod 12 |
| Scheduling.Scheduler.Tick | src/scripts/fetch-market.ts:139-151 | picks the key index from the stored row, runs the scan, and writes the lastUpdate row only when the scan completes; the write is the corrected upsert RecordRun (see Left out) |
| DisplayDate.LocalTimeOf | src/utils/utils.ts:5-12 | the local getters are in range, the year, month and date form a valid calendar date, and together they name the local time to the minute |
| DisplayDate.TwelveHour | src/utils/utils.ts:13-17 | hour 0 shows as 12 AM, 1..11 unchanged AM, 12 as 12 PM, 13..23 as h-12 PM; the shown hour is in 1..12 and with its meridiem gives back the hour |
| DisplayDate.ClockRoundTrip | src/utils/utils.ts:16-20 | "h:mm" contains no space and reads back as the 12-hour hour and the minutes |
| DisplayDate.DisplayShape | src/utils/utils.ts:20 | splitting the output on spaces gives back exactly its five fields (unpadded day, months[month], year, h:mm with two-digit minutes, AM or PM), since no field holds a space |
| DisplayDate.DisplayRoundTrip | src/utils/utils.ts:1-22 | reading the output back gives every getter it was made from |
| DisplayDate.DisplayInjective | src/utils/utils.ts:20 | two valid local times with the same output are equal |
| DisplayDate.DateLocale | src/utils/utils.ts:1-22 | the output always has five space-separated fields, and the second is a month name exactly when the date is valid |
| DisplayDate.DateLocaleReadsBack | src/utils/utils.ts:1-22 | a valid date reads back as its local getters; the output for an invalid date does not read as a date |
| Controller.RefreshJobsCoverPages | src/routes/controller.ts:18-21 | a refresh enqueues jobs for exactly pages 1..20 in increasing order, each with attempts 1, removal on completion and failure, and the queue's backoff |
| Controller.JobQueue.Add | src/routes/controller.ts:20 | adding appends one job with its name, page and options |
| Controller.RecentTokens | src/routes/controller.ts:24-25 | a row is returned exactly when both its creation and update times lie in [now - 1 day, now] |
| Controller.NewDetectionListed | src/routes/controller.ts:24-25 | a token first stored by a transaction within the last day is returned with the record last written for it |
| Controller.RefreshedOldTokenHidden | src/routes/controller.ts:24-25 | a token created more than a day ago is not returned even right after it is re-detected |
| Controller.Data | src/routes/controller.ts:10-28 | conflict exactly when no update is recent and a job is active; enqueues the 20 jobs exactly when no update is recent and no job is active; otherwise enqueues nothing; reports the day's tokens and the recent update's display date |

## Left out

- HTTP calls through axios, URL building and the list mapping of `list` are not modelled. Their results are inputs: `Coin` entries and a `Fetched` chart or failure per token.
- The Bottleneck rate limiter, console logging, and the `setTimeout`/`setImmediate` loop are not modelled. They concern timing and output only. `Scheduler.Tick` is one call of the loop body.
- The Prisma client is reduced to a map keyed by id. A transaction applies its upserts in order or not at all.
- `createdAt` and `updatedAt` come from a schema that is not part of this model. They are taken to be set on create, and `updatedAt` to be set on every write.
- IEEE-754 rounding and overflow are not modelled. Prices and volumes are exact reals, and `Num` models only division by zero and NaN from missing volumes.
- `surgeMultiplier.toFixed(2) + "x"`, `priceChange.toFixed(2) + "%"` and `marketCap.toLocaleString()` are kept as the numbers they format.
- MarketScan.Upper: only ASCII letters are upper-cased, because Unicode case mapping is not modelled.
- The API key pool is not part of this model. src/utils/env.ts declares a single `COINGECKO_API_KEY` while src/scripts/fetch-market.ts:145 indexes `COINGECKO_API_KEYS`. `Tick` therefore returns the key index and no header.
- The worker that consumes refresh jobs is not part of this model. The active-job count is an input to `Data`, and only active jobs count, as in the code. Jobs that are enqueued but still waiting do not block a second refresh.
- Controller.Data: the handler reads the clock several times (lines 11, 24 and 25), but the model uses one `now` for all of them.
- Controller.Data: the lastUpdate row is passed in rather than found by query. It is the single row with id 1.
- DisplayDate.LocalTimeOf: local time is UTC plus a fixed `offset`. Time zone rules and daylight saving are not modelled.
- Calendar.DayKeyOrder: stated for four-digit years only. With other years the key strings do not sort chronologically.
- Calendar.DayKeyShape: stated for four-digit years only, where the key has ten characters. Other years have other widths; DayKeyRoundTrip covers them.
- Calendar.FormatDateChronological: stated for four-digit years only, for the same reason as DayKeyOrder.
- `schedulerLoop` has no cool-down check, and a failed list fetch or transaction inside `run` rejects the whole scan; the model follows the code.
- Scheduling.Scheduler.Tick: writes the lastUpdate row with the corrected upsert `RecordRun`, which stores the key index of every completed run. Line 148 as written keeps the stored key on update; that behaviour is `RecordRunAsWritten`, and `AsWrittenKeyFrozen` states its effect (see Findings).
- Lex.Less: compares Unicode code points, while JavaScript compares UTF-16 code units. The two orders differ only for characters outside the Basic Multilingual Plane, which never occur in day keys.
- MarketScan.Evaluate: `FetchFailed` stands for any exception thrown inside the `try` body of the token loop. That covers a transport error, a response without the sample arrays, and a later throw while building the record, such as `toLocaleString` on a missing market cap. The catch treats them all alike, so the model does not tell them apart.

## Findings

| source | as written | input that shows it | evidently intended | confidence | as-written member | corrected member |
|---|---|---|---|---|---|---|
| src/scripts/fetch-market.ts:148 | the update branch of the lastUpdate upsert writes only `timestamp`, so the stored `key` stays at the value of the first run | three completed runs from an empty table use key indices 0, 1, 1 | each run stores the key index it used, so line 143 rotates through 0..11 | high (not executed) | Scheduling.AsWrittenKeyFrozen | Scheduling.RotationCycles |
