# PulseMonitor, modelled in Dafny

PulseMonitor is an uptime monitor with a Raspberry Pi side panel. This project models its logic in Dafny and proves properties of that model:

- **The API server** (`server/app.js`) stores endpoints and their check rows. It runs a check against a URL, lists the newest checks and deletes an endpoint along with its checks.
- **The dashboard** (`client/src/App.jsx`) reduces the newest check rows to several views:
  - a system summary chip;
  - drawer statistics (min, p95, max and the down percentage);
  - a volatility and anomaly insight;
  - a relative "time ago" label.

  It also keeps per-endpoint latest and history maps.
- **Two device-telemetry routers:**
  - an in-memory store (`server/routes/pi.js`) that keeps each device's newest payload and a newest-first history of at most 300 entries;
  - a SQLite-backed router (`server/pi/pi.routes.js`) with a token gate, a device upsert, an append-only metric table and newest-first history and latest queries.
- **The Pi dashboard's formatting** (`client/src/pi/PiDashboard.jsx`): one-decimal text, used percentages, ratios, uptime text and chart series.
- **The Pi agent** (`server/pi/pi-agent/agent.js`) turns `/proc/stat`, `/proc/net/dev` and the thermal zone into readings. It keeps the previous CPU and network samples between ticks.

The modules:

- `Js` models the JavaScript semantics the code relies on:
  - values, truthiness, `??` and `||`;
  - `Number()` on decimal text;
  - `String()`;
  - `Math.round`;
  - `trim`, `split`, `slice` and `toUpperCase`.
- `Sorting` holds an ordering by a key, which stands for `ORDER BY … DESC LIMIT n`.
- Each of the other modules follows one source file.

Where the source changes state in place, the model uses a class:

- `ServerApp.EndpointDb` for the endpoints and checks tables;
- `PiMemory.PiMemoryStore` for `latestByPi` and `historyByPi`;
- `PiRoutes.PiDatabase` for the device and metric tables;
- `PiAgent.Agent` for `lastCpu` and `lastNet`.

The loops of the source are methods with loop invariants: `ClientApp.CountUpDown` (inside `ClientApp.SystemSummary`), `PiMemory.PiMemoryStore.List` and `PiAgent.SumInterfaces`. The clocks, file contents, `fetch` outcomes and request bodies are parameters.

NaN is modelled as `None`. Numbers are exact reals, and `Math.round(x)` is `floor(x + 1/2)`.

## Model

| member | source | states |
|---|---|---|
| ClientApp.Latencies | client/src/App.jsx:362-364 | the finite latencies of a window are exactly the numeric `ms` values of its rows, and there are no more of them than rows |
| ClientApp.UpDownPartition | client/src/App.jsx:371-374 | every row counts as exactly one of up (`ok` is 1 or true) or down |
| ClientApp.DownCountZero | client/src/App.jsx:371-374 | the down count is zero iff every row is up |
| ClientApp.SortNumbers | client/src/App.jsx:365 | the ascending sort is a permutation of the latencies and is ordered |
| ClientApp.P95Index | client/src/App.jsx:369 | `floor(0.95·(n−1))` is a valid index into n sorted latencies |
| ClientApp.SortedEnds | client/src/App.jsx:365-368 | every sorted entry is a latency of the window, the first is the least and the last the greatest |
| ClientApp.DrawerStats | client/src/App.jsx:356-378 | the down percentage is null iff the window is empty and otherwise round(100·down/rows); min, max and p95 are null iff no latency is finite, and otherwise the first, the last and the entry at floor(0.95·(n−1)) of the ascending-sorted latencies |
| ClientApp.DrawerStatsOrder | client/src/App.jsx:367-369 | min, p95 and max are latencies of the window, min ≤ p95 ≤ max, and every latency lies between min and max |
| ClientApp.DownPercentBounds | client/src/App.jsx:371-375 | the down percentage lies in [0, 100], is 0 when every row is up, and for windows of at most 200 rows is 0 only then |
| ClientApp.DownPercentRange | client/src/App.jsx:375 | `round(down/n·100)` lies in [0, 100], is 0 for no down rows and positive for any down row when n ≤ 200 |
| ClientApp.Variance | client/src/App.jsx:443 | the population variance of the latencies is never negative |
| ClientApp.InsightOf | client/src/App.jsx:431-462 | under 6 rows the insight is Low, no anomaly and "collect more samples"; otherwise volatility and spike follow the window's mean and variance, and the advice is downtime iff a row is down, p95 alerts iff all are up and a spike shows, and "looks stable" iff all are up and no spike shows |
| ClientApp.VolatilityByStd | client/src/App.jsx:444-448 | volatility is High iff std > 120, Medium iff 60 < std ≤ 120, Low iff std ≤ 60 |
| ClientApp.SpikeByStd | client/src/App.jsx:444-451 | a spike is flagged iff the newest latency exceeds mean + 2·std |
| ClientApp.SumOfConstant | client/src/App.jsx:442 | the sum of n equal latencies v is n·v |
| ClientApp.MeanOfConstant | client/src/App.jsx:442 | the mean of equal latencies is that latency |
| ClientApp.LatenciesOfNaN | client/src/App.jsx:362-364 | a window whose rows carry no finite latency has no latencies |
| ClientApp.LatenciesOfConstant | client/src/App.jsx:441 | a window whose rows all carry latency v has one latency v per row |
| ClientApp.UniformWindowHasNoSpike | client/src/App.jsx:441-451 | a window whose rows all carry the same latency is never flagged as a spike |
| ClientApp.LatestRows | client/src/App.jsx:208 | there are no more latest rows than endpoints |
| ClientApp.CountUpDown | client/src/App.jsx:211-218 | the loop's up and down tallies equal the number of up rows and of down rows |
| ClientApp.SystemSummary | client/src/App.jsx:207-238 | checked is the number of latest rows, up and down are their up and down counts and add up to checked, avgMs is the rounded mean (null with no rows), and the label and tone follow the counts |
| ClientApp.StatusLabelCases | client/src/App.jsx:227-236 | the label is "No checks yet" iff nothing was checked, "All systems stable" iff something was and nothing is down, and otherwise names the down count |
| ClientApp.DownNoun | client/src/App.jsx:234 | the noun has no space and is "endpoint" exactly for one |
| ClientApp.DownLabelSplit | client/src/App.jsx:234 | with down > 0 the label splits on spaces into the count's text, the noun and "down" |
| ClientApp.DownLabelReadsBack | client/src/App.jsx:234 | with down > 0 the label's first word reads back as the down count, the second is "endpoint" exactly for one, and the third is "down" |
| ClientApp.NormalizeUrl | client/src/App.jsx:123-128 | the result is "" iff the input is blank; the trimmed input itself when it starts with http:// or https://; otherwise the selected protocol followed by the trimmed input |
| ClientApp.SchemeKept | client/src/App.jsx:127 | prefixing the protocol keeps the rest of the text and an http(s) scheme |
| ClientApp.NormalizedStays | client/src/App.jsx:123-128 | a trimmed URL that already has an http(s) scheme is left as it is |
| ClientApp.NormalizeUrlIdempotent | client/src/App.jsx:123-128 | with an http:// or https:// protocol selected, normalising twice is normalising once |
| ClientApp.AgoBuckets | client/src/App.jsx:313-329 | "just now" under 10 s; otherwise n seconds, minutes, hours or days where n is the elapsed time in that unit rounded down and stays below the next unit |
| ClientApp.Refresh | client/src/App.jsx:158-166 | after a refresh the endpoint's history is the first min(50, limit, rows) rows fetched and its latest is the first row or null; other endpoints are unchanged and consistency is kept |
| ClientApp.Forget | client/src/App.jsx:275-284 | removing an endpoint deletes both of its entries, keeps every other entry and keeps consistency |
| PiMemory.Numeric | server/routes/pi.js:16-19 | `num(x)` is `Number(x)` when finite and 0 otherwise |
| PiMemory.Percent | server/routes/pi.js:61-63 | a percentage field is null exactly when the key is absent, and otherwise `num` of its value |
| PiMemory.BuildRow | server/routes/pi.js:25-66 | a row is built iff `piId` or `pi_id` is truthy; its id is that value as a string; hostname and ip are the value or null when falsy; the temperature, load, memory, disk and uptime figures are `num` of their fields; the percentages are null iff absent and otherwise `num` of the value; `created_at` defaults to now |
| PiMemory.MissingDetailsAreZero | server/routes/pi.js:16-19 | a payload whose detailed figures are all missing or not numbers stores each of them as 0 |
| PiMemory.TemperaturePreference | server/routes/pi.js:33-36 | the temperature comes from `cpu_temp_c` whenever it is defined (null reads as 0), and is 0 when neither key is defined |
| PiMemory.StringIdKept | server/routes/pi.js:29-41 | a string id is stored unchanged, taken from `piId` first and from `pi_id` only when `piId` is falsy |
| PiMemory.Pushed | server/routes/pi.js:10-14 | after a push the history has min(limit, n+1) entries: the new one first, then the previous list cut to limit−1 |
| PiMemory.PushedTwice | server/routes/pi.js:10-14 | two pushes leave the later payload first and the earlier second |
| PiMemory.HistoryAfterIngest | server/routes/pi.js:10-14 | with the limit of 300, the rest of the history is the previous list, or its first 299 entries when it was full |
| PiMemory.InsertById | server/routes/pi.js:76-78 | inserting into a list ordered by id keeps it ordered and adds exactly that row |
| PiMemory.PiMemoryStore.constructor | server/routes/pi.js:7-8 | the store starts with no devices |
| PiMemory.PiMemoryStore.History | server/routes/pi.js:83-86 | a device's history holds at most 300 entries, is [] iff the device is unknown, and starts with its latest payload |
| PiMemory.PiMemoryStore.PushHistory | server/routes/pi.js:10-14 | only that device's history changes, to the pushed list |
| PiMemory.PiMemoryStore.Ingest | server/routes/pi.js:25-72 | 400 with nothing changed without an id; otherwise the row becomes that device's latest payload and the head of its history, other devices are unchanged, and the store stays consistent |
| PiMemory.PiMemoryStore.List | server/routes/pi.js:75-80 | one entry per device, its latest payload, in id order |
| PiRoutes.TokenGate | server/pi/pi.routes.js:9-16 | a request passes iff no token is configured or the header equals the token |
| PiRoutes.DeviceName | server/pi/pi.routes.js:44 | the stored name is the name, or "Raspberry Pi" when it is falsy, as a string cut to its first 60 characters: a prefix of length min(60, length) |
| PiRoutes.DefaultDeviceName | server/pi/pi.routes.js:44 | without a truthy name the device is called "Raspberry Pi" |
| PiRoutes.OrNull | server/pi/pi.routes.js:61-73 | `v ?? null` is null for null and undefined and keeps every other value |
| PiRoutes.ZeroReadingKept | server/pi/pi.routes.js:52-74 | a reading of 0 is stored as 0 and a missing reading as null |
| PiRoutes.Upsert | server/pi/pi.routes.js:46-50 | a new id is inserted with the current time; an existing id keeps its row but takes the new name; other devices are unchanged |
| PiRoutes.UpsertGrowsByAtMostOne | server/pi/pi.routes.js:46-50 | the device table grows by at most one row, and an existing device keeps its creation time |
| PiRoutes.OfDevice | server/pi/pi.routes.js:100-106 | the rows kept are exactly the rows of that device |
| PiRoutes.NoRowOfDevice | server/pi/pi.routes.js:100-106 | when no row names the device, the device filter keeps nothing |
| PiRoutes.PiDatabase.UnknownDeviceHasNoMetrics | server/pi/pi.routes.js:78-93 | with the table invariant, a device the table does not know has no metric rows and an empty history, so the 404 of `/latest` hides no metrics |
| PiRoutes.HistoryLimit | server/pi/pi.routes.js:98 | the limit is 200 when absent and lies in [10, 500]; SQLite rejects exactly a NaN or fractional limit inside the clamp |
| PiRoutes.HistoryLimitClamps | server/pi/pi.routes.js:98 | a whole-number limit is clamped into [10, 500] |
| PiRoutes.PiDatabase.constructor | server/pi/pi.routes.js:7 | the token is read once, and both tables start empty |
| PiRoutes.PiDatabase.Ingest | server/pi/pi.routes.js:23-77 | 401 when the gate fails and 400 without a piId, with nothing written; otherwise the device is upserted, exactly one metric row is appended, and the answer is 200 |
| PiRoutes.NoneOfDevice | server/pi/pi.routes.js:85-93 | when the device filter keeps nothing, no row belongs to that device |
| PiRoutes.PiDatabase.Newest | server/pi/pi.routes.js:100-106 | min(n, device rows) rows, a sub-multiset of that device's rows (none repeated), newest first, with none left out newer than the last returned |
| PiRoutes.PiDatabase.History | server/pi/pi.routes.js:96-109 | None iff SQLite rejects the limit; otherwise min(limit, device rows) rows, a sub-multiset of that device's rows, newest first, with none left out newer than the last returned |
| PiRoutes.PiDatabase.Latest | server/pi/pi.routes.js:79-94 | 404 iff the device is unknown; otherwise the device with its newest metric row, null iff it has none |
| ServerApp.CheckUrl | server/app.js:9-19 | ms is the elapsed time; a failed fetch gives ok false and a null status, and a response gives its status with ok iff it is 2xx |
| ServerApp.Verb | server/app.js:46 | the stored method is the trimmed text with each letter upper-cased, character by character; it is trimmed and has no lower-case letter |
| ServerApp.UpperKeepsTrimmed | server/app.js:46 | upper-casing trimmed text keeps it trimmed and leaves no lower-case letter |
| ServerApp.NewEndpoint | server/app.js:36-51 | no endpoint iff any of name, method or url is falsy; otherwise the id is the clock, name and url are the trimmed input and the method is the trimmed, upper-cased input |
| ServerApp.BlankNameStoredEmpty | server/app.js:39-47 | a name of spaces passes the check and is stored as "", and "get" is stored as "GET" |
| ServerApp.LowerVerbUpperCased | server/app.js:46 | the method "get" is stored as "GET" |
| ServerApp.WithoutEndpoint | server/app.js:58 | the endpoints left are exactly those whose id does not match |
| ServerApp.WithoutChecksOf | server/app.js:58 | the cascade leaves exactly the check rows of other endpoints |
| ServerApp.DeleteEndpointIdempotent | server/app.js:56-60 | deleting an endpoint twice is deleting it once |
| ServerApp.DeleteChecksIdempotent | server/app.js:56-60 | cascading twice is cascading once |
| ServerApp.IdParamOfIdText | server/app.js:57 | the decimal text of an id reads back as that id and so matches its own row |
| ServerApp.BlankTrimmedEmpty | server/app.js:45 | text made only of spaces trims to "" |
| ServerApp.Find | server/app.js:65-67 | the endpoint found has a matching id, and none is found only when no id matches |
| ServerApp.ChecksOf | server/app.js:84-88 | the check rows kept are exactly those of the endpoint |
| ServerApp.AppendKeepsUnique | server/app.js:50-51 | inserting an endpoint with a fresh id keeps the ids unique and adds that id |
| ServerApp.AppendKeepsValid | server/app.js:50-51 | appending an endpoint with a fresh id keeps the ids unique and every check linked to an endpoint |
| ServerApp.AppendCheckKeepsLinked | server/app.js:75-76 | appending a check row of an existing endpoint with the next check id keeps every check linked |
| ServerApp.UniqueAfterFilter | server/app.js:58 | deleting endpoints keeps the ids unique |
| ServerApp.EndpointDb.constructor | server/db.js:6-24 | both tables start empty |
| ServerApp.EndpointDb.Insert | server/app.js:50-51 | the endpoint is appended, the checks are unchanged, and the store stays consistent |
| ServerApp.EndpointDb.Create | server/app.js:36-54 | 400 and nothing inserted when a field is missing; 500 and nothing inserted when the id is taken; otherwise 201 and exactly the new endpoint appended |
| ServerApp.EndpointDb.Delete | server/app.js:56-60 | the endpoints and check rows whose id matches the parsed path id are removed, nothing else is, and the store stays consistent |
| ServerApp.EndpointDb.RunCheck | server/app.js:62-79 | 404 and no row when no endpoint matches the parsed path id; otherwise exactly one check row with ok as 1 or 0 and the result's status and ms |
| ServerApp.EndpointDb.RecentChecks | server/app.js:81-91 | min(50, endpoint rows) rows, a sub-multiset of that endpoint's check rows, newest first, none left out newer than the last returned |
| ServerApp.EndpointDb.Listing | server/app.js:29-34 | every endpoint once, newest first |
| Sorting.TopByDescMembers | server/app.js:86 | the rows kept come from the input, and none left out has a greater key than the last kept |
| Sorting.TopByDesc | server/app.js:86 | `ORDER BY … DESC LIMIT n` gives min(n, rows) rows drawn from the input, in descending order, with every row left out no greater than the last kept |
| PiDashboard.Clamp | client/src/pi/PiDashboard.jsx:5-7 | with a ≤ b the result lies in [a, b]: n when inside, a below, b above |
| PiDashboard.ClampIdempotent | client/src/pi/PiDashboard.jsx:5-7 | clamping twice is clamping once |
| PiDashboard.ToFixed1ReadsBack | client/src/pi/PiDashboard.jsx:13-15 | the one-decimal text reads back as x rounded to the nearest tenth, within 0.05 of x |
| PiDashboard.Fmt1 | client/src/pi/PiDashboard.jsx:13-15 | "N/A" iff the value is not numeric |
| PiDashboard.FmtInt | client/src/pi/PiDashboard.jsx:17-19 | "N/A" iff the value is not numeric |
| PiDashboard.FmtIntReadsBack | client/src/pi/PiDashboard.jsx:17-19 | the text reads back as the nearest whole number |
| PiDashboard.FmtPct | client/src/pi/PiDashboard.jsx:21-24 | "N/A" iff not numeric, else the one-decimal text followed by "%" |
| PiDashboard.UnitText | client/src/pi/PiDashboard.jsx:26-32 | "N/A" iff the value is not numeric |
| PiDashboard.FmtUsedPct | client/src/pi/PiDashboard.jsx:41-44 | null iff used or total is not numeric or total ≤ 0; otherwise used/total·100 when 0 ≤ used ≤ total, 100 when used exceeds total and 0 when used is negative |
| PiDashboard.RatioAgreesWithPercent | client/src/pi/PiDashboard.jsx:34-44 | the ratio is "N/A" exactly when the used percentage is null |
| PiDashboard.PercentTile | client/src/pi/PiDashboard.jsx:218 | the tile reads "N/A" iff the percentage is null |
| PiDashboard.FormatUptime | client/src/pi/PiDashboard.jsx:46-55 | "N/A" iff the value is not numeric |
| PiDashboard.UptimePartsOfWhole | client/src/pi/PiDashboard.jsx:48-51 | for whole seconds, the days, hours and minutes are integer division and remainder by 86400, 3600 and 60 |
| PiDashboard.UptimeBounds | client/src/pi/PiDashboard.jsx:48-51 | for whole seconds s, h < 24, m < 60 and d·86400 + h·3600 + m·60 ≤ s < that + 60 |
| PiDashboard.UptimeTextOfWhole | client/src/pi/PiDashboard.jsx:46-55 | for whole seconds, "Mm" under an hour, "Hh Mm" under a day, "Dd Hh Mm" otherwise |
| PiDashboard.LoadText | client/src/pi/PiDashboard.jsx:150-153 | "N/A" iff none of the three load averages is numeric |
| PiDashboard.NetText | client/src/pi/PiDashboard.jsx:155-158 | "N/A" iff neither rate is numeric |
| PiDashboard.NullLoadShowsZeros | client/src/pi/PiDashboard.jsx:150-153 | null load averages are numeric to `isNum` and show as "0.0 , 0.0 , 0.0" |
| PiDashboard.Series | client/src/pi/PiDashboard.jsx:137-145 | one entry per history row, oldest first, NaN where a value is not numeric |
| PiDashboard.SeriesOfNewer | client/src/pi/PiDashboard.jsx:137-140 | a newer row at the head of the history adds its point at the end of the series |
| Js.ParseIgnoresTrim | server/pi/pi-agent/agent.js:20 | `Number()` of trimmed text equals `Number()` of the text itself |
| Js.IntTextRoundTrip | server/app.js:57 | the decimal text of an integer reads back as that integer |
| Js.Trim | server/app.js:45 | the trimmed text neither starts nor ends with whitespace, is no longer than the text, and is empty iff the text is all whitespace |
| Js.TrimIsMiddle | server/app.js:45 | `trim()` keeps the middle of the text: it is the text between a leading and a trailing run of whitespace |
| Js.RoundTenth | server/pi/pi-agent/agent.js:30 | `Math.round(x*10)/10` is a whole number of tenths within 0.05 of x (ties upward) |
| Js.RoundTenthUnique | server/pi/pi-agent/agent.js:30 | that whole number of tenths is unique: any other value on the tenths grid within the band is the rounded value itself |
| PiAgent.ReadFileNumber | server/pi/pi-agent/agent.js:17-25 | null for an unreadable file, else the trimmed text as a number (null when NaN) |
| PiAgent.CpuTempC | server/pi/pi-agent/agent.js:27-31 | null iff no number was read; otherwise millidegrees/1000 rounded to one decimal: a whole number of tenths within 0.05 of it, which `Js.RoundTenthUnique` shows is exactly `Math.round(x*10)/10` |
| PiAgent.CpuTempOfMillidegrees | server/pi/pi-agent/agent.js:17-31 | a file holding k millidegrees reads as k/1000 rounded to a tenth |
| PiAgent.CpuTempOfGarbage | server/pi/pi-agent/agent.js:17-31 | an unreadable or non-numeric file gives no temperature |
| PiAgent.Numbers | server/pi/pi-agent/agent.js:121 | `.map(Number)`: one number per word, each the word read by `Number()` |
| PiAgent.Counters | server/pi/pi-agent/agent.js:37 | one counter per word after the label, each `Number()` of its word |
| PiAgent.Total | server/pi/pi-agent/agent.js:39 | the total is a number iff every counter is |
| PiAgent.TotalOfNumbers | server/pi/pi-agent/agent.js:39 | counters that are all numbers total to their sum |
| PiAgent.Idle | server/pi/pi-agent/agent.js:38 | idle is the fourth counter plus the fifth; a missing or NaN fifth counts 0; no number when the fourth is missing or NaN |
| PiAgent.CpuUsage | server/pi/pi-agent/agent.js:41-53 | null exactly on the first sample and when the total did not grow; NaN iff a delta it reaches is NaN; otherwise (1 − idleDelta/totalDelta)·100 rounded to one decimal (a whole number of tenths within 0.05) |
| PiAgent.CpuUsageWithin | server/pi/pi-agent/agent.js:46-53 | when the idle delta lies in [0, totalDelta], the usage lies in [0, 100] |
| PiAgent.LoadHundredths | server/pi/pi-agent/agent.js:92-94 | a load average rounded to two decimals: a whole number of hundredths within 0.005 of it |
| PiAgent.LoadHundredthsUnique | server/pi/pi-agent/agent.js:92-94 | the whole number of hundredths within 0.005 of a load average is unique, so it is the rounded load |
| PiAgent.MemoryOf | server/pi/pi-agent/agent.js:78-87 | total and used memory are the byte counts in MB, each within 0.5 |
| PiAgent.MemoryUsedWithinTotal | server/pi/pi-agent/agent.js:78-87 | with free ≤ total, the used megabytes lie between 0 and the total megabytes |
| PiAgent.GbOfKb | server/pi/pi-agent/agent.js:69-70 | kilobytes/1024/1024 rounded to one decimal (a whole number of tenths within 0.05); NaN stays NaN |
| PiAgent.DiskUsage | server/pi/pi-agent/agent.js:59-76 | both null when `df` failed or printed fewer than two lines; otherwise each is a number iff its column of the second line is |
| PiAgent.NonBlank | server/pi/pi-agent/agent.js:111 | the kept lines are trimmed and non-empty, and there are no more of them than lines |
| PiAgent.NonBlankKeeps | server/pi/pi-agent/agent.js:111 | every line that is not all spaces is kept, trimmed |
| PiAgent.NonBlankOne | server/pi/pi-agent/agent.js:111 | one line contributes its trim, or nothing when it is all spaces |
| PiAgent.NonBlankAppend | server/pi/pi-agent/agent.js:111 | the filter of a concatenation is the concatenation of the filters, so kept lines keep their input order |
| PiAgent.NonBlankCut | server/pi/pi-agent/agent.js:111 | the filter of the lines is the filter of those before any cut followed by the filter of those after it |
| PiAgent.NonBlankOnly | server/pi/pi-agent/agent.js:111 | nothing is made up: every kept line is the trim of some input line |
| PiAgent.DataLines | server/pi/pi-agent/agent.js:111 | the data lines are trimmed and non-empty |
| PiAgent.DataLinesKeep | server/pi/pi-agent/agent.js:111 | every line after the first two that is not all spaces appears, trimmed, among the data lines |
| PiAgent.DataLinesOnly | server/pi/pi-agent/agent.js:111 | the two header lines are skipped: every data line is the trim of a line from the third on, and there are none for a text of two lines or fewer |
| PiAgent.DataLinesAfterHeader | server/pi/pi-agent/agent.js:111 | the data lines are, in order, what is left of all the non-blank trimmed lines once the header lines' contribution is removed from the front |
| PiAgent.LineBytesOf | server/pi/pi-agent/agent.js:117-123 | a line is loopback iff its interface is "lo", and malformed iff it is not loopback and has no ':'; otherwise rx is the first column and tx the ninth after the colon, 0 when missing or NaN |
| PiAgent.TotalsAppend | server/pi/pi-agent/agent.js:116-124 | the totals of two runs of lines combine into the totals of both |
| PiAgent.LoopbackIgnored | server/pi/pi-agent/agent.js:119 | a loopback line changes no total |
| PiAgent.MalformedFails | server/pi/pi-agent/agent.js:117-121 | one malformed line anywhere aborts the whole sample |
| PiAgent.SumInterfaces | server/pi/pi-agent/agent.js:113-124 | the loop computes exactly the totals over all lines |
| PiAgent.NextNet | server/pi/pi-agent/agent.js:126-144 | both rates or neither; no rates iff the totals failed, there is no baseline or no time elapsed; the baseline is kept on failure or no elapsed time and becomes the sample otherwise; each rate is delta·8/1000/dt rounded to one decimal (a whole number of tenths within 0.05) |
| PiAgent.Kbps | server/pi/pi-agent/agent.js:141-142 | the rate is delta·8/1000/dt kbps rounded to one decimal (a whole number of tenths within 0.05) |
| PiAgent.IdleLinkIsZero | server/pi/pi-agent/agent.js:141-142 | no traffic reads as 0 kbps |
| PiAgent.Agent.constructor | server/pi/pi-agent/agent.js:14-15 | the agent starts with no previous samples |
| PiAgent.Agent.CpuUsagePct | server/pi/pi-agent/agent.js:33-57 | null and the baseline kept for an unreadable file; any readable file becomes the baseline and the usage is measured against the previous one (null on the first) |
| PiAgent.Agent.NetKbps | server/pi/pi-agent/agent.js:108-148 | null rates and the baseline kept for an unreadable file; otherwise the rates and the new baseline are `NextNet` of the old baseline, the totals of the data lines and the clock, and the CPU baseline is unchanged |

## Left out

- Timers, polling and `Promise.all` are scheduling and are not modelled. That covers the client's intervals, the whole of `usePiTelemetry` and the agent's `main` and `tick`.
- agent/agent.py is not part of this model.
- ServerApp.EndpointDb.RunCheck: the handler runs as one atomic step. In the source, the lookup and the insert are separated by `await checkUrl`. A `DELETE /api/endpoints/:id` that lands during that await is not modelled; in the source the INSERT then fails the foreign key, no check row is stored and the handler rejects instead of answering.
- The network is not modelled, because each outcome enters as a parameter:
  - `fetch` in `checkUrl` is a `FetchOutcome` parameter;
  - `fetchJSON` is an optional array of rows;
  - `postTelemetry` is not modelled.
- OS access is not modelled. `fs.readFile`, `exec("df -k /")`, `os.totalmem`/`os.freemem`/`os.loadavg` and `Date.now()` enter as parameters. `getIp` walks `os.networkInterfaces()` and is not modelled.
- SQL execution and DDL are out:
  - The tables are a sequence or map.
  - `ON DELETE CASCADE` (server/db.js:22) is taken to be in force; better-sqlite3 enforces foreign keys by default.
  - SQLite's column affinity and its `datetime('now')` text are not modelled; timestamps are whole seconds.
  - Ties in `ORDER BY … DESC` come back in an order the model picks; only the ordering and the top-n property are stated.
- A non-whole or NaN `LIMIT` is modelled as a rejected query (`Rejected`). The exact SQLite error is not modelled.
- JSX rendering, CSS, the Sparkline's SVG path geometry and the `StatTile` bar are not modelled. Neither are `EndpointForm`, `EndpointList`, the live-log rows and the `device?.name` / `ip || "N/A"` displays.
- `windowToCount` and `speedToMs` are constant lookups that only feed polling. They are not modelled.
- The `/devices` and health routes are single queries with no logic. They are not modelled.
- `Number()` covers decimal text with an optional sign and fraction. Exponent, hex, `Infinity` and other forms read as NaN in the model.
- `String()` of a non-integer number, and `toFixed` for values of 1e21 and above, are not modelled exactly.
- IEEE-754 rounding and boundaries are not modelled: numbers are exact reals.
- The id handlers of `server/app.js` take `Number(req.params.id)` as a parameter; `IdParam` models that conversion.
- `Date.parse` in `timeAgo` is a parameter (`None` for NaN).
- `toUpperCase` is modelled for ASCII letters only.
- `localeCompare` is replaced by code-point order on ids (a character here is a Unicode scalar value).
- ClientApp.LatestRows: states only that there are no more latest rows than endpoints. It does not state which rows are kept, because `filter(Boolean)` on the entry map is a plain filter.
- NaN readings in the agent's payload would reach the server as JSON `null`. The model keeps them as `NotANumber` or `None` and does not model the serialisation.
- PiAgent.NetKbps: the loop over `/proc/net/dev` runs over lines parsed beforehand (`Parsed`) rather than parsing inside the loop. The results are the same, but the loop's throw on a malformed line shows up as a `Malformed` entry in the totals.
- PiAgent.DiskUsage: states which fields are null. It does not state the gigabyte values for a given `df` text; `GbOfKb` states the conversion.
- PiMemory.PiMemoryStore.Ingest: a device id naming a member that every JavaScript object inherits (`constructor`, `toString`, `__proto__` and the like) is treated as a fresh key. In the source, `historyByPi[piId]` is then an inherited truthy value: `pushHistory` throws after `latestByPi` was written and the answer is 500. The model answers 200, because maps here have no prototype.
- PiMemory.PiMemoryStore.History: for such an inherited id, `historyByPi[piId] || []` is the inherited value, not []; the model returns [].
- Js.Value has no JSON objects or arrays. So a truthy array id such as `[]`, whose `String()` is "", and object-valued readings are not modelled.
- PiRoutes.PiDatabase.Ingest: an object- or array-valued reading makes better-sqlite3 refuse the metric insert after the device upsert already ran; the model cannot express such a reading (see the line above).
- PiRoutes.DeviceName: `slice(0, 60)` counts UTF-16 code units, while a character here is a Unicode scalar value. A name with characters outside the Basic Multilingual Plane keeps fewer characters in the source, and the source can split a surrogate pair; the model keeps 60 characters.
- better-sqlite3 refuses boolean bindings. The model treats a boolean reading in `pi.routes.js` as stored unchanged.
