/** The derived statistics of the dashboard client (client/src/App.jsx): the
    telemetry drawer's window statistics, the insight panel, the system summary
    chip, URL normalisation, relative times, and the per-endpoint `latest` and
    `history` maps the polling loops keep. */
module ClientApp {
  import opened Js
  import Sorting

  /** One row of `GET /api/checks/:id`. `ms` is `Number(r.ms)`, None when that is
      NaN; the column is an INTEGER, so a finite latency is a whole number. */
  datatype CheckRow = CheckRow(ok: Value, status: Option<int>, ms: Option<int>, createdAt: string)

  /** `r.ok === 1 || r.ok === true` */
  predicate IsUp(r: CheckRow) {
    r.ok == Num(1.0) || r.ok == Bool(true)
  }

  predicate AllUp(rows: seq<CheckRow>) {
    forall i :: 0 <= i < |rows| ==> IsUp(rows[i])
  }

  /** The finite latencies of a window, in row order:
      `rows.map((r) => Number(r.ms)).filter((n) => Number.isFinite(n))`. */
  function Latencies(rows: seq<CheckRow>): (ms: seq<int>)
    ensures |ms| <= |rows|
    ensures forall v :: v in ms <==> Some(v) in Ms(rows)
  {
    if rows == [] then []
    else
      assert Ms(rows) == [rows[0].ms] + Ms(rows[1..]);
      (if rows[0].ms.Some? then [rows[0].ms.value] else []) + Latencies(rows[1..])
  }

  /** The latency column of a window. */
  function Ms(rows: seq<CheckRow>): (r: seq<Option<int>>)
    ensures |r| == |rows| && forall i :: 0 <= i < |rows| ==> r[i] == rows[i].ms
  {
    seq(|rows|, i requires 0 <= i < |rows| => rows[i].ms)
  }

  /** The number of rows that are not up, counted from the oldest end so that a
      left-to-right loop can keep it as an invariant. */
  function DownCount(rows: seq<CheckRow>): nat {
    if rows == [] then 0
    else DownCount(rows[..|rows| - 1]) + (if IsUp(rows[|rows| - 1]) then 0 else 1)
  }

  function UpCount(rows: seq<CheckRow>): nat {
    if rows == [] then 0
    else UpCount(rows[..|rows| - 1]) + (if IsUp(rows[|rows| - 1]) then 1 else 0)
  }

  /** Every row is up or down, never both. */
  lemma {:induction false} UpDownPartition(rows: seq<CheckRow>)
    ensures UpCount(rows) + DownCount(rows) == |rows|
  {
    if rows != [] { UpDownPartition(rows[..|rows| - 1]); }
  }

  /** The down count is zero exactly when every row is up. */
  lemma {:induction false} DownCountZero(rows: seq<CheckRow>)
    ensures DownCount(rows) == 0 <==> AllUp(rows)
  {
    if rows != [] {
      var front := rows[..|rows| - 1];
      DownCountZero(front);
      if AllUp(rows) {
        assert AllUp(front) by {
          forall i | 0 <= i < |front| ensures IsUp(front[i]) { assert front[i] == rows[i]; }
        }
      }
      if DownCount(rows) == 0 {
        forall i | 0 <= i < |rows| ensures IsUp(rows[i]) {
          if i < |front| { assert rows[i] == front[i]; }
        }
      }
    }
  }

  // ---------------------------------------------------------------------------
  // drawerStats

  /** p95, min and max latency and the down percentage of the drawer's window. */
  datatype WindowStats = WindowStats(p95: Option<int>, min: Option<int>, max: Option<int>, downPct: Option<int>)

  /** `Math.floor(0.95 * (n - 1))`, exact for the windows of at most 50 rows the
      drawer is fed. */
  function P95Index(n: nat): (k: nat)
    requires n > 0
    ensures k < n
  {
    95 * (n - 1) / 100
  }

  /** `Math.round((down / n) * 100)` */
  function DownPercent(down: nat, n: nat): int
    requires 0 < n
  {
    Round(down as real / n as real * 100.0)
  }

  function Latency(x: int): int { x }

  /** `[...ms].sort((a, b) => a - b)` */
  function SortNumbers(ms: seq<int>): (r: seq<int>)
    ensures |r| == |ms| && multiset(r) == multiset(ms)
    ensures forall i, j :: 0 <= i < j < |r| ==> r[i] <= r[j]
  {
    var r := Sorting.SortBy(ms, Latency);
    assert |multiset(r)| == |multiset(ms)|;
    r
  }

  /** The first and the last of the sorted latencies bound every latency, and every
      sorted entry is one of them. */
  lemma SortedEnds(ms: seq<int>)
    requires ms != []
    ensures var s := SortNumbers(ms);
      && (forall k :: 0 <= k < |s| ==> s[k] in ms)
      && (forall v :: v in ms ==> s[0] <= v <= s[|s| - 1])
  {
    var s := SortNumbers(ms);
    forall k | 0 <= k < |s| ensures s[k] in ms {
      assert s[k] in multiset(s);
    }
    forall v | v in ms ensures s[0] <= v <= s[|s| - 1] {
      assert v in multiset(s);
      var j :| 0 <= j < |s| && s[j] == v;
    }
  }

  function DrawerStats(rows: seq<CheckRow>): (r: WindowStats)
    ensures r.downPct.None? <==> rows == []
    ensures r.min.None? <==> Latencies(rows) == []
    ensures r.max.None? <==> Latencies(rows) == []
    ensures r.p95.None? <==> Latencies(rows) == []
    ensures rows != [] ==> r.downPct == Some(DownPercent(DownCount(rows), |rows|))
    ensures Latencies(rows) != [] ==> var s := SortNumbers(Latencies(rows));
      r.p95 == Some(s[P95Index(|s|)]) && r.min == Some(s[0]) && r.max == Some(s[|s| - 1])
  {
    if rows == [] then WindowStats(None, None, None, None)
    else LatencyStats(Latencies(rows), Some(DownPercent(DownCount(rows), |rows|)))
  }

  /** The latency half of `drawerStats`, over the finite latencies `ms`. */
  function LatencyStats(ms: seq<int>, pct: Option<int>): (r: WindowStats)
    ensures r.downPct == pct
    ensures r.min.None? <==> ms == []
    ensures r.max.None? <==> ms == []
    ensures r.p95.None? <==> ms == []
    ensures ms != [] ==> var s := SortNumbers(ms);
      r.p95 == Some(s[P95Index(|s|)]) && r.min == Some(s[0]) && r.max == Some(s[|s| - 1])
  {
    if ms == [] then WindowStats(None, None, None, pct)
    else
      var sorted := SortNumbers(ms);
      var n := |sorted|;
      WindowStats(Some(sorted[P95Index(n)]), Some(sorted[0]), Some(sorted[n - 1]), pct)
  }

  /** With at least one finite latency, min and max are the smallest and the largest
      of them, and p95 is one of them lying between the two. */
  lemma DrawerStatsOrder(rows: seq<CheckRow>)
    requires Latencies(rows) != []
    ensures var r := DrawerStats(rows);
      && r.min.Some? && r.p95.Some? && r.max.Some?
      && r.min.value in Latencies(rows) && r.p95.value in Latencies(rows) && r.max.value in Latencies(rows)
      && (forall v :: v in Latencies(rows) ==> r.min.value <= v <= r.max.value)
      && r.min.value <= r.p95.value <= r.max.value
  {
    var ms := Latencies(rows);
    var s := SortNumbers(ms);
    SortedEnds(ms);
    var lo, mid, hi := s[0], s[P95Index(|s|)], s[|s| - 1];
    var r := DrawerStats(rows);
    assert r.min == Some(lo) && r.p95 == Some(mid) && r.max == Some(hi);
    assert lo in ms && mid in ms && hi in ms;
    assert lo <= mid <= hi;
  }

  /** The down percentage lies in [0, 100], is 0 when every row is up, and for
      windows of at most 200 rows is 0 only then. */
  lemma DownPercentBounds(rows: seq<CheckRow>)
    requires rows != []
    ensures var pct := DrawerStats(rows).downPct.value;
      && 0 <= pct <= 100
      && (AllUp(rows) ==> pct == 0)
      && (|rows| <= 200 && pct == 0 ==> AllUp(rows))
  {
    UpDownPartition(rows);
    DownCountZero(rows);
    DownPercentRange(DownCount(rows), |rows|);
  }

  lemma DownPercentRange(down: nat, n: nat)
    requires 0 < n && down <= n
    ensures 0 <= DownPercent(down, n) <= 100
    ensures down == 0 ==> DownPercent(down, n) == 0
    ensures 0 < down && n <= 200 ==> DownPercent(down, n) > 0
  {
    ShareInUnit(down as real, n as real);
    if 0 < down && n <= 200 {
      ShareAtLeast(down as real, n as real);
    }
  }

  lemma ShareInUnit(d: real, m: real)
    requires 0.0 <= d <= m && 0.0 < m
    ensures 0.0 <= d / m <= 1.0
  {
  }

  lemma ShareAtLeast(d: real, m: real)
    requires 1.0 <= d && 0.0 < m <= 200.0
    ensures d / m >= 0.005
  {
  }

  // ---------------------------------------------------------------------------
  // insight

  datatype Volatility = Low | Medium | High

  /** The three recommendation texts and the one shown below six samples. */
  datatype Advice = CollectMoreSamples | InvestigateDowntime | AlertOnP95 | LooksStable

  datatype Insight = Insight(volatility: Volatility, spike: bool, advice: Advice)

  function AnomalyText(spike: bool): string {
    if spike then "Latency spike detected" else "No anomaly detected"
  }

  function AdviceText(a: Advice): string {
    match a
    case CollectMoreSamples => "Collect more samples to build a baseline."
    case InvestigateDowntime => "Investigate downtime events. Add retries and log upstream dependencies."
    case AlertOnP95 => "Consider setting alerts for latency p95. Check network, DNS, or rate limits."
    case LooksStable => "Looks stable. Add an alert threshold and monitor p95."
  }

  function Sum(xs: seq<int>): int {
    if xs == [] then 0 else xs[0] + Sum(xs[1..])
  }

  /** `ms.reduce((a, b) => a + b, 0) / (ms.length || 1)` */
  function Mean(xs: seq<int>): real {
    Sum(xs) as real / (if xs == [] then 1 else |xs|) as real
  }

  function SquaredDeviations(xs: seq<int>, m: real): (r: real)
    ensures r >= 0.0
  {
    if xs == [] then 0.0 else (xs[0] as real - m) * (xs[0] as real - m) + SquaredDeviations(xs[1..], m)
  }

  /** The population variance, `std * std` in the source. */
  function Variance(xs: seq<int>): (v: real)
    ensures v >= 0.0
  {
    SquaredDeviations(xs, Mean(xs)) / (if xs == [] then 1 else |xs|) as real
  }

  /** `Number(r.ms) || 0` */
  function MsOrZero(r: CheckRow): int {
    if r.ms.Some? then r.ms.value else 0
  }

  /** The volatility tier of a window of the given variance: `std > 120` is
      `variance > 14400` and `std > 60` is `variance > 3600`. */
  function VolatilityOf(variance: real): Volatility {
    if variance > 14400.0 then High else if variance > 3600.0 then Medium else Low
  }

  /** `latest > avg + 2 * std`, written without the square root as
      `latest > avg && (latest - avg)^2 > 4 * variance`. */
  predicate Spike(latest: real, avg: real, variance: real) {
    latest > avg && (latest - avg) * (latest - avg) > 4.0 * variance
  }

  /** The insight panel of the drawer. */
  function InsightOf(rows: seq<CheckRow>): (r: Insight)
    ensures |rows| < 6 ==> r == Insight(Low, false, CollectMoreSamples)
    ensures |rows| >= 6 ==> var ms := Latencies(rows);
      && r.volatility == VolatilityOf(Variance(ms))
      && (r.spike <==> Spike(MsOrZero(rows[0]) as real, Mean(ms), Variance(ms)))
    ensures |rows| >= 6 ==> (r.advice == InvestigateDowntime <==> !AllUp(rows))
    ensures |rows| >= 6 ==> (r.advice == AlertOnP95 <==> AllUp(rows) && r.spike)
    ensures |rows| >= 6 ==> (r.advice == LooksStable <==> AllUp(rows) && !r.spike)
  {
    if |rows| < 6 then Insight(Low, false, CollectMoreSamples)
    else
      var ms := Latencies(rows);
      var spike := Spike(MsOrZero(rows[0]) as real, Mean(ms), Variance(ms));
      DownCountZero(rows);
      var advice := if DownCount(rows) > 0 then InvestigateDowntime
                    else if spike then AlertOnP95
                    else LooksStable;
      Insight(VolatilityOf(Variance(ms)), spike, advice)
  }

  lemma SquareLess(a: real, b: real)
    requires 0.0 <= a < b
    ensures a * a < b * b
  {
    var d := b - a;
    assert b * b == a * a + 2.0 * a * d + d * d;
  }

  /** For non-negative numbers, comparing squares is comparing the numbers. */
  lemma SquareMonotone(a: real, b: real)
    requires 0.0 <= a && 0.0 <= b
    ensures a < b <==> a * a < b * b
  {
    if a < b { SquareLess(a, b); } else if b < a { SquareLess(b, a); }
  }

  /** With `std` the standard deviation, volatility is High iff `std > 120`, Medium
      iff `60 < std <= 120`, and Low otherwise. */
  lemma VolatilityByStd(std: real)
    requires std >= 0.0
    ensures VolatilityOf(std * std) == High <==> std > 120.0
    ensures VolatilityOf(std * std) == Medium <==> 60.0 < std <= 120.0
    ensures VolatilityOf(std * std) == Low <==> std <= 60.0
  {
    SquareMonotone(120.0, std);
    SquareMonotone(60.0, std);
  }

  /** With `std` the standard deviation, a spike is `latest > avg + 2 * std`. */
  lemma SpikeByStd(latest: real, avg: real, std: real)
    requires std >= 0.0
    ensures Spike(latest, avg, std * std) <==> latest > avg + 2.0 * std
  {
    var d := latest - avg;
    assert (2.0 * std) * (2.0 * std) == 4.0 * (std * std);
    if d >= 0.0 {
      SquareMonotone(2.0 * std, d);
    }
  }

  lemma {:induction false} SumOfConstant(xs: seq<int>, v: int)
    requires forall i :: 0 <= i < |xs| ==> xs[i] == v
    ensures Sum(xs) == |xs| * v
  {
    if xs != [] { SumOfConstant(xs[1..], v); }
  }

  lemma {:induction false} LatenciesOfNaN(rows: seq<CheckRow>)
    requires forall i :: 0 <= i < |rows| ==> rows[i].ms.None?
    ensures Latencies(rows) == []
  {
    if rows != [] { LatenciesOfNaN(rows[1..]); }
  }

  lemma {:induction false} LatenciesOfConstant(rows: seq<CheckRow>, v: int)
    requires forall i :: 0 <= i < |rows| ==> rows[i].ms == Some(v)
    ensures |Latencies(rows)| == |rows|
    ensures forall i :: 0 <= i < |rows| ==> Latencies(rows)[i] == v
  {
    if rows != [] { LatenciesOfConstant(rows[1..], v); }
  }

  /** The mean of equal latencies is their common value. */
  lemma MeanOfConstant(xs: seq<int>, v: int)
    requires xs != []
    requires forall i :: 0 <= i < |xs| ==> xs[i] == v
    ensures Mean(xs) == v as real
  {
    SumOfConstant(xs, v);
    assert (|xs| * v) as real == |xs| as real * v as real;
  }

  /** A window whose rows all carry the same latency is never flagged. */
  lemma UniformWindowHasNoSpike(rows: seq<CheckRow>)
    requires forall i :: 0 <= i < |rows| ==> rows[i].ms == rows[0].ms
    ensures !InsightOf(rows).spike
  {
    if |rows| >= 6 {
      match rows[0].ms
      case None =>
        LatenciesOfNaN(rows);
      case Some(v) =>
        LatenciesOfConstant(rows, v);
        MeanOfConstant(Latencies(rows), v);
    }
  }

  // ---------------------------------------------------------------------------
  // systemSummary

  datatype Tone = Neutral | Good | Bad

  datatype Summary = Summary(
    avgMs: Option<int>, statusLabel: string, statusTone: Tone,
    downCount: nat, upCount: nat, checkedCount: nat)

  /** `endpoints.map((e) => latest[e.id]).filter(Boolean)`: the newest row of every
      listed endpoint that has one (a missing key and a null entry both drop out). */
  function LatestRows(ids: seq<int>, latest: map<int, Option<CheckRow>>): (rows: seq<CheckRow>)
    ensures |rows| <= |ids|
  {
    if ids == [] then []
    else
      var head := if ids[0] in latest && latest[ids[0]].Some? then [latest[ids[0]].value] else [];
      var rest := LatestRows(ids[1..], latest);
      head + rest
  }

  /** `latestRows.reduce((sum, r) => sum + (Number(r.ms) || 0), 0)` */
  function MsTotal(rows: seq<CheckRow>): int {
    if rows == [] then 0 else MsOrZero(rows[0]) + MsTotal(rows[1..])
  }

  /** "endpoint", with the plural "s" unless exactly one is down. */
  function DownNoun(down: nat): (r: string)
    ensures ' ' !in r && (r == "endpoint" <==> down == 1)
  {
    "endpoint" + (if down == 1 then "" else "s")
  }

  function StatusLabel(checked: nat, down: nat): string {
    if down > 0 then IntText(down) + " " + DownNoun(down) + " down"
    else if checked > 0 then "All systems stable"
    else "No checks yet"
  }

  function StatusTone(checked: nat, down: nat): Tone {
    if down > 0 then Bad else if checked > 0 then Good else Neutral
  }

  /** The summary chip: counts the up and the down endpoints in one pass. */
  method SystemSummary(ids: seq<int>, latest: map<int, Option<CheckRow>>) returns (s: Summary)
    ensures var rows := LatestRows(ids, latest);
      && s.checkedCount == |rows|
      && s.upCount == UpCount(rows) && s.downCount == DownCount(rows)
      && s.upCount + s.downCount == s.checkedCount
      && s.avgMs == (if rows == [] then None else Some(Round(MsTotal(rows) as real / |rows| as real)))
      && s.statusLabel == StatusLabel(s.checkedCount, s.downCount)
      && s.statusTone == StatusTone(s.checkedCount, s.downCount)
  {
    var rows := LatestRows(ids, latest);
    var up, down := CountUpDown(rows);
    UpDownPartition(rows);
    var avgMs := if |rows| > 0 then Some(Round(MsTotal(rows) as real / |rows| as real)) else None;
    s := Summary(avgMs, StatusLabel(|rows|, down), StatusTone(|rows|, down), down, up, |rows|);
  }

  /** The counting loop of `systemSummary`: one pass over the rows. */
  method CountUpDown(rows: seq<CheckRow>) returns (up: nat, down: nat)
    ensures up == UpCount(rows) && down == DownCount(rows)
  {
    up, down := 0, 0;
    var i := 0;
    while i < |rows|
      invariant 0 <= i <= |rows|
      invariant up == UpCount(rows[..i]) && down == DownCount(rows[..i])
    {
      assert rows[..i + 1][..i] == rows[..i];
      if IsUp(rows[i]) {
        up := up + 1;
      } else {
        down := down + 1;
      }
      i := i + 1;
    }
    assert rows[..i] == rows;
  }

  /** A number, a word and "down", separated by single spaces, split into those
      three words. */
  lemma DownLabelWords(n: string, noun: string)
    requires AllDigits(n) && ' ' !in noun
    ensures Split(n + " " + noun + " down", ' ') == [n, noun, "down"]
  {
    assert ' ' !in n;
    assert n + " " + noun + " down" == n + [' '] + (noun + [' '] + "down");
    SplitFirst(n, ' ', noun + [' '] + "down");
    SplitFirst(noun, ' ', "down");
    assert Split("down", ' ') == ["down"];
  }

  /** The three labels never coincide: a "down" label starts with a digit. */
  lemma StatusLabelCases(checked: nat, down: nat)
    requires down <= checked
    ensures StatusLabel(checked, down) == "No checks yet" <==> checked == 0
    ensures StatusLabel(checked, down) == "All systems stable" <==> checked > 0 && down == 0
  {
    var text := StatusLabel(checked, down);
    if down > 0 {
      var n := NatText(down);
      assert IntText(down) == n;
      assert text[0] == n[0] && IsDigit(n[0]);
      assert text[0] != "No checks yet"[0] && text[0] != "All systems stable"[0];
    } else {
      assert "No checks yet"[0] != "All systems stable"[0];
    }
  }

  /** A "down" label is the down count, "endpoint" or "endpoints", and "down",
      separated by single spaces. */
  lemma DownLabelSplit(checked: nat, down: nat)
    requires 0 < down
    ensures Split(StatusLabel(checked, down), ' ') == [IntText(down), DownNoun(down), "down"]
  {
    assert IntText(down) == NatText(down);
    DownLabelWords(IntText(down), DownNoun(down));
  }

  /** A "down" label names the down count in its first word, with "endpoint"
      singular exactly for one. */
  lemma DownLabelReadsBack(checked: nat, down: nat)
    requires 0 < down
    ensures var words := Split(StatusLabel(checked, down), ' ');
      && |words| == 3 && ParseNumber(words[0]) == Some(down as real)
      && words[1] == DownNoun(down) && words[2] == "down"
  {
    DownLabelSplit(checked, down);
    IntTextRoundTrip(down);
  }

  // ---------------------------------------------------------------------------
  // normalizeUrl

  predicate HasHttpScheme(s: string) {
    "http://" <= s || "https://" <= s
  }

  /** `normalizeUrl(raw)` with the protocol selected in the form. */
  function NormalizeUrl(raw: string, protocol: string): (r: string)
    ensures r == "" <==> AllSpace(raw)
    ensures r != "" ==> |Trim(raw)| <= |r| && r[|r| - |Trim(raw)|..] == Trim(raw)
    ensures r != "" && HasHttpScheme(protocol) ==> HasHttpScheme(r)
    ensures HasHttpScheme(Trim(raw)) ==> r == Trim(raw)
    ensures !AllSpace(raw) && !HasHttpScheme(Trim(raw)) ==> r == protocol + Trim(raw)
  {
    var s := Trim(raw);
    if s == "" then ""
    else if HasHttpScheme(s) then s
    else
      SchemeKept(protocol, s);
      protocol + s
  }

  /** A protocol prefix keeps its scheme whatever follows it, and what follows
      it is the suffix. */
  lemma SchemeKept(protocol: string, s: string)
    ensures (protocol + s)[|protocol|..] == s
    ensures HasHttpScheme(protocol) ==> HasHttpScheme(protocol + s)
  {
    var r := protocol + s;
    if "http://" <= protocol {
      assert r[..|"http://"|] == protocol[..|"http://"|];
    }
    if "https://" <= protocol {
      assert r[..|"https://"|] == protocol[..|"https://"|];
    }
  }

  /** With an http or https protocol selected, normalising twice is normalising once. */
  lemma NormalizeUrlIdempotent(raw: string, protocol: string)
    requires protocol == "http://" || protocol == "https://"
    ensures NormalizeUrl(NormalizeUrl(raw, protocol), protocol) == NormalizeUrl(raw, protocol)
  {
    var s := Trim(raw);
    if s != "" {
      if HasHttpScheme(s) {
        NormalizedStays(s, protocol);
      } else {
        var r := protocol + s;
        SchemeKept(protocol, s);
        assert r[0] == protocol[0] && r[|r| - 1] == s[|s| - 1];
        NormalizedStays(r, protocol);
      }
    }
  }

  /** A trimmed url that already has a scheme is left as it is. */
  lemma NormalizedStays(url: string, protocol: string)
    requires url != "" && Trimmed(url) && HasHttpScheme(url)
    ensures NormalizeUrl(url, protocol) == url
  {
    TrimOfTrimmed(url);
  }

  // ---------------------------------------------------------------------------
  // timeAgo

  datatype Ago = Never | Unparsed(text: string) | JustNow
               | SecondsAgo(n: int) | MinutesAgo(n: int) | HoursAgo(n: int) | DaysAgo(n: int)

  /** `timeAgo(createdAt)`. `parsedMs` is what `Date.parse` gives for the ISO form of
      `createdAt` (None for NaN), `nowMs` is `Date.now()`. */
  function AgoOf(createdAt: string, parsedMs: Option<int>, nowMs: int): Ago {
    if createdAt == "" then Never
    else match parsedMs
      case None => Unparsed(createdAt)
      case Some(t) =>
        var sec := (nowMs - t) / 1000;
        if sec < 10 then JustNow
        else if sec < 60 then SecondsAgo(sec)
        else
          var min := sec / 60;
          if min < 60 then MinutesAgo(min)
          else
            var hr := min / 60;
            if hr < 24 then HoursAgo(hr) else DaysAgo(hr / 24)
  }

  function AgoText(a: Ago): string {
    match a
    case Never => "never"
    case Unparsed(text) => text
    case JustNow => "just now"
    case SecondsAgo(n) => IntText(n) + "s ago"
    case MinutesAgo(n) => IntText(n) + "m ago"
    case HoursAgo(n) => IntText(n) + "h ago"
    case DaysAgo(n) => IntText(n) + "d ago"
  }

  /** Each bucket holds exactly the ages its unit covers: the count is the age in that
      unit rounded down and stays below the next unit. */
  lemma AgoBuckets(createdAt: string, t: int, nowMs: int)
    requires createdAt != ""
    ensures var diff := nowMs - t;
      match AgoOf(createdAt, Some(t), nowMs)
      case JustNow => diff < 10000
      case SecondsAgo(n) => 10 <= n < 60 && n * 1000 <= diff < (n + 1) * 1000
      case MinutesAgo(n) => 1 <= n < 60 && n * 60000 <= diff < (n + 1) * 60000
      case HoursAgo(n) => 1 <= n < 24 && n * 3600000 <= diff < (n + 1) * 3600000
      case DaysAgo(n) => 1 <= n && n * 86400000 <= diff < (n + 1) * 86400000
      case _ => false
  {
    var diff := nowMs - t;
    var sec := diff / 1000;
    assert sec * 1000 <= diff < (sec + 1) * 1000;
    if sec >= 60 {
      var min := sec / 60;
      assert min * 60 <= sec < (min + 1) * 60;
      if min >= 60 {
        var hr := min / 60;
        assert hr * 60 <= min < (hr + 1) * 60;
        if hr >= 24 {
          var d := hr / 24;
          assert d * 24 <= hr < (d + 1) * 24;
        }
      }
    }
  }

  // ---------------------------------------------------------------------------
  // The latest and history maps

  /** The client's per-endpoint state: the newest row (null when the endpoint has no
      rows) and the window shown in the drawer. */
  datatype Telemetry = Telemetry(latest: map<int, Option<CheckRow>>, history: map<int, seq<CheckRow>>)

  /** Every endpoint with an entry has both entries, and its latest row is the head
      of its history. */
  ghost predicate Consistent(t: Telemetry) {
    && t.latest.Keys == t.history.Keys
    && forall id :: id in t.latest ==>
         |t.history[id]| <= 50 && t.latest[id] == (if t.history[id] == [] then None else Some(t.history[id][0]))
  }

  /** A refresh after `loadChecksFor(id, limit)`: `fetched` is the array the server
      sent (None when the request failed or the body was not an array); `latest[id]`
      becomes `rows[0] ?? null` and `history[id]` becomes `rows.slice(0, 50)`. */
  function Refresh(t: Telemetry, id: int, fetched: Option<seq<CheckRow>>, limit: nat): (r: Telemetry)
    ensures r.latest.Keys == t.latest.Keys + {id} && r.history.Keys == t.history.Keys + {id}
    ensures forall k :: k in t.latest && k != id ==> r.latest[k] == t.latest[k]
    ensures forall k :: k in t.history && k != id ==> r.history[k] == t.history[k]
    ensures fetched.None? ==> r.latest[id] == None && r.history[id] == []
    ensures fetched.Some? ==>
      && |r.history[id]| == Min(50, Min(limit, |fetched.value|))
      && r.history[id] == fetched.value[..|r.history[id]|]
      && r.latest[id] == (if limit == 0 || fetched.value == [] then None else Some(fetched.value[0]))
    ensures Consistent(t) ==> Consistent(r)
  {
    var rows := Take(if fetched.Some? then fetched.value else [], limit);
    var history := Take(rows, 50);
    Telemetry(t.latest[id := if rows == [] then None else Some(rows[0])], t.history[id := history])
  }

  /** `removeEndpoint`: both entries of the endpoint are deleted. */
  function Forget(t: Telemetry, id: int): (r: Telemetry)
    ensures id !in r.latest && id !in r.history
    ensures forall k :: k != id ==> (k in r.latest <==> k in t.latest) && (k in r.history <==> k in t.history)
    ensures forall k :: k in r.latest ==> r.latest[k] == t.latest[k]
    ensures forall k :: k in r.history ==> r.history[k] == t.history[k]
    ensures Consistent(t) ==> Consistent(r)
  {
    Telemetry(t.latest - {id}, t.history - {id})
  }
}
