/** The formatting of the Raspberry Pi dashboard (client/src/pi/PiDashboard.jsx):
    percentages of used memory and disk, the ratio and uptime texts, the load and
    network lines and the chart series. A telemetry row or the latest payload is a
    JSON object; `Number(x).toFixed(d)` is written out on exact decimals. */
module PiDashboard {
  import opened Js

  /** `Math.max(a, Math.min(b, n))` */
  function Clamp(n: real, a: real, b: real): (r: real)
    ensures a <= b ==> a <= r <= b
    ensures a <= n <= b ==> r == n
    ensures a <= b && n < a ==> r == a
    ensures a <= b && b < n ==> r == b
  {
    MathMax(a, MathMin(b, n))
  }

  /** Clamping an already clamped number changes nothing. */
  lemma ClampIdempotent(n: real, a: real, b: real)
    requires a <= b
    ensures Clamp(Clamp(n, a, b), a, b) == Clamp(n, a, b)
  {
  }

  /** `Number(x)` for a value `isNum` accepts. */
  function Number(v: Value): real
    requires IsNum(v)
  {
    ToNumber(v).value
  }

  // ---------------------------------------------------------------------------
  // toFixed

  /** The digits of `n / 10` with one decimal: `n` tenths written out. */
  function TenthsText(n: nat): (r: string)
    ensures |r| >= 3 && IsDigit(r[0]) && IsDigit(r[|r| - 1])
  {
    NatText(n / 10) + "." + [DigitChar(n % 10)]
  }

  /** `x.toFixed(1)`: the sign of a negative number, then the tenths nearest to its
      magnitude, a half rounded away from zero. */
  function ToFixed1(x: real): (r: string)
    ensures |r| >= 3 && IsDigit(r[|r| - 1])
  {
    if x < 0.0 then SignedTenths(true, Round(-x * 10.0)) else SignedTenths(false, Round(x * 10.0))
  }

  /** `n` tenths, after a minus sign when `negative`. */
  function SignedTenths(negative: bool, n: nat): (r: string)
    ensures |r| >= 3 && IsDigit(r[|r| - 1])
  {
    if negative then "-" + TenthsText(n) else TenthsText(n)
  }

  /** `x.toFixed(0)` for a number that is not negative. */
  function ToFixed0(x: real): (r: string)
    requires x >= 0.0
    ensures |r| >= 1 && AllDigits(r)
  {
    NatText(Round(x))
  }

  /** The text of `n` tenths reads back as `n / 10`. */
  lemma TenthsTextParses(n: nat)
    ensures ParseUnsigned(TenthsText(n)) == Some(n as real / 10.0)
  {
    var whole := NatText(n / 10);
    var t := TenthsText(n);
    NoDotInDigits(whole);
    assert t == whole + "." + [DigitChar(n % 10)];
    assert t[|whole|] == '.';
    assert t[..|whole|] == whole;
    assert IndexOf(t, '.') == Some(|whole|);
    assert t[|whole| + 1..] == [DigitChar(n % 10)];
    DigitsValueOfNatText(n / 10);
    assert FractionValue([DigitChar(n % 10)]) == (n % 10) as real / 10.0;
    assert n == (n / 10) * 10 + n % 10;
  }

  /** Tenths with no sign read back as a positive number. */
  lemma UnsignedTenthsParse(n: nat)
    ensures ParseNumber(SignedTenths(false, n)) == Some(n as real / 10.0)
  {
    TenthsTextParses(n);
    UnsignedReads(SignedTenths(false, n), n as real / 10.0);
  }

  /** Tenths after a minus sign read back negated. */
  lemma NegativeTenthsParse(n: nat)
    ensures ParseNumber(SignedTenths(true, n)) == Some(-(n as real / 10.0))
  {
    var r, t := SignedTenths(true, n), TenthsText(n);
    MinusTenthsShape(r, t, n);
    TenthsTextParses(n);
    MinusReads(r, n as real / 10.0);
  }

  lemma MinusTenthsShape(r: string, t: string, n: nat)
    requires r == SignedTenths(true, n) && t == TenthsText(n)
    ensures |r| >= 2 && r[0] == '-' && r[1..] == t && IsDigit(r[1]) && IsDigit(r[|r| - 1])
  {
    assert r[1..] == t;
    assert r[1] == t[0] && r[|r| - 1] == t[|t| - 1];
  }

  /** Signed tenths read back as their value. */
  lemma SignedTenthsParse(negative: bool, n: nat)
    ensures ParseNumber(SignedTenths(negative, n)) == Some(if negative then -(n as real / 10.0) else n as real / 10.0)
  {
    if negative {
      NegativeTenthsParse(n);
    } else {
      UnsignedTenthsParse(n);
    }
  }

  /** `Number(x.toFixed(1))` is the whole number `n` of tenths the magnitude of `x`
      rounds to, with the sign of `x`, and lies within 0.05 of `x`. */
  lemma ToFixed1ReadsBack(x: real, n: nat)
    requires n == if x < 0.0 then Round(-x * 10.0) else Round(x * 10.0)
    ensures ParseNumber(ToFixed1(x)) == Some(if x < 0.0 then -(n as real / 10.0) else n as real / 10.0)
    ensures var v := if x < 0.0 then -(n as real / 10.0) else n as real / 10.0;
      v - 0.05 <= x <= v + 0.05
  {
    assert ToFixed1(x) == SignedTenths(x < 0.0, n);
    SignedTenthsParse(x < 0.0, n);
  }

  // ---------------------------------------------------------------------------
  // Number formatting

  /** `fmt1(x)` */
  function Fmt1(v: Value): (r: string)
    ensures r == "N/A" <==> !IsNum(v)
  {
    if IsNum(v) then ToFixed1(Number(v)) else "N/A"
  }

  /** `fmtInt(x)` */
  function FmtInt(v: Value): (r: string)
    ensures r == "N/A" <==> !IsNum(v)
  {
    if IsNum(v) then IntText(Round(Number(v))) else "N/A"
  }

  /** The whole number `fmtInt` writes reads back as the nearest integer to `x`. */
  lemma FmtIntReadsBack(v: Value, k: int)
    requires IsNum(v) && k == Round(Number(v))
    ensures ParseNumber(FmtInt(v)) == Some(k as real)
    ensures k as real - 0.5 <= Number(v) < k as real + 0.5
  {
    IntTextRoundTrip(k);
  }

  /** `fmtPct(x)`: the one-decimal text with a percent sign, or "N/A". */
  function FmtPct(v: Value): (r: string)
    ensures r == "N/A" <==> !IsNum(v)
    ensures IsNum(v) ==> |r| >= 4 && r[|r| - 1] == '%' && r[..|r| - 1] == Fmt1(v)
  {
    if IsNum(v) then Fmt1(v) + "%" else "N/A"
  }

  /** The unit a ratio is written in: `fmtMb` or `fmtGb`. */
  datatype Unit = Mb | Gb

  /** `fmtMb(x)` (whole megabytes) or `fmtGb(x)` (gigabytes to one decimal). */
  function UnitText(unit: Unit, v: Value): (r: string)
    ensures IsNum(v) ==> |r| >= 4
    ensures !IsNum(v) ==> r == "N/A"
  {
    if !IsNum(v) then "N/A"
    else match unit
      case Mb => IntText(Round(Number(v))) + " MB"
      case Gb => ToFixed1(Number(v)) + " GB"
  }

  /** Whether a used/total pair can be shown: both numeric and a positive total. */
  predicate Showable(used: Value, total: Value) {
    IsNum(used) && IsNum(total) && Number(total) > 0.0
  }

  /** `fmtUsedPct(used, total)`: None (null) unless both are numeric and the total is
      positive; otherwise the used share in percent, clamped into [0, 100]. */
  function FmtUsedPct(used: Value, total: Value): (r: Option<real>)
    ensures r.None? <==> !IsNum(used) || !IsNum(total) || ToNumber(total).value <= 0.0
    ensures r.Some? ==> 0.0 <= r.value <= 100.0
    ensures r.Some? && 0.0 <= Number(used) <= Number(total) ==> r.value == Number(used) / Number(total) * 100.0
    ensures r.Some? && Number(used) > Number(total) ==> r.value == 100.0
    ensures r.Some? && Number(used) < 0.0 ==> r.value == 0.0
  {
    if !Showable(used, total) then None
    else
      var u, t := Number(used), Number(total);
      ShareWithin(u, t);
      ShareOutside(u, t);
      Some(Clamp(u / t * 100.0, 0.0, 100.0))
  }

  /** A share of a positive total that does not exceed it lies within [0, 100]. */
  lemma ShareWithin(u: real, t: real)
    requires t > 0.0
    ensures 0.0 <= u <= t ==> 0.0 <= u / t * 100.0 <= 100.0
  {
    if 0.0 <= u <= t {
      assert u / t <= 1.0 by {
        assert u / t * t == u;
      }
    }
  }

  /** Above the total the share exceeds 100; below zero it is negative. */
  lemma ShareOutside(u: real, t: real)
    requires t > 0.0
    ensures u > t ==> u / t * 100.0 > 100.0
    ensures u < 0.0 ==> u / t * 100.0 < 0.0
  {
    if u > t {
      assert u / t > 1.0 by { assert u / t * t == u; }
    }
    if u < 0.0 {
      assert u / t < 0.0 by { assert u / t * t == u; }
    }
  }

  /** `fmtRatio(used, total, unitFmt)` */
  function FmtRatio(used: Value, total: Value, unit: Unit): (r: string)
    ensures !Showable(used, total) ==> r == "N/A"
    ensures Showable(used, total) ==> r == UnitText(unit, used) + " / " + UnitText(unit, total)
  {
    if !Showable(used, total) then "N/A"
    else UnitText(unit, used) + " / " + UnitText(unit, total)
  }

  /** The ratio reads "N/A" exactly when the percentage is null, so the tile's
      sub-line and its bar appear together. */
  lemma RatioAgreesWithPercent(used: Value, total: Value, unit: Unit)
    ensures FmtRatio(used, total, unit) == "N/A" <==> FmtUsedPct(used, total).None?
  {
    if Showable(used, total) {
      assert |FmtRatio(used, total, unit)| >= 11;
    }
  }

  /** The value line of the RAM and disk tiles: `pct.toFixed(0)%`, or "N/A". */
  function PercentTile(p: Option<real>): (r: string)
    requires p.Some? ==> p.value >= 0.0
    ensures r == "N/A" <==> p.None?
  {
    match p
    case None => "N/A"
    case Some(x) =>
      var text := ToFixed0(x) + "%";
      assert text[|text| - 1] == '%';
      text
  }

  // ---------------------------------------------------------------------------
  // Uptime

  /** `Math.trunc(y)` */
  function Trunc(y: real): (r: int)
    ensures y >= 0.0 ==> r == y.Floor
  {
    if y >= 0.0 then y.Floor else -((-y).Floor)
  }

  /** JavaScript's `x % m` for a positive `m`: the remainder takes the sign of `x`. */
  function Rem(x: real, m: real): real
    requires m > 0.0
  {
    x - Trunc(x / m) as real * m
  }

  /** The days, hours and minutes `formatUptime` takes from `sec`. */
  datatype Uptime = Uptime(days: int, hours: int, minutes: int)

  function UptimeParts(sec: real): Uptime {
    Uptime((sec / 86400.0).Floor, (Rem(sec, 86400.0) / 3600.0).Floor, (Rem(sec, 3600.0) / 60.0).Floor)
  }

  /** `formatUptime(s)`: "Dd Hh Mm" with days, "Hh Mm" with hours but no days,
      "Mm" otherwise, and "N/A" for a value that is not numeric. */
  function FormatUptime(v: Value): (r: string)
    ensures r == "N/A" <==> !IsNum(v)
  {
    if !IsNum(v) then "N/A"
    else
      var u := UptimeParts(Number(v));
      var text :=
        if u.days > 0 then IntText(u.days) + "d " + IntText(u.hours) + "h " + IntText(u.minutes) + "m"
        else if u.hours > 0 then IntText(u.hours) + "h " + IntText(u.minutes) + "m"
        else IntText(u.minutes) + "m";
      assert text[|text| - 1] == 'm';
      text
  }

  /** `(x / m).Floor` is integer division for whole numbers. */
  lemma FloorOfQuotient(x: nat, m: nat)
    requires m > 0
    ensures (x as real / m as real).Floor == x / m
  {
    var q, r := x / m, x % m;
    assert x == q * m + r;
    assert x as real == q as real * m as real + r as real;
    assert x as real / m as real == q as real + r as real / m as real;
    assert 0.0 <= r as real / m as real < 1.0;
  }

  /** For whole seconds JavaScript's remainder is the integer one. */
  lemma RemOfWhole(x: nat, m: nat)
    requires m > 0
    ensures Rem(x as real, m as real) == (x % m) as real
  {
    FloorOfQuotient(x, m);
    assert x == (x / m) * m + x % m;
  }

  /** For a whole number of seconds, the parts are integer division: days, the
      hours of the last day, the minutes of the last hour. */
  lemma UptimePartsOfWhole(s: nat)
    ensures UptimeParts(s as real) == Uptime(s / 86400, (s % 86400) / 3600, (s % 3600) / 60)
  {
    FloorOfQuotient(s, 86400);
    RemOfWhole(s, 86400);
    RemOfWhole(s, 3600);
    FloorOfQuotient(s % 86400, 3600);
    FloorOfQuotient(s % 3600, 60);
  }

  /** For a whole number of seconds, hours stay below a day and minutes below an
      hour, and the parts add up to the uptime less than a minute short. */
  lemma UptimeBounds(s: nat)
    ensures var u := UptimeParts(s as real);
      && 0 <= u.hours < 24 && 0 <= u.minutes < 60 && u.days >= 0
      && u.days * 86400 + u.hours * 3600 + u.minutes * 60 <= s < u.days * 86400 + u.hours * 3600 + u.minutes * 60 + 60
  {
    UptimePartsOfWhole(s);
    ClockParts(s);
  }

  lemma ClockParts(s: nat)
    ensures var d, h, m := s / 86400, (s % 86400) / 3600, (s % 3600) / 60;
      && 0 <= h < 24 && 0 <= m < 60
      && d * 86400 + h * 3600 + m * 60 <= s < d * 86400 + h * 3600 + m * 60 + 60
  {
    var d, rest := s / 86400, s % 86400;
    assert s == d * 86400 + rest;
    var h, rest2 := rest / 3600, rest % 3600;
    assert rest == h * 3600 + rest2;
    assert rest2 == s % 3600 by {
      assert s == (d * 24 + h) * 3600 + rest2;
    }
    var m := rest2 / 60;
    assert rest2 == m * 60 + rest2 % 60;
  }

  /** The text of a whole number of seconds, as days, hours and minutes. */
  lemma UptimeTextOfWhole(s: nat)
    ensures s < 3600 ==> FormatUptime(Num(s as real)) == NatText(s / 60) + "m"
    ensures 3600 <= s < 86400 ==> FormatUptime(Num(s as real)) == NatText(s / 3600) + "h " + NatText((s % 3600) / 60) + "m"
    ensures 86400 <= s ==> FormatUptime(Num(s as real)) == NatText(s / 86400) + "d " + NatText((s % 86400) / 3600) + "h " + NatText((s % 3600) / 60) + "m"
  {
    UptimePartsOfWhole(s);
    if s < 86400 {
      assert s % 86400 == s;
    }
  }

  // ---------------------------------------------------------------------------
  // Load, network and series

  /** `latest?.[key]`: undefined when there is no latest payload. */
  function Field(latest: Option<Object>, key: string): Value {
    match latest
    case None => Undefined
    case Some(row) => Get(row, key)
  }

  /** The load tile: the three averages when at least one is numeric. */
  function LoadText(latest: Option<Object>): (r: string)
    ensures r == "N/A" <==> !IsNum(Field(latest, "load1")) && !IsNum(Field(latest, "load5")) && !IsNum(Field(latest, "load15"))
  {
    var l1, l5, l15 := Field(latest, "load1"), Field(latest, "load5"), Field(latest, "load15");
    if IsNum(l1) || IsNum(l5) || IsNum(l15) then
      var text := Fmt1(l1) + " , " + Fmt1(l5) + " , " + Fmt1(l15);
      assert |text| >= 9;
      text
    else "N/A"
  }

  /** The network tile: both rates when at least one is numeric. */
  function NetText(latest: Option<Object>): (r: string)
    ensures r == "N/A" <==> !IsNum(Field(latest, "rx_kbps")) && !IsNum(Field(latest, "tx_kbps"))
  {
    var rx, tx := Field(latest, "rx_kbps"), Field(latest, "tx_kbps");
    if IsNum(rx) || IsNum(tx) then "RX " + Fmt1(rx) + " kbps , TX " + Fmt1(tx) + " kbps"
    else "N/A"
  }

  /** A stored null counts as numeric (`Number(null)` is 0), so a payload whose
      averages are all null still shows a load line, of zeros. */
  lemma NullLoadShowsZeros(row: Object)
    requires Get(row, "load1") == Null && Get(row, "load5") == Null && Get(row, "load15") == Null
    ensures LoadText(Some(row)) == "0.0 , 0.0 , 0.0"
  {
    NullShowsZero();
    assert LoadText(Some(row)) == Fmt1(Null) + " , " + Fmt1(Null) + " , " + Fmt1(Null);
  }

  /** `fmt1(null)` is "0.0". */
  lemma NullShowsZero()
    ensures Fmt1(Null) == "0.0"
  {
    assert Round(0.0 * 10.0) == 0;
    assert NatText(0) == "0";
    assert TenthsText(0) == "0.0";
  }

  /** A chart point: the numeric value, or None (NaN) for the chart to skip. */
  function Point(row: Object, key: string): Option<real> {
    if IsNum(Get(row, key)) then Some(Number(Get(row, key))) else None
  }

  /** `history.slice().reverse().map(…)`: one point per row, oldest first. */
  function Series(history: seq<Object>, key: string): (r: seq<Option<real>>)
    ensures |r| == |history|
    ensures forall i :: 0 <= i < |history| ==> r[i] == Point(history[|history| - 1 - i], key)
  {
    if history == [] then []
    else Series(history[1..], key) + [Point(history[0], key)]
  }

  /** A newer row, put at the head of the history, becomes the last point. */
  lemma SeriesOfNewer(row: Object, history: seq<Object>, key: string)
    ensures Series([row] + history, key) == Series(history, key) + [Point(row, key)]
  {
    assert ([row] + history)[1..] == history;
  }
}
