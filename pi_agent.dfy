/** The Raspberry Pi agent's readings (server/pi/pi-agent/agent.js): the CPU
    temperature from the thermal file, CPU usage from two `/proc/stat` samples and
    network rates from two `/proc/net/dev` samples. A file's text is an argument
    (None when it cannot be read) and so is `Date.now()`; the two previous samples
    are the fields of an `Agent`. */
module PiAgent {
  import opened Js

  // ---------------------------------------------------------------------------
  // Temperature

  /** `readFileNumber(path)`: None when the file cannot be read or its trimmed text
      is not a finite number. */
  function ReadFileNumber(content: Option<string>): (r: Option<real>)
    ensures content.None? ==> r.None?
    ensures content.Some? ==> r == ParseNumber(Trim(content.value))
  {
    match content
    case None => None
    case Some(s) => ParseNumber(Trim(s))
  }

  /** `getCpuTempC()`: the reading in millidegrees, as degrees to the nearest tenth. */
  function CpuTempC(content: Option<string>): (r: Option<real>)
    ensures r.None? <==> ReadFileNumber(content).None?
    ensures r.Some? ==> var c := ReadFileNumber(content).value / 1000.0;
      OnTenths(r.value) && r.value - 0.05 <= c < r.value + 0.05
  {
    match ReadFileNumber(content)
    case None => None
    case Some(n) => Some(RoundTenth(n / 1000.0))
  }

  /** A thermal file holding a whole number of millidegrees, as the kernel writes
      it, reads as that number of degrees to the nearest tenth. */
  lemma CpuTempOfMillidegrees(k: nat)
    ensures CpuTempC(Some(NatText(k))) == Some(RoundTenth(k as real / 1000.0))
  {
    var t := NatText(k);
    assert IsDigit(t[0]) && IsDigit(t[|t| - 1]);
    TrimOfTrimmed(t);
    NatTextParses(k);
    UnsignedReads(t, k as real);
    assert ReadFileNumber(Some(t)) == Some(k as real);
  }

  /** An unreadable or non-numeric file gives no temperature. */
  lemma CpuTempOfGarbage()
    ensures CpuTempC(None) == None
    ensures CpuTempC(Some("abc")) == None
  {
    assert Trim("abc") == "abc" by { TrimOfTrimmed("abc"); }
    assert ParseUnsigned("abc") == None by {
      assert IndexOf("abc", '.') == None;
      assert !IsDigit("abc"[0]);
    }
    PlainParse("abc");
  }

  // ---------------------------------------------------------------------------
  // CPU usage

  /** `text.split("\n")[0]` */
  function FirstLine(text: string): string {
    Split(text, '\n')[0]
  }

  /** `line.trim().split(/\s+/).slice(1).map(Number)`: the counters after the label,
      None where a counter is NaN. */
  function Counters(line: string): (r: seq<Option<real>>)
    ensures |r| == |SplitWs(Trim(line))| - 1
    ensures forall i :: 0 <= i < |r| ==> r[i] == ParseNumber(SplitWs(Trim(line))[i + 1])
  {
    Numbers(SplitWs(Trim(line))[1..])
  }

  /** `words.map(Number)` */
  function Numbers(words: seq<string>): (r: seq<Option<real>>)
    ensures |r| == |words|
    ensures forall i :: 0 <= i < |words| ==> r[i] == ParseNumber(words[i])
  {
    if words == [] then [] else [ParseNumber(words[0])] + Numbers(words[1..])
  }

  /** `a + b` where either may be NaN. */
  function Add(a: Option<real>, b: Option<real>): (r: Option<real>)
    ensures r.Some? <==> a.Some? && b.Some?
  {
    if a.Some? && b.Some? then Some(a.value + b.value) else None
  }

  /** `a - b` where either may be NaN. */
  function Sub(a: Option<real>, b: Option<real>): (r: Option<real>)
    ensures r.Some? <==> a.Some? && b.Some?
  {
    if a.Some? && b.Some? then Some(a.value - b.value) else None
  }

  /** `parts.reduce((a, b) => a + b, 0)`: NaN as soon as one counter is. */
  function Total(parts: seq<Option<real>>): (r: Option<real>)
    ensures r.Some? <==> forall i :: 0 <= i < |parts| ==> parts[i].Some?
  {
    if parts == [] then Some(0.0) else Add(Total(parts[..|parts| - 1]), parts[|parts| - 1])
  }

  /** `parts[3] + (parts[4] || 0)`: the idle and iowait counters; a missing or NaN
      iowait counts 0, a missing idle makes the sum NaN. */
  function Idle(parts: seq<Option<real>>): (r: Option<real>)
    ensures r.Some? <==> |parts| >= 4 && parts[3].Some?
    ensures |parts| > 4 && parts[3].Some? && parts[4].Some? ==> r == Some(parts[3].value + parts[4].value)
    ensures |parts| >= 4 && parts[3].Some? && (|parts| == 4 || parts[4].None?) ==> r == parts[3]
  {
    if |parts| < 4 || parts[3].None? then None
    else Some(parts[3].value + (if |parts| > 4 && parts[4].Some? then parts[4].value else 0.0))
  }

  /** `{ idle, total }` of one `/proc/stat` text. */
  datatype CpuSample = CpuSample(idle: Option<real>, total: Option<real>)

  function CpuSampleOf(stat: string): CpuSample {
    var parts := Counters(FirstLine(stat));
    CpuSample(Idle(parts), Total(parts))
  }

  /** Total of counters that are all numbers: their sum, taken one by one. */
  lemma {:induction false} TotalOfNumbers(xs: seq<real>)
    ensures Total(seq(|xs|, i requires 0 <= i < |xs| => Some(xs[i]))) == Some(Sum(xs))
  {
    if xs != [] {
      var parts := seq(|xs|, i requires 0 <= i < |xs| => Some(xs[i]));
      var front := xs[..|xs| - 1];
      assert parts[..|parts| - 1] == seq(|front|, i requires 0 <= i < |front| => Some(front[i]));
      TotalOfNumbers(front);
    }
  }

  function Sum(xs: seq<real>): real {
    if xs == [] then 0.0 else Sum(xs[..|xs| - 1]) + xs[|xs| - 1]
  }

  /** What `getCpuUsagePct` returns: null, NaN, or a percentage. */
  datatype Reading = NoReading | NotANumber | Reading(value: real)

  /** The usage between two samples: null on the first sample and when the total
      did not grow; NaN when a counter was; else the busy share in percent, to the
      nearest tenth. A NaN total delta is not `<= 0`, so it gives NaN, not null. */
  function CpuUsage(prev: Option<CpuSample>, cur: CpuSample): (r: Reading)
    ensures r.NoReading? <==>
      prev.None? || (Sub(cur.total, prev.value.total).Some? && Sub(cur.total, prev.value.total).value <= 0.0)
    ensures r.NotANumber? <==>
      (prev.Some? && (Sub(cur.total, prev.value.total).None?
        || (Sub(cur.total, prev.value.total).value > 0.0 && Sub(cur.idle, prev.value.idle).None?)))
    ensures r.Reading? ==> var td, id := Sub(cur.total, prev.value.total).value, Sub(cur.idle, prev.value.idle).value;
      td > 0.0 && OnTenths(r.value) && r.value - 0.05 <= (1.0 - id / td) * 100.0 < r.value + 0.05
  {
    match prev
    case None => NoReading
    case Some(last) =>
      match Sub(cur.total, last.total)
      case None => NotANumber
      case Some(totalDelta) =>
        if totalDelta <= 0.0 then NoReading
        else match Sub(cur.idle, last.idle)
          case None => NotANumber
          case Some(idleDelta) => Reading(RoundTenth((1.0 - idleDelta / totalDelta) * 100.0))
  }

  /** When the idle time grew by no more than the total, the usage is a percentage. */
  lemma CpuUsageWithin(prev: CpuSample, cur: CpuSample)
    requires Sub(cur.total, prev.total).Some? && Sub(cur.idle, prev.idle).Some?
    requires 0.0 <= Sub(cur.idle, prev.idle).value <= Sub(cur.total, prev.total).value
    requires Sub(cur.total, prev.total).value > 0.0
    ensures CpuUsage(Some(prev), cur).Reading?
    ensures 0.0 <= CpuUsage(Some(prev), cur).value <= 100.0
  {
    var td, id := Sub(cur.total, prev.total).value, Sub(cur.idle, prev.idle).value;
    QuotientWithin(id, td);
    RoundTenthWithin((1.0 - id / td) * 100.0);
  }

  lemma QuotientWithin(a: real, b: real)
    requires 0.0 <= a <= b && b > 0.0
    ensures 0.0 <= a / b <= 1.0
  {
    assert a / b * b == a;
  }

  /** Rounding to a tenth keeps a percentage a percentage. */
  lemma RoundTenthWithin(x: real)
    requires 0.0 <= x <= 100.0
    ensures 0.0 <= RoundTenth(x) <= 100.0
  {
    var n := Round(x * 10.0);
    assert 0 <= n <= 1000;
  }

  // ---------------------------------------------------------------------------
  // Load, memory and disk, over the figures the operating system reports

  /** `Math.round(l * 100) / 100`: a load average to the nearest hundredth. */
  function LoadHundredths(l: real): (r: real)
    ensures OnHundredths(r)
    ensures r - 0.005 <= l < r + 0.005
  {
    Round(l * 100.0) as real / 100.0
  }

  /** The nearest hundredth is the only whole number of hundredths within 0.005
      of the load. */
  lemma LoadHundredthsUnique(l: real, r: real)
    requires OnHundredths(r) && r - 0.005 <= l < r + 0.005
    ensures r == LoadHundredths(l)
  {
    var k := (r * 100.0).Floor;
    assert k as real - 0.5 <= l * 100.0 < k as real + 0.5;
    assert Round(l * 100.0) == k;
  }

  /** `getMemoryMb` over `os.totalmem()` and `os.freemem()` in bytes. */
  datatype MemoryMb = MemoryMb(totalMb: int, usedMb: int)

  function MemoryOf(total: nat, free: nat): (r: MemoryMb)
    ensures r.totalMb as real - 0.5 <= total as real / 1048576.0 < r.totalMb as real + 0.5
    ensures r.usedMb as real - 0.5 <= (total - free) as real / 1048576.0 < r.usedMb as real + 0.5
  {
    MemoryMb(Round(total as real / 1024.0 / 1024.0), Round((total - free) as real / 1024.0 / 1024.0))
  }

  /** `Math.round` never reverses an order. */
  lemma RoundMonotone(x: real, y: real)
    requires x <= y
    ensures Round(x) <= Round(y)
  {
  }

  /** While the free memory is at most the total, the used megabytes lie between 0
      and the total megabytes. */
  lemma MemoryUsedWithinTotal(total: nat, free: nat)
    requires free <= total
    ensures 0 <= MemoryOf(total, free).usedMb <= MemoryOf(total, free).totalMb
  {
    var t, u := total as real / 1048576.0, (total - free) as real / 1048576.0;
    assert 0.0 <= u <= t;
    RoundMonotone(u, t);
    RoundMonotone(0.0, u);
  }

  /** `{ totalGb, usedGb }` of `getDiskUsage`, None for null or NaN. */
  datatype DiskGb = DiskGb(totalGb: Option<real>, usedGb: Option<real>)

  /** `Math.round((kb / 1024 / 1024) * 10) / 10`: kilobytes as gigabytes to the
      nearest tenth, NaN staying NaN. */
  function GbOfKb(kb: Option<real>): (r: Option<real>)
    ensures r.Some? <==> kb.Some?
    ensures kb.Some? ==> OnTenths(r.value) && r.value - 0.05 <= kb.value / 1048576.0 < r.value + 0.05
  {
    if kb.None? then None else Some(RoundTenth(kb.value / 1024.0 / 1024.0))
  }

  /** `getDiskUsage` given the output of `df -k /` (None when the command failed):
      the second line's second and third columns, as gigabytes; both null when the
      command failed or printed fewer than two lines. */
  function DiskUsage(stdout: Option<string>): (r: DiskGb)
    ensures stdout.None? ==> r == DiskGb(None, None)
    ensures stdout.Some? && |Split(Trim(stdout.value), '\n')| < 2 ==> r == DiskGb(None, None)
    ensures stdout.Some? && |Split(Trim(stdout.value), '\n')| >= 2 ==>
      var cols := SplitWs(Split(Trim(stdout.value), '\n')[1]);
      && (r.totalGb.Some? <==> |cols| > 1 && ParseNumber(cols[1]).Some?)
      && (r.usedGb.Some? <==> |cols| > 2 && ParseNumber(cols[2]).Some?)
  {
    if stdout.None? then DiskGb(None, None)
    else
      var lines := Split(Trim(stdout.value), '\n');
      if |lines| < 2 then DiskGb(None, None)
      else
        var cols := SplitWs(lines[1]);
        DiskGb(GbOfKb(if |cols| > 1 then ParseNumber(cols[1]) else None),
               GbOfKb(if |cols| > 2 then ParseNumber(cols[2]) else None))
  }

  // ---------------------------------------------------------------------------
  // Network

  /** `txt.split("\n").slice(2).map((x) => x.trim()).filter(Boolean)` */
  function DataLines(txt: string): (r: seq<string>)
    ensures forall x :: x in r ==> x != "" && Trimmed(x)
  {
    var lines := Split(txt, '\n');
    NonBlank(if |lines| <= 2 then [] else lines[2..])
  }

  /** Every line after the two header lines that has something in it is read. */
  lemma DataLinesKeep(txt: string)
    ensures var lines := Split(txt, '\n');
      forall k :: 2 <= k < |lines| && !AllSpace(lines[k]) ==> Trim(lines[k]) in DataLines(txt)
  {
    var lines := Split(txt, '\n');
    var data := if |lines| <= 2 then [] else lines[2..];
    NonBlankKeeps(data);
    assert forall k :: 2 <= k < |lines| ==> lines[k] in data;
  }

  /** Only lines after the two header lines are read: each data line is the trim
      of some line from the third on. */
  lemma DataLinesOnly(txt: string)
    ensures var lines := Split(txt, '\n');
      forall x :: x in DataLines(txt) ==> |lines| > 2 && exists l :: l in lines[2..] && Trim(l) == x
  {
    var lines := Split(txt, '\n');
    if |lines| > 2 {
      NonBlankOnly(lines[2..]);
    }
  }

  /** The data lines are what is left of all the non-blank lines once the two
      header lines' contribution is taken off the front, in the same order. */
  lemma DataLinesAfterHeader(txt: string)
    ensures var lines := Split(txt, '\n');
      |lines| >= 2 ==> NonBlank(lines) == NonBlank(lines[..2]) + DataLines(txt)
  {
    var lines := Split(txt, '\n');
    if |lines| >= 2 {
      NonBlankCut(lines, 2);
      if |lines| == 2 {
        assert lines[2..] == [];
      }
    }
  }

  /** The trimmed lines that are not blank, in order. */
  function NonBlank(lines: seq<string>): (r: seq<string>)
    ensures |r| <= |lines|
    ensures forall x :: x in r ==> x != "" && Trimmed(x)
  {
    if lines == [] then []
    else
      var t := Trim(lines[0]);
      var rest := NonBlank(lines[1..]);
      if t == "" then rest
      else
        assert forall x :: x in [t] + rest ==> x == t || x in rest;
        [t] + rest
  }

  /** No line with something in it is dropped. */
  lemma {:induction false} NonBlankKeeps(lines: seq<string>)
    ensures forall l :: l in lines && !AllSpace(l) ==> Trim(l) in NonBlank(lines)
  {
    if lines != [] {
      NonBlankKeeps(lines[1..]);
      assert forall l :: l in lines ==> l == lines[0] || l in lines[1..];
    }
  }

  /** One line contributes its trim, or nothing when it is blank. */
  lemma {:induction false} NonBlankOne(l: string)
    ensures NonBlank([l]) == if AllSpace(l) then [] else [Trim(l)]
  {
    assert [l][1..] == [];
  }

  /** Filtering a concatenation filters each part and keeps their order. */
  lemma {:induction false} NonBlankAppend(a: seq<string>, b: seq<string>)
    ensures NonBlank(a + b) == NonBlank(a) + NonBlank(b)
  {
    if a == [] {
      assert a + b == b;
    } else {
      assert (a + b)[0] == a[0];
      assert (a + b)[1..] == a[1..] + b;
      NonBlankAppend(a[1..], b);
    }
  }

  /** Filtering the lines before and after a cut filters the whole. */
  lemma {:induction false} NonBlankCut(lines: seq<string>, n: nat)
    requires n <= |lines|
    ensures NonBlank(lines) == NonBlank(lines[..n]) + NonBlank(lines[n..])
  {
    var front, back := lines[..n], lines[n..];
    assert front + back == lines;
    NonBlankAppend(front, back);
  }

  /** Nothing is made up: each kept line is the trim of an input line. */
  lemma {:induction false} NonBlankOnly(lines: seq<string>)
    ensures forall x :: x in NonBlank(lines) ==> exists l :: l in lines && Trim(l) == x
  {
    if lines != [] {
      var t, rest := Trim(lines[0]), NonBlank(lines[1..]);
      assert NonBlank(lines) == if t == "" then rest else [t] + rest;
      NonBlankOnly(lines[1..]);
      forall x | x in NonBlank(lines)
        ensures exists l :: l in lines && Trim(l) == x
      {
        if x == t {
          assert lines[0] in lines;
        } else {
          assert x in rest;
          var l :| l in lines[1..] && Trim(l) == x;
          assert l in lines;
        }
      }
    }
  }

  /** What one data line adds: nothing for the loopback interface, a byte count
      pair otherwise, or a failure when the line has no ':' (reading `rest.trim()`
      throws). */
  datatype LineBytes = Loopback | Bytes(rx: real, tx: real) | Malformed

  /** `cols[k] || 0`: a missing or NaN column counts 0. */
  function Column(cols: seq<Option<real>>, k: nat): real {
    if k < |cols| && cols[k].Some? then cols[k].value else 0.0
  }

  function Columns(rest: string): seq<Option<real>> {
    Numbers(SplitWs(Trim(rest)))
  }

  function LineBytesOf(line: string): (r: LineBytes)
    ensures r == Loopback <==> Trim(Split(line, ':')[0]) == "lo"
    ensures r == Malformed <==> Trim(Split(line, ':')[0]) != "lo" && |Split(line, ':')| < 2
    ensures r.Bytes? ==> var cols := Numbers(SplitWs(Trim(Split(line, ':')[1])));
      && (if |cols| > 0 && cols[0].Some? then r.rx == cols[0].value else r.rx == 0.0)
      && (if |cols| > 8 && cols[8].Some? then r.tx == cols[8].value else r.tx == 0.0)
  {
    var pieces := Split(line, ':');
    if Trim(pieces[0]) == "lo" then Loopback
    else if |pieces| < 2 then Malformed
    else
      var cols := Columns(pieces[1]);
      Bytes(Column(cols, 0), Column(cols, 8))
  }

  /** The received and sent byte totals over the interfaces, or None when a line
      made the loop throw. */
  datatype Totals = Totals(rx: real, tx: real)

  /** The totals over the data lines. */
  function NetTotals(lines: seq<string>): Option<Totals> {
    TotalsOf(Parsed(lines))
  }

  /** What each line adds, in order. */
  function Parsed(lines: seq<string>): (r: seq<LineBytes>)
    ensures |r| == |lines|
  {
    seq(|lines|, i requires 0 <= i < |lines| => LineBytesOf(lines[i]))
  }

  /** The totals after the loop has run over `bs`: a failure is final. */
  function TotalsOf(bs: seq<LineBytes>): Option<Totals> {
    if bs == [] then Some(Totals(0.0, 0.0))
    else Step(TotalsOf(bs[..|bs| - 1]), bs[|bs| - 1])
  }

  /** One pass of the loop body over the running totals. */
  function Step(acc: Option<Totals>, line: LineBytes): Option<Totals> {
    match acc
    case None => None
    case Some(t) =>
      match line
      case Loopback => acc
      case Malformed => None
      case Bytes(rx, tx) => Some(Totals(t.rx + rx, t.tx + tx))
  }

  /** Totals of two runs of lines combined: failure wins, otherwise they add up. */
  function Combine(a: Option<Totals>, b: Option<Totals>): Option<Totals> {
    if a.Some? && b.Some? then Some(Totals(a.value.rx + b.value.rx, a.value.tx + b.value.tx)) else None
  }

  /** The totals of a text are the totals of its parts: the loop is a sum over the
      lines. */
  lemma {:induction false} TotalsAppend(a: seq<LineBytes>, b: seq<LineBytes>)
    ensures TotalsOf(a + b) == Combine(TotalsOf(a), TotalsOf(b))
    decreases |b|
  {
    if b == [] {
      assert a + b == a;
    } else {
      var front := b[..|b| - 1];
      assert (a + b)[..|a + b| - 1] == a + front;
      assert (a + b)[|a + b| - 1] == b[|b| - 1];
      TotalsAppend(a, front);
    }
  }

  /** A loopback line, wherever it stands, changes nothing. */
  lemma LoopbackIgnored(a: seq<LineBytes>, b: seq<LineBytes>)
    ensures TotalsOf(a + [Loopback] + b) == TotalsOf(a + b)
  {
    TotalsAppend(a + [Loopback], b);
    TotalsAppend(a, b);
    assert (a + [Loopback])[..|a + [Loopback]| - 1] == a;
  }

  /** A line that throws, wherever it stands, makes the whole sample fail. */
  lemma MalformedFails(a: seq<LineBytes>, b: seq<LineBytes>)
    ensures TotalsOf(a + [Malformed] + b) == None
  {
    TotalsAppend(a + [Malformed], b);
    assert (a + [Malformed])[..|a + [Malformed]| - 1] == a;
  }

  /** The `for … of` loop over the data lines, each already read as what it adds,
      accumulating the two totals and stopping at the first line that throws. */
  method SumInterfaces(parsed: seq<LineBytes>) returns (r: Option<Totals>)
    ensures r == TotalsOf(parsed)
  {
    var rxBytes, txBytes := 0.0, 0.0;
    var i := 0;
    while i < |parsed|
      invariant 0 <= i <= |parsed|
      invariant TotalsOf(parsed[..i]) == Some(Totals(rxBytes, txBytes))
    {
      assert parsed[..i + 1][..i] == parsed[..i];
      match parsed[i] {
        case Loopback =>
        case Malformed =>
          MalformedFails(parsed[..i], parsed[i + 1..]);
          assert parsed[..i] + [Malformed] + parsed[i + 1..] == parsed;
          return None;
        case Bytes(rx, tx) =>
          rxBytes, txBytes := rxBytes + rx, txBytes + tx;
      }
      i := i + 1;
    }
    assert parsed[..i] == parsed;
    r := Some(Totals(rxBytes, txBytes));
  }

  /** `Math.round(((delta * 8) / 1000 / dt) * 10) / 10`: kilobits per second. */
  function Kbps(delta: real, dt: real): (r: real)
    requires dt > 0.0
    ensures OnTenths(r)
    ensures r - 0.05 <= delta * 8.0 / 1000.0 / dt < r + 0.05
  {
    RoundTenth(delta * 8.0 / 1000.0 / dt)
  }

  /** No traffic reads as zero kilobits per second. */
  lemma IdleLinkIsZero(dt: real)
    requires dt > 0.0
    ensures Kbps(0.0, dt) == 0.0
  {
    assert 0.0 * 8.0 / 1000.0 / dt == 0.0;
  }

  /** `{ rxBytes, txBytes, now }` */
  datatype NetSample = NetSample(rxBytes: real, txBytes: real, now: int)

  /** `{ rxKbps, txKbps }`, None for null. */
  datatype NetRates = NetRates(rxKbps: Option<real>, txKbps: Option<real>)

  /** What a network sample does to the rates and to the baseline `last`: a failed
      read gives null rates and keeps the baseline; the first sample gives null
      rates and becomes the baseline; a sample with no time passed since the
      baseline gives null rates and keeps it; any other gives both rates, each the
      kilobits per second over the interval to the nearest tenth, and becomes the
      new baseline. */
  function NextNet(last: Option<NetSample>, totals: Option<Totals>, nowMs: int): (r: (NetRates, Option<NetSample>))
    ensures r.0.rxKbps.Some? <==> r.0.txKbps.Some?
    ensures r.0.rxKbps.None? <==> totals.None? || last.None? || nowMs <= last.value.now
    ensures r.0.rxKbps.None? && (totals.None? || last.Some?) ==> r.1 == last
    ensures totals.Some? && (last.None? || nowMs > last.value.now) ==>
      r.1 == Some(NetSample(totals.value.rx, totals.value.tx, nowMs))
    ensures r.0.rxKbps.Some? ==> var dt := (nowMs - last.value.now) as real / 1000.0;
      && OnTenths(r.0.rxKbps.value) && OnTenths(r.0.txKbps.value)
      && r.0.rxKbps.value - 0.05 <= (totals.value.rx - last.value.rxBytes) * 8.0 / 1000.0 / dt < r.0.rxKbps.value + 0.05
      && r.0.txKbps.value - 0.05 <= (totals.value.tx - last.value.txBytes) * 8.0 / 1000.0 / dt < r.0.txKbps.value + 0.05
  {
    match totals
    case None => (NetRates(None, None), last)
    case Some(t) =>
      match last
      case None => (NetRates(None, None), Some(NetSample(t.rx, t.tx, nowMs)))
      case Some(l) =>
        var dt := (nowMs - l.now) as real / 1000.0;
        if dt <= 0.0 then (NetRates(None, None), last)
        else (NetRates(Some(Kbps(t.rx - l.rxBytes, dt)), Some(Kbps(t.tx - l.txBytes, dt))), Some(NetSample(t.rx, t.tx, nowMs)))
  }

  /** The previous samples the agent keeps between ticks: `lastCpu`, `lastNet`. */
  class Agent {
    var lastCpu: Option<CpuSample>
    var lastNet: Option<NetSample>

    constructor()
      ensures lastCpu == None && lastNet == None
    {
      lastCpu := None;
      lastNet := None;
    }

    /** `getCpuUsagePct()` given the text of `/proc/stat`: an unreadable file gives
        null and keeps the baseline; any readable one becomes the new baseline,
        whatever the usage comes out as. */
    method CpuUsagePct(stat: Option<string>) returns (r: Reading)
      modifies this
      ensures lastNet == old(lastNet)
      ensures stat.None? ==> r == NoReading && lastCpu == old(lastCpu)
      ensures stat.Some? ==> lastCpu == Some(CpuSampleOf(stat.value))
      ensures stat.Some? ==> r == CpuUsage(old(lastCpu), CpuSampleOf(stat.value))
      ensures old(lastCpu).None? ==> r == NoReading
    {
      if stat.None? {
        return NoReading;
      }
      var cur := CpuSampleOf(stat.value);
      var prev := lastCpu;
      r := CpuUsage(prev, cur);
      if prev.None? {
        assert r == NoReading;
      }
      lastCpu := Some(cur);
    }

    /** `getNetKbps()` given the text of `/proc/net/dev` and `Date.now()`: null rates
        when the file is unreadable; otherwise the totals of its data lines move the
        baseline as `NextNet` says. */
    method NetKbps(dev: Option<string>, nowMs: int) returns (rates: NetRates)
      modifies this
      ensures lastCpu == old(lastCpu)
      ensures dev.None? ==> rates == NetRates(None, None) && lastNet == old(lastNet)
      ensures dev.Some? ==> (rates, lastNet) == NextNet(old(lastNet), NetTotals(DataLines(dev.value)), nowMs)
    {
      if dev.None? {
        return NetRates(None, None);
      }
      var totals := SumInterfaces(Parsed(DataLines(dev.value)));
      var next := NextNet(lastNet, totals, nowMs);
      rates, lastNet := next.0, next.1;
    }
  }
}
