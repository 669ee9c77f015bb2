/** The in-memory Raspberry Pi telemetry store of the main server
    (server/routes/pi.js): the newest payload of every device and a bounded,
    newest-first history per device, both lost on restart. */
module PiMemory {
  import opened Js

  /** The longest history kept per device. */
  const HistoryLimit: nat := 300

  /** One stored payload, as the ingest route builds it. The percentages are None
      (stored as null) when the device did not send them. */
  datatype MemRow = MemRow(
    piId: string, hostname: Value, ip: Value,
    cpuTempC: real, cpuLoad1: real, cpuLoad5: real, cpuLoad15: real,
    memUsedMb: real, memTotalMb: real, diskUsedGb: real, diskTotalGb: real, uptimeS: real,
    cpuPct: Option<real>, memPct: Option<real>, diskPct: Option<real>,
    createdAt: Value)

  /** `num(x)`: the number `x` converts to, or 0 when that is NaN. */
  function Numeric(v: Value): (n: real)
    ensures ToNumber(v).Some? ==> n == ToNumber(v).value
    ensures ToNumber(v).None? ==> n == 0.0
  {
    match ToNumber(v)
    case Some(x) => x
    case None => 0.0
  }

  /** `body.piId || body.pi_id` */
  function PiIdOf(body: Object): Value {
    Or(Get(body, "piId"), Get(body, "pi_id"))
  }

  /** A percentage field: `body[key] !== undefined ? num(body[key]) : null`. */
  function Percent(body: Object, key: string): (p: Option<real>)
    ensures p.None? <==> Get(body, key).Undefined?
    ensures p.Some? ==> p.value == Numeric(Get(body, key))
  {
    if Get(body, key).Undefined? then None else Some(Numeric(Get(body, key)))
  }

  /** The temperature field: `cpu_temp_c`, else `temp_c`, else 0. */
  function CpuTemp(body: Object): Value {
    if !Get(body, "cpu_temp_c").Undefined? then Get(body, "cpu_temp_c")
    else if !Get(body, "temp_c").Undefined? then Get(body, "temp_c")
    else Num(0.0)
  }

  /** The row the ingest route stores, or None when the body names no device.
      `nowIso` is `new Date().toISOString()`. */
  function BuildRow(body: Object, nowIso: string): (r: Option<MemRow>)
    ensures r.Some? <==> Truthy(PiIdOf(body))
    ensures r.Some? ==> r.value.piId == ToString(PiIdOf(body))
    ensures r.Some? ==> r.value.hostname == (if Truthy(Get(body, "hostname")) then Get(body, "hostname") else Null)
    ensures r.Some? ==> r.value.ip == (if Truthy(Get(body, "ip")) then Get(body, "ip") else Null)
    ensures r.Some? ==> r.value.cpuTempC == Numeric(CpuTemp(body))
    ensures r.Some? ==> var row := r.value;
      && row.cpuLoad1 == Numeric(Get(body, "cpu_load_1"))
      && row.cpuLoad5 == Numeric(Get(body, "cpu_load_5"))
      && row.cpuLoad15 == Numeric(Get(body, "cpu_load_15"))
      && row.memUsedMb == Numeric(Get(body, "mem_used_mb"))
      && row.memTotalMb == Numeric(Get(body, "mem_total_mb"))
      && row.diskUsedGb == Numeric(Get(body, "disk_used_gb"))
      && row.diskTotalGb == Numeric(Get(body, "disk_total_gb"))
      && row.uptimeS == Numeric(Get(body, "uptime_s"))
    ensures r.Some? ==>
      && r.value.cpuPct == Percent(body, "cpu_pct")
      && r.value.memPct == Percent(body, "mem_pct")
      && r.value.diskPct == Percent(body, "disk_pct")
    ensures r.Some? ==> (r.value.cpuPct.None? <==> Get(body, "cpu_pct").Undefined?)
    ensures r.Some? ==> (r.value.memPct.None? <==> Get(body, "mem_pct").Undefined?)
    ensures r.Some? ==> (r.value.diskPct.None? <==> Get(body, "disk_pct").Undefined?)
    ensures r.Some? && Truthy(Get(body, "created_at")) ==> r.value.createdAt == Get(body, "created_at")
    ensures r.Some? && !Truthy(Get(body, "created_at")) ==> r.value.createdAt == Str(nowIso)
  {
    var id := PiIdOf(body);
    if !Truthy(id) then None
    else Some(MemRow(
      ToString(id),
      Or(Get(body, "hostname"), Null), Or(Get(body, "ip"), Null),
      Numeric(CpuTemp(body)),
      Numeric(Get(body, "cpu_load_1")), Numeric(Get(body, "cpu_load_5")), Numeric(Get(body, "cpu_load_15")),
      Numeric(Get(body, "mem_used_mb")), Numeric(Get(body, "mem_total_mb")),
      Numeric(Get(body, "disk_used_gb")), Numeric(Get(body, "disk_total_gb")),
      Numeric(Get(body, "uptime_s")),
      Percent(body, "cpu_pct"), Percent(body, "mem_pct"), Percent(body, "disk_pct"),
      Or(Get(body, "created_at"), Str(nowIso))))
  }

  /** The temperature is read from `cpu_temp_c` whenever that key is present (even
      as null, which reads as 0), and from `temp_c` only when it is absent. */
  lemma TemperaturePreference(body: Object, nowIso: string)
    requires Truthy(PiIdOf(body))
    ensures var row := BuildRow(body, nowIso).value;
      && ("cpu_temp_c" in body && body["cpu_temp_c"] != Undefined ==> row.cpuTempC == Numeric(body["cpu_temp_c"]))
      && ("cpu_temp_c" in body && body["cpu_temp_c"] == Null ==> row.cpuTempC == 0.0)
      && (Get(body, "cpu_temp_c").Undefined? && Get(body, "temp_c").Undefined? ==> row.cpuTempC == 0.0)
  {
  }

  /** A percent-style payload that sends none of the detailed figures stores them
      all as 0, and a figure that is not a finite number is stored as 0 as well. */
  lemma MissingDetailsAreZero(body: Object, nowIso: string)
    requires Truthy(PiIdOf(body))
    requires forall k :: k in DetailKeys ==> ToNumber(Get(body, k)).None?
    ensures var row := BuildRow(body, nowIso).value;
      && row.cpuLoad1 == 0.0 && row.cpuLoad5 == 0.0 && row.cpuLoad15 == 0.0
      && row.memUsedMb == 0.0 && row.memTotalMb == 0.0
      && row.diskUsedGb == 0.0 && row.diskTotalGb == 0.0 && row.uptimeS == 0.0
  {
    assert "cpu_load_1" in DetailKeys && "cpu_load_5" in DetailKeys && "cpu_load_15" in DetailKeys;
    assert "mem_used_mb" in DetailKeys && "mem_total_mb" in DetailKeys;
    assert "disk_used_gb" in DetailKeys && "disk_total_gb" in DetailKeys && "uptime_s" in DetailKeys;
  }

  /** The keys of the detailed figures, read with `num`. */
  const DetailKeys: seq<string> :=
    ["cpu_load_1", "cpu_load_5", "cpu_load_15", "mem_used_mb", "mem_total_mb",
     "disk_used_gb", "disk_total_gb", "uptime_s"]

  /** A string device id is stored unchanged, whichever of the two keys carried it. */
  lemma StringIdKept(body: Object, nowIso: string, s: string)
    requires PiIdOf(body) == Str(s) && s != ""
    ensures BuildRow(body, nowIso).value.piId == s
    ensures Get(body, "piId") == Str(s) || (!Truthy(Get(body, "piId")) && Get(body, "pi_id") == Str(s))
  {
  }

  /** `pushHistory`: the newest entry first, cut to `limit` entries. */
  function Pushed(h: seq<MemRow>, x: MemRow, limit: nat): (r: seq<MemRow>)
    ensures |r| == Min(limit, |h| + 1)
    ensures limit > 0 ==> r[0] == x && r[1..] == h[..|r| - 1]
  {
    Take([x] + h, limit)
  }

  /** Two pushes keep both entries, newest first, while the limit allows. */
  lemma PushedTwice(h: seq<MemRow>, x: MemRow, y: MemRow, limit: nat)
    requires limit >= 2
    ensures var r := Pushed(Pushed(h, x, limit), y, limit);
      r[0] == y && r[1] == x && |r| == Min(limit, |h| + 2)
  {
  }

  /** The devices, ordered by id, each at its newest payload. */
  ghost predicate SortedById(rows: seq<MemRow>) {
    forall i, j :: 0 <= i < j < |rows| ==> StrLess(rows[i].piId, rows[j].piId)
  }

  /** Inserts a row into a list ordered by id, before the first larger id. */
  function InsertById(x: MemRow, rows: seq<MemRow>): (r: seq<MemRow>)
    requires SortedById(rows)
    requires forall i :: 0 <= i < |rows| ==> rows[i].piId != x.piId
    ensures SortedById(r)
    ensures multiset(r) == multiset(rows) + multiset{x}
    ensures |r| == |rows| + 1 && forall y :: y in r <==> y in rows || y == x
  {
    if rows == [] then [x]
    else
      StrLessTotal(x.piId, rows[0].piId);
      if StrLess(x.piId, rows[0].piId) then
        assert SortedById([x] + rows) by {
          forall i, j | 0 <= i < j < |rows| + 1 ensures StrLess(([x] + rows)[i].piId, ([x] + rows)[j].piId) {
            if i == 0 && j > 1 { StrLessTransitive(x.piId, rows[0].piId, rows[j - 1].piId); }
          }
        }
        [x] + rows
      else
        var rest := InsertById(x, rows[1..]);
        AboveHead(x, rows, rest);
        assert rows == [rows[0]] + rows[1..];
        [rows[0]] + rest
  }

  /** Whatever is inserted after the head of a sorted list sorts after that head. */
  lemma AboveHead(x: MemRow, rows: seq<MemRow>, rest: seq<MemRow>)
    requires SortedById(rows) && rows != [] && rows[0].piId != x.piId
    requires !StrLess(x.piId, rows[0].piId) && SortedById(rest)
    requires forall y :: y in rest ==> y in rows[1..] || y == x
    ensures SortedById([rows[0]] + rest)
  {
    StrLessTotal(x.piId, rows[0].piId);
    forall k | 0 <= k < |rest| ensures StrLess(rows[0].piId, rest[k].piId) {
      assert rest[k] in rest;
      if rest[k] != x {
        var m :| 0 <= m < |rows[1..]| && rows[1..][m] == rest[k];
        assert rows[m + 1] == rest[k];
      }
    }
  }

  class PiMemoryStore {
    var latestByPi: map<string, MemRow>
    var historyByPi: map<string, seq<MemRow>>

    /** Every device has both entries; its history is newest first, holds 1 to 300
        payloads, and starts with its latest payload, which carries its id. */
    ghost predicate Valid()
      reads this
    {
      && latestByPi.Keys == historyByPi.Keys
      && forall k :: k in latestByPi ==>
           && latestByPi[k].piId == k
           && 1 <= |historyByPi[k]| <= HistoryLimit
           && historyByPi[k][0] == latestByPi[k]
    }

    constructor()
      ensures Valid()
      ensures latestByPi == map[] && historyByPi == map[]
    {
      latestByPi := map[];
      historyByPi := map[];
    }

    /** `historyByPi[piId] || []` */
    function History(piId: string): (h: seq<MemRow>)
      reads this
      requires Valid()
      ensures |h| <= HistoryLimit
      ensures h == [] <==> piId !in latestByPi
      ensures h != [] ==> h[0] == latestByPi[piId]
    {
      if piId in historyByPi then historyByPi[piId] else []
    }

    method PushHistory(piId: string, row: MemRow)
      modifies this
      ensures latestByPi == old(latestByPi)
      ensures historyByPi == old(historyByPi)[piId := Pushed(if piId in old(historyByPi) then old(historyByPi)[piId] else [], row, HistoryLimit)]
    {
      var h := if piId in historyByPi then historyByPi[piId] else [];
      historyByPi := historyByPi[piId := Pushed(h, row, HistoryLimit)];
    }

    /** `POST /pi/ingest`: 400 with "piId required" and nothing stored when the body
        names no device; otherwise the row becomes the device's latest payload and
        the head of its history, and 200. */
    method Ingest(body: Object, nowIso: string) returns (status: int, error: Option<string>)
      requires Valid()
      modifies this
      ensures Valid()
      ensures !Truthy(PiIdOf(body)) ==>
        status == 400 && error == Some("piId required")
        && latestByPi == old(latestByPi) && historyByPi == old(historyByPi)
      ensures Truthy(PiIdOf(body)) ==>
        var row := BuildRow(body, nowIso).value;
        && status == 200 && error == None
        && latestByPi == old(latestByPi)[row.piId := row]
        && historyByPi == old(historyByPi)[row.piId := Pushed(old(History(row.piId)), row, HistoryLimit)]
    {
      var built := BuildRow(body, nowIso);
      if built.None? {
        return 400, Some("piId required");
      }
      var row := built.value;
      latestByPi := latestByPi[row.piId := row];
      PushHistory(row.piId, row);
      status, error := 200, None;
    }

    /** `GET /pi`: every device's latest payload, ordered by device id. */
    method List() returns (list: seq<MemRow>)
      requires Valid()
      ensures SortedById(list)
      ensures |list| == |latestByPi.Keys|
      ensures forall k :: k in latestByPi ==> latestByPi[k] in list
      ensures forall r :: r in list ==> r.piId in latestByPi && latestByPi[r.piId] == r
    {
      list := [];
      var todo := latestByPi.Keys;
      while todo != {}
        invariant todo <= latestByPi.Keys
        invariant SortedById(list)
        invariant |list| + |todo| == |latestByPi.Keys|
        invariant forall k :: k in latestByPi && k !in todo ==> latestByPi[k] in list
        invariant forall r :: r in list ==> r.piId in latestByPi && r.piId !in todo && latestByPi[r.piId] == r
        decreases |todo|
      {
        var k :| k in todo;
        var row := latestByPi[k];
        list := InsertById(row, list);
        todo := todo - {k};
      }
    }
  }

  /** `GET /pi/:piId/history` right after an ingest: the new payload first, then as
      much of the previous history as fits in 300 entries. */
  lemma HistoryAfterIngest(h: seq<MemRow>, row: MemRow)
    ensures var r := Pushed(h, row, HistoryLimit);
      && r[0] == row
      && |r| == Min(HistoryLimit, |h| + 1)
      && (|h| < HistoryLimit ==> r[1..] == h)
      && (|h| >= HistoryLimit ==> r[1..] == h[..HistoryLimit - 1])
  {
  }
}
