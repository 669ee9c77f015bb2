/** The SQLite-backed Raspberry Pi router (server/pi/pi.routes.js): a token gate,
    device registration with an upsert, one metric row per accepted ingest, and
    newest-first queries over the metric table. The two tables are modelled as a
    map of devices and a sequence of metric rows; SQLite's `datetime('now')` is the
    `now` argument, in whole seconds. */
module PiRoutes {
  import opened Js
  import Sorting

  /** A row of `pi_devices`. */
  datatype Device = Device(id: string, name: string, createdAt: int)

  /** A row of `pi_metrics`: every reading as it was bound, null when it was missing. */
  datatype MetricRow = MetricRow(
    id: nat, piId: string, ts: int,
    cpuTempC: Value, cpuUsage: Value, load1: Value, load5: Value, load15: Value,
    memTotalMb: Value, memUsedMb: Value, diskTotalGb: Value, diskUsedGb: Value,
    uptimeS: Value, ip: Value, rxKbps: Value, txKbps: Value)

  /** `requireToken`: with no configured token every request passes; otherwise the
      `x-pi-token` header must be present and equal to it. */
  function TokenGate(configured: string, header: Option<string>): (pass: bool)
    ensures pass <==> configured == "" || header == Some(configured)
  {
    if configured == "" then true
    else header.Some? && header.value != "" && header.value == configured
  }

  /** `String(name || "Raspberry Pi").slice(0, 60)` */
  function DeviceName(name: Value): (r: string)
    ensures |r| == Min(60, |ToString(Or(name, Str("Raspberry Pi")))|)
    ensures |r| <= |ToString(Or(name, Str("Raspberry Pi")))| && r == ToString(Or(name, Str("Raspberry Pi")))[..|r|]
    ensures |ToString(Or(name, Str("Raspberry Pi")))| <= 60 ==> r == ToString(Or(name, Str("Raspberry Pi")))
  {
    Take(ToString(Or(name, Str("Raspberry Pi"))), 60)
  }

  /** Without a usable name the device is called "Raspberry Pi". */
  lemma DefaultDeviceName(name: Value)
    requires !Truthy(name)
    ensures DeviceName(name) == "Raspberry Pi"
  {
  }

  /** `v ?? null`: null and undefined become null, every other value (0 and "" too)
      is kept. */
  function OrNull(v: Value): (r: Value)
    ensures Nullish(v) ==> r == Null
    ensures !Nullish(v) ==> r == v
  {
    if Nullish(v) then Null else v
  }

  /** The metric row an accepted ingest inserts. */
  function MetricRowOf(id: nat, piId: string, ts: int, body: Object): MetricRow {
    MetricRow(id, piId, ts,
      OrNull(Get(body, "cpuTempC")), OrNull(Get(body, "cpuUsage")),
      OrNull(Get(body, "load1")), OrNull(Get(body, "load5")), OrNull(Get(body, "load15")),
      OrNull(Get(body, "memTotalMb")), OrNull(Get(body, "memUsedMb")),
      OrNull(Get(body, "diskTotalGb")), OrNull(Get(body, "diskUsedGb")),
      OrNull(Get(body, "uptimeS")), OrNull(Get(body, "ip")),
      OrNull(Get(body, "rxKbps")), OrNull(Get(body, "txKbps")))
  }

  /** A reading of 0 is stored as 0, not as null, and a missing one as null. */
  lemma ZeroReadingKept(id: nat, piId: string, ts: int, body: Object)
    requires Get(body, "cpuUsage") == Num(0.0) && "cpuTempC" !in body
    ensures MetricRowOf(id, piId, ts, body).cpuUsage == Num(0.0)
    ensures MetricRowOf(id, piId, ts, body).cpuTempC == Null
  {
  }

  /** `INSERT … ON CONFLICT(id) DO UPDATE SET name = excluded.name`. */
  function Upsert(devices: map<string, Device>, id: string, name: string, now: int): (r: map<string, Device>)
    ensures r.Keys == devices.Keys + {id}
    ensures id in devices ==> r[id] == devices[id].(name := name)
    ensures id !in devices ==> r[id] == Device(id, name, now)
    ensures forall k :: k in devices && k != id ==> r[k] == devices[k]
  {
    if id in devices then devices[id := devices[id].(name := name)]
    else devices[id := Device(id, name, now)]
  }

  /** The device table grows by at most one row, and an existing device keeps its
      registration time. */
  lemma UpsertGrowsByAtMostOne(devices: map<string, Device>, id: string, name: string, now: int)
    ensures |Upsert(devices, id, name, now).Keys| <= |devices.Keys| + 1
    ensures id in devices ==> |Upsert(devices, id, name, now).Keys| == |devices.Keys|
    ensures id in devices ==> Upsert(devices, id, name, now)[id].createdAt == devices[id].createdAt
  {
    if id in devices {
      assert devices.Keys + {id} == devices.Keys;
    }
  }

  /** `WHERE pi_id = ?` */
  function OfDevice(rows: seq<MetricRow>, piId: string): (r: seq<MetricRow>)
    ensures |r| <= |rows|
    ensures forall m :: m in r <==> m in rows && m.piId == piId
  {
    if rows == [] then []
    else (if rows[0].piId == piId then [rows[0]] else []) + OfDevice(rows[1..], piId)
  }

  /** A device with no rows among `OfDevice` has none at all. */
  lemma NoneOfDevice(rows: seq<MetricRow>, piId: string)
    requires OfDevice(rows, piId) == []
    ensures forall m :: m in rows ==> m.piId != piId
  {
  }

  /** Conversely, rows none of which names the device filter to nothing. */
  lemma {:induction false} NoRowOfDevice(rows: seq<MetricRow>, piId: string)
    requires forall i :: 0 <= i < |rows| ==> rows[i].piId != piId
    ensures OfDevice(rows, piId) == []
  {
    if rows != [] {
      assert forall i :: 0 <= i < |rows[1..]| ==> rows[1..][i] == rows[i + 1];
      NoRowOfDevice(rows[1..], piId);
    }
  }

  function Ts(m: MetricRow): int { m.ts }

  /** The outcome of the history limit: a row count, or an error from SQLite when
      the number is NaN or not whole. */
  datatype Limit = Rows(n: nat) | Rejected


  /** `Math.max(10, Math.min(500, Number(req.query.limit || 200)))` */
  function HistoryLimit(query: Value): (r: Limit)
    ensures r.Rows? ==> 10 <= r.n <= 500
    ensures !Truthy(query) ==> r == Rows(200)
    ensures r.Rejected? <==> match ToNumber(query)
      case None => Truthy(query)
      case Some(x) => Truthy(query) && 10.0 < x < 500.0 && x != x.Floor as real
  {
    match ToNumber(Or(query, Num(200.0)))
    case None => Rejected
    case Some(x) =>
      var c := MathMax(10.0, MathMin(500.0, x));
      if c == c.Floor as real then Rows(c.Floor) else Rejected
  }

  /** A whole number within [10, 500] is taken as it is; one outside is clamped. */
  lemma HistoryLimitClamps(query: Value, k: int)
    requires Truthy(query) && ToNumber(query) == Some(k as real)
    ensures HistoryLimit(query) == Rows(if k < 10 then 10 else if k > 500 then 500 else k)
  {
  }

  /** The reply of `GET /latest/:piId`. */
  datatype LatestReply = NotFound | Found(device: Device, latest: Option<MetricRow>)

  class PiDatabase {
    /** `PI_INGEST_TOKEN`, read once when the router is made ("" when unset). */
    const token: string
    var devices: map<string, Device>
    var metrics: seq<MetricRow>
    var nextId: nat

    /** Devices are stored under their id, every metric row names a registered
        device, and row ids are below the next id to hand out. */
    ghost predicate Valid()
      reads this
    {
      && (forall k :: k in devices ==> devices[k].id == k)
      && (forall i :: 0 <= i < |metrics| ==> metrics[i].piId in devices && metrics[i].id < nextId)
    }

    /** A device the table does not know has no metric rows, so the 404 of
        `/latest` never hides a device's metrics. */
    lemma UnknownDeviceHasNoMetrics(piId: string)
      requires Valid() && piId !in devices
      ensures OfDevice(metrics, piId) == []
      ensures History(piId, Undefined) == Some([])
    {
      NoRowOfDevice(metrics, piId);
    }

    constructor(configured: string)
      ensures Valid()
      ensures token == configured && devices == map[] && metrics == [] && nextId == 1
    {
      token := configured;
      devices := map[];
      metrics := [];
      nextId := 1;
    }

    /** `POST /ingest` with `header` the `x-pi-token` header and `now` the database
        clock: 401 or 400 with nothing written, or the device upserted, exactly one
        metric row appended, and 200. */
    method Ingest(header: Option<string>, body: Object, now: int) returns (status: int, error: Option<string>)
      requires Valid()
      modifies this
      ensures Valid()
      ensures !TokenGate(token, header) ==>
        status == 401 && error == Some("Unauthorized")
        && devices == old(devices) && metrics == old(metrics) && nextId == old(nextId)
      ensures TokenGate(token, header) && !Truthy(Get(body, "piId")) ==>
        status == 400 && error == Some("piId required")
        && devices == old(devices) && metrics == old(metrics) && nextId == old(nextId)
      ensures TokenGate(token, header) && Truthy(Get(body, "piId")) ==>
        var id := ToString(Get(body, "piId"));
        && status == 200 && error == None
        && devices == Upsert(old(devices), id, DeviceName(Get(body, "name")), now)
        && metrics == old(metrics) + [MetricRowOf(old(nextId), id, now, body)]
        && nextId == old(nextId) + 1
    {
      if !TokenGate(token, header) {
        return 401, Some("Unauthorized");
      }
      var piId := Get(body, "piId");
      if !Truthy(piId) {
        return 400, Some("piId required");
      }
      var id := ToString(piId);
      devices := Upsert(devices, id, DeviceName(Get(body, "name")), now);
      metrics := metrics + [MetricRowOf(nextId, id, now, body)];
      nextId := nextId + 1;
      status, error := 200, None;
    }

    /** `GET /history/:piId`: at most `limit` rows of the device, newest first, none
        left out newer than the last returned; None when SQLite rejects the limit. */
    function History(piId: string, query: Value): (r: Option<seq<MetricRow>>)
      reads this
      ensures r.None? <==> HistoryLimit(query).Rejected?
      ensures r.Some? ==> var n := HistoryLimit(query).n;
        && |r.value| == Min(n, |OfDevice(metrics, piId)|)
        && multiset(r.value) <= multiset(OfDevice(metrics, piId))
        && (forall m :: m in r.value ==> m in metrics && m.piId == piId)
        && Sorting.NewestFirst(r.value, Ts)
        && (r.value != [] ==> forall m :: m in metrics && m.piId == piId && m !in r.value ==> m.ts <= r.value[|r.value| - 1].ts)
    {
      match HistoryLimit(query)
      case Rejected => None
      case Rows(n) => Some(Newest(piId, n))
    }

    /** `SELECT * FROM metrics WHERE pi_id = ? ORDER BY ts DESC LIMIT ?`. */
    function Newest(piId: string, n: nat): (r: seq<MetricRow>)
      reads this
      ensures |r| == Min(n, |OfDevice(metrics, piId)|)
      ensures multiset(r) <= multiset(OfDevice(metrics, piId))
      ensures forall m :: m in r ==> m in metrics && m.piId == piId
      ensures Sorting.NewestFirst(r, Ts)
      ensures r != [] ==> forall m :: m in metrics && m.piId == piId && m !in r ==> m.ts <= r[|r| - 1].ts
    {
      var mine := OfDevice(metrics, piId);
      Sorting.TopByDescMembers(mine, Ts, n);
      Sorting.TopByDesc(mine, Ts, n)
    }

    /** `GET /latest/:piId`: 404 for an unknown device, else the device with its
        newest metric row, or null when it has none. */
    function Latest(piId: string): (r: LatestReply)
      reads this
      ensures r.NotFound? <==> piId !in devices
      ensures r.Found? ==> r.device == devices[piId]
      ensures r.Found? ==> (r.latest.None? <==> forall m :: m in metrics ==> m.piId != piId)
      ensures r.Found? && r.latest.Some? ==>
        && r.latest.value in metrics && r.latest.value.piId == piId
        && forall m :: m in metrics && m.piId == piId ==> m.ts <= r.latest.value.ts
    {
      if piId !in devices then NotFound
      else
        var top := Newest(piId, 1);
        if top == [] then
          NoneOfDevice(metrics, piId);
          Found(devices[piId], None)
        else
          assert top[0] in top;
          Found(devices[piId], Some(top[0]))
    }
  }
}
