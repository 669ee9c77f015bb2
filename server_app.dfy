/** The monitoring API (server/app.js): the endpoint registry, on-demand checks and
    their history. The `endpoints` and `checks` tables are sequences of rows; the
    outcome of `fetch` and the clocks are arguments. */
module ServerApp {
  import opened Js
  import Sorting

  /** What `await fetch(url)` did: a response with its status code, or a throw. */
  datatype FetchOutcome = Responded(code: int) | Failed

  /** The value `checkUrl` resolves to. */
  datatype CheckResult = CheckResult(ok: bool, status: Option<int>, ms: int)

  /** `checkUrl(url)` given what `fetch` did and the clock before and after it. It
      never fails: a thrown fetch becomes a result like any other. */
  function CheckUrl(outcome: FetchOutcome, start: int, end: int): (r: CheckResult)
    ensures r.ms == end - start
    ensures outcome.Failed? ==> !r.ok && r.status == None
    ensures outcome.Responded? ==> r.status == Some(outcome.code) && (r.ok <==> 200 <= outcome.code <= 299)
  {
    match outcome
    case Responded(code) => CheckResult(200 <= code <= 299, Some(code), end - start)
    case Failed => CheckResult(false, None, end - start)
  }

  /** A row of `endpoints`; `createdAt` is SQLite's `datetime('now')` in seconds. */
  datatype Endpoint = Endpoint(id: int, name: string, httpMethod: string, url: string, createdAt: int)

  /** A row of `checks`, `ok` stored as 1 or 0. */
  datatype CheckRecord = CheckRecord(id: nat, endpointId: int, ok: int, status: Option<int>, ms: int, createdAt: int)

  predicate NoLowerCase(s: string) {
    forall i :: 0 <= i < |s| ==> !('a' <= s[i] <= 'z')
  }

  /** Upper-casing keeps a trimmed text trimmed and leaves no lower-case letter. */
  lemma UpperKeepsTrimmed(s: string)
    requires Trimmed(s)
    ensures Trimmed(ToUpper(s)) && NoLowerCase(ToUpper(s))
  {
    var u := ToUpper(s);
    if s != [] {
      assert u[0] == UpperChar(s[0]) && u[|u| - 1] == UpperChar(s[|s| - 1]);
    }
  }

  /** `String(method).trim().toUpperCase()` */
  function Verb(v: Value): (r: string)
    ensures Trimmed(r) && NoLowerCase(r)
    ensures var m := Trim(ToString(v));
      |r| == |m| && forall i :: 0 <= i < |m| ==> r[i] == UpperChar(m[i])
  {
    var m := Trim(ToString(v));
    UpperKeepsTrimmed(m);
    ToUpper(m)
  }

  /** The endpoint `POST /api/endpoints` builds, or None (400) when any of name,
      method and url is falsy. `idMs` is `Date.now()`, `nowSec` the database clock. */
  function NewEndpoint(body: Object, idMs: int, nowSec: int): (r: Option<Endpoint>)
    ensures r.None? <==> !Truthy(Get(body, "name")) || !Truthy(Get(body, "method")) || !Truthy(Get(body, "url"))
    ensures r.Some? ==> r.value.id == idMs && r.value.createdAt == nowSec
    ensures r.Some? ==> Trimmed(r.value.name) && Trimmed(r.value.url) && Trimmed(r.value.httpMethod)
    ensures r.Some? ==> NoLowerCase(r.value.httpMethod)
    ensures r.Some? ==> r.value.name == Trim(ToString(Get(body, "name"))) && r.value.url == Trim(ToString(Get(body, "url")))
    ensures r.Some? ==> r.value.httpMethod == Verb(Get(body, "method"))
  {
    var name, verb, url := Get(body, "name"), Get(body, "method"), Get(body, "url");
    if !Truthy(name) || !Truthy(verb) || !Truthy(url) then None
    else
      Some(Endpoint(idMs, Trim(ToString(name)), Verb(verb), Trim(ToString(url)), nowSec))
  }

  /** A name of spaces only passes the truthiness check and is stored empty. */
  lemma BlankNameStoredEmpty(body: Object, idMs: int, nowSec: int)
    requires Get(body, "name") == Str("  ")
    requires Get(body, "method") == Str("get") && Get(body, "url") == Str("http://x")
    ensures NewEndpoint(body, idMs, nowSec) == Some(Endpoint(idMs, "", "GET", "http://x", nowSec))
  {
    assert Trim("  ") == "" by { BlankTrimmedEmpty("  "); }
    assert Trim("http://x") == "http://x" by { TrimOfTrimmed("http://x"); }
    assert Verb(Str("get")) == "GET" by { LowerVerbUpperCased(); }
    StoredFromStrings(body, idMs, nowSec, "  ", "get", "http://x");
  }

  /** Three non-empty strings pass the check and are stored trimmed. */
  lemma StoredFromStrings(body: Object, idMs: int, nowSec: int, name: string, verb: string, url: string)
    requires Get(body, "name") == Str(name) && Get(body, "method") == Str(verb) && Get(body, "url") == Str(url)
    requires name != "" && verb != "" && url != ""
    ensures NewEndpoint(body, idMs, nowSec) == Some(Endpoint(idMs, Trim(name), Verb(Str(verb)), Trim(url), nowSec))
  {
    assert ToString(Str(name)) == name && ToString(Str(url)) == url;
    assert Truthy(Str(name)) && Truthy(Str(verb)) && Truthy(Str(url));
  }

  lemma BlankTrimmedEmpty(s: string)
    requires forall i :: 0 <= i < |s| ==> s[i] == ' '
    ensures Trim(s) == ""
  {
    assert AllSpace(s);
  }

  lemma LowerVerbUpperCased()
    ensures Verb(Str("get")) == "GET"
  {
    assert ToString(Str("get")) == "get";
    TrimOfTrimmed("get");
    var up := ToUpper("get");
    assert up[0] == 'G' && up[1] == 'E' && up[2] == 'T';
    assert up == "GET";
    assert Verb(Str("get")) == up;
  }

  /** `Number(req.params.id)`; None stands for NaN, which equals no id. */
  function IdParam(param: string): Option<real> {
    ParseNumber(param)
  }

  /** The id the client writes into the path reads back as that id, so it matches
      its own row. */
  lemma IdParamOfIdText(id: int)
    ensures IdParam(IntText(id)) == Some(id as real)
    ensures IdMatches(id, IdParam(IntText(id)))
  {
    IntTextRoundTrip(id);
  }

  /** `WHERE id = ?` with the bound number `target`. */
  predicate IdMatches(id: int, target: Option<real>) {
    target == Some(id as real)
  }

  /** `DELETE FROM endpoints WHERE id = ?` */
  function WithoutEndpoint(es: seq<Endpoint>, target: Option<real>): (r: seq<Endpoint>)
    ensures forall e :: e in r <==> e in es && !IdMatches(e.id, target)
  {
    if es == [] then []
    else (if IdMatches(es[0].id, target) then [] else [es[0]]) + WithoutEndpoint(es[1..], target)
  }

  /** The rows `ON DELETE CASCADE` leaves. */
  function WithoutChecksOf(cs: seq<CheckRecord>, target: Option<real>): (r: seq<CheckRecord>)
    ensures forall c :: c in r <==> c in cs && !IdMatches(c.endpointId, target)
  {
    if cs == [] then []
    else (if IdMatches(cs[0].endpointId, target) then [] else [cs[0]]) + WithoutChecksOf(cs[1..], target)
  }

  /** Deleting twice is deleting once. */
  lemma {:induction false} DeleteEndpointIdempotent(es: seq<Endpoint>, target: Option<real>)
    ensures WithoutEndpoint(WithoutEndpoint(es, target), target) == WithoutEndpoint(es, target)
  {
    if es != [] {
      DeleteEndpointIdempotent(es[1..], target);
      var rest := WithoutEndpoint(es[1..], target);
      if IdMatches(es[0].id, target) {
        assert WithoutEndpoint(es, target) == rest;
      } else {
        var once := [es[0]] + rest;
        assert WithoutEndpoint(es, target) == once;
        assert once[0] == es[0] && once[1..] == rest;
        assert WithoutEndpoint(once, target) == [es[0]] + WithoutEndpoint(rest, target);
      }
    }
  }

  /** Cascading twice is cascading once. */
  lemma {:induction false} DeleteChecksIdempotent(cs: seq<CheckRecord>, target: Option<real>)
    ensures WithoutChecksOf(WithoutChecksOf(cs, target), target) == WithoutChecksOf(cs, target)
  {
    if cs != [] {
      DeleteChecksIdempotent(cs[1..], target);
      var rest := WithoutChecksOf(cs[1..], target);
      if IdMatches(cs[0].endpointId, target) {
        assert WithoutChecksOf(cs, target) == rest;
      } else {
        var once := [cs[0]] + rest;
        assert WithoutChecksOf(cs, target) == once;
        assert once[0] == cs[0] && once[1..] == rest;
        assert WithoutChecksOf(once, target) == [cs[0]] + WithoutChecksOf(rest, target);
      }
    }
  }

  /** `SELECT … WHERE id = ?` */
  function Find(es: seq<Endpoint>, target: Option<real>): (r: Option<Endpoint>)
    ensures r.Some? ==> r.value in es && IdMatches(r.value.id, target)
    ensures r.None? ==> forall e :: e in es ==> !IdMatches(e.id, target)
  {
    if es == [] then None
    else if IdMatches(es[0].id, target) then Some(es[0])
    else Find(es[1..], target)
  }

  /** No two rows share an id. */
  predicate UniqueIds(es: seq<Endpoint>) {
    forall i, j :: 0 <= i < j < |es| ==> es[i].id != es[j].id
  }

  function Ids(es: seq<Endpoint>): set<int> {
    set e | e in es :: e.id
  }

  /** Every check belongs to an endpoint (the foreign key) and has an id below `next`. */
  ghost predicate Linked(cs: seq<CheckRecord>, es: seq<Endpoint>, next: nat) {
    forall c :: c in cs ==> c.id < next && c.endpointId in Ids(es)
  }

  function CreatedAt(e: Endpoint): int { e.createdAt }
  function CheckedAt(c: CheckRecord): int { c.createdAt }

  /** `WHERE endpoint_id = ?` */
  function ChecksOf(cs: seq<CheckRecord>, target: Option<real>): (r: seq<CheckRecord>)
    ensures forall c :: c in r <==> c in cs && IdMatches(c.endpointId, target)
  {
    if cs == [] then []
    else (if IdMatches(cs[0].endpointId, target) then [cs[0]] else []) + ChecksOf(cs[1..], target)
  }

  /** The reply of `POST /api/check/:id`. */
  datatype CheckReply = CheckReply(endpointId: int, ok: bool, status: Option<int>, ms: int)

  class EndpointDb {
    var endpoints: seq<Endpoint>
    var checks: seq<CheckRecord>
    var nextCheckId: nat

    /** Endpoint ids are unique (the primary key), every check belongs to an
        endpoint (the foreign key), and check ids lie below the next one. */
    ghost predicate Valid()
      reads this
    {
      UniqueIds(endpoints) && Linked(checks, endpoints, nextCheckId)
    }

    constructor()
      ensures Valid()
      ensures endpoints == [] && checks == [] && nextCheckId == 1
    {
      endpoints := [];
      checks := [];
      nextCheckId := 1;
    }

    /** `POST /api/endpoints`: 400 when a field is missing, 500 when the id is already
        taken (the primary key rejects the insert), else the new row is appended and
        returned with 201. */
    method Create(body: Object, idMs: int, nowSec: int) returns (status: int, created: Option<Endpoint>)
      requires Valid()
      modifies this
      ensures Valid()
      ensures checks == old(checks) && nextCheckId == old(nextCheckId)
      ensures NewEndpoint(body, idMs, nowSec).None? ==>
        status == 400 && created == None && endpoints == old(endpoints)
      ensures NewEndpoint(body, idMs, nowSec).Some? && idMs in Ids(old(endpoints)) ==>
        status == 500 && created == None && endpoints == old(endpoints)
      ensures NewEndpoint(body, idMs, nowSec).Some? && idMs !in Ids(old(endpoints)) ==>
        status == 201 && created == NewEndpoint(body, idMs, nowSec)
        && endpoints == old(endpoints) + [created.value]
    {
      var built := NewEndpoint(body, idMs, nowSec);
      if built.None? {
        return 400, None;
      }
      if idMs in Ids(endpoints) {
        return 500, None;
      }
      Insert(built.value);
      status, created := 201, built;
    }

    /** The `INSERT` itself: a row whose id is not yet taken is appended. */
    method Insert(e: Endpoint)
      requires Valid() && e.id !in Ids(endpoints)
      modifies this
      ensures Valid()
      ensures endpoints == old(endpoints) + [e]
      ensures checks == old(checks) && nextCheckId == old(nextCheckId)
    {
      AppendKeepsValid(endpoints, checks, nextCheckId, e);
      endpoints := endpoints + [e];
    }

    /** `DELETE /api/endpoints/:id`, `target` being `IdParam` of the path: always
        ok; the endpoint and, by the cascade, its checks are gone. */
    method Delete(target: Option<real>)
      requires Valid()
      modifies this
      ensures Valid()
      ensures endpoints == WithoutEndpoint(old(endpoints), target)
      ensures checks == WithoutChecksOf(old(checks), target)
      ensures nextCheckId == old(nextCheckId)
    {
      var es := WithoutEndpoint(endpoints, target);
      var cs := WithoutChecksOf(checks, target);
      UniqueAfterFilter(endpoints, target);
      forall c | c in cs ensures c.endpointId in Ids(es) {
        var e :| e in endpoints && e.id == c.endpointId;
        assert e in es;
      }
      endpoints, checks := es, cs;
    }

    /** `POST /api/check/:id`, `target` being `IdParam` of the path: 404 with
        nothing written for an unknown id; else one check row is appended with ok
        stored as 1/0, and the result is returned. */
    method RunCheck(target: Option<real>, outcome: FetchOutcome, start: int, end: int, nowSec: int)
      returns (status: int, reply: Option<CheckReply>)
      requires Valid()
      modifies this
      ensures Valid()
      ensures endpoints == old(endpoints)
      ensures Find(old(endpoints), target).None? ==>
        status == 404 && reply == None && checks == old(checks) && nextCheckId == old(nextCheckId)
      ensures Find(old(endpoints), target).Some? ==>
        var e, r := Find(old(endpoints), target).value, CheckUrl(outcome, start, end);
        && status == 200 && reply == Some(CheckReply(e.id, r.ok, r.status, r.ms))
        && checks == old(checks) + [CheckRecord(old(nextCheckId), e.id, if r.ok then 1 else 0, r.status, r.ms, nowSec)]
        && nextCheckId == old(nextCheckId) + 1
    {
      var found := Find(endpoints, target);
      if found.None? {
        return 404, None;
      }
      var e := found.value;
      var result := CheckUrl(outcome, start, end);
      var record := CheckRecord(nextCheckId, e.id, if result.ok then 1 else 0, result.status, result.ms, nowSec);
      AppendCheckKeepsLinked(checks, endpoints, nextCheckId, e, record);
      checks := checks + [record];
      nextCheckId := nextCheckId + 1;
      status, reply := 200, Some(CheckReply(e.id, result.ok, result.status, result.ms));
    }

    /** `GET /api/checks/:id`, `target` being `IdParam` of the path: at most 50 of
        the endpoint's checks, newest first, none left out newer than the last
        returned. */
    function RecentChecks(target: Option<real>): (r: seq<CheckRecord>)
      reads this
      ensures |r| == Min(50, |ChecksOf(checks, target)|)
      ensures multiset(r) <= multiset(ChecksOf(checks, target))
      ensures forall c :: c in r ==> c in checks && IdMatches(c.endpointId, target)
      ensures Sorting.NewestFirst(r, CheckedAt)
      ensures r != [] ==> forall c :: c in checks && IdMatches(c.endpointId, target) && c !in r ==> c.createdAt <= r[|r| - 1].createdAt
    {
      var mine := ChecksOf(checks, target);
      var top := Sorting.TopByDesc(mine, CheckedAt, 50);
      Sorting.TopByDescMembers(mine, CheckedAt, 50);
      top
    }

    /** `GET /api/endpoints`: every endpoint, newest first. */
    function Listing(): (r: seq<Endpoint>)
      reads this
      ensures multiset(r) == multiset(endpoints)
      ensures Sorting.NewestFirst(r, CreatedAt)
    {
      var top := Sorting.TopByDesc(endpoints, CreatedAt, |endpoints|);
      SubMultisetOfSameSize(multiset(top), multiset(endpoints));
      top
    }
  }

  lemma SubMultisetOfSameSize<T>(a: multiset<T>, b: multiset<T>)
    requires a <= b && |a| == |b|
    ensures a == b
  {
    var c := b - a;
    assert b == a + c;
  }

  /** Adding a row with a fresh id keeps the ids unique. */
  lemma AppendKeepsUnique(es: seq<Endpoint>, e: Endpoint)
    requires UniqueIds(es) && e.id !in Ids(es)
    ensures UniqueIds(es + [e]) && Ids(es + [e]) == Ids(es) + {e.id}
  {
    forall i | 0 <= i < |es| ensures es[i].id != e.id {
      assert es[i] in es;
    }
  }

  /** Adding an endpoint with a fresh id keeps the ids unique and every check linked. */
  lemma AppendKeepsValid(es: seq<Endpoint>, cs: seq<CheckRecord>, next: nat, e: Endpoint)
    requires UniqueIds(es) && Linked(cs, es, next) && e.id !in Ids(es)
    ensures UniqueIds(es + [e]) && Linked(cs, es + [e], next)
  {
    AppendKeepsUnique(es, e);
  }

  /** A check of a registered endpoint, numbered `next`, keeps every check linked. */
  lemma AppendCheckKeepsLinked(cs: seq<CheckRecord>, es: seq<Endpoint>, next: nat, e: Endpoint, c: CheckRecord)
    requires Linked(cs, es, next) && e in es && c.id == next && c.endpointId == e.id
    ensures Linked(cs + [c], es, next + 1)
  {
    assert e.id in Ids(es);
  }

  /** Removing rows keeps the ids unique. */
  lemma UniqueAfterFilter(es: seq<Endpoint>, target: Option<real>)
    requires UniqueIds(es)
    ensures UniqueIds(WithoutEndpoint(es, target))
  {
    if es != [] {
      UniqueAfterFilter(es[1..], target);
      var rest := WithoutEndpoint(es[1..], target);
      forall k | 0 <= k < |rest| ensures rest[k].id != es[0].id {
        assert rest[k] in es[1..];
      }
    }
  }
}
