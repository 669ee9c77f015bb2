/** Sorting by an integer key: the `sort((a, b) => a - b)` of the dashboard and the
    `ORDER BY … DESC LIMIT n` queries of the servers. */
module Sorting {
  import opened Js

  /** Ascending by key. */
  ghost predicate SortedBy<T>(s: seq<T>, key: T -> int) {
    forall i, j :: 0 <= i < j < |s| ==> key(s[i]) <= key(s[j])
  }

  /** Descending by key: newest first when the key is a timestamp. */
  ghost predicate NewestFirst<T>(s: seq<T>, key: T -> int) {
    forall i, j :: 0 <= i < j < |s| ==> key(s[i]) >= key(s[j])
  }

  function InsertBy<T>(x: T, s: seq<T>, key: T -> int): (r: seq<T>)
    requires SortedBy(s, key)
    ensures SortedBy(r, key)
    ensures multiset(r) == multiset(s) + multiset{x}
  {
    if s == [] || key(x) <= key(s[0]) then
      [x] + s
    else
      var rest := InsertBy(x, s[1..], key);
      assert s == [s[0]] + s[1..];
      HeadBelowRest(x, s, rest, key);
      [s[0]] + rest
  }

  /** Whatever is inserted after the head of a sorted list sorts after that head. */
  lemma HeadBelowRest<T>(x: T, s: seq<T>, rest: seq<T>, key: T -> int)
    requires SortedBy(s, key) && s != [] && key(s[0]) <= key(x)
    requires SortedBy(rest, key) && multiset(rest) == multiset(s[1..]) + multiset{x}
    ensures SortedBy([s[0]] + rest, key)
  {
    forall k | 0 <= k < |rest| ensures key(s[0]) <= key(rest[k]) {
      assert rest[k] in multiset(rest);
      if rest[k] != x {
        assert rest[k] in multiset(s[1..]);
        var m :| 0 <= m < |s[1..]| && s[1..][m] == rest[k];
        assert s[m + 1] == rest[k];
      }
    }
  }

  /** Insertion sort: a permutation of `s`, ascending by key. */
  function SortBy<T>(s: seq<T>, key: T -> int): (r: seq<T>)
    ensures SortedBy(r, key)
    ensures multiset(r) == multiset(s)
  {
    if s == [] then []
    else
      assert s == [s[0]] + s[1..];
      InsertBy(s[0], SortBy(s[1..], key), key)
  }

  /** `ORDER BY key DESC LIMIT n`: up to `n` of the rows, largest key first, and no
      row left out has a larger key than any row kept. Rows with equal keys come in
      no promised order. */
  function TopByDesc<T>(rows: seq<T>, key: T -> int, n: nat): (r: seq<T>)
    ensures |r| == Min(n, |rows|)
    ensures NewestFirst(r, key)
    ensures multiset(r) <= multiset(rows)
    ensures r != [] ==> forall y :: y in multiset(rows) - multiset(r) ==> key(y) <= key(r[|r| - 1])
  {
    var neg := x => -key(x);
    var sorted := SortBy(rows, neg);
    PrefixOfDescending(sorted, key, neg, n);
    Take(sorted, n)
  }

  /** The rows `TopByDesc` keeps come from the input, and every row it leaves out
      ranks no higher than the last one kept. */
  lemma TopByDescMembers<T>(rows: seq<T>, key: T -> int, n: nat)
    ensures forall y :: y in TopByDesc(rows, key, n) ==> y in rows
    ensures var r := TopByDesc(rows, key, n);
      r != [] ==> forall y :: y in rows && y !in r ==> key(y) <= key(r[|r| - 1])
  {
    var r := TopByDesc(rows, key, n);
    SubMultisetMembers(r, rows);
    if r != [] {
      forall y | y in rows && y !in r ensures key(y) <= key(r[|r| - 1]) {
        assert y in multiset(rows) - multiset(r);
      }
    }
  }

  lemma SubMultisetMembers<T>(r: seq<T>, rows: seq<T>)
    requires multiset(r) <= multiset(rows)
    ensures forall y :: y in r ==> y in rows
  {
    forall y | y in r ensures y in rows { assert y in multiset(r); }
  }

  lemma PrefixOfDescending<T>(sorted: seq<T>, key: T -> int, neg: T -> int, n: nat)
    requires forall x :: neg(x) == -key(x)
    requires SortedBy(sorted, neg)
    ensures NewestFirst(Take(sorted, n), key)
    ensures multiset(Take(sorted, n)) <= multiset(sorted)
    ensures var r := Take(sorted, n);
      r != [] ==> forall y :: y in multiset(sorted) - multiset(r) ==> key(y) <= key(r[|r| - 1])
  {
    var r := Take(sorted, n);
    var rest := sorted[|r|..];
    assert sorted == r + rest;
    assert multiset(sorted) == multiset(r) + multiset(rest);
    assert NewestFirst(r, key) by {
      forall i, j | 0 <= i < j < |r| ensures key(r[i]) >= key(r[j]) {
        assert neg(sorted[i]) <= neg(sorted[j]);
      }
    }
    if r != [] {
      forall y | y in multiset(sorted) - multiset(r) ensures key(y) <= key(r[|r| - 1]) {
        assert y in multiset(rest);
        var m :| 0 <= m < |rest| && rest[m] == y;
        assert sorted[|r| + m] == y;
        assert neg(sorted[|r| - 1]) <= neg(sorted[|r| + m]);
      }
    }
  }
}
