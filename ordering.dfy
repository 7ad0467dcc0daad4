/** Query results as sequences of row ids: the rows of a table are numbered
    from 0, a `filter(...)` keeps the ids whose row satisfies a condition,
    and an `order_by(...)` sorts the ids by an integer key. */
module Ordering {
  import opened Wrappers

  /** `s` lists its ids in non-decreasing order of `key`. */
  predicate SortedBy(s: seq<nat>, key: nat -> int)
  {
    forall i, j :: 0 <= i < j < |s| ==> key(s[i]) <= key(s[j])
  }

  /** No id is listed twice. */
  predicate Distinct(s: seq<nat>)
  {
    forall x :: x in s ==> multiset(s)[x] == 1
  }

  /** The ids of a table of `n` rows, in id order. */
  function Range(n: nat): (r: seq<nat>)
    ensures |r| == n
    ensures forall i :: 0 <= i < n ==> r[i] == i
  {
    if n == 0 then [] else Range(n - 1) + [n - 1]
  }

  lemma {:induction false} RangeDistinct(n: nat)
    ensures Distinct(Range(n))
  {
    if n > 0 {
      RangeDistinct(n - 1);
      var r := Range(n - 1);
      assert n - 1 !in r;
      var last: nat := n - 1;
      assert multiset(Range(n)) == multiset(r) + multiset{last};
    }
  }

  /** The ids of `s` that satisfy `p`, in the order of `s`. */
  function Where(s: seq<nat>, p: nat -> bool): (r: seq<nat>)
    ensures forall x :: x in r <==> x in s && p(x)
    ensures multiset(r) <= multiset(s)
    ensures |r| <= |s|
  {
    if s == [] then []
    else
      var rest := Where(s[1..], p);
      assert s == [s[0]] + s[1..];
      if p(s[0]) then [s[0]] + rest else rest
  }

  lemma WhereDistinct(s: seq<nat>, p: nat -> bool)
    requires Distinct(s)
    ensures Distinct(Where(s, p))
  {
    var r := Where(s, p);
    forall x | x in r ensures multiset(r)[x] == 1 {
      assert multiset(r)[x] <= multiset(s)[x];
    }
  }

  /** Inserts `x` into the sorted `s` before the first id whose key is at
      least `key(x)`. */
  function InsertBy(x: nat, s: seq<nat>, key: nat -> int): (r: seq<nat>)
    requires SortedBy(s, key)
    ensures SortedBy(r, key)
    ensures multiset(r) == multiset(s) + multiset{x}
  {
    if s == [] || key(x) <= key(s[0]) then
      ConsSorted(x, s, key);
      [x] + s
    else
      var rest := InsertBy(x, s[1..], key);
      assert s == [s[0]] + s[1..];
      HeadBelowInserted(x, s, rest, key);
      ConsSorted(s[0], rest, key);
      [s[0]] + rest
  }

  /** An id whose key is at most every key of a sorted `s` can go first. */
  lemma ConsSorted(h: nat, s: seq<nat>, key: nat -> int)
    requires SortedBy(s, key)
    requires s == [] || key(h) <= key(s[0])
    ensures SortedBy([h] + s, key)
  {
    var r := [h] + s;
    forall i, j | 0 <= i < j < |r| ensures key(r[i]) <= key(r[j]) {
      assert r[j] == s[j - 1];
      if i > 0 {
        assert r[i] == s[i - 1];
      }
    }
  }

  /** Inserting `x` after the head of a sorted `s` keeps every key at
      least the head's. */
  lemma HeadBelowInserted(x: nat, s: seq<nat>, rest: seq<nat>, key: nat -> int)
    requires SortedBy(s, key) && s != [] && key(s[0]) < key(x)
    requires multiset(rest) == multiset(s[1..]) + multiset{x}
    requires SortedBy(rest, key)
    ensures rest == [] || key(s[0]) <= key(rest[0])
  {
    if rest != [] {
      assert rest[0] in multiset(rest);
      if rest[0] != x {
        assert rest[0] in multiset(s[1..]);
        var k :| 0 <= k < |s[1..]| && s[1..][k] == rest[0];
        assert s[k + 1] == rest[0];
      }
    }
  }

  /** `order_by(key)`: the ids of `s` sorted by `key` (an insertion sort). */
  function SortBy(s: seq<nat>, key: nat -> int): (r: seq<nat>)
    ensures SortedBy(r, key)
    ensures multiset(r) == multiset(s)
  {
    if s == [] then []
    else
      assert s == [s[0]] + s[1..];
      InsertBy(s[0], SortBy(s[1..], key), key)
  }

  /** Sorting keeps exactly the ids it was given, each as often. */
  lemma SortByMembers(s: seq<nat>, key: nat -> int)
    ensures forall x :: x in SortBy(s, key) <==> x in s
    ensures |SortBy(s, key)| == |s|
    ensures Distinct(s) ==> Distinct(SortBy(s, key))
  {
    var r := SortBy(s, key);
    assert |r| == |multiset(r)| == |multiset(s)| == |s|;
    forall x ensures x in r <==> x in s {
      assert x in r <==> x in multiset(r);
      assert x in s <==> x in multiset(s);
    }
  }

  /** The first id in `from .. n - 1` that satisfies `p`, if any: a `get`
      on a condition that holds for at most one row, or the first row of a
      `filter`. */
  function FindFrom(from: nat, n: nat, p: nat -> bool): (r: Option<nat>)
    ensures r.Some? ==> from <= r.value < n && p(r.value)
    ensures r.Some? ==> forall k :: from <= k < r.value ==> !p(k)
    ensures r.None? <==> forall k :: from <= k < n ==> !p(k)
    decreases n - from
  {
    if from >= n then None
    else if p(from) then Some(from)
    else FindFrom(from + 1, n, p)
  }

  /** The first id below `n` that satisfies `p`, if any. */
  function Find(n: nat, p: nat -> bool): (r: Option<nat>)
    ensures r.Some? ==> r.value < n && p(r.value) && forall k: nat :: k < r.value ==> !p(k)
    ensures r.None? <==> forall k: nat :: k < n ==> !p(k)
  {
    FindFrom(0, n, p)
  }

  /** `filter(p).order_by(key)` over a table of `n` rows: the ids below `n`
      that satisfy `p`, each once, sorted by `key`. */
  function Query(n: nat, p: nat -> bool, key: nat -> int): (r: seq<nat>)
    ensures forall k: nat :: k in r <==> k < n && p(k)
    ensures Distinct(r)
    ensures SortedBy(r, key)
  {
    var found := Where(Range(n), p);
    RangeDistinct(n);
    WhereDistinct(Range(n), p);
    SortByMembers(found, key);
    var r := SortBy(found, key);
    forall k: nat ensures k in r <==> k < n && p(k) {
      assert k in r <==> k in found;
      RangeMembers(n, k);
    }
    r
  }

  lemma RangeMembers(n: nat, k: nat)
    ensures k in Range(n) <==> k < n
  {
    if k < n {
      assert Range(n)[k] == k;
    }
  }
}
