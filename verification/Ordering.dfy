/** Ascending iteration over a finite set of keys, as an ordered map gives, and the
    sorting of a list of naturals. */
module Ordering {

  function Least(s: set<nat>): (m: nat)
    requires s != {}
    ensures m in s && forall x :: x in s ==> m <= x
  {
    assert exists m :: m in s && forall x :: x in s ==> m <= x by {
      var m := LeastExists(s);
    }
    var m :| m in s && forall x :: x in s ==> m <= x;
    m
  }

  lemma {:induction false} LeastExists(s: set<nat>) returns (m: nat)
    requires s != {}
    ensures m in s && forall x :: x in s ==> m <= x
    decreases |s|
  {
    m :| m in s;
    var rest := s - {m};
    if rest != {} {
      var b := LeastExists(rest);
      m := if m < b then m else b;
    }
    assert forall x :: x in s ==> x in rest || x in s - rest;
  }

  ghost predicate Ascending(keys: seq<nat>) {
    forall i, j :: 0 <= i < j < |keys| ==> keys[i] < keys[j]
  }

  lemma RemoveOne(s: set<nat>, m: nat)
    requires m in s
    ensures |s - {m}| == |s| - 1 && forall x :: x in s <==> x == m || x in s - {m}
  {
  }

  lemma AscendingCons(m: nat, rest: seq<nat>)
    requires Ascending(rest) && forall x :: x in rest ==> m < x
    ensures Ascending([m] + rest)
  {
    var keys := [m] + rest;
    forall i, j | 0 <= i < j < |keys| ensures keys[i] < keys[j] {
      assert keys[j] == rest[j - 1] && rest[j - 1] in rest;
      assert i > 0 ==> keys[i] == rest[i - 1];
    }
  }

  /** The elements of a set in ascending order. */
  function SortedKeys(s: set<nat>): (keys: seq<nat>)
    ensures forall x :: x in keys <==> x in s
    ensures Ascending(keys)
    decreases |s|
  {
    if s == {} then []
    else
      var m := Least(s);
      RemoveOne(s, m);
      var rest := SortedKeys(s - {m});
      AscendingCons(m, rest);
      [m] + rest
  }

  // ----- Sorting with repetition -----

  ghost predicate Sorted(s: seq<nat>) {
    forall i, j :: 0 <= i < j < |s| ==> s[i] <= s[j]
  }

  lemma SortedCons(x: nat, s: seq<nat>)
    requires Sorted(s) && forall y :: y in s ==> x <= y
    ensures Sorted([x] + s)
  {
    var r := [x] + s;
    forall i, j | 0 <= i < j < |r| ensures r[i] <= r[j] {
      assert r[j] == s[j - 1] && s[j - 1] in s;
      assert i > 0 ==> r[i] == s[i - 1];
    }
  }

  function Insert(x: nat, s: seq<nat>): (r: seq<nat>)
    requires Sorted(s)
    ensures Sorted(r) && |r| == |s| + 1
    ensures forall y :: y in r <==> y == x || y in s
  {
    if s == [] || x <= s[0] then [x] + s
    else
      var rest := Insert(x, s[1..]);
      assert forall y :: y in rest ==> y == x || y in s[1..];
      SortedCons(s[0], rest);
      [s[0]] + rest
  }

  function Sort(s: seq<nat>): (r: seq<nat>)
    ensures Sorted(r) && |r| == |s|
  {
    if s == [] then [] else Insert(s[0], Sort(s[1..]))
  }

  /** How many listed values are at least k. */
  function CountAtLeast(s: seq<nat>, k: nat): (n: nat)
    ensures n <= |s|
  {
    if s == [] then 0 else (if s[0] >= k then 1 else 0) + CountAtLeast(s[1..], k)
  }

  lemma {:induction false} InsertKeepsCount(x: nat, s: seq<nat>, k: nat)
    requires Sorted(s)
    ensures CountAtLeast(Insert(x, s), k) == CountAtLeast(s, k) + if x >= k then 1 else 0
  {
    if s == [] || x <= s[0] {
      assert ([x] + s)[1..] == s;
    } else {
      InsertKeepsCount(x, s[1..], k);
      assert ([s[0]] + Insert(x, s[1..]))[1..] == Insert(x, s[1..]);
    }
  }

  lemma {:induction false} SortKeepsCount(s: seq<nat>, k: nat)
    ensures CountAtLeast(Sort(s), k) == CountAtLeast(s, k)
  {
    if s != [] {
      SortKeepsCount(s[1..], k);
      InsertKeepsCount(s[0], Sort(s[1..]), k);
    }
  }

  /** In a sorted list, at least n values reach k exactly when the n-th from the end does. */
  lemma {:induction false} CountFromEnd(s: seq<nat>, n: nat, k: nat)
    requires Sorted(s) && 1 <= n <= |s|
    ensures CountAtLeast(s, k) >= n <==> s[|s| - n] >= k
  {
    if n == |s| {
      if s[0] >= k {
        AllAtLeast(s, k);
      } else if |s| > 1 {
        assert CountAtLeast(s[1..], k) <= |s| - 1;
      }
    } else {
      CountFromEnd(s[1..], n, k);
      assert s[1..][|s| - 1 - n] == s[|s| - n];
      if s[0] >= k {
        AllAtLeast(s, k);
      }
    }
  }

  lemma {:induction false} AllAtLeast(s: seq<nat>, k: nat)
    requires forall i :: 0 <= i < |s| ==> s[i] >= k
    ensures CountAtLeast(s, k) == |s|
  {
    if s != [] {
      AllAtLeast(s[1..], k);
    }
  }

  /** Main result about sort-and-index: at least n listed values reach k exactly when k is
      at most the n-th value from the end of the sorted list. */
  lemma NthLargest(s: seq<nat>, n: nat, k: nat)
    requires 1 <= n <= |s|
    ensures CountAtLeast(s, k) >= n <==> k <= Sort(s)[|s| - n]
  {
    SortKeepsCount(s, k);
    CountFromEnd(Sort(s), n, k);
  }
}
