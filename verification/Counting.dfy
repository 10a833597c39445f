/** Finite cardinality facts shared by the models. */
module Counting {

  function ToSet<T(==,!new)>(s: seq<T>): (r: set<T>)
    ensures forall x :: x in r <==> x in s
    ensures |r| <= |s|
  {
    if s == [] then {} else ToSet(s[..|s| - 1]) + {s[|s| - 1]}
  }

  ghost predicate Distinct(s: seq<nat>) {
    forall i, j | 0 <= i < j < |s| :: s[i] != s[j]
  }

  lemma {:induction false} DistinctSize(s: seq<nat>)
    requires Distinct(s)
    ensures |ToSet(s)| == |s|
  {
    if s != [] {
      DistinctSize(s[..|s| - 1]);
    }
  }

  function Range(n: nat): (r: set<nat>)
    ensures forall i: nat :: i in r <==> i < n
    ensures |r| == n
  {
    if n == 0 then {} else Range(n - 1) + {n - 1}
  }

  function Interval(a: nat, b: nat): (r: set<nat>)
    requires a <= b
    ensures forall i: nat :: i in r <==> a <= i < b
    ensures |r| == b - a
    decreases b
  {
    if a == b then {} else Interval(a, b - 1) + {b - 1}
  }

  lemma SubsetSize<T>(a: set<T>, b: set<T>)
    requires a <= b
    ensures |a| <= |b|
  {
    assert b == a + (b - a);
  }

  lemma NotFull(s: set<nat>, n: nat)
    requires forall x | x in s :: x < n
    ensures |s| < n <==> exists i: nat :: i < n && i !in s
  {
    if forall i: nat :: i < n ==> i in s {
      SubsetSize(Range(n), s);
    } else {
      var i: nat :| i < n && i !in s;
      SubsetSize(s + {i}, Range(n));
    }
  }
}
