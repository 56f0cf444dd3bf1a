/** Counting arguments on finite sets and sequences. */
module Counting {

  lemma {:induction false} DistinctCardinality<T(!new)>(s: seq<T>)
    requires forall i, j :: 0 <= i < j < |s| ==> s[i] != s[j]
    ensures |set x | x in s| == |s|
  {
    if s != [] {
      var t := s[..|s| - 1];
      DistinctCardinality(t);
      assert (set x | x in s) == (set x | x in t) + {s[|s| - 1]};
    }
  }

  function Below(n: nat): (r: set<nat>)
    ensures forall x: nat :: x in r <==> x < n
    ensures |r| == n
  {
    if n == 0 then {} else Below(n - 1) + {n - 1}
  }

  /** n distinct numbers below n are all of them. */
  lemma Pigeonhole(s: seq<nat>, p: nat)
    requires forall i, j :: 0 <= i < j < |s| ==> s[i] != s[j]
    requires forall i :: 0 <= i < |s| ==> s[i] < |s|
    requires p < |s|
    ensures p in s
  {
    var elems := set x | x in s;
    DistinctCardinality(s);
    if p !in s {
      SubsetCardinality(elems, Below(|s|) - {p});
    }
  }

  lemma {:induction false} SubsetCardinality<T>(a: set<T>, b: set<T>)
    requires a <= b
    ensures |a| <= |b|
  {
    assert |b - a| + |a| == |b| by {
      assert b == (b - a) + a;
    }
  }
}
