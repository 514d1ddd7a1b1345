/** Counting facts about finite sets and sequences of block numbers. */
module Finite {

  function Below(n: nat): (s: set<nat>)
    ensures |s| == n && forall x: nat :: x in s <==> x < n
  {
    if n == 0 then {} else Below(n - 1) + {n - 1}
  }

  lemma {:induction false} SubsetCard<T>(a: set<T>, b: set<T>)
    requires a <= b
    ensures |a| <= |b| && (|a| == |b| ==> a == b)
  {
    if a != {} {
      var x :| x in a;
      SubsetCard(a - {x}, b - {x});
    }
  }

  lemma {:induction false} DistinctCard<T>(s: seq<T>)
    requires forall i, j :: 0 <= i < j < |s| ==> s[i] != s[j]
    ensures |set x | x in s| == |s|
  {
    if s == [] {
      assert (set x | x in s) == {};
    } else {
      var t := s[..|s| - 1];
      DistinctCard(t);
      assert s == t + [s[|s| - 1]];
      assert (set x | x in s) == (set x | x in t) + {s[|s| - 1]};
    }
  }

  /** Distinct numbers below a bound are no more than the bound. */
  lemma Pigeonhole(s: seq<nat>, n: nat)
    requires forall i, j :: 0 <= i < j < |s| ==> s[i] != s[j]
    requires forall i :: 0 <= i < |s| ==> s[i] < n
    ensures |s| <= n
  {
    DistinctCard(s);
    SubsetCard((set x | x in s), Below(n));
  }
}
