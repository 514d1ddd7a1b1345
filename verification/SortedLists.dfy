/** A list sorted by an asymmetric relation is determined by its members. */
module SortedLists {

  ghost predicate Sorted(s: seq<nat>, less: (nat, nat) -> bool) {
    forall i, j :: 0 <= i < j < |s| ==> less(s[i], s[j])
  }

  /** Lists of the same members, sorted by the same asymmetric relation, are equal. */
  lemma {:induction false} SameSorted(s: seq<nat>, t: seq<nat>, less: (nat, nat) -> bool)
    requires Sorted(s, less) && Sorted(t, less) && forall x: nat :: x in s <==> x in t
    requires forall a: nat, b: nat :: less(a, b) ==> !less(b, a)
    ensures s == t
    decreases |s|
  {
    BothEmpty(s, t);
    if s != [] {
      SameFirst(s, t, less);
      var a, b := s[1..], t[1..];
      assert s == [s[0]] + a && t == [t[0]] + b;
      FirstOnce(s, less);
      FirstOnce(t, less);
      forall x: nat ensures x in a <==> x in b {
        assert x in s <==> x == s[0] || x in a;
        assert x in t <==> x == t[0] || x in b;
      }
      SameSorted(a, b, less);
    }
  }

  lemma BothEmpty(s: seq<nat>, t: seq<nat>)
    requires forall x: nat :: x in s <==> x in t
    ensures s == [] <==> t == []
  {
    if s != [] {
      assert s[0] in s;
    }
    if t != [] {
      assert t[0] in t;
    }
  }

  lemma FirstOnce(s: seq<nat>, less: (nat, nat) -> bool)
    requires Sorted(s, less) && s != [] && forall a: nat, b: nat :: less(a, b) ==> !less(b, a)
    ensures s[0] !in s[1..]
  {
    forall i | 1 <= i < |s| ensures s[i] != s[0] {
      assert less(s[0], s[i]);
    }
  }

  lemma SameFirst(s: seq<nat>, t: seq<nat>, less: (nat, nat) -> bool)
    requires Sorted(s, less) && Sorted(t, less) && s != [] && t != [] && forall x: nat :: x in s <==> x in t
    requires forall a: nat, b: nat :: less(a, b) ==> !less(b, a)
    ensures s[0] == t[0]
  {
    assert s[0] in t && t[0] in s;
    var i :| 0 <= i < |s| && s[i] == t[0];
    var j :| 0 <= j < |t| && t[j] == s[0];
    assert i > 0 ==> less(s[0], t[0]);
    assert j > 0 ==> less(t[0], s[0]);
  }
}
