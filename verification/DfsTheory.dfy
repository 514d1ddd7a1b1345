/** Theory of a depth-first numbering: ancestors, semidominators, and why the
    Lengauer-Tarjan rules name immediate dominators. */
module DfsTheory {
  import opened Graph

  /** A graph renumbered by discovery time. Number 0 is unused and 1 is the root.
      `anc[v]` is the set of tree ancestors of `v`, itself included. */
  datatype Dfs = Dfs(h: Succs, par: seq<nat>, anc: seq<set<nat>>)

  ghost predicate Anc(t: Dfs, a: nat, v: nat) {
    v < |t.anc| && a in t.anc[v]
  }

  ghost predicate Tree(t: Dfs) {
    && 2 <= |t.h| == |t.par| == |t.anc|
    && t.anc[0] == {} && t.anc[1] == {1}
    && forall v {:trigger t.par[v]} :: 2 <= v < |t.par| ==>
         1 <= t.par[v] < v && Edge(t.h, t.par[v], v) && t.anc[v] == t.anc[t.par[v]] + {v}
  }

  ghost predicate ValidDfs(t: Dfs) {
    && Tree(t)
    && (forall u, v :: Edge(t.h, u, v) ==> 1 <= u && 1 <= v)
    && (forall a, x, y :: Anc(t, a, x) && a <= y <= x ==> Anc(t, a, y))
    && forall u, v :: Edge(t.h, u, v) && u < v ==> Anc(t, u, v)
  }

  lemma {:induction false} AncBounds(t: Dfs, a: nat, v: nat)
    requires Tree(t) && 1 <= v < |t.h|
    ensures Anc(t, v, v) && Anc(t, 1, v)
    ensures Anc(t, a, v) ==> 1 <= a <= v
  {
    if v > 1 {
      AncBounds(t, a, t.par[v]);
    }
  }

  lemma {:induction false} AncTrans(t: Dfs, a: nat, b: nat, c: nat)
    requires Tree(t) && Anc(t, a, b) && Anc(t, b, c)
    ensures Anc(t, a, c)
  {
    if c > 1 && b != c {
      AncTrans(t, a, b, t.par[c]);
    }
  }

  /** The tree path between related vertices visits only vertices between them. */
  lemma {:induction false} TreePath(t: Dfs, a: nat, v: nat) returns (p: seq<nat>)
    requires Tree(t) && Anc(t, a, v)
    ensures PathFromTo(t.h, p, a, v)
    ensures forall x :: x in p ==> a <= x && Anc(t, x, v)
    decreases v
  {
    AncBounds(t, a, v);
    if a == v {
      p := [v];
    } else {
      var q := TreePath(t, a, t.par[v]);
      assert PathFromTo(t.h, [t.par[v], v], t.par[v], v);
      JoinPaths(t.h, q, [t.par[v], v], a, t.par[v], v);
      p := q + [t.par[v], v][1..];
      assert p == q + [v];
    }
  }

  lemma {:induction false} StaysBelow(t: Dfs, p: seq<nat>, j: nat, k: nat)
    requires ValidDfs(t) && IsPath(t.h, p) && j <= k < |p| && 1 <= p[j]
    requires forall i :: j <= i <= k ==> p[j] <= p[i]
    ensures Anc(t, p[j], p[k])
    decreases k
  {
    if j == k {
      AncBounds(t, 1, p[j]);
    } else {
      StaysBelow(t, p, j, k - 1);
      assert Edge(t.h, p[k - 1], p[k]);
      if p[k - 1] < p[k] {
        AncTrans(t, p[j], p[k - 1], p[k]);
      }
    }
  }

  lemma LeastIndex(p: seq<nat>, i: nat, j: nat) returns (m: nat)
    requires i <= j < |p|
    ensures i <= m <= j && forall k :: i <= k <= j ==> p[m] <= p[k]
  {
    m := i;
    for k := i to j + 1
      invariant i <= m <= j && forall l :: i <= l < k ==> p[m] <= p[l]
    {
      if p[k] < p[m] { m := k; }
    }
  }

  /** The path lemma: a path that ends no lower than it starts meets a common ancestor. */
  lemma CommonAncestor(t: Dfs, p: seq<nat>, i: nat, j: nat) returns (m: nat)
    requires ValidDfs(t) && IsPath(t.h, p) && i <= j < |p| && 1 <= p[i] <= p[j]
    ensures i <= m <= j && Anc(t, p[m], p[i]) && Anc(t, p[m], p[j])
  {
    m := LeastIndex(p, i, j);
    PositivePath(t, p, i, m);
    StaysBelow(t, p, m, j);
    AncBounds(t, p[m], p[j]);
  }

  lemma PositivePath(t: Dfs, p: seq<nat>, i: nat, m: nat)
    requires ValidDfs(t) && IsPath(t.h, p) && i <= m < |p| && 1 <= p[i]
    ensures 1 <= p[m]
  {
    if i < m {
      assert Edge(t.h, p[m - 1], p[m]);
    }
  }

  /** `q` enters its last vertex through higher-numbered vertices only. */
  ghost predicate SemiPath(t: Dfs, q: seq<nat>) {
    IsPath(t.h, q) && 2 <= |q| && forall i :: 0 < i < |q| - 1 ==> q[i] > q[|q| - 1]
  }

  /** `s` is the semidominator of `w`: the least start of a semipath into `w`. */
  ghost predicate IsSemi(t: Dfs, s: nat, w: nat) {
    && (exists q :: SemiPath(t, q) && q[0] == s && q[|q| - 1] == w)
    && forall q :: SemiPath(t, q) && q[|q| - 1] == w ==> s <= q[0]
  }

  /** Before the first ancestor of `t0`, everything is numbered higher than it. */
  lemma HigherBefore(t: Dfs, p: seq<nat>, i0: nat, t0: nat, i: nat, j: nat)
    requires ValidDfs(t) && IsPath(t.h, p) && i0 < i < j < |p| && Anc(t, p[j], t0)
    requires forall k :: i0 < k < j ==> !Anc(t, p[k], t0)
    ensures p[i] > p[j]
  {
    assert Edge(t.h, p[i - 1], p[i]) && Edge(t.h, p[j - 1], p[j]);
    if p[i] <= p[j] {
      var m := CommonAncestor(t, p, i, j);
      AncTrans(t, p[m], p[j], t0);
      assert m == j;
      AncBounds(t, p[j], p[i]);
    }
  }

  /** Past index `i0`, the first ancestor of `t0` on the path is entered by a semipath. */
  lemma FirstAncestor(t: Dfs, p: seq<nat>, i0: nat, t0: nat) returns (j: nat)
    requires ValidDfs(t) && IsPath(t.h, p) && i0 < |p| - 1
    requires Anc(t, p[|p| - 1], t0)
    ensures i0 < j < |p| && Anc(t, p[j], t0)
    ensures forall i :: i0 < i < j ==> !Anc(t, p[i], t0)
    ensures SemiPath(t, p[i0..j + 1])
  {
    j := i0 + 1;
    while !Anc(t, p[j], t0)
      invariant i0 < j < |p| && forall i :: i0 < i < j ==> !Anc(t, p[i], t0)
      decreases |p| - j
    {
      j := j + 1;
    }
    forall i | i0 < i < j ensures p[i] > p[j] {
      HigherBefore(t, p, i0, t0, i, j);
    }
    HigherIsSemiPath(t, p, i0, j);
  }

  lemma HigherIsSemiPath(t: Dfs, p: seq<nat>, i0: nat, j: nat)
    requires IsPath(t.h, p) && i0 < j < |p| && forall i :: i0 < i < j ==> p[i] > p[j]
    ensures SemiPath(t, p[i0..j + 1])
  {
    var q := p[i0..j + 1];
    SubPath(t.h, p, i0, j + 1);
    forall i | 0 < i < |q| - 1 ensures q[i] > q[|q| - 1] {
      assert q[i] == p[i0 + i];
    }
  }

  lemma SemiIsProperAncestor(t: Dfs, s: nat, w: nat)
    requires ValidDfs(t) && 2 <= w < |t.h| && IsSemi(t, s, w)
    ensures 1 <= s <= t.par[w] < w && Anc(t, s, w)
  {
    assert SemiPath(t, [t.par[w], w]);
    var q :| SemiPath(t, q) && q[0] == s && q[|q| - 1] == w;
    assert Edge(t.h, q[0], q[1]);
    var m := CommonAncestor(t, q, 0, |q| - 1);
    AncBounds(t, q[m], s);
    assert m == 0;
  }

  /** Walk to the semidominator along the tree, then along its semipath. */
  lemma StrictDominatorsAboveSemi(t: Dfs, s: nat, w: nat, z: nat)
    requires ValidDfs(t) && 2 <= w < |t.h| && IsSemi(t, s, w)
    requires StrictlyDominates(t.h, 1, z, w)
    ensures Anc(t, z, w) && z <= s
  {
    AncBounds(t, 1, w);
    var p := TreePath(t, 1, w);
    assert z in p;
    SemiIsProperAncestor(t, s, w);
    AncBounds(t, 1, s);
    var p1 := TreePath(t, 1, s);
    var q :| SemiPath(t, q) && q[0] == s && q[|q| - 1] == w;
    JoinPaths(t.h, p1, q, 1, s, w);
    if z in p1 {
      AncBounds(t, z, s);
    } else {
      assert z in q;
      var i :| 0 <= i < |q| && q[i] == z;
      AncBounds(t, z, w);
      assert i == 0;
    }
  }

  /** A path from the root enters the ancestors of `w` numbered at least `b` by a
      semipath whose start is below `b`. */
  lemma EntryBelow(t: Dfs, p: seq<nat>, b: nat, w: nat) returns (x: nat, y: nat)
    requires ValidDfs(t) && PathFromTo(t.h, p, 1, w) && 1 < b <= w
    requires Anc(t, w, w)
    ensures x < b <= y && Anc(t, y, w) && y in p && x >= 1
    ensures exists q :: SemiPath(t, q) && q[0] == x && q[|q| - 1] == y
  {
    var i := |p| - 1;
    while p[i] >= b
      invariant 0 <= i < |p| && forall k :: i < k < |p| ==> p[k] >= b
      decreases i
    {
      i := i - 1;
    }
    var j := FirstAncestor(t, p, i, w);
    x, y := p[i], p[j];
    PositivePath(t, p, 0, i);
    var q := p[i..j + 1];
    assert SemiPath(t, q) && q[0] == x && q[|q| - 1] == y;
  }

  /** Every vertex strictly between `s` and `w` on the tree, and `w`, has a
      semidominator that is at least `b`. */
  ghost predicate SemisAtLeast(t: Dfs, s: nat, w: nat, b: nat) {
    forall y, sy :: Anc(t, y, w) && s < y && IsSemi(t, sy, y) ==> b <= sy
  }

  lemma SemiAtMost(t: Dfs, x: nat, y: nat, sy: nat)
    requires exists q :: SemiPath(t, q) && q[0] == x && q[|q| - 1] == y
    requires IsSemi(t, sy, y)
    ensures sy <= x
  {
  }

  ghost predicate HasSemi(t: Dfs, w: nat) {
    exists s :: IsSemi(t, s, w)
  }

  ghost predicate HasSemis(t: Dfs) {
    forall w :: 2 <= w < |t.h| ==> HasSemi(t, w)
  }

  lemma DominatesSemiOrBelow(t: Dfs, s: nat, w: nat, z: nat, u: nat)
    requires ValidDfs(t) && StrictlyDominates(t.h, 1, z, w) && z <= s
    requires Anc(t, u, w) && s <= u
    requires 2 <= w < |t.h| && IsSemi(t, s, w)
    ensures Dominates(t.h, 1, z, u)
  {
    AncBounds(t, u, w);
    AncBounds(t, 1, u);
    var p0 := TreePath(t, 1, u);
    var q := TreePath(t, u, w);
    forall p | PathFromTo(t.h, p, 1, u) ensures z in p {
      JoinPaths(t.h, p, q, 1, u, w);
      assert z in p || z in q;
      if z in q {
        assert z == u;
      }
    }
  }

  /** First rule: if no vertex between them has a lower semidominator, the
      semidominator is the immediate dominator. */
  lemma SemiIsIdom(t: Dfs, s: nat, w: nat)
    requires ValidDfs(t) && HasSemis(t) && 2 <= w < |t.h| && IsSemi(t, s, w)
    requires SemisAtLeast(t, s, w, s)
    ensures IsIdom(t.h, 1, s, w)
  {
    SemiIsProperAncestor(t, s, w);
    AncBounds(t, 1, w);
    var p0 := TreePath(t, 1, w);
    forall p | PathFromTo(t.h, p, 1, w) ensures s in p {
      if s != 1 {
        var x, y := EntryBelow(t, p, s, w);
        AncBounds(t, y, w);
        assert HasSemi(t, y);
      }
    }
    forall z | StrictlyDominates(t.h, 1, z, w) ensures Dominates(t.h, 1, z, s) {
      StrictDominatorsAboveSemi(t, s, w, z);
      DominatesSemiOrBelow(t, s, w, z, s);
    }
  }

  /** Second rule: otherwise the vertex of least semidominator between them has
      the same immediate dominator. */
  lemma RelativeIdom(t: Dfs, s: nat, w: nat, u: nat, su: nat, d: nat)
    requires ValidDfs(t) && HasSemis(t) && 2 <= w < |t.h| && IsSemi(t, s, w)
    requires Anc(t, u, w) && s < u < w && IsSemi(t, su, u) && su < s
    requires SemisAtLeast(t, s, w, su)
    requires IsIdom(t.h, 1, d, u)
    ensures IsIdom(t.h, 1, d, w)
  {
    SemiIsProperAncestor(t, s, w);
    StrictDominatorsAboveSemi(t, su, u, d);
    AncBounds(t, 1, w);
    AncBounds(t, d, u);
    var p0 := TreePath(t, 1, w);
    forall p | PathFromTo(t.h, p, 1, w) ensures d in p {
      if d != 1 {
        var x, y := EntryBelow(t, p, d, w);
        RelativeEntry(t, s, w, u, su, d, x, y);
      }
    }
    forall z | StrictlyDominates(t.h, 1, z, w) ensures Dominates(t.h, 1, z, d) {
      StrictDominatorsAboveSemi(t, s, w, z);
      DominatesSemiOrBelow(t, s, w, z, u);
      assert StrictlyDominates(t.h, 1, z, u);
    }
  }

  /** An entry above `d` is `d` itself: otherwise there would be a path
      to `u` that avoids `d`. */
  lemma RelativeEntry(t: Dfs, s: nat, w: nat, u: nat, su: nat, d: nat, x: nat, y: nat)
    requires ValidDfs(t) && HasSemis(t) && 2 <= w < |t.h|
    requires Anc(t, u, w) && s < u < w && Anc(t, s, w) && IsSemi(t, su, u) && su < s
    requires SemisAtLeast(t, s, w, su)
    requires IsIdom(t.h, 1, d, u) && d <= su
    requires 1 <= x < d <= y && Anc(t, y, w)
    requires exists q :: SemiPath(t, q) && q[0] == x && q[|q| - 1] == y
    ensures y == d
  {
    AncBounds(t, y, w);
    assert HasSemi(t, y);
    var sy :| IsSemi(t, sy, y);
    SemiAtMost(t, x, y, sy);
    assert y <= s;
    assert Anc(t, y, u);
    var q :| SemiPath(t, q) && q[0] == x && q[|q| - 1] == y;
    AncBounds(t, 1, x);
    var r1 := TreePath(t, 1, x);
    var r3 := TreePath(t, y, u);
    JoinPaths(t.h, r1, q, 1, x, y);
    JoinPaths(t.h, r1 + q[1..], r3, 1, y, u);
    assert d in r1 || d in q || d in r3;
    if d in r1 {
      AncBounds(t, d, x);
    }
  }

  /** The value the algorithm computes for `w`: the least of its lower
      predecessors and of the semidominators of higher ancestors of its higher ones. */
  ghost predicate Candidate(t: Dfs, w: nat, c: nat) {
    || (Edge(t.h, c, w) && c < w)
    || exists v, u :: Edge(t.h, v, w) && Anc(t, u, v) && w < u && IsSemi(t, c, u)
  }

  lemma CandidateIsStart(t: Dfs, w: nat, c: nat)
    requires ValidDfs(t) && Candidate(t, w, c)
    ensures exists q :: SemiPath(t, q) && q[0] == c && q[|q| - 1] == w
  {
    if Edge(t.h, c, w) && c < w {
      assert SemiPath(t, [c, w]);
    } else {
      var v, u :| Edge(t.h, v, w) && Anc(t, u, v) && w < u && IsSemi(t, c, u);
      var q1 :| SemiPath(t, q1) && q1[0] == c && q1[|q1| - 1] == u;
      var q2 := TreePath(t, u, v);
      var q := ExtendSemiPath(t, q1, q2, c, u, v, w);
    }
  }

  /** A semipath to a higher vertex, on down the tree and over one edge, is a semipath. */
  lemma ExtendSemiPath(t: Dfs, q1: seq<nat>, q2: seq<nat>, c: nat, u: nat, v: nat, w: nat) returns (q: seq<nat>)
    requires SemiPath(t, q1) && q1[0] == c && q1[|q1| - 1] == u && w < u
    requires PathFromTo(t.h, q2, u, v) && (forall x :: x in q2 ==> x >= u) && Edge(t.h, v, w)
    ensures SemiPath(t, q) && q[0] == c && q[|q| - 1] == w
  {
    var q3 := [v, w];
    assert PathFromTo(t.h, q3, v, w);
    JoinPaths(t.h, q2, q3, u, v, w);
    var q23 := q2 + q3[1..];
    JoinPaths(t.h, q1, q23, c, u, w);
    q := q1 + q23[1..];
    forall i | 0 < i < |q| - 1 ensures q[i] > w {
      JoinedAbove(q1, q2, w, u, i);
    }
  }

  lemma JoinedAbove(q1: seq<nat>, q2: seq<nat>, w: nat, u: nat, i: nat)
    requires |q1| > 1 && q2 != [] && q2[0] == u == q1[|q1| - 1] && w < u
    requires (forall k :: 0 < k < |q1| - 1 ==> q1[k] > u) && forall x :: x in q2 ==> x >= u
    requires 0 < i < |q1| + |q2| - 1
    ensures (q1 + (q2 + [w])[1..])[i] > w
  {
    if i < |q1| {
      assert i == |q1| - 1 || q1[i] > u;
    } else {
      var k := i - |q1| + 1;
      assert (q1 + (q2 + [w])[1..])[i] == q2[k];
      assert q2[k] in q2;
    }
  }

  lemma SemiRecurrence(t: Dfs, w: nat, s: nat)
    requires ValidDfs(t) && 2 <= w < |t.h|
    requires forall u :: w < u < |t.h| ==> HasSemi(t, u)
    requires Candidate(t, w, s) && forall c :: Candidate(t, w, c) ==> s <= c
    ensures IsSemi(t, s, w)
  {
    CandidateIsStart(t, w, s);
    forall q | SemiPath(t, q) && q[|q| - 1] == w ensures s <= q[0] {
      assert Candidate(t, w, t.par[w]);
      if |q| == 2 {
        assert Edge(t.h, q[0], w);
        if q[0] < w {
          assert Candidate(t, w, q[0]);
        }
      } else {
        var z := q[|q| - 2];
        assert Edge(t.h, z, q[|q| - 1]);
        AncBounds(t, z, z);
        var qz := q[0..|q| - 1];
        SubPath(t.h, q, 0, |q| - 1);
        var j := FirstAncestor(t, qz, 0, z);
        var u := qz[j];
        assert u == q[j] && w < u;
        AncBounds(t, u, z);
        assert HasSemi(t, u);
        var su :| IsSemi(t, su, u);
        assert Candidate(t, w, su);
        var r := qz[0..j + 1];
        assert SemiPath(t, r) && r[|r| - 1] == u && r[0] == q[0];
      }
    }
  }
}
