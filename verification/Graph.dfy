/** Dense control-flow graphs and the path-based meaning of dominance.
    A graph is its successor table; block numbers are indices into it. */
module Graph {

  type Succs = seq<seq<nat>>

  ghost predicate Wellformed(g: Succs) {
    forall u: nat, v: nat :: u < |g| && v in g[u] ==> v < |g|
  }

  ghost predicate Edge(g: Succs, u: nat, v: nat) {
    u < |g| && v in g[u] && v < |g|
  }

  ghost predicate IsPath(g: Succs, p: seq<nat>) {
    && p != []
    && (forall i :: 0 <= i < |p| ==> p[i] < |g|)
    && forall i, j :: 0 <= i && j == i + 1 && j < |p| ==> Edge(g, p[i], p[j])
  }

  ghost predicate PathFromTo(g: Succs, p: seq<nat>, a: nat, b: nat) {
    IsPath(g, p) && p[0] == a && p[|p| - 1] == b
  }

  ghost predicate Reach(g: Succs, a: nat, b: nat) {
    exists p :: PathFromTo(g, p, a, b)
  }

  /** `a` lies on every path from the root to the reachable block `b`. */
  ghost predicate Dominates(g: Succs, root: nat, a: nat, b: nat) {
    Reach(g, root, b) && forall p :: PathFromTo(g, p, root, b) ==> a in p
  }

  ghost predicate StrictlyDominates(g: Succs, root: nat, a: nat, b: nat) {
    a != b && Dominates(g, root, a, b)
  }

  /** `d` is the closest strict dominator of `b`. */
  ghost predicate IsIdom(g: Succs, root: nat, d: nat, b: nat) {
    && StrictlyDominates(g, root, d, b)
    && forall a :: StrictlyDominates(g, root, a, b) ==> Dominates(g, root, a, d)
  }

  lemma SubPath(g: Succs, p: seq<nat>, i: nat, j: nat)
    requires IsPath(g, p) && i < j <= |p|
    ensures PathFromTo(g, p[i..j], p[i], p[j - 1])
  {
  }

  /** Join two paths that meet in one block. */
  lemma JoinPaths(g: Succs, p: seq<nat>, q: seq<nat>, a: nat, b: nat, c: nat)
    requires PathFromTo(g, p, a, b) && PathFromTo(g, q, b, c)
    ensures PathFromTo(g, p + q[1..], a, c)
    ensures forall x :: x in p + q[1..] <==> x in p || x in q
  {
    var r := p + q[1..];
    assert q == [b] + q[1..];
    assert b in p;
    forall i, j | 0 <= i && j == i + 1 && j < |r| ensures Edge(g, r[i], r[j]) {
      if j < |p| {
      } else if i == |p| - 1 {
        assert r[j] == q[1] && r[i] == q[0];
      } else {
        assert r[i] == q[i - |p| + 1] && r[j] == q[i - |p| + 2];
      }
    }
    if |q| == 1 {
      assert r == p;
    } else {
      assert r[|r| - 1] == q[|q| - 1];
    }
  }

  lemma ReachRefl(g: Succs, a: nat)
    requires a < |g|
    ensures Reach(g, a, a)
  {
    assert PathFromTo(g, [a], a, a);
  }

  lemma ReachEdge(g: Succs, a: nat, b: nat, c: nat)
    requires Reach(g, a, b) && Edge(g, b, c)
    ensures Reach(g, a, c)
  {
    var p :| PathFromTo(g, p, a, b);
    assert PathFromTo(g, [b, c], b, c);
    JoinPaths(g, p, [b, c], a, b, c);
  }

  lemma DominatesRefl(g: Succs, root: nat, a: nat)
    requires Reach(g, root, a)
    ensures Dominates(g, root, a, a)
  {
  }

  /** A block that avoids `a` on some path is not dominated by it. */
  lemma NotDominated(g: Succs, root: nat, a: nat, b: nat) returns (p: seq<nat>)
    requires Reach(g, root, b) && !Dominates(g, root, a, b)
    ensures PathFromTo(g, p, root, b) && a !in p
  {
    p :| PathFromTo(g, p, root, b) && a !in p;
  }

  /** First occurrence of a member of a sequence. */
  lemma FirstIndex(p: seq<nat>, a: nat) returns (i: nat)
    requires a in p
    ensures i < |p| && p[i] == a && a !in p[..i]
  {
    i := 0;
    while p[i] != a
      invariant i < |p| && a !in p[..i] && a in p[i..]
      decreases |p| - i
    {
      i := i + 1;
    }
  }

  /** Last occurrence of a member of a sequence. */
  lemma LastIndex(p: seq<nat>, a: nat) returns (i: nat)
    requires a in p
    ensures i < |p| && p[i] == a && a !in p[i + 1..]
  {
    i := |p| - 1;
    while p[i] != a
      invariant i < |p| && a !in p[i + 1..] && a in p[..i + 1]
      decreases i
    {
      i := i - 1;
    }
  }

  lemma {:induction false} DominatesTrans(g: Succs, root: nat, a: nat, b: nat, c: nat)
    requires Dominates(g, root, a, b) && Dominates(g, root, b, c)
    ensures Dominates(g, root, a, c)
  {
    forall p | PathFromTo(g, p, root, c) ensures a in p {
      var i := FirstIndex(p, b);
      SubPath(g, p, 0, i + 1);
      assert a in p[0..i + 1];
    }
  }

  lemma DominatesAntisym(g: Succs, root: nat, a: nat, b: nat)
    requires Dominates(g, root, a, b) && Dominates(g, root, b, a)
    ensures a == b
  {
    var p :| PathFromTo(g, p, root, b);
    var i := FirstIndex(p, b);
    SubPath(g, p, 0, i + 1);
    assert a in p[0..i + 1];
    var k := FirstIndex(p, a);
    SubPath(g, p, 0, k + 1);
    assert b in p[0..k + 1];
    assert p[0..k + 1] <= p[..i] + [b] + p[i + 1..] == p;
    assert k <= i && i <= k;
  }

  /** A dominator of a reachable block is itself reachable. */
  lemma DominatorReachable(g: Succs, root: nat, a: nat, b: nat)
    requires Dominates(g, root, a, b)
    ensures Reach(g, root, a) && a < |g|
  {
    var p :| PathFromTo(g, p, root, b);
    var i := FirstIndex(p, a);
    SubPath(g, p, 0, i + 1);
  }

  /** A strict dominator of `v` dominates every predecessor of `v`. */
  lemma DominatesPredecessor(g: Succs, root: nat, a: nat, u: nat, v: nat)
    requires Reach(g, root, u) && Edge(g, u, v) && StrictlyDominates(g, root, a, v)
    ensures Dominates(g, root, a, u)
  {
    forall p | PathFromTo(g, p, root, u) ensures a in p {
      assert PathFromTo(g, [u, v], u, v);
      JoinPaths(g, p, [u, v], root, u, v);
      assert a in p + [u, v][1..];
    }
  }

  /** After the last visit of a dominator of the endpoint, a path stays below it. */
  lemma DominatesSuffix(g: Succs, root: nat, d: nat, p: seq<nat>, i: nat, j: nat)
    requires p != [] && PathFromTo(g, p, root, p[|p| - 1]) && Dominates(g, root, d, p[|p| - 1])
    requires i <= j < |p| && p[i] == d && d !in p[i + 1..]
    ensures Dominates(g, root, d, p[j])
  {
    SubPath(g, p, 0, j + 1);
    assert Reach(g, root, p[j]);
    if i < j && !Dominates(g, root, d, p[j]) {
      var q := NotDominated(g, root, d, p[j]);
      SubPath(g, p, j, |p|);
      JoinPaths(g, q, p[j..|p|], root, p[j], p[|p| - 1]);
    }
  }
}
