/** What pruned SSA means: liveness, placement, renaming and reading along paths. */
module SsaSpec {
  import opened Graph
  import opened CfgErrors
  import opened DomTree
  import opened Dominance
  import opened Frontier

  datatype Version =
    | EntryVersion(variable: nat)
    | DefVersion(variable: nat, definition: nat)
    | PhiVersion(variable: nat, block: nat)

  datatype Event = Use(variable: nat, usage: nat) | Def(variable: nat, definition: nat)

  type Events = seq<seq<Event>>

  datatype SsaCfg = SsaCfg(root: nat, succs: Succs, preds: seq<seq<nat>>, tree: DominatorTree, frontier: seq<set<nat>>)

  /** Predecessor lists are the reverse edges in ascending order. */
  ghost predicate PredecessorTable(g: Succs, preds: seq<seq<nat>>) {
    && |preds| == |g|
    && (forall u: nat, v: nat :: v < |preds| ==> (u in preds[v] <==> Edge(g, u, v)))
    && forall v, i, j :: 0 <= v < |preds| && 0 <= i < j < |preds[v]| ==> preds[v][i] < preds[v][j]
  }

  ghost predicate FrontierTable(g: Succs, root: nat, frontier: seq<set<nat>>) {
    && |frontier| == |g|
    && forall x: nat, y: nat :: x < |g| ==> (y in frontier[x] <==> InFrontier(g, root, x, y))
  }

  ghost predicate NoParallelEdges(g: Succs) {
    forall u, i, j :: 0 <= u < |g| && 0 <= i < j < |g[u]| ==> g[u][i] != g[u][j]
  }

  /** Complete dominance information about a reachable graph. */
  ghost predicate CfgOk(c: SsaCfg) {
    && Analyzed(c.succs, c.root, c.tree)
    && (forall b: nat :: b < |c.succs| ==> Reach(c.succs, c.root, b))
    && PredecessorTable(c.succs, c.preds) && NoParallelEdges(c.succs)
    && FrontierTable(c.succs, c.root, c.frontier)
  }

  // ------------------------------------------------------------ one block

  /** The version of `v` after a list of events entered with version `x`. */
  function After(es: seq<Event>, v: nat, x: Version): Version {
    if es == [] then x
    else
      var e := es[|es| - 1];
      if e.Def? && e.variable == v then DefVersion(v, e.definition) else After(es[..|es| - 1], v, x)
  }

  ghost predicate Defines(es: seq<Event>, v: nat) {
    exists i :: 0 <= i < |es| && es[i].Def? && es[i].variable == v
  }

  /** Some use of `v` comes before every definition of it. */
  ghost predicate UpwardUse(es: seq<Event>, v: nat) {
    exists i :: 0 <= i < |es| && es[i].Use? && es[i].variable == v && !Defines(es[..i], v)
  }

  lemma {:induction false} AfterNoDef(es: seq<Event>, v: nat, x: Version)
    requires !Defines(es, v)
    ensures After(es, v, x) == x
  {
    if es != [] {
      AfterNoDef(es[..|es| - 1], v, x);
    }
  }

  lemma {:induction false} AfterDef(es: seq<Event>, v: nat, x: Version, y: Version)
    requires Defines(es, v)
    ensures After(es, v, x) == After(es, v, y) && After(es, v, x).DefVersion?
  {
    var i :| 0 <= i < |es| && es[i].Def? && es[i].variable == v;
    var e := es[|es| - 1];
    if !(e.Def? && e.variable == v) {
      assert es[..|es| - 1][i] == es[i];
      AfterDef(es[..|es| - 1], v, x, y);
    }
  }

  // ------------------------------------------------------------ liveness

  ghost predicate LivePath(c: SsaCfg, events: Events, v: nat, p: seq<nat>) {
    && |events| == |c.succs| && IsPath(c.succs, p)
    && UpwardUse(events[p[|p| - 1]], v)
    && forall i :: 0 <= i < |p| - 1 ==> !Defines(events[p[i]], v)
  }

  /** Some path from the entry of `b` uses `v` before defining it. */
  ghost predicate LiveIn(c: SsaCfg, events: Events, v: nat, b: nat) {
    exists p :: LivePath(c, events, v, p) && p[0] == b
  }

  lemma LiveBack(c: SsaCfg, events: Events, v: nat, u: nat, b: nat)
    requires LiveIn(c, events, v, b) && Edge(c.succs, u, b) && |events| == |c.succs|
    ensures Defines(events[u], v) || LiveIn(c, events, v, u)
  {
    var p :| LivePath(c, events, v, p) && p[0] == b;
    var q := [u] + p;
    if !Defines(events[u], v) {
      forall i, j | 0 <= i && j == i + 1 && j < |q| ensures Edge(c.succs, q[i], q[j]) {
        if i > 0 {
          assert q[i] == p[i - 1] && q[j] == p[i];
        }
      }
      assert IsPath(c.succs, q);
      assert LivePath(c, events, v, q);
    }
  }

  // ------------------------------------------------------------ phi placement

  type Places = set<(nat, nat)>

  ghost predicate DefOrPhi(events: Events, phis: Places, b: nat, v: nat) {
    b < |events| && (Defines(events[b], v) || (b, v) in phis)
  }

  /** Placement is closed under the live part of the frontier. */
  ghost predicate FrontierClosed(c: SsaCfg, events: Events, phis: Places) {
    && |events| == |c.succs|
    && forall x: nat, y: nat, v: nat ::
         DefOrPhi(events, phis, x, v) && InFrontier(c.succs, c.root, x, y) && LiveIn(c, events, v, y) ==> (y, v) in phis
  }

  /** `(y, v)` is forced by a chain of at most `k` live frontier steps from a definition. */
  ghost predicate Needed(c: SsaCfg, events: Events, v: nat, y: nat, k: nat)
    decreases k
  {
    && k > 0 && |events| == |c.succs| && LiveIn(c, events, v, y)
    && exists x: nat :: x < |events| && InFrontier(c.succs, c.root, x, y) &&
         (Defines(events[x], v) || Needed(c, events, v, x, k - 1))
  }

  /** Exactly the forced phis. */
  ghost predicate Placed(c: SsaCfg, events: Events, phis: Places) {
    && FrontierClosed(c, events, phis)
    && forall z: (nat, nat) :: z in phis ==> exists k: nat :: Needed(c, events, z.1, z.0, k)
  }

  lemma {:induction false} NeededIsPlaced(c: SsaCfg, events: Events, phis: Places, v: nat, y: nat, k: nat)
    requires FrontierClosed(c, events, phis) && Needed(c, events, v, y, k)
    ensures (y, v) in phis
    decreases k
  {
    var x: nat :| x < |events| && InFrontier(c.succs, c.root, x, y)
      && (Defines(events[x], v) || Needed(c, events, v, x, k - 1));
    if !Defines(events[x], v) {
      NeededIsPlaced(c, events, phis, v, x, k - 1);
    }
    assert DefOrPhi(events, phis, x, v);
  }

  /** The placement is unique: it is contained in every closed placement. */
  lemma PlacementIsLeast(c: SsaCfg, events: Events, phis: Places, other: Places)
    requires Placed(c, events, phis) && FrontierClosed(c, events, other)
    ensures phis <= other
  {
    forall z: (nat, nat) | z in phis ensures z in other {
      var k: nat :| Needed(c, events, z.1, z.0, k);
      NeededIsPlaced(c, events, other, z.1, z.0, k);
    }
  }

  // ------------------------------------------------------------ renaming

  /** The version of `v` on entry to `b`, found by climbing the dominator tree. */
  ghost function InVersion(c: SsaCfg, events: Events, phis: Places, b: nat, v: nat): Version
    requires CfgOk(c) && |events| == |c.succs| && b < |events|
    decreases |StrictDominators(c.succs, c.root, b)|
  {
    if (b, v) in phis then PhiVersion(v, b)
    else if b == c.root then EntryVersion(v)
    else
      var d := c.tree.idom[b].value;
      IdomHasFewer(c.succs, c.root, d, b);
      After(events[d], v, InVersion(c, events, phis, d, v))
  }

  ghost function OutVersion(c: SsaCfg, events: Events, phis: Places, b: nat, v: nat): Version
    requires CfgOk(c) && |events| == |c.succs| && b < |events|
  {
    After(events[b], v, InVersion(c, events, phis, b, v))
  }

  // ------------------------------------------------------------ reading along a path

  /** The version that reaches the entry of the last block of the path: its last
      definition on the path, or the entry version. */
  ghost function ReachIn(events: Events, p: seq<nat>, v: nat): Version
    requires p != [] && forall i :: 0 <= i < |p| ==> p[i] < |events|
    decreases |p|, 0
  {
    if |p| == 1 then EntryVersion(v) else ReachOut(events, p[..|p| - 1], v)
  }

  ghost function ReachOut(events: Events, p: seq<nat>, v: nat): Version
    requires p != [] && forall i :: 0 <= i < |p| ==> p[i] < |events|
    decreases |p|, 1
  {
    After(events[p[|p| - 1]], v, ReachIn(events, p, v))
  }

  function LastVisit(p: seq<nat>, b: nat): (i: int)
    ensures -1 <= i < |p| && (i >= 0 ==> p[i] == b)
    ensures forall j :: i < j < |p| ==> p[j] != b
  {
    if p == [] then -1
    else if p[|p| - 1] == b then |p| - 1
    else LastVisit(p[..|p| - 1], b)
  }

  /** Evaluate a version at the end of a path. A phi takes the input of the edge by
      which its block was last entered; entered by no edge, it has no value. */
  ghost function Evaluate(c: SsaCfg, events: Events, phis: Places, p: seq<nat>, x: Version): Option<Version>
    requires CfgOk(c) && |events| == |c.succs| && forall i :: 0 <= i < |p| ==> p[i] < |events|
    decreases |p|
  {
    if !x.PhiVersion? then Some(x)
    else
      var i := LastVisit(p, x.block);
      if i <= 0 then None
      else Evaluate(c, events, phis, p[..i], OutVersion(c, events, phis, p[i - 1], x.variable))
  }

  // ------------------------------------------------------------ the reaching-definition theorem

  /** Walking back from a live entry, `v` stays live up to the first definition. */
  lemma {:induction false} LiveAlong(c: SsaCfg, events: Events, v: nat, p: seq<nat>, j: nat)
    requires |events| == |c.succs| && IsPath(c.succs, p) && LiveIn(c, events, v, p[|p| - 1]) && j < |p|
    requires forall m :: j <= m < |p| - 1 ==> !Defines(events[p[m]], v)
    ensures LiveIn(c, events, v, p[j])
    decreases |p| - j
  {
    if j < |p| - 1 {
      LiveAlong(c, events, v, p, j + 1);
      assert Edge(c.succs, p[j], p[j + 1]);
      LiveBack(c, events, v, p[j], p[j + 1]);
    }
  }

  /** A definition or phi at `p[j]` that does not strictly dominate the live end of
      the path forces a phi later on the path. */
  lemma PhiAfter(c: SsaCfg, events: Events, phis: Places, p: seq<nat>, v: nat, j: nat) returns (m: nat)
    requires CfgOk(c) && FrontierClosed(c, events, phis)
    requires IsPath(c.succs, p) && j < |p| - 1
    requires DefOrPhi(events, phis, p[j], v) && !StrictlyDominates(c.succs, c.root, p[j], p[|p| - 1])
    requires forall m :: j < m < |p| - 1 ==> !DefOrPhi(events, phis, p[m], v)
    requires LiveIn(c, events, v, p[|p| - 1])
    ensures m == |p| - 1 && (p[m], v) in phis
  {
    DominatesRefl(c.succs, c.root, p[j]);
    m := LeavesDominance(c.succs, c.root, p, j);
    LiveAlong(c, events, v, p, m);
    assert (p[m], v) in phis;
    assert m < |p| - 1 ==> DefOrPhi(events, phis, p[m], v);
  }

  /** A path whose end is not strictly dominated by `p[j]` enters the frontier of `p[j]` on the way. */
  lemma LeavesDominance(g: Succs, root: nat, p: seq<nat>, j: nat) returns (m: nat)
    requires IsPath(g, p) && j < |p| - 1 && !StrictlyDominates(g, root, p[j], p[|p| - 1])
    requires Dominates(g, root, p[j], p[j])
    ensures j < m < |p| && InFrontier(g, root, p[j], p[m])
  {
    var x := p[j];
    m := j + 1;
    while StrictlyDominates(g, root, x, p[m])
      invariant j < m < |p| && Dominates(g, root, x, p[m - 1])
      decreases |p| - m
    {
      m := m + 1;
    }
    assert Edge(g, p[m - 1], p[m]);
  }

  /** Between the last visit of the immediate dominator and a live block without a
      phi, nothing defines the variable. */
  lemma NothingBetween(c: SsaCfg, events: Events, phis: Places, p: seq<nat>, v: nat, i: int, j: nat)
    requires CfgOk(c) && FrontierClosed(c, events, phis)
    requires p != [] && PathFromTo(c.succs, p, c.root, p[|p| - 1])
    requires LiveIn(c, events, v, p[|p| - 1]) && (p[|p| - 1], v) !in phis
    requires -1 <= i < j < |p| - 1
    requires p[|p| - 1] == c.root ==> i == -1
    requires p[|p| - 1] != c.root ==> i >= 0 && c.tree.idom[p[|p| - 1]] == Some(p[i]) && p[i] !in p[i + 1..]
    ensures !DefOrPhi(events, phis, p[j], v)
    decreases |p| - j
  {
    var b := p[|p| - 1];
    forall m | j < m < |p| - 1 ensures !DefOrPhi(events, phis, p[m], v) {
      NothingBetween(c, events, phis, p, v, i, m);
    }
    if b == c.root {
      if StrictlyDominates(c.succs, c.root, p[j], b) {
        RootHasNoIdom(c.succs, c.root, p[j]);
      }
    } else {
      var d := p[i];
      DominatesSuffix(c.succs, c.root, d, p, i, j);
      assert p[j] in p[i + 1..] by {
        assert p[i + 1..][j - i - 1] == p[j];
      }
      if Dominates(c.succs, c.root, p[j], d) {
        DominatesAntisym(c.succs, c.root, p[j], d);
      }
    }
    if DefOrPhi(events, phis, p[j], v) {
      var m := PhiAfter(c, events, phis, p, v, j);
    }
  }

  ghost predicate OnGraph(c: SsaCfg, events: Events, p: seq<nat>) {
    && |events| == |c.succs| && p != [] && PathFromTo(c.succs, p, c.root, p[|p| - 1])
  }

  ghost predicate NoRootPhi(c: SsaCfg, phis: Places) {
    forall v: nat :: (c.root, v) !in phis
  }

  lemma {:induction false} EvaluateKept(c: SsaCfg, events: Events, phis: Places, p: seq<nat>, q: seq<nat>, x: Version)
    requires CfgOk(c) && |events| == |c.succs| && (forall i :: 0 <= i < |p| ==> p[i] < |events|)
    requires q != [] && q <= p
    requires x.PhiVersion? ==> x.block !in p[|q|..]
    ensures forall i :: 0 <= i < |q| ==> q[i] < |events|
    ensures Evaluate(c, events, phis, p, x) == Evaluate(c, events, phis, q, x)
  {
    assert forall i :: 0 <= i < |q| ==> q[i] == p[i];
    if x.PhiVersion? {
      var i := LastVisit(p, x.block);
      assert i < |q| by {
        assert forall k :: |q| <= k < |p| ==> p[k] == p[|q|..][k - |q|];
      }
      var j := LastVisit(q, x.block);
      assert i == j;
      if i > 0 {
        assert p[..i] == q[..i];
      }
    }
  }

  /** What reaches the block's entry is what left the last definition or phi before it. */
  lemma {:induction false} ReachInFrom(events: Events, phis: Places, p: seq<nat>, v: nat, i: int)
    requires p != [] && (forall k :: 0 <= k < |p| ==> p[k] < |events|) && -1 <= i < |p| - 1
    requires forall m :: i < m < |p| - 1 ==> !Defines(events[p[m]], v)
    ensures i == -1 ==> ReachIn(events, p, v) == EntryVersion(v)
    ensures i >= 0 ==> ReachIn(events, p, v) == ReachOut(events, p[..i + 1], v)
    decreases |p|
  {
    if |p| > 1 {
      var q := p[..|p| - 1];
      if i == |p| - 2 {
        assert q == p[..i + 1];
      } else {
        ReachInFrom(events, phis, q, v, i);
        AfterNoDef(events[q[|q| - 1]], v, ReachIn(events, q, v));
        assert i >= 0 ==> q[..i + 1] == p[..i + 1];
      }
    }
  }

  lemma LastIdomVisit(c: SsaCfg, events: Events, p: seq<nat>) returns (i: int)
    requires CfgOk(c) && OnGraph(c, events, p)
    ensures -1 <= i < |p| - 1
    ensures p[|p| - 1] == c.root ==> i == -1
    ensures p[|p| - 1] != c.root ==> i >= 0 && c.tree.idom[p[|p| - 1]] == Some(p[i]) && p[i] !in p[i + 1..]
  {
    var b := p[|p| - 1];
    if b == c.root {
      i := -1;
    } else {
      var d := c.tree.idom[b].value;
      assert d in p && d != b;
      i := LastIndex(p, d);
    }
  }

  /** On every path from the root, the renamed version of a live variable evaluates
      to the definition that reaches the block's entry. */
  lemma {:induction false} VersionIsReaching(c: SsaCfg, events: Events, phis: Places, p: seq<nat>, v: nat)
    requires CfgOk(c) && FrontierClosed(c, events, phis) && NoRootPhi(c, phis)
    requires OnGraph(c, events, p) && LiveIn(c, events, v, p[|p| - 1])
    ensures Evaluate(c, events, phis, p, InVersion(c, events, phis, p[|p| - 1], v)) == Some(ReachIn(events, p, v))
    decreases |p|, 1
  {
    var b := p[|p| - 1];
    if (b, v) in phis {
      assert LastVisit(p, b) == |p| - 1;
      if |p| > 1 {
        var q := p[..|p| - 1];
        SubPath(c.succs, p, 0, |p| - 1);
        assert p[0..|p| - 1] == q;
        assert Edge(c.succs, p[|p| - 2], p[|p| - 1]);
        LiveBack(c, events, v, p[|p| - 2], b);
        OutIsReaching(c, events, phis, q, v);
      }
    } else {
      var i := LastIdomVisit(c, events, p);
      forall j: nat | i < j < |p| - 1 ensures !DefOrPhi(events, phis, p[j], v) {
        NothingBetween(c, events, phis, p, v, i, j);
      }
      ReachInFrom(events, phis, p, v, i);
      if b != c.root {
        ClimbOnce(c, events, phis, p, v, i);
      }
    }
  }

  lemma PhiNotAfter(events: Events, phis: Places, p: seq<nat>, v: nat, i: nat, y: nat)
    requires i < |p| - 1 && (y, v) in phis && y < |events|
    requires (p[|p| - 1], v) !in phis
    requires forall j: nat :: i < j < |p| - 1 ==> !DefOrPhi(events, phis, p[j], v)
    ensures y !in p[i + 1..]
  {
    forall j: nat | i < j < |p| ensures p[j] != y {
      assert j < |p| - 1 ==> !DefOrPhi(events, phis, p[j], v);
    }
  }

  /** The step through the immediate dominator, last visited at index `i`. */
  lemma {:induction false} ClimbOnce(c: SsaCfg, events: Events, phis: Places, p: seq<nat>, v: nat, i: nat)
    requires CfgOk(c) && FrontierClosed(c, events, phis) && NoRootPhi(c, phis)
    requires OnGraph(c, events, p) && LiveIn(c, events, v, p[|p| - 1])
    requires (p[|p| - 1], v) !in phis && p[|p| - 1] != c.root
    requires i < |p| - 1 && c.tree.idom[p[|p| - 1]] == Some(p[i])
    requires forall j: nat :: i < j < |p| - 1 ==> !DefOrPhi(events, phis, p[j], v)
    ensures Evaluate(c, events, phis, p, InVersion(c, events, phis, p[|p| - 1], v)) ==
            Some(ReachOut(events, p[..i + 1], v))
    decreases |p|, 0
  {
    var q := p[..i + 1];
    SubPath(c.succs, p, 0, i + 1);
    assert p[0..i + 1] == q;
    LiveAlong(c, events, v, p, i + 1);
    assert Edge(c.succs, p[i], p[i + 1]);
    LiveBack(c, events, v, p[i], p[i + 1]);
    OutIsReaching(c, events, phis, q, v);
    var x := OutVersion(c, events, phis, p[i], v);
    PhiOfOut(c, events, phis, p[i], v);
    if x.PhiVersion? {
      PhiNotAfter(events, phis, p, v, i, x.block);
    }
    EvaluateKept(c, events, phis, p, q, x);
  }

  /** A phi version names a placed phi of its own variable. */
  lemma {:induction false} PhiOfOut(c: SsaCfg, events: Events, phis: Places, b: nat, v: nat)
    requires CfgOk(c) && |events| == |c.succs| && b < |events|
    ensures var x := OutVersion(c, events, phis, b, v); x.PhiVersion? ==>
              x.variable == v && (x.block, v) in phis && x.block < |events|
    ensures var x := InVersion(c, events, phis, b, v); x.PhiVersion? ==>
              x.variable == v && (x.block, v) in phis && x.block < |events|
    decreases |StrictDominators(c.succs, c.root, b)|
  {
    if b != c.root {
      var d := c.tree.idom[b].value;
      IdomHasFewer(c.succs, c.root, d, b);
      PhiOfOut(c, events, phis, d, v);
    }
    if Defines(events[b], v) {
      AfterDef(events[b], v, InVersion(c, events, phis, b, v), EntryVersion(v));
    } else {
      AfterNoDef(events[b], v, InVersion(c, events, phis, b, v));
    }
  }

  lemma {:induction false} OutIsReaching(c: SsaCfg, events: Events, phis: Places, p: seq<nat>, v: nat)
    requires CfgOk(c) && FrontierClosed(c, events, phis) && NoRootPhi(c, phis) && OnGraph(c, events, p)
    requires Defines(events[p[|p| - 1]], v) || LiveIn(c, events, v, p[|p| - 1])
    ensures Evaluate(c, events, phis, p, OutVersion(c, events, phis, p[|p| - 1], v)) == Some(ReachOut(events, p, v))
    decreases |p|, 2
  {
    var b := p[|p| - 1];
    if Defines(events[b], v) {
      AfterDef(events[b], v, InVersion(c, events, phis, b, v), ReachIn(events, p, v));
    } else {
      AfterNoDef(events[b], v, InVersion(c, events, phis, b, v));
      AfterNoDef(events[b], v, ReachIn(events, p, v));
      VersionIsReaching(c, events, phis, p, v);
    }
  }

  // ------------------------------------------------------------ uses, and the root

  /** The version renaming gives to a use of `v` at position `i` of block `b`. */
  ghost function UseVersion(c: SsaCfg, events: Events, phis: Places, b: nat, i: nat, v: nat): Version
    requires CfgOk(c) && |events| == |c.succs| && b < |events| && i <= |events[b]|
  {
    After(events[b][..i], v, InVersion(c, events, phis, b, v))
  }

  ghost predicate UseOnPath(c: SsaCfg, events: Events, p: seq<nat>, i: nat) {
    && OnGraph(c, events, p) && i < |events[p[|p| - 1]]| && events[p[|p| - 1]][i].Use?
  }

  /** Along this path, the renamed use evaluates to the last definition before it. */
  ghost predicate ReadsRight(c: SsaCfg, events: Events, phis: Places, p: seq<nat>, i: nat)
    requires CfgOk(c) && UseOnPath(c, events, p, i)
  {
    var b := p[|p| - 1];
    var v := events[b][i].variable;
    Evaluate(c, events, phis, p, UseVersion(c, events, phis, b, i, v)) ==
      Some(After(events[b][..i], v, ReachIn(events, p, v)))
  }

  lemma UseIsLive(c: SsaCfg, events: Events, b: nat, i: nat)
    requires CfgOk(c) && |events| == |c.succs| && b < |events| && i < |events[b]| && events[b][i].Use?
    requires !Defines(events[b][..i], events[b][i].variable)
    ensures LiveIn(c, events, events[b][i].variable, b)
  {
    assert UpwardUse(events[b], events[b][i].variable);
    assert LivePath(c, events, events[b][i].variable, [b]);
  }

  lemma UseIsReaching(c: SsaCfg, events: Events, phis: Places, p: seq<nat>, i: nat)
    requires CfgOk(c) && FrontierClosed(c, events, phis) && NoRootPhi(c, phis)
    requires UseOnPath(c, events, p, i)
    ensures ReadsRight(c, events, phis, p, i)
  {
    var b := p[|p| - 1];
    var v := events[b][i].variable;
    var es := events[b][..i];
    if Defines(es, v) {
      AfterDef(es, v, InVersion(c, events, phis, b, v), ReachIn(events, p, v));
    } else {
      AfterNoDef(es, v, InVersion(c, events, phis, b, v));
      AfterNoDef(es, v, ReachIn(events, p, v));
      UseIsLive(c, events, b, i);
      VersionIsReaching(c, events, phis, p, v);
    }
  }

  /** A definition of `v` in a block from which control returns to the root. */
  ghost predicate DefinitionReturns(c: SsaCfg, events: Events, v: nat, y: nat) {
    |events| == |c.succs| && exists p :: ReturnPath(c, events, v, p) && p[|p| - 1] == y
  }

  ghost predicate ReturnPath(c: SsaCfg, events: Events, v: nat, p: seq<nat>) {
    IsPath(c.succs, p) && |p| >= 2 && p[0] < |events| && Defines(events[p[0]], v)
  }

  lemma FrontierPath(g: Succs, root: nat, x: nat, y: nat) returns (p: seq<nat>)
    requires InFrontier(g, root, x, y)
    ensures PathFromTo(g, p, x, y) && |p| >= 2
  {
    var u :| Edge(g, u, y) && Dominates(g, root, x, u) && !StrictlyDominates(g, root, x, y);
    var q :| PathFromTo(g, q, root, u);
    var i := LastIndex(q, x);
    SubPath(g, q, i, |q|);
    assert PathFromTo(g, [u, y], u, y);
    JoinPaths(g, q[i..|q|], [u, y], x, u, y);
    p := q[i..|q|] + [u, y][1..];
  }

  lemma {:induction false} NeededReturns(c: SsaCfg, events: Events, v: nat, y: nat, k: nat)
    requires CfgOk(c) && Needed(c, events, v, y, k)
    ensures DefinitionReturns(c, events, v, y)
    decreases k
  {
    var x: nat :| x < |events| && InFrontier(c.succs, c.root, x, y)
      && (Defines(events[x], v) || Needed(c, events, v, x, k - 1));
    var p := FrontierPath(c.succs, c.root, x, y);
    if Defines(events[x], v) {
      assert ReturnPath(c, events, v, p);
    } else {
      NeededReturns(c, events, v, x, k - 1);
      var q :| ReturnPath(c, events, v, q) && q[|q| - 1] == x;
      JoinPaths(c.succs, q, p, q[0], x, y);
      assert ReturnPath(c, events, v, q + p[1..]);
    }
  }

  lemma LastDefOrPhi(events: Events, phis: Places, p: seq<nat>, v: nat) returns (j: nat)
    requires |p| >= 2 && p[0] < |events| && Defines(events[p[0]], v)
    ensures j < |p| - 1 && DefOrPhi(events, phis, p[j], v)
    ensures forall m :: j < m < |p| - 1 ==> !DefOrPhi(events, phis, p[m], v)
  {
    j := |p| - 2;
    while !DefOrPhi(events, phis, p[j], v)
      invariant 0 <= j < |p| - 1 && forall m :: j < m < |p| - 1 ==> !DefOrPhi(events, phis, p[m], v)
      decreases j
    {
      j := j - 1;
    }
  }

  lemma ReturnForcesPhi(c: SsaCfg, events: Events, phis: Places, v: nat, p: seq<nat>)
    requires CfgOk(c) && FrontierClosed(c, events, phis)
    requires LiveIn(c, events, v, c.root) && ReturnPath(c, events, v, p) && p[|p| - 1] == c.root
    ensures (c.root, v) in phis
  {
    var j := LastDefOrPhi(events, phis, p, v);
    if StrictlyDominates(c.succs, c.root, p[j], c.root) {
      RootHasNoIdom(c.succs, c.root, p[j]);
    }
    var m := PhiAfter(c, events, phis, p, v, j);
  }

  /** The root needs a phi for `v` exactly when `v` may be read before any definition
      and some definition can flow back to the root. */
  lemma RootPhiIff(c: SsaCfg, events: Events, phis: Places, v: nat)
    requires CfgOk(c) && Placed(c, events, phis)
    ensures (c.root, v) in phis <==> LiveIn(c, events, v, c.root) && DefinitionReturns(c, events, v, c.root)
  {
    if (c.root, v) in phis {
      assert ((c.root, v)).1 == v;
      var k: nat :| Needed(c, events, v, c.root, k);
      NeededReturns(c, events, v, c.root, k);
    }
    if LiveIn(c, events, v, c.root) && DefinitionReturns(c, events, v, c.root) {
      var p :| ReturnPath(c, events, v, p) && p[|p| - 1] == c.root;
      ReturnForcesPhi(c, events, phis, v, p);
    }
  }

  /** A prefix of a definition-free path from the root, itself live at its end. */
  lemma UndefinedPrefix(c: SsaCfg, events: Events, p: seq<nat>, v: nat, i: nat)
    requires CfgOk(c) && OnGraph(c, events, p) && c.root !in p[1..] && i < |p|
    requires LiveIn(c, events, v, p[|p| - 1])
    requires forall m :: 0 <= m < |p| - 1 ==> !Defines(events[p[m]], v)
    ensures OnGraph(c, events, p[..i + 1]) && c.root !in p[..i + 1][1..] && LiveIn(c, events, v, p[i])
  {
    SubPath(c.succs, p, 0, i + 1);
    assert p[0..i + 1] == p[..i + 1];
    LiveAlong(c, events, v, p, i);
    assert p[..i + 1][1..] == p[1..][..i];
  }

  /** With a phi at the root, a path that reads `v` undefined evaluates to nothing. */
  lemma {:induction false} RootPhiHasNoValue(c: SsaCfg, events: Events, phis: Places, p: seq<nat>, v: nat)
    requires CfgOk(c) && FrontierClosed(c, events, phis) && (c.root, v) in phis
    requires OnGraph(c, events, p) && c.root !in p[1..]
    requires LiveIn(c, events, v, p[|p| - 1])
    requires forall m :: 0 <= m < |p| - 1 ==> !Defines(events[p[m]], v)
    ensures Evaluate(c, events, phis, p, InVersion(c, events, phis, p[|p| - 1], v)) == None
    decreases |p|
  {
    var b := p[|p| - 1];
    if |p| == 1 {
      assert LastVisit(p, c.root) == 0;
    } else {
      assert p[1..][|p| - 2] == b;
      if (b, v) in phis {
        UndefinedPrefix(c, events, p, v, |p| - 2);
        assert p[..|p| - 2 + 1] == p[..|p| - 1];
        RootPhiHasNoValue(c, events, phis, p[..|p| - 1], v);
        AfterNoDef(events[p[|p| - 2]], v, InVersion(c, events, phis, p[|p| - 2], v));
        assert LastVisit(p, b) == |p| - 1;
      } else {
        var i := LastIdomVisit(c, events, p);
        UndefinedPrefix(c, events, p, v, i);
        RootPhiHasNoValue(c, events, phis, p[..i + 1], v);
        ClimbUndefined(c, events, phis, p, v, i);
      }
    }
  }

  lemma ClimbUndefined(c: SsaCfg, events: Events, phis: Places, p: seq<nat>, v: nat, i: nat)
    requires CfgOk(c) && FrontierClosed(c, events, phis)
    requires OnGraph(c, events, p) && LiveIn(c, events, v, p[|p| - 1])
    requires (p[|p| - 1], v) !in phis && p[|p| - 1] != c.root
    requires i < |p| - 1 && c.tree.idom[p[|p| - 1]] == Some(p[i]) && p[i] !in p[i + 1..]
    requires !Defines(events[p[i]], v)
    ensures Evaluate(c, events, phis, p, InVersion(c, events, phis, p[|p| - 1], v)) ==
            Evaluate(c, events, phis, p[..i + 1], InVersion(c, events, phis, p[i], v))
  {
    forall j: nat | i < j < |p| - 1 ensures !DefOrPhi(events, phis, p[j], v) {
      NothingBetween(c, events, phis, p, v, i, j);
    }
    PhiOfOut(c, events, phis, p[i], v);
    var x := InVersion(c, events, phis, p[i], v);
    AfterNoDef(events[p[i]], v, x);
    if x.PhiVersion? {
      PhiNotAfter(events, phis, p, v, i, x.block);
    }
    EvaluateKept(c, events, phis, p, p[..i + 1], x);
  }

  /** A use of `v` that a definition-free path from the root reaches. */
  lemma UndefinedUse(c: SsaCfg, events: Events, v: nat) returns (p: seq<nat>, i: nat)
    requires CfgOk(c) && |events| == |c.succs| && LiveIn(c, events, v, c.root)
    ensures UseOnPath(c, events, p, i) && events[p[|p| - 1]][i].variable == v && c.root !in p[1..]
    ensures forall m :: 0 <= m < |p| - 1 ==> !Defines(events[p[m]], v)
    ensures !Defines(events[p[|p| - 1]][..i], v)
  {
    var q :| LivePath(c, events, v, q) && q[0] == c.root;
    var j := LastIndex(q, c.root);
    p := q[j..|q|];
    SubPath(c.succs, q, j, |q|);
    var b := q[|q| - 1];
    i :| 0 <= i < |events[b]| && events[b][i].Use? && events[b][i].variable == v && !Defines(events[b][..i], v);
    assert p[1..] == q[j + 1..];
  }

  /** Every use reads the definition that reaches it, on every path, exactly when no
      variable both reaches the root undefined and has a definition that flows back there. */
  lemma ReadsRightIff(c: SsaCfg, events: Events, phis: Places)
    requires CfgOk(c) && Placed(c, events, phis)
    ensures (forall p, i: nat :: UseOnPath(c, events, p, i) ==> ReadsRight(c, events, phis, p, i)) <==>
            forall v: nat :: !(LiveIn(c, events, v, c.root) && DefinitionReturns(c, events, v, c.root))
  {
    forall v: nat
      ensures (c.root, v) in phis <==> LiveIn(c, events, v, c.root) && DefinitionReturns(c, events, v, c.root)
    {
      RootPhiIff(c, events, phis, v);
    }
    if forall v: nat :: !(LiveIn(c, events, v, c.root) && DefinitionReturns(c, events, v, c.root)) {
      forall p, i: nat | UseOnPath(c, events, p, i) ensures ReadsRight(c, events, phis, p, i) {
        UseIsReaching(c, events, phis, p, i);
      }
    }
    if v: nat :| LiveIn(c, events, v, c.root) && DefinitionReturns(c, events, v, c.root) {
      var p, i := UndefinedUse(c, events, v);
      var b := p[|p| - 1];
      UseIsLive(c, events, b, i);
      RootPhiHasNoValue(c, events, phis, p, v);
      AfterNoDef(events[b][..i], v, InVersion(c, events, phis, b, v));
      assert !ReadsRight(c, events, phis, p, i);
    }
  }
}
