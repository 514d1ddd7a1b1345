/** The smallest function whose SSA record cannot be read: a root that branches to itself. */
module RootPhi {
  import opened Graph
  import opened CfgErrors
  import opened LengauerTarjan
  import opened DomTree
  import opened Dominance
  import opened Frontier
  import opened SsaSpec
  import opened SsaScan
  import opened SsaBuild

  const LOOP: SsaCfg :=
    SsaCfg(0, [[0]], [[0]], DominatorTree([None], [[]], [0], [1], [0]), [{0}])

  /** One block that reads the variable before it writes it. */
  const EVENTS: Events := [[Use(0, 0), Def(0, 0)]]

  lemma LoopEdge(u: nat, v: nat)
    ensures Edge(LOOP.succs, u, v) <==> u == 0 && v == 0
  {
  }

  lemma LoopDominates(a: nat, b: nat)
    ensures Dominates(LOOP.succs, 0, a, b) <==> a == 0 && b == 0
  {
    assert PathFromTo(LOOP.succs, [0], 0, 0);
    if Dominates(LOOP.succs, 0, a, b) {
      var p :| PathFromTo(LOOP.succs, p, 0, b);
      assert p[|p| - 1] < 1;
      assert a in [0];
    }
    forall p | PathFromTo(LOOP.succs, p, 0, 0) ensures 0 in p {
      assert p[0] == 0;
    }
  }

  lemma LoopAbove(a: nat, b: nat)
    ensures Above(LOOP.tree.idom, a, b) <==> a == 0 && b == 0
  {
    assert Up(LOOP.tree.idom, 0, 0) == Some(0);
    forall k: nat ensures k > 0 ==> Up(LOOP.tree.idom, 0, k) == None {
    }
  }

  lemma LoopTree()
    ensures ValidTree(LOOP.tree, 0)
  {
    forall a: nat, b: nat
      ensures LOOP.tree.Dominates(a, b) <==> Above(LOOP.tree.idom, 0, b) && Above(LOOP.tree.idom, a, b)
    {
      LoopAbove(0, b);
      LoopAbove(a, b);
    }
    LoopAbove(0, 0);
    assert ChildrenOf(LOOP.tree.idom, 0, LOOP.tree.children);
  }

  lemma LoopFrontier(y: nat)
    ensures InFrontier(LOOP.succs, 0, 0, y) <==> y == 0
  {
    LoopEdge(0, y);
    LoopDominates(0, 0);
    if y == 0 {
      assert Edge(LOOP.succs, 0, 0) && !StrictlyDominates(LOOP.succs, 0, 0, 0);
    }
  }

  lemma LoopIsOk()
    ensures CfgOk(LOOP)
  {
    LoopTree();
    LoopDominates(0, 0);
    forall x: nat, y: nat | x < 1 ensures y in LOOP.frontier[x] <==> InFrontier(LOOP.succs, 0, x, y) {
      LoopFrontier(y);
    }
    forall u: nat, v: nat | v < 1 ensures u in LOOP.preds[v] <==> Edge(LOOP.succs, u, v) {
      LoopEdge(u, v);
    }
    assert IdomTable(LOOP.succs, 0, LOOP.tree.idom);
    assert Wellformed(LOOP.succs);
  }

  lemma RootHasPhi(placed: Places)
    requires CfgOk(LOOP) && Placed(LOOP, EVENTS, placed)
    ensures (0, 0) in placed
  {
    assert EVENTS[0][0] == Use(0, 0) && EVENTS[0][1] == Def(0, 0);
    var once, twice: seq<nat> := [0], [0, 0];
    assert EVENTS[0][..0] == [];
    assert LivePath(LOOP, EVENTS, 0, once) && once[0] == 0;
    LoopEdge(0, 0);
    assert ReturnPath(LOOP, EVENTS, 0, twice) && twice[|twice| - 1] == 0;
    RootPhiIff(LOOP, EVENTS, placed, 0);
  }

  lemma FirstReadIsPhi(placed: Places)
    requires CfgOk(LOOP) && Placed(LOOP, EVENTS, placed)
    ensures UseVersion(LOOP, EVENTS, placed, 0, 0, 0) == PhiVersion(0, 0)
  {
    RootHasPhi(placed);
    assert EVENTS[0][..0] == [];
  }

  lemma FirstReadOnPath()
    ensures UseOnPath(LOOP, EVENTS, [0], 0)
  {
    assert EVENTS[0][0] == Use(0, 0);
    assert PathFromTo(LOOP.succs, [0], 0, 0);
  }

  lemma NoInputForStart(ssa: SparseSsa)
    ensures EvaluateRecord(ssa, [0], PhiVersion(0, 0)) == None
  {
    assert LastVisit([0], 0) == 0;
  }

  /** What construction records for the read at the start is a phi that has no input for the start itself. */
  lemma FirstReadHasNoValue(placed: Places, ssa: SparseSsa)
    requires IsSsa(LOOP, EVENTS, placed, ssa)
    ensures UseOnPath(LOOP, EVENTS, [0], 0) && !RecordReadsRight(EVENTS, ssa, [0], 0)
    ensures 0 in ssa.uses && ssa.uses[0] == PhiVersion(0, 0) && EvaluateRecord(ssa, [0], ssa.uses[0]) == None
  {
    FirstReadOnPath();
    FirstReadIsPhi(placed);
    NoInputForStart(ssa);
    assert EVENTS[0][0] == Use(0, 0);
  }

  lemma EventsAreDistinct()
    ensures Distinct(EVENTS)
  {
  }

  /** The record that construction returns for it. */
  method BuildLoop() returns (result: SsaResult, ghost placed: Places)
    ensures result.SsaOk? && IsSsa(LOOP, EVENTS, placed, result.ssa)
    ensures !RecordReadsRight(EVENTS, result.ssa, [0], 0)
  {
    LoopIsOk();
    EventsAreDistinct();
    result, placed := Build(LOOP, EVENTS);
    FirstReadHasNoValue(placed, result.ssa);
  }
}
