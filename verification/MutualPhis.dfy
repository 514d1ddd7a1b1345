/** The smallest loop nest with two phis that depend on each other, and what its sessions answer. */
module MutualPhis {
  import opened Graph
  import opened CfgErrors
  import opened LengauerTarjan
  import opened DomTree
  import opened Dominance
  import opened Frontier
  import opened SsaSpec
  import opened MemoryGraph
  import opened ClobberSpec
  import opened SharedMemo

  // ------------------------------------------------------------ the control-flow graph

  /** Blocks 0, 1, 2, 3 in a row, with back edges from 2 to 1 and from 3 to 2. */
  const SUCCS: Succs := [[1], [2], [1, 3], [2]]
  const PREDS: seq<seq<nat>> := [[], [0, 2], [1, 3], [2]]
  const TREE: DominatorTree :=
    DominatorTree([None, Some(0), Some(1), Some(2)], [[1], [2], [3], []], [0, 1, 2, 3], [7, 6, 5, 4], [0, 1, 2, 3])
  const CFG: SsaCfg := SsaCfg(0, SUCCS, PREDS, TREE, [{}, {1}, {1, 2}, {2}])

  lemma Edges(u: nat, v: nat)
    ensures Edge(SUCCS, u, v) <==> (u, v) in {(0, 1), (1, 2), (2, 1), (2, 3), (3, 2)}
  {
    if u == 2 {
      assert SUCCS[2] == [1, 3];
    }
  }

  /** A path climbs one block at a time, so it meets everything below its end. */
  lemma {:induction false} MeetsBelow(p: seq<nat>, a: nat)
    requires IsPath(SUCCS, p) && p[0] == 0 && a <= p[|p| - 1]
    ensures a in p
    decreases |p|
  {
    var k := |p| - 1;
    if a < p[k] {
      assert k > 0 && Edge(SUCCS, p[k - 1], p[k]);
      Edges(p[k - 1], p[k]);
      var rest := p[..k];
      assert IsPath(SUCCS, rest);
      MeetsBelow(rest, a);
    }
  }

  lemma {:induction false} Straight(b: nat) returns (p: seq<nat>)
    requires b < 4
    ensures PathFromTo(SUCCS, p, 0, b) && forall x: nat :: x in p ==> x <= b
  {
    if b == 0 {
      p := [0];
    } else {
      var rest := Straight(b - 1);
      Edges(b - 1, b);
      JoinPaths(SUCCS, rest, [b - 1, b], 0, b - 1, b);
      p := rest + [b - 1, b][1..];
    }
  }

  lemma DominatesIs(a: nat, b: nat)
    requires b < 4
    ensures Dominates(SUCCS, 0, a, b) <==> a <= b
  {
    var p := Straight(b);
    if a <= b {
      forall q | PathFromTo(SUCCS, q, 0, b) ensures a in q {
        MeetsBelow(q, a);
      }
    } else {
      assert a !in p;
    }
  }

  lemma IdomsAre()
    ensures IdomTable(SUCCS, 0, TREE.idom)
  {
    forall b: nat | b < 4
      ensures if b == 0 || !Reach(SUCCS, 0, b) then TREE.idom[b] == None
              else TREE.idom[b].Some? && IsIdom(SUCCS, 0, TREE.idom[b].value, b)
    {
      var p := Straight(b);
      if b > 0 {
        DominatesIs(b - 1, b);
        forall a: nat | StrictlyDominates(SUCCS, 0, a, b) ensures Dominates(SUCCS, 0, a, b - 1) {
          DominatesIs(a, b);
          DominatesIs(a, b - 1);
        }
      }
    }
  }

  lemma {:induction false} AboveIs(a: nat, b: nat)
    requires b < 4
    ensures Above(TREE.idom, a, b) <==> a <= b
  {
    assert Up(TREE.idom, b, 0) == Some(b);
    if b > 0 {
      AboveParent(TREE.idom, a, b);
      AboveIs(a, b - 1);
    } else {
      forall k: nat ensures k > 0 ==> Up(TREE.idom, 0, k) == None {
      }
    }
  }

  lemma {:induction false} UpIs(b: nat)
    requires b < 4
    ensures Up(TREE.idom, b, b) == Some(0)
  {
    if b > 0 {
      UpIs(b - 1);
    }
  }

  lemma TreeIsValid()
    ensures ValidTree(TREE, 0)
  {
    forall a: nat, b: nat ensures TREE.Dominates(a, b) <==> Above(TREE.idom, 0, b) && Above(TREE.idom, a, b) {
      if b < 4 {
        AboveIs(0, b);
        AboveIs(a, b);
      }
    }
    forall b: nat | b < 4 ensures Above(TREE.idom, 0, b) && Up(TREE.idom, b, b) == Some(0) {
      AboveIs(0, b);
      UpIs(b);
    }
    ChildrenAre();
  }

  lemma ChildrenAre()
    ensures ChildrenOf(TREE.idom, 0, TREE.children)
  {
    forall p: nat, c: nat | p < 4 ensures c in TREE.children[p] <==> c < 4 && IsChild(TREE.idom, 0, p, c) {
    }
  }

  lemma FrontierIs(x: nat, y: nat)
    requires x < 4
    ensures InFrontier(SUCCS, 0, x, y) <==> y in CFG.frontier[x]
  {
    if InFrontier(SUCCS, 0, x, y) {
      var u :| Edge(SUCCS, u, y) && Dominates(SUCCS, 0, x, u) && !StrictlyDominates(SUCCS, 0, x, y);
      Edges(u, y);
      DominatesIs(x, u);
      DominatesIs(x, y);
    }
    if y in CFG.frontier[x] {
      Edges(2, 1);
      Edges(3, 2);
      DominatesIs(x, 2);
      DominatesIs(x, 3);
      DominatesIs(x, y);
      assert InFrontier(SUCCS, 0, x, y);
    }
  }

  lemma PredsAre()
    ensures PredecessorTable(SUCCS, PREDS)
  {
    forall u: nat, v: nat | v < 4 ensures u in PREDS[v] <==> Edge(SUCCS, u, v) {
      Edges(u, v);
    }
  }

  lemma CfgIsOk()
    ensures CfgOk(CFG)
  {
    IdomsAre();
    TreeIsValid();
    PredsAre();
    forall b: nat | b < 4 ensures Reach(SUCCS, 0, b) {
      var p := Straight(b);
    }
    forall x: nat, y: nat | x < 4 ensures y in CFG.frontier[x] <==> InFrontier(SUCCS, 0, x, y) {
      FrontierIs(x, y);
    }
    assert Wellformed(SUCCS);
  }

  // ------------------------------------------------------------ the memory graph

  /** One store, in block 3. */
  const MEM: MemoryEvents := [[], [], [], [MemoryEvent(0, Some(7))]]
  const PLACED: Places := {(1, MEMORY), (2, MEMORY)}

  /** Initial memory, the store, and the phis at blocks 1 and 2, each an input of the other. */
  const MUTUAL: Nodes := [LiveOnEntry, Definition(7, 3), Phi(1, [(0, 0), (2, 3)]), Phi(2, [(1, 2), (3, 1)])]
  const ACCESSES: Accesses := map[EntryVersion(MEMORY) := 0, DefVersion(MEMORY, 7) := 1,
                                  PhiVersion(MEMORY, 1) := 2, PhiVersion(MEMORY, 2) := 3]

  lemma EventsAre(b: nat)
    requires b < 4
    ensures var first := FirstUsage(MEM, b);
            Lower(MEM)[b] == if b == 3 then [Use(MEMORY, first), Use(MEMORY, first + 1), Def(MEMORY, 7),
              Use(MEMORY, first + 2)]
                             else [Use(MEMORY, first), Use(MEMORY, first + 1)]
  {
    var first := FirstUsage(MEM, b);
    assert Lowered([], first) == [Use(MEMORY, first)];
    if b == 3 {
      var es := MEM[3];
      assert es[..0] == [];
      assert Lowered(es, first) == Lowered([], first) + [Use(MEMORY, first + 1)] + [Def(MEMORY, 7)];
    }
  }

  lemma DefinesIs(b: nat, v: nat)
    requires b < 4
    ensures Defines(Lower(MEM)[b], v) <==> b == 3 && v == MEMORY
  {
    EventsAre(b);
    if b == 3 {
      assert Lower(MEM)[3][2] == Def(MEMORY, 7);
    }
  }

  lemma LiveOnlyMemory(v: nat, b: nat)
    requires LiveIn(CFG, Lower(MEM), v, b)
    ensures v == MEMORY
  {
    var p :| LivePath(CFG, Lower(MEM), v, p) && p[0] == b;
    EventsAre(p[|p| - 1]);
  }

  lemma ClosedAt(x: nat, y: nat, v: nat)
    requires DefOrPhi(Lower(MEM), PLACED, x, v) && InFrontier(SUCCS, 0, x, y) && LiveIn(CFG, Lower(MEM), v, y)
    ensures (y, v) in PLACED
  {
    FrontierIs(x, y);
    LiveOnlyMemory(v, y);
    DefinesIs(x, v);
  }

  lemma InnerNeeded()
    requires LiveIn(CFG, Lower(MEM), MEMORY, 2)
    ensures Needed(CFG, Lower(MEM), MEMORY, 2, 1)
  {
    DefinesIs(3, MEMORY);
    FrontierIs(3, 2);
  }

  lemma OuterNeeded()
    requires LiveIn(CFG, Lower(MEM), MEMORY, 1) && Needed(CFG, Lower(MEM), MEMORY, 2, 1)
    ensures Needed(CFG, Lower(MEM), MEMORY, 1, 2)
  {
    FrontierIs(2, 1);
  }

  lemma LiveHere(b: nat)
    requires b < 4
    ensures LiveIn(CFG, Lower(MEM), MEMORY, b)
  {
    EventsAre(b);
    var p: seq<nat> := [b];
    assert Lower(MEM)[b][0] == Use(MEMORY, FirstUsage(MEM, b));
    assert LivePath(CFG, Lower(MEM), MEMORY, p) && p[0] == b;
  }

  lemma AllNeeded(z: (nat, nat)) returns (k: nat)
    requires z in PLACED
    ensures Needed(CFG, Lower(MEM), z.1, z.0, k)
  {
    LiveHere(2);
    InnerNeeded();
    k := 1;
    if z.0 == 1 {
      LiveHere(1);
      OuterNeeded();
      k := 2;
    }
  }

  lemma PlacedIsRight()
    requires CfgOk(CFG)
    ensures Placed(CFG, Lower(MEM), PLACED)
  {
    forall x: nat, y: nat, v: nat |
      DefOrPhi(Lower(MEM), PLACED, x, v) && InFrontier(SUCCS, 0, x, y) && LiveIn(CFG, Lower(MEM), v, y)
      ensures (y, v) in PLACED
    {
      ClosedAt(x, y, v);
    }
    forall z: (nat, nat) | z in PLACED ensures exists k: nat :: Needed(CFG, Lower(MEM), z.1, z.0, k) {
      var k := AllNeeded(z);
    }
  }

  lemma VersionsAre()
    requires CfgOk(CFG)
    ensures VersionAt(CFG, MEM, PLACED, 0, 0) == EntryVersion(MEMORY)
    ensures VersionAt(CFG, MEM, PLACED, 1, 0) == PhiVersion(MEMORY, 1)
    ensures VersionAt(CFG, MEM, PLACED, 2, 0) == PhiVersion(MEMORY, 2)
    ensures VersionAt(CFG, MEM, PLACED, 3, 0) == PhiVersion(MEMORY, 2)
    ensures VersionAt(CFG, MEM, PLACED, 3, 1) == DefVersion(MEMORY, 7)
  {
    forall b: nat | b < 4 ensures VersionAt(CFG, MEM, PLACED, b, 0) == InVersion(CFG, Lower(MEM), PLACED, b, MEMORY) {
      assert MEM[b][..0] == [];
      AfterUse([], FirstUsage(MEM, b), MEMORY, InVersion(CFG, Lower(MEM), PLACED, b, MEMORY));
      assert [] + [Use(MEMORY, FirstUsage(MEM, b))] == Lowered([], FirstUsage(MEM, b));
    }
    DefinesIs(2, MEMORY);
    AfterNoDef(Lower(MEM)[2], MEMORY, PhiVersion(MEMORY, 2));
    VersionStep(CFG, MEM, PLACED, 3, 0);
  }

  lemma StoreIs(b: nat, i: nat)
    requires CfgOk(CFG) && b < 4 && i < |MEM[b]|
    ensures StoreNode(CFG, MEM, PLACED, MUTUAL, ACCESSES, b, i)
  {
    VersionsAre();
    assert b == 3 && i == 0;
  }

  lemma OuterInputs()
    requires CfgOk(CFG)
    ensures PhiInputs(CFG, MEM, PLACED, MUTUAL, ACCESSES, 1, MUTUAL[2].inputs)
  {
    VersionsAre();
    assert PREDS[1] == [0, 2] && MUTUAL[2].inputs == [(0, 0), (2, 3)];
  }

  lemma InnerInputs()
    requires CfgOk(CFG)
    ensures PhiInputs(CFG, MEM, PLACED, MUTUAL, ACCESSES, 2, MUTUAL[3].inputs)
  {
    VersionsAre();
    assert PREDS[2] == [1, 3] && MUTUAL[3].inputs == [(1, 2), (3, 1)];
  }

  lemma PhiIs(b: nat)
    requires CfgOk(CFG) && b < 4 && HasPhi(PLACED, b)
    ensures PhiNode(CFG, MEM, PLACED, MUTUAL, ACCESSES, b)
  {
    if b == 1 {
      OuterInputs();
    } else {
      InnerInputs();
    }
  }

  lemma EntryIs()
    ensures Names(ACCESSES, MUTUAL, EntryVersion(MEMORY)) && MUTUAL[ACCESSES[EntryVersion(MEMORY)]].LiveOnEntry?
  {
  }

  /** The table is a memory graph: it holds what the versions of this function stand for. */
  lemma MutualIsGraph()
    ensures IsGraph(CFG, MEM, PLACED, MUTUAL, ACCESSES)
  {
    CfgIsOk();
    PlacedIsRight();
    EntryIs();
    GraphFrom(CFG, MEM, PLACED, MUTUAL, ACCESSES) by {
      forall b: nat, i: nat | b < 4 && i < |MEM[b]| ensures StoreNode(CFG, MEM, PLACED, MUTUAL, ACCESSES, b, i) {
        StoreIs(b, i);
      }
      forall b: nat | b < 4 && HasPhi(PLACED, b) ensures PhiNode(CFG, MEM, PLACED, MUTUAL, ACCESSES, b) {
        PhiIs(b);
      }
    }
  }

  lemma GraphFrom(c: SsaCfg, mem: MemoryEvents, placed: Places, nodes: Nodes, acc: Accesses)
    requires CfgOk(c) && |mem| == |c.succs| && Placed(c, Lower(mem), placed)
    requires Names(acc, nodes, EntryVersion(MEMORY)) && nodes[acc[EntryVersion(MEMORY)]].LiveOnEntry?
    requires forall b: nat, i: nat {:trigger StoreNode(c, mem, placed, nodes, acc, b, i)} ::
               b < |mem| && i < |mem[b]| ==> StoreNode(c, mem, placed, nodes, acc, b, i)
    requires forall b: nat {:trigger PhiNode(c, mem, placed, nodes, acc, b)} ::
               b < |mem| && HasPhi(placed, b) ==> PhiNode(c, mem, placed, nodes, acc, b)
    ensures IsGraph(c, mem, placed, nodes, acc)
  {
  }

  // ------------------------------------------------------------ the session that misses

  lemma MutualIsEntangled(alias: Oracle)
    requires alias(7)
    ensures Entangled(MUTUAL, alias, 2, 3, 1)
  {
    EndsHere(MUTUAL, alias, 1);
    EndsHere(MUTUAL, alias, 2);
    assert MUTUAL[3].inputs == [(1, 2), (3, 1)] && MUTUAL[2].inputs == [(0, 0), (2, 3)];
    assert Ends(MUTUAL, alias, MUTUAL[3].inputs[0].1, 2) && Ends(MUTUAL, alias, MUTUAL[3].inputs[1].1, 1);
    assert Back(MUTUAL, alias, 2, MUTUAL[2].inputs[0].1) && Back(MUTUAL, alias, 2, MUTUAL[2].inputs[1].1);
    var down: seq<nat> := [2, 3];
    assert IsWalk(MUTUAL, alias, down) && down[0] == 2 && down[|down| - 1] == 3;
    var out: seq<nat> := [2, 0];
    assert StopWalk(MUTUAL, alias, out, 2) && 1 !in out;
    assert forall n: nat :: n < |MUTUAL| ==> NodeOk(MUTUAL, MUTUAL[n]);
  }

  /**
    In a graph that construction yields, with a store that may alias: once the outer phi has been queried, the
    inner one is answered with the store, although the walk to the outer phi and the initial memory avoids it.
   */
  lemma SessionCanMiss(alias: Oracle) returns (i: nat)
    requires alias(7)
    ensures IsGraph(CFG, MEM, PLACED, MUTUAL, ACCESSES)
    ensures
      var first := Run(MUTUAL, alias, Start(Fresh(MUTUAL), 2), i);
      && first.frames == []
      && (forall j: nat :: j > 0 ==> Run(MUTUAL, alias, Start(first.memo, 3), j) == Walk(first.memo, [], [Access(1)]))
    ensures !Mandatory(MUTUAL, alias, 3, 1)
  {
    MutualIsGraph();
    MutualIsEntangled(alias);
    i := EntangledMisses(MUTUAL, alias, 2, 3, 1);
  }

  // ------------------------------------------------------------ a fresh query that stops short

  function At(memo: seq<Mark>, frames: seq<Frame>, values: seq<Resolution>): Walk {
    Walk(memo, [FinishPhi(2, 2)] + frames, [Access(0)] + values)
  }

  lemma EntersTwo(a: (nat, nat), b: (nat, nat))
    ensures ClobberSpec.Enters([a, b], 0) == [Enter(b.1), Enter(a.1)]
  {
    assert ClobberSpec.Enters([a, b], 2) == [];
    assert ClobberSpec.Enters([a, b], 1) == [Enter(b.1)];
  }

  lemma ThreeSteps(alias: Oracle, s: Walk, t: Walk, u: Walk, v: Walk, k: nat)
    requires Steps(MUTUAL, alias, s, t) && Steps(MUTUAL, alias, t, u) && Steps(MUTUAL, alias, u, v)
    ensures Run(MUTUAL, alias, s, k + 3) == Run(MUTUAL, alias, v, k)
  {
    Once(MUTUAL, alias, s, t, k + 2);
    Once(MUTUAL, alias, t, u, k + 1);
    Once(MUTUAL, alias, u, v, k);
  }

  lemma CoarseDown(alias: Oracle)
    requires !alias(7)
    ensures Run(MUTUAL, alias, Start(Fresh(MUTUAL), 2), 9) ==
            Run(MUTUAL, alias, At([Done(0), New, Open, Open], [FinishPhi(3, 2), Enter(1), Enter(2)], []), 6)
  {
    assert Fresh(MUTUAL) == [New, New, New, New];
    EntersTwo((0, 0), (2, 3));
    EntersTwo((1, 2), (3, 1));
    ThreeSteps(alias, Start(Fresh(MUTUAL), 2), Walk([New, New, Open, New], [FinishPhi(2, 2), Enter(3), Enter(0)], []),
               At([Done(0), New, Open, New], [Enter(3)], []),
               At([Done(0), New, Open, Open], [FinishPhi(3, 2), Enter(1), Enter(2)], []), 6);
  }

  lemma CoarseAround(alias: Oracle)
    requires !alias(7)
    ensures Run(MUTUAL, alias, At([Done(0), New, Open, Open], [FinishPhi(3, 2), Enter(1), Enter(2)], []), 6) ==
            Run(MUTUAL, alias,
              At([Done(0), Open, Open, Open], [FinishPhi(3, 2), FinishDefinition(1)], [Cycle, Cycle]), 3)
  {
    ThreeSteps(alias, At([Done(0), New, Open, Open], [FinishPhi(3, 2), Enter(1), Enter(2)], []),
               At([Done(0), New, Open, Open], [FinishPhi(3, 2), Enter(1)], [Cycle]),
               At([Done(0), Open, Open, Open], [FinishPhi(3, 2), FinishDefinition(1), Enter(3)], [Cycle]),
               At([Done(0), Open, Open, Open], [FinishPhi(3, 2), FinishDefinition(1)], [Cycle, Cycle]), 3);
  }

  lemma CoarseUp(alias: Oracle)
    ensures Run(MUTUAL, alias,
              At([Done(0), Open, Open, Open], [FinishPhi(3, 2), FinishDefinition(1)], [Cycle, Cycle]), 3) ==
            Walk([Done(0), New, Done(2), Done(3)], [], [Access(2)])
  {
    StoreForgotten(alias);
    InnerAlone(alias);
    OuterAlone(alias);
    ThreeSteps(alias, At([Done(0), Open, Open, Open], [FinishPhi(3, 2), FinishDefinition(1)], [Cycle, Cycle]),
               At([Done(0), New, Open, Open], [FinishPhi(3, 2)], [Cycle, Cycle]),
               At([Done(0), New, Open, Done(3)], [], [Access(3)]),
               Walk([Done(0), New, Done(2), Done(3)], [], [Access(2)]), 0);
  }

  lemma StoreForgotten(alias: Oracle)
    ensures Steps(MUTUAL, alias,
              At([Done(0), Open, Open, Open], [FinishPhi(3, 2), FinishDefinition(1)], [Cycle, Cycle]),
                  At([Done(0), New, Open, Open], [FinishPhi(3, 2)], [Cycle, Cycle]))
  {
  }

  lemma InnerAlone(alias: Oracle)
    ensures Steps(MUTUAL, alias, At([Done(0), New, Open, Open], [FinishPhi(3, 2)], [Cycle, Cycle]),
                  At([Done(0), New, Open, Done(3)], [], [Access(3)]))
  {
    InnerMerges();
  }

  lemma OuterAlone(alias: Oracle)
    ensures Steps(MUTUAL, alias, At([Done(0), New, Open, Done(3)], [], [Access(3)]),
                  Walk([Done(0), New, Done(2), Done(3)], [], [Access(2)]))
  {
    OuterMerges();
  }

  lemma InnerMerges()
    ensures Merge(3, ([Access(0)] + [Cycle, Cycle])[1..]) == 3
  {
    assert ([Access(0)] + [Cycle, Cycle])[1..] == [Cycle, Cycle];
    assert Merge(3, [Cycle, Cycle]) == 3;
  }

  lemma OuterMerges()
    ensures Merge(2, ([Access(0)] + [Access(3)])[0..]) == 2
  {
    var vals := [Access(0), Access(3)];
    assert ([Access(0)] + [Access(3)])[0..] == vals && vals[0] != vals[1];
  }

  lemma OnlyMemory(alias: Oracle)
    requires !alias(7)
    ensures Mandatory(MUTUAL, alias, 2, 0)
  {
    forall w | StopWalk(MUTUAL, alias, w, 2) ensures 0 in w {
      assert w[|w| - 1] == 0;
    }
  }

  /**
    With a store that does not alias, even a first query stops short: it answers the outer phi, although the
    initial memory lies on every complete walk. Two phis that lead to each other look like different answers.
   */
  lemma FreshCanBeCoarse(alias: Oracle)
    requires !alias(7)
    ensures Run(MUTUAL, alias, Start(Fresh(MUTUAL), 2), 9) == Walk([Done(0), New, Done(2), Done(3)], [], [Access(2)])
    ensures Mandatory(MUTUAL, alias, 2, 0)
  {
    CoarseDown(alias);
    CoarseAround(alias);
    CoarseUp(alias);
    OnlyMemory(alias);
  }
}
