/** When clobber answers are true of every run: exactly when no store flows back to the root. */
module MemoryConverse {
  import opened Graph
  import opened CfgErrors
  import opened Dominance
  import opened SsaSpec
  import opened ClobberSpec
  import opened MemoryGraph

  // ------------------------------------------------------------ chains of stores end

  /** Passed stores lead up the dominator tree, so every point's chain ends. */
  lemma {:induction false} PointEnds(c: SsaCfg, mem: MemoryEvents, placed: Places, nodes: Nodes, acc: Accesses,
      alias: Oracle,
                                     b: nat, i: nat) returns (e: nat)
    requires IsGraph(c, mem, placed, nodes, acc) && b < |mem| && i <= |mem[b]|
    ensures VersionAt(c, mem, placed, b, i) in acc && Ends(nodes, alias, acc[VersionAt(c, mem, placed, b, i)], e)
    decreases |StrictDominators(c.succs, c.root, b)|, i
  {
    if i > 0 {
      e := PointEnds(c, mem, placed, nodes, acc, alias, b, i - 1);
      e := EventEnds(c, mem, placed, nodes, acc, alias, b, i - 1, e);
    } else if HasPhi(placed, b) {
      VersionIn(c, mem, placed, b);
      assert PhiNode(c, mem, placed, nodes, acc, b);
      e := acc[PhiVersion(MEMORY, b)];
      EndsHere(nodes, alias, e);
    } else if b == c.root {
      VersionIn(c, mem, placed, b);
      e := acc[EntryVersion(MEMORY)];
      EndsHere(nodes, alias, e);
    } else {
      var d := Climb(c, mem, placed, b);
      e := PointEnds(c, mem, placed, nodes, acc, alias, d, |mem[d]|);
    }
  }

  lemma Climb(c: SsaCfg, mem: MemoryEvents, placed: Places, b: nat) returns (d: nat)
    requires CfgOk(c) && |mem| == |c.succs| && b < |mem| && b != c.root && !HasPhi(placed, b)
    ensures d < |mem| && VersionAt(c, mem, placed, b, 0) == VersionAt(c, mem, placed, d, |mem[d]|)
    ensures |StrictDominators(c.succs, c.root, d)| < |StrictDominators(c.succs, c.root, b)|
  {
    d := c.tree.idom[b].value;
    IdomHasFewer(c.succs, c.root, d, b);
    ClimbVersion(c, mem, placed, b, d);
  }

  lemma EventEnds(c: SsaCfg, mem: MemoryEvents, placed: Places, nodes: Nodes, acc: Accesses, alias: Oracle, b: nat,
      i: nat, e0: nat)
    returns (e: nat)
    requires IsGraph(c, mem, placed, nodes, acc) && b < |mem| && i < |mem[b]|
    requires VersionAt(c, mem, placed, b, i) in acc && Ends(nodes, alias, acc[VersionAt(c, mem, placed, b, i)], e0)
    ensures VersionAt(c, mem, placed, b, i + 1) in acc
    ensures Ends(nodes, alias, acc[VersionAt(c, mem, placed, b, i + 1)], e)
  {
    VersionStep(c, mem, placed, b, i);
    assert StoreNode(c, mem, placed, nodes, acc, b, i);
    e := e0;
    if mem[b][i].definition.Some? {
      var n := acc[DefVersion(MEMORY, mem[b][i].definition.value)];
      if Through(nodes, alias, n) {
        EndsThrough(nodes, alias, n);
      } else {
        e := n;
        EndsHere(nodes, alias, n);
      }
    }
  }

  // ------------------------------------------------------------ with a phi at the root

  ghost predicate IsPoint(mem: MemoryEvents, b: nat, i: nat) {
    b < |mem| && i <= |mem[b]|
  }

  ghost predicate StoredAt(mem: MemoryEvents, b: nat, i: nat, d: nat) {
    b < |mem| && i < |mem[b]| && mem[b][i].definition == Some(d)
  }

  /** The version is a placed phi's or a store's. */
  ghost predicate Written(mem: MemoryEvents, placed: Places, x: Version) {
    match x
    case EntryVersion(_) => false
    case PhiVersion(v, y) => v == MEMORY && y < |mem| && HasPhi(placed, y)
    case DefVersion(v, d) => v == MEMORY && exists b: nat, i: nat :: StoredAt(mem, b, i, d)
  }

  lemma {:induction false} AlwaysWritten(c: SsaCfg, mem: MemoryEvents, placed: Places, b: nat, i: nat)
    requires CfgOk(c) && |mem| == |c.succs| && HasPhi(placed, c.root) && IsPoint(mem, b, i)
    ensures Written(mem, placed, VersionAt(c, mem, placed, b, i))
    decreases |StrictDominators(c.succs, c.root, b)|, i
  {
    if i > 0 {
      VersionStep(c, mem, placed, b, i - 1);
      if mem[b][i - 1].definition.Some? {
        assert StoredAt(mem, b, i - 1, mem[b][i - 1].definition.value);
      } else {
        AlwaysWritten(c, mem, placed, b, i - 1);
      }
    } else if HasPhi(placed, b) {
      VersionIn(c, mem, placed, b);
    } else {
      var d := Climb(c, mem, placed, b);
      AlwaysWritten(c, mem, placed, d, |mem[d]|);
    }
  }

  /** The access of some point. */
  ghost predicate Held(c: SsaCfg, mem: MemoryEvents, placed: Places, acc: Accesses, n: nat)
    requires CfgOk(c) && |mem| == |c.succs|
  {
    exists b: nat, i: nat :: IsPoint(mem, b, i) && HeldAt(c, mem, placed, acc, n, b, i)
  }

  ghost predicate HeldAt(c: SsaCfg, mem: MemoryEvents, placed: Places, acc: Accesses, n: nat, b: nat, i: nat)
    requires CfgOk(c) && |mem| == |c.succs| && IsPoint(mem, b, i)
  {
    VersionAt(c, mem, placed, b, i) in acc && acc[VersionAt(c, mem, placed, b, i)] == n
  }

  /** The accesses behind a point's access are points' accesses, and where a walk stops there is a store's. */
  lemma HeldBehind(c: SsaCfg, mem: MemoryEvents, placed: Places, nodes: Nodes, acc: Accesses, alias: Oracle, n: nat,
      m: nat)
    requires IsGraph(c, mem, placed, nodes, acc) && HasPhi(placed, c.root) && Held(c, mem, placed, acc, n)
    requires Back(nodes, alias, n, m)
    ensures Held(c, mem, placed, acc, m)
  {
    var b: nat, i: nat :| IsPoint(mem, b, i) && HeldAt(c, mem, placed, acc, n, b, i);
    var x := VersionAt(c, mem, placed, b, i);
    AlwaysWritten(c, mem, placed, b, i);
    match x
    case PhiVersion(_, y) => PhiBehind(c, mem, placed, nodes, acc, alias, y, m);
    case DefVersion(_, d) =>
      var b': nat, i': nat :| StoredAt(mem, b', i', d);
      assert StoreNode(c, mem, placed, nodes, acc, b', i');
      assert HeldAt(c, mem, placed, acc, m, b', i');
  }

  lemma PhiBehind(c: SsaCfg, mem: MemoryEvents, placed: Places, nodes: Nodes, acc: Accesses, alias: Oracle, y: nat,
      m: nat)
    requires IsGraph(c, mem, placed, nodes, acc) && y < |mem| && HasPhi(placed, y) && PhiVersion(MEMORY, y) in acc
    requires Back(nodes, alias, acc[PhiVersion(MEMORY, y)], m)
    ensures Held(c, mem, placed, acc, m)
  {
    assert PhiNode(c, mem, placed, nodes, acc, y);
    var inputs := nodes[acc[PhiVersion(MEMORY, y)]].inputs;
    var k :| 0 <= k < |inputs| && inputs[k].1 == m;
    var u := c.preds[y][k];
    assert HeldAt(c, mem, placed, acc, m, u, |mem[u]|);
  }

  lemma WrittenNode(c: SsaCfg, mem: MemoryEvents, placed: Places, nodes: Nodes, acc: Accesses, x: Version)
    requires IsGraph(c, mem, placed, nodes, acc) && Written(mem, placed, x) && x in acc
    ensures acc[x] < |nodes|
    ensures x.PhiVersion? ==> nodes[acc[x]].Phi?
    ensures x.DefVersion? ==> x == DefVersion(MEMORY, x.definition) && nodes[acc[x]].Definition?
    ensures x.DefVersion? ==> nodes[acc[x]].definition == x.definition
  {
    match x
    case PhiVersion(_, y) =>
      assert PhiNode(c, mem, placed, nodes, acc, y);
    case DefVersion(_, d) =>
      var b: nat, i: nat :| StoredAt(mem, b, i, d);
      assert StoreNode(c, mem, placed, nodes, acc, b, i);
  }

  lemma StopIsStore(c: SsaCfg, mem: MemoryEvents, placed: Places, nodes: Nodes, acc: Accesses, alias: Oracle, n: nat,
      d: nat)
    requires IsGraph(c, mem, placed, nodes, acc) && HasPhi(placed, c.root) && Held(c, mem, placed, acc, n)
    requires Stop(nodes, alias, n) && forall x: nat :: alias(x) <==> x == d
    ensures DefVersion(MEMORY, d) in acc && n == acc[DefVersion(MEMORY, d)]
  {
    var b: nat, i: nat :| IsPoint(mem, b, i) && HeldAt(c, mem, placed, acc, n, b, i);
    AlwaysWritten(c, mem, placed, b, i);
    WrittenNode(c, mem, placed, nodes, acc, VersionAt(c, mem, placed, b, i));
  }

  lemma {:induction false} WalksEndAtStore(c: SsaCfg, mem: MemoryEvents, placed: Places, nodes: Nodes, acc: Accesses,
      alias: Oracle,
                                           w: seq<nat>, d: nat)
    requires IsGraph(c, mem, placed, nodes, acc) && HasPhi(placed, c.root) && w != [] && Held(c, mem, placed, acc, w[0])
    requires StopWalk(nodes, alias, w, w[0]) && forall x: nat :: alias(x) <==> x == d
    ensures DefVersion(MEMORY, d) in acc && w[|w| - 1] == acc[DefVersion(MEMORY, d)]
    decreases |w|
  {
    if |w| == 1 {
      StopIsStore(c, mem, placed, nodes, acc, alias, w[0], d);
    } else {
      assert Back(nodes, alias, w[0], w[1]);
      HeldBehind(c, mem, placed, nodes, acc, alias, w[0], w[1]);
      TailWalk(nodes, alias, w, w[0], 1);
      WalksEndAtStore(c, mem, placed, nodes, acc, alias, w[1..], d);
    }
  }

  // ------------------------------------------------------------ a returning store breaks an answer

  lemma {:induction false} LoweredStore(es: seq<MemoryEvent>, first: nat)
    requires Defines(Lowered(es, first), MEMORY)
    ensures exists i: nat :: i < |es| && es[i].definition.Some?
  {
    if es != [] {
      var k := |es| - 1;
      if es[k].definition.None? {
        var low := Lowered(es[..k], first);
        var j :| 0 <= j < |Lowered(es, first)| && Lowered(es, first)[j].Def?
          && Lowered(es, first)[j].variable == MEMORY;
        assert Lowered(es, first) == low + [Use(MEMORY, first + |es|)];
        assert low[j] == Lowered(es, first)[j];
        LoweredStore(es[..k], first);
        var i: nat :| i < k && es[..k][i].definition.Some?;
        assert es[i].definition.Some?;
      }
    }
  }

  lemma StoreOf(mem: MemoryEvents, b: nat) returns (i: nat, d: nat)
    requires b < |mem| && Defines(Lower(mem)[b], MEMORY)
    ensures StoredAt(mem, b, i, d)
  {
    var low := Lowered(mem[b], FirstUsage(mem, b));
    var j :| 0 <= j < |Lower(mem)[b]| && Lower(mem)[b][j].Def? && Lower(mem)[b][j].variable == MEMORY;
    assert Lower(mem)[b] == low + [Use(MEMORY, FirstUsage(mem, b) + |mem[b]| + 1)];
    assert low[j] == Lower(mem)[b][j];
    LoweredStore(mem[b], FirstUsage(mem, b));
    i :| i < |mem[b]| && mem[b][i].definition.Some?;
    d := mem[b][i].definition.value;
  }

  /** The answer `a` for the point, if it is one, is true of the run. */
  ghost predicate AnswerFits(c: SsaCfg, mem: MemoryEvents, placed: Places, nodes: Nodes, acc: Accesses, alias: Oracle,
                             p: seq<nat>, i: nat, a: nat)
    requires CfgOk(c) && |mem| == |c.succs|
  {
    RunTo(c, mem, p, i) && AnswersPoint(c, mem, placed, nodes, acc, alias, p[|p| - 1], i, a) ==>
      AnswerHolds(mem, nodes, alias, p, i, a)
  }

  /** A walk does not pass through `a`, and every complete walk from the point meets it. */
  ghost predicate AnswersPoint(c: SsaCfg, mem: MemoryEvents, placed: Places, nodes: Nodes, acc: Accesses, alias: Oracle,
                               b: nat, i: nat, a: nat)
    requires CfgOk(c) && |mem| == |c.succs| && b < |mem| && i <= |mem[b]|
  {
    && VersionAt(c, mem, placed, b, i) in acc && a < |nodes| && !Through(nodes, alias, a)
    && Mandatory(nodes, alias, acc[VersionAt(c, mem, placed, b, i)], a)
  }

  /** At the root, the store that flows back there is mandatory, although the run that just started has no store. */
  lemma ReturningStoreMisleads(c: SsaCfg, mem: MemoryEvents, placed: Places, nodes: Nodes, acc: Accesses)
    returns (alias: Oracle, p: seq<nat>, a: nat)
    requires IsGraph(c, mem, placed, nodes, acc) && !NoStoreReturns(c, mem)
    ensures !AnswerFits(c, mem, placed, nodes, acc, alias, p, 0, a)
  {
    var d := ReturningStore(c, mem, placed, nodes, acc);
    alias, p, a := x => x == d, [c.root], acc[DefVersion(MEMORY, d)];
    RootMisled(c, mem, placed, nodes, acc, alias, d);
  }

  lemma ReturningStore(c: SsaCfg, mem: MemoryEvents, placed: Places, nodes: Nodes, acc: Accesses) returns (d: nat)
    requires IsGraph(c, mem, placed, nodes, acc) && !NoStoreReturns(c, mem)
    ensures HasPhi(placed, c.root) && StoreAccess(nodes, acc, d)
  {
    var q :| ReturnPath(c, Lower(mem), MEMORY, q) && q[|q| - 1] == c.root;
    var i;
    i, d := StoreOf(mem, q[0]);
    assert StoreNode(c, mem, placed, nodes, acc, q[0], i);
    MemoryIsLive(c, mem, c.root);
    RootPhiIff(c, Lower(mem), placed, MEMORY);
  }

  ghost predicate StoreAccess(nodes: Nodes, acc: Accesses, d: nat) {
    && Names(acc, nodes, DefVersion(MEMORY, d)) && nodes[acc[DefVersion(MEMORY, d)]].Definition?
    && nodes[acc[DefVersion(MEMORY, d)]].definition == d
  }

  lemma RootMisled(c: SsaCfg, mem: MemoryEvents, placed: Places, nodes: Nodes, acc: Accesses, alias: Oracle, d: nat)
    requires IsGraph(c, mem, placed, nodes, acc) && HasPhi(placed, c.root) && StoreAccess(nodes, acc, d)
    requires forall x: nat :: alias(x) <==> x == d
    ensures !AnswerFits(c, mem, placed, nodes, acc, alias, [c.root], 0, acc[DefVersion(MEMORY, d)])
  {
    RootAnswer(c, mem, placed, nodes, acc, alias, d);
    assert PathFromTo(c.succs, [c.root], c.root, c.root);
    assert LastStore(mem, alias, [c.root], 0).None?;
  }

  lemma RootAnswer(c: SsaCfg, mem: MemoryEvents, placed: Places, nodes: Nodes, acc: Accesses, alias: Oracle, d: nat)
    requires IsGraph(c, mem, placed, nodes, acc) && HasPhi(placed, c.root) && forall x: nat :: alias(x) <==> x == d
    requires StoreAccess(nodes, acc, d)
    ensures AnswersPoint(c, mem, placed, nodes, acc, alias, c.root, 0, acc[DefVersion(MEMORY, d)])
  {
    VersionIn(c, mem, placed, c.root);
    assert PhiNode(c, mem, placed, nodes, acc, c.root);
    var n := acc[PhiVersion(MEMORY, c.root)];
    assert HeldAt(c, mem, placed, acc, n, c.root, 0);
    forall w | StopWalk(nodes, alias, w, n) ensures acc[DefVersion(MEMORY, d)] in w {
      WalksEndAtStore(c, mem, placed, nodes, acc, alias, w, d);
    }
  }

  /**
    For every oracle, run, point and mandatory access the answer is true of the run, if and only if no store flows
    back to the root.
   */
  lemma ClobbersAreLastStoresIff(c: SsaCfg, mem: MemoryEvents, placed: Places, nodes: Nodes, acc: Accesses)
    requires IsGraph(c, mem, placed, nodes, acc)
    ensures NoStoreReturns(c, mem) <==>
            forall alias: Oracle, p: seq<nat>, i: nat, a: nat :: AnswerFits(c, mem, placed, nodes, acc, alias, p, i, a)
  {
    if NoStoreReturns(c, mem) {
      forall alias: Oracle, p: seq<nat>, i: nat, a: nat ensures AnswerFits(c, mem, placed, nodes, acc, alias, p, i, a) {
        if RunTo(c, mem, p, i) && AnswersPoint(c, mem, placed, nodes, acc, alias, p[|p| - 1], i, a) {
          ClobberIsLastStore(c, mem, placed, nodes, acc, alias, p, i, a);
        }
      }
    } else {
      var alias, p, a := ReturningStoreMisleads(c, mem, placed, nodes, acc);
    }
  }
}
