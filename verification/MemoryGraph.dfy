/** What a MemorySSA graph means: its backward walks against the stores executed along CFG paths. */
module MemoryGraph {
  import opened Graph
  import opened CfgErrors
  import opened DomTree
  import opened Dominance
  import opened SsaSpec
  import opened ClobberSpec

  datatype MemoryEvent = MemoryEvent(point: nat, definition: Option<nat>)

  type MemoryEvents = seq<seq<MemoryEvent>>

  /** The one SSA variable: the whole memory. */
  const MEMORY: nat := 0

  // ------------------------------------------------------------ the events handed to SSA

  /** Block entry, then a use before each event and the event's definition. */
  function Lowered(es: seq<MemoryEvent>, first: nat): seq<Event> {
    if es == [] then [Use(MEMORY, first)]
    else
      Lowered(es[..|es| - 1], first) + [Use(MEMORY, first + |es|)] +
      match es[|es| - 1].definition
      case None => []
      case Some(d) => [Def(MEMORY, d)]
  }

  function LowerBlock(es: seq<MemoryEvent>, first: nat): seq<Event> {
    Lowered(es, first) + [Use(MEMORY, first + |es| + 1)]
  }

  function FirstUsage(mem: MemoryEvents, b: nat): nat
    requires b <= |mem|
  {
    if b == 0 then 0 else FirstUsage(mem, b - 1) + |mem[b - 1]| + 2
  }

  function Lower(mem: MemoryEvents): (events: Events)
    ensures |events| == |mem|
  {
    seq(|mem|, b requires 0 <= b < |mem| => LowerBlock(mem[b], FirstUsage(mem, b)))
  }

  // ------------------------------------------------------------ the graph

  /** The memory version before event `i` of block `b`; past the last event, the one that leaves it. */
  ghost function VersionAt(c: SsaCfg, mem: MemoryEvents, placed: Places, b: nat, i: nat): Version
    requires CfgOk(c) && |mem| == |c.succs| && b < |mem| && i <= |mem[b]|
  {
    After(Lowered(mem[b][..i], FirstUsage(mem, b)), MEMORY, InVersion(c, Lower(mem), placed, b, MEMORY))
  }

  type Accesses = map<Version, nat>

  ghost predicate Names(acc: Accesses, nodes: Nodes, x: Version) {
    x in acc && acc[x] < |nodes|
  }

  predicate HasPhi(placed: Places, b: nat) {
    (b, MEMORY) in placed
  }

  ghost predicate PhiNode(c: SsaCfg, mem: MemoryEvents, placed: Places, nodes: Nodes, acc: Accesses, b: nat)
    requires CfgOk(c) && |mem| == |c.succs| && b < |mem|
  {
    && Names(acc, nodes, PhiVersion(MEMORY, b))
    && nodes[acc[PhiVersion(MEMORY, b)]].Phi?
    && nodes[acc[PhiVersion(MEMORY, b)]].block == b
    && PhiInputs(c, mem, placed, nodes, acc, b, nodes[acc[PhiVersion(MEMORY, b)]].inputs)
  }

  /** One input per predecessor, in order: the access that leaves it. */
  ghost predicate PhiInputs(c: SsaCfg, mem: MemoryEvents, placed: Places, nodes: Nodes, acc: Accesses, b: nat,
      inputs: seq<(nat, nat)>)
    requires CfgOk(c) && |mem| == |c.succs| && b < |mem|
  {
    && |inputs| == |c.preds[b]|
    && forall i :: 0 <= i < |inputs| ==>
         && c.preds[b][i] < |mem|
         && Names(acc, nodes, VersionAt(c, mem, placed, c.preds[b][i], |mem[c.preds[b][i]]|))
         && inputs[i] == (c.preds[b][i], acc[VersionAt(c, mem, placed, c.preds[b][i], |mem[c.preds[b][i]]|)])
  }

  ghost predicate StoreNode(c: SsaCfg, mem: MemoryEvents, placed: Places, nodes: Nodes, acc: Accesses, b: nat, i: nat)
    requires CfgOk(c) && |mem| == |c.succs| && b < |mem| && i < |mem[b]|
  {
    match mem[b][i].definition
    case None => true
    case Some(d) =>
      && Names(acc, nodes, DefVersion(MEMORY, d)) && Names(acc, nodes, VersionAt(c, mem, placed, b, i))
      && nodes[acc[DefVersion(MEMORY, d)]] == Definition(d, acc[VersionAt(c, mem, placed, b, i)])
  }

  /** Every access holds what its version stands for. */
  ghost predicate IsGraph(c: SsaCfg, mem: MemoryEvents, placed: Places, nodes: Nodes, acc: Accesses) {
    && CfgOk(c) && |mem| == |c.succs| && Placed(c, Lower(mem), placed)
    && Names(acc, nodes, EntryVersion(MEMORY)) && nodes[acc[EntryVersion(MEMORY)]].LiveOnEntry?
    && (forall b: nat, i: nat {:trigger StoreNode(c, mem, placed, nodes, acc, b, i)} ::
          b < |mem| && i < |mem[b]| ==> StoreNode(c, mem, placed, nodes, acc, b, i))
    && (forall b: nat {:trigger PhiNode(c, mem, placed, nodes, acc, b)} ::
          b < |mem| && HasPhi(placed, b) ==> PhiNode(c, mem, placed, nodes, acc, b))
  }

  // ------------------------------------------------------------ what runs do

  /** The last of these events that may alias. */
  ghost function StoreIn(es: seq<MemoryEvent>, alias: Oracle): Option<nat> {
    if es == [] then None
    else
      var e := es[|es| - 1];
      if e.definition.Some? && alias(e.definition.value) then e.definition else StoreIn(es[..|es| - 1], alias)
  }

  ghost predicate InBlocks(mem: MemoryEvents, p: seq<nat>) {
    p != [] && forall m :: 0 <= m < |p| ==> p[m] < |mem|
  }

  /** The last store on the path that may alias, before event `i` of its last block. */
  ghost function LastStore(mem: MemoryEvents, alias: Oracle, p: seq<nat>, i: nat): Option<nat>
    requires InBlocks(mem, p) && i <= |mem[p[|p| - 1]]|
    decreases |p|
  {
    var here := StoreIn(mem[p[|p| - 1]][..i], alias);
    if here.Some? || |p| == 1 then here
    else LastStore(mem, alias, p[..|p| - 1], |mem[p[|p| - 2]]|)
  }

  /** No store that may alias runs from the entry of `p[j]` to event `i` of the last block. */
  ghost predicate Quiet(mem: MemoryEvents, alias: Oracle, p: seq<nat>, j: nat, i: nat)
    requires InBlocks(mem, p) && i <= |mem[p[|p| - 1]]|
  {
    && (forall m :: j <= m < |p| - 1 ==> StoreIn(mem[p[m]], alias).None?)
    && StoreIn(mem[p[|p| - 1]][..i], alias).None?
  }

  ghost predicate PhiOnPath(mem: MemoryEvents, alias: Oracle, p: seq<nat>, i: nat, y: nat)
    requires InBlocks(mem, p) && i <= |mem[p[|p| - 1]]|
  {
    exists j: nat :: j < |p| && p[j] == y && Quiet(mem, alias, p, j, i)
  }

  ghost predicate EndsAt(nodes: Nodes, n: nat, store: Option<nat>) {
    n < |nodes| &&
    match store
    case None => nodes[n].LiveOnEntry?
    case Some(d) => nodes[n].Definition? && nodes[n].definition == d
  }

  /** The walk follows the path backward: it ends at its last aliasing store, and after the visit
      of each phi it meets the path runs no such store. */
  ghost predicate Follows(mem: MemoryEvents, nodes: Nodes, alias: Oracle, p: seq<nat>, i: nat, w: seq<nat>)
    requires InBlocks(mem, p) && i <= |mem[p[|p| - 1]]|
  {
    && w != [] && EndsAt(nodes, w[|w| - 1], LastStore(mem, alias, p, i))
    && forall k :: 0 <= k < |w| ==>
         w[k] < |nodes| && (nodes[w[k]].Phi? ==> PhiOnPath(mem, alias, p, i, nodes[w[k]].block))
  }

  // ------------------------------------------------------------ lowering facts

  lemma {:induction false} StoreDefines(es: seq<MemoryEvent>, first: nat, alias: Oracle)
    requires StoreIn(es, alias).Some?
    ensures Defines(Lowered(es, first), MEMORY)
  {
    var k := |es| - 1;
    var low := Lowered(es, first);
    if es[k].definition.Some? && alias(es[k].definition.value) {
      assert low[|low| - 1] == Def(MEMORY, es[k].definition.value);
    } else {
      StoreDefines(es[..k], first, alias);
      var j :| 0 <= j < |Lowered(es[..k], first)| && Lowered(es[..k], first)[j].Def?
        && Lowered(es[..k], first)[j].variable == MEMORY;
      assert low[j] == Lowered(es[..k], first)[j];
    }
  }

  lemma StoreDefinesBlock(mem: MemoryEvents, b: nat, alias: Oracle)
    requires b < |mem| && StoreIn(mem[b], alias).Some?
    ensures Defines(Lower(mem)[b], MEMORY)
  {
    StoreDefines(mem[b], FirstUsage(mem, b), alias);
    var low := Lowered(mem[b], FirstUsage(mem, b));
    var j :| 0 <= j < |low| && low[j].Def? && low[j].variable == MEMORY;
    assert Lower(mem)[b][j] == low[j];
  }

  lemma FirstIsUse(es: seq<MemoryEvent>, first: nat)
    ensures |Lowered(es, first)| > 0 && Lowered(es, first)[0] == Use(MEMORY, first)
  {
  }

  /** The memory is live everywhere: each block starts with a use of it. */
  lemma MemoryIsLive(c: SsaCfg, mem: MemoryEvents, b: nat)
    requires CfgOk(c) && |mem| == |c.succs| && b < |mem|
    ensures LiveIn(c, Lower(mem), MEMORY, b)
  {
    var events := Lower(mem);
    FirstIsUse(mem[b], FirstUsage(mem, b));
    assert events[b][0] == Use(MEMORY, FirstUsage(mem, b)) && !Defines(events[b][..0], MEMORY);
    assert LivePath(c, events, MEMORY, [b]);
  }

  lemma AfterUse(es: seq<Event>, u: nat, v: nat, x: Version)
    ensures After(es + [Use(v, u)], v, x) == After(es, v, x)
  {
    assert (es + [Use(v, u)])[..|es|] == es;
  }

  /** An event without a definition keeps the version, one with a definition names it. */
  lemma VersionStep(c: SsaCfg, mem: MemoryEvents, placed: Places, b: nat, i: nat)
    requires CfgOk(c) && |mem| == |c.succs| && b < |mem| && i < |mem[b]|
    ensures VersionAt(c, mem, placed, b, i + 1) ==
              match mem[b][i].definition
              case None => VersionAt(c, mem, placed, b, i)
              case Some(d) => DefVersion(MEMORY, d)
  {
    var x := InVersion(c, Lower(mem), placed, b, MEMORY);
    var first := FirstUsage(mem, b);
    assert mem[b][..i + 1][..i] == mem[b][..i];
    var low := Lowered(mem[b][..i], first) + [Use(MEMORY, first + i + 1)];
    AfterUse(Lowered(mem[b][..i], first), first + i + 1, MEMORY, x);
    match mem[b][i].definition
    case None =>
      assert low + [] == low;
    case Some(d) =>
      assert (low + [Def(MEMORY, d)])[|low|] == Def(MEMORY, d);
  }

  lemma VersionIn(c: SsaCfg, mem: MemoryEvents, placed: Places, b: nat)
    requires CfgOk(c) && |mem| == |c.succs| && b < |mem|
    ensures VersionAt(c, mem, placed, b, 0) == InVersion(c, Lower(mem), placed, b, MEMORY)
    ensures VersionAt(c, mem, placed, b, |mem[b]|) == OutVersion(c, Lower(mem), placed, b, MEMORY)
  {
    var x := InVersion(c, Lower(mem), placed, b, MEMORY);
    var first := FirstUsage(mem, b);
    AfterUse([], first, MEMORY, x);
    assert [] + [Use(MEMORY, first)] == [Use(MEMORY, first)];
    assert mem[b][..|mem[b]|] == mem[b];
    AfterUse(Lowered(mem[b], first), first + |mem[b]| + 1, MEMORY, x);
  }

  // ------------------------------------------------------------ quiet stretches

  lemma StoreStep(es: seq<MemoryEvent>, i: nat, alias: Oracle)
    requires i < |es|
    ensures StoreIn(es[..i + 1], alias) ==
            if es[i].definition.Some?
              && alias(es[i].definition.value) then es[i].definition else StoreIn(es[..i], alias)
  {
    assert es[..i + 1][..i] == es[..i];
  }

  /** A stretch of blocks without stores changes neither the last store nor the quiet visits. */
  lemma {:induction false} QuietStretch(mem: MemoryEvents, alias: Oracle, p: seq<nat>, n: nat)
    requires InBlocks(mem, p) && 0 < n < |p|
    requires forall m :: n <= m < |p| - 1 ==> StoreIn(mem[p[m]], alias).None?
    ensures InBlocks(mem, p[..n])
    ensures LastStore(mem, alias, p, 0) == LastStore(mem, alias, p[..n], |mem[p[n - 1]]|)
    ensures forall y: nat :: PhiOnPath(mem, alias, p[..n], |mem[p[n - 1]]|, y) ==> PhiOnPath(mem, alias, p, 0, y)
    decreases |p|
  {
    var q, k := p[..|p| - 1], |p| - 2;
    assert mem[p[k]][..|mem[p[k]]|] == mem[p[k]];
    if n < |p| - 1 {
      QuietStretch(mem, alias, q, n);
      assert q[..n] == p[..n];
      if |q| > 1 {
        assert LastStore(mem, alias, q, |mem[p[k]]|) == LastStore(mem, alias, q, 0);
      }
    }
    forall y: nat | PhiOnPath(mem, alias, p[..n], |mem[p[n - 1]]|, y) ensures PhiOnPath(mem, alias, p, 0, y) {
      var j: nat :| j < n && p[..n][j] == y && Quiet(mem, alias, p[..n], j, |mem[p[n - 1]]|);
      assert mem[p[n - 1]][..|mem[p[n - 1]]|] == mem[p[n - 1]];
      forall m | j <= m < |p| - 1 ensures StoreIn(mem[p[m]], alias).None? {
        if m < n - 1 {
          assert p[..n][m] == p[m];
        }
      }
      assert Quiet(mem, alias, p, j, 0);
    }
  }

  // ------------------------------------------------------------ the theorem

  lemma FollowStore(mem: MemoryEvents, nodes: Nodes, alias: Oracle, p: seq<nat>, i: nat, n: nat, w: seq<nat>)
    requires InBlocks(mem, p) && i < |mem[p[|p| - 1]]| && n < |nodes| && nodes[n].Definition?
    requires mem[p[|p| - 1]][i].definition == Some(nodes[n].definition)
    requires !alias(nodes[n].definition) ==> Follows(mem, nodes, alias, p, i, w)
    ensures Follows(mem, nodes, alias, p, i + 1, if alias(nodes[n].definition) then [n] else [n] + w)
  {
    var es := mem[p[|p| - 1]];
    StoreStep(es, i, alias);
    if !alias(nodes[n].definition) {
      forall y: nat | PhiOnPath(mem, alias, p, i, y) ensures PhiOnPath(mem, alias, p, i + 1, y) {
        var j: nat :| j < |p| && p[j] == y && Quiet(mem, alias, p, j, i);
        assert Quiet(mem, alias, p, j, i + 1);
      }
    }
  }

  lemma FollowEvent(mem: MemoryEvents, nodes: Nodes, alias: Oracle, p: seq<nat>, i: nat, w: seq<nat>)
    requires InBlocks(mem, p) && i < |mem[p[|p| - 1]]| && mem[p[|p| - 1]][i].definition.None?
    requires Follows(mem, nodes, alias, p, i, w)
    ensures Follows(mem, nodes, alias, p, i + 1, w)
  {
    StoreStep(mem[p[|p| - 1]], i, alias);
    forall y: nat | PhiOnPath(mem, alias, p, i, y) ensures PhiOnPath(mem, alias, p, i + 1, y) {
      var j: nat :| j < |p| && p[j] == y && Quiet(mem, alias, p, j, i);
      assert Quiet(mem, alias, p, j, i + 1);
    }
  }

  lemma FollowStretch(mem: MemoryEvents, nodes: Nodes, alias: Oracle, p: seq<nat>, n: nat, w: seq<nat>)
    requires InBlocks(mem, p) && 0 < n < |p|
    requires forall m :: n <= m < |p| - 1 ==> StoreIn(mem[p[m]], alias).None?
    requires InBlocks(mem, p[..n]) && Follows(mem, nodes, alias, p[..n], |mem[p[n - 1]]|, w)
    ensures Follows(mem, nodes, alias, p, 0, w)
  {
    QuietStretch(mem, alias, p, n);
  }

  lemma FollowPhi(mem: MemoryEvents, nodes: Nodes, alias: Oracle, p: seq<nat>, n: nat, w: seq<nat>)
    requires InBlocks(mem, p) && n < |nodes| && nodes[n].Phi? && nodes[n].block == p[|p| - 1]
    requires Follows(mem, nodes, alias, p, 0, w)
    ensures Follows(mem, nodes, alias, p, 0, [n] + w)
  {
    assert Quiet(mem, alias, p, |p| - 1, 0);
    assert PhiOnPath(mem, alias, p, 0, p[|p| - 1]);
  }

  /** No store flows back to the root; a root without predecessors always qualifies. */
  ghost predicate NoStoreReturns(c: SsaCfg, mem: MemoryEvents) {
    !DefinitionReturns(c, Lower(mem), MEMORY, c.root)
  }

  ghost predicate RunTo(c: SsaCfg, mem: MemoryEvents, p: seq<nat>, i: nat) {
    && |mem| == |c.succs| && p != [] && PathFromTo(c.succs, p, c.root, p[|p| - 1])
    && InBlocks(mem, p) && i <= |mem[p[|p| - 1]]|
  }

  lemma BackPhi(nodes: Nodes, alias: Oracle, n: nat, inputs: seq<(nat, nat)>, k: nat)
    requires n < |nodes| && nodes[n].Phi? && nodes[n].inputs == inputs && k < |inputs|
    ensures Back(nodes, alias, n, inputs[k].1)
  {
  }

  lemma PrependWalk(nodes: Nodes, alias: Oracle, n: nat, m: nat, w: seq<nat>)
    requires Back(nodes, alias, n, m) && StopWalk(nodes, alias, w, m)
    ensures StopWalk(nodes, alias, [n] + w, n)
  {
  }

  /** Every run from the root has a backward walk that follows it. */
  lemma {:induction false} RunHasWalk(c: SsaCfg, mem: MemoryEvents, placed: Places, nodes: Nodes, acc: Accesses,
      alias: Oracle,
                                      p: seq<nat>, i: nat) returns (w: seq<nat>)
    requires IsGraph(c, mem, placed, nodes, acc) && NoStoreReturns(c, mem) && RunTo(c, mem, p, i)
    ensures Names(acc, nodes, VersionAt(c, mem, placed, p[|p| - 1], i))
    ensures StopWalk(nodes, alias, w, acc[VersionAt(c, mem, placed, p[|p| - 1], i)])
    ensures Follows(mem, nodes, alias, p, i, w)
    decreases |p|, i + 3
  {
    if i > 0 {
      var w' := RunHasWalk(c, mem, placed, nodes, acc, alias, p, i - 1);
      w := EventWalk(c, mem, placed, nodes, acc, alias, p, i - 1, w');
    } else {
      w := EntryWalk(c, mem, placed, nodes, acc, alias, p);
    }
  }

  /** One more event: its store ends the walk, is passed, or there is none. */
  lemma EventWalk(c: SsaCfg, mem: MemoryEvents, placed: Places, nodes: Nodes, acc: Accesses, alias: Oracle,
      p: seq<nat>, i: nat, w': seq<nat>)
    returns (w: seq<nat>)
    requires IsGraph(c, mem, placed, nodes, acc) && RunTo(c, mem, p, i + 1)
    requires Names(acc, nodes, VersionAt(c, mem, placed, p[|p| - 1], i))
    requires StopWalk(nodes, alias, w', acc[VersionAt(c, mem, placed, p[|p| - 1], i)])
    requires Follows(mem, nodes, alias, p, i, w')
    ensures Names(acc, nodes, VersionAt(c, mem, placed, p[|p| - 1], i + 1))
    ensures StopWalk(nodes, alias, w, acc[VersionAt(c, mem, placed, p[|p| - 1], i + 1)])
    ensures Follows(mem, nodes, alias, p, i + 1, w)
  {
    var b := p[|p| - 1];
    VersionStep(c, mem, placed, b, i);
    assert StoreNode(c, mem, placed, nodes, acc, b, i);
    match mem[b][i].definition
    case None =>
      FollowEvent(mem, nodes, alias, p, i, w');
      w := w';
    case Some(d) =>
      var n := acc[DefVersion(MEMORY, d)];
      FollowStore(mem, nodes, alias, p, i, n, w');
      if alias(d) {
        w := [n];
      } else {
        PrependWalk(nodes, alias, n, nodes[n].previous, w');
        w := [n] + w';
      }
  }

  lemma NoPhiAtRoot(c: SsaCfg, mem: MemoryEvents, placed: Places)
    requires CfgOk(c) && |mem| == |c.succs| && Placed(c, Lower(mem), placed) && NoStoreReturns(c, mem)
    ensures (c.root, MEMORY) !in placed
  {
    RootPhiIff(c, Lower(mem), placed, MEMORY);
  }

  lemma RootWalk(c: SsaCfg, mem: MemoryEvents, placed: Places, nodes: Nodes, acc: Accesses, alias: Oracle, p: seq<nat>)
    returns (w: seq<nat>)
    requires IsGraph(c, mem, placed, nodes, acc) && RunTo(c, mem, p, 0)
    requires p[|p| - 1] == c.root && NoStoreReturns(c, mem)
    ensures Names(acc, nodes, VersionAt(c, mem, placed, p[|p| - 1], 0))
    ensures StopWalk(nodes, alias, w, acc[VersionAt(c, mem, placed, p[|p| - 1], 0)])
    ensures Follows(mem, nodes, alias, p, 0, w)
  {
    NoPhiAtRoot(c, mem, placed);
    var i := QuietSince(c, mem, placed, alias, p);
    VersionIn(c, mem, placed, p[|p| - 1]);
    w := [acc[EntryVersion(MEMORY)]];
    QuietRun(mem, alias, p);
  }

  lemma {:induction false} EntryWalk(c: SsaCfg, mem: MemoryEvents, placed: Places, nodes: Nodes, acc: Accesses,
      alias: Oracle, p: seq<nat>)
    returns (w: seq<nat>)
    requires IsGraph(c, mem, placed, nodes, acc) && NoStoreReturns(c, mem) && RunTo(c, mem, p, 0)
    ensures Names(acc, nodes, VersionAt(c, mem, placed, p[|p| - 1], 0))
    ensures StopWalk(nodes, alias, w, acc[VersionAt(c, mem, placed, p[|p| - 1], 0)])
    ensures Follows(mem, nodes, alias, p, 0, w)
    decreases |p|, 2
  {
    if HasPhi(placed, p[|p| - 1]) {
      w := PhiWalk(c, mem, placed, nodes, acc, alias, p);
    } else if p[|p| - 1] == c.root {
      w := RootWalk(c, mem, placed, nodes, acc, alias, p);
    } else {
      w := ClimbWalk(c, mem, placed, nodes, acc, alias, p);
    }
  }

  /** Without a phi the entry version is the one that leaves the immediate dominator. */
  lemma ClimbVersion(c: SsaCfg, mem: MemoryEvents, placed: Places, b: nat, d: nat)
    requires CfgOk(c) && |mem| == |c.succs| && b < |mem| && b != c.root && (b, MEMORY) !in placed
    requires c.tree.idom[b] == Some(d)
    ensures d < |mem| && VersionAt(c, mem, placed, b, 0) == VersionAt(c, mem, placed, d, |mem[d]|)
  {
    IdomHasFewer(c.succs, c.root, d, b);
    VersionIn(c, mem, placed, d);
    VersionIn(c, mem, placed, b);
  }

  lemma {:induction false} ClimbWalk(c: SsaCfg, mem: MemoryEvents, placed: Places, nodes: Nodes, acc: Accesses,
      alias: Oracle,
                                     p: seq<nat>) returns (w: seq<nat>)
    requires IsGraph(c, mem, placed, nodes, acc) && NoStoreReturns(c, mem) && RunTo(c, mem, p, 0)
    requires p[|p| - 1] != c.root && !HasPhi(placed, p[|p| - 1])
    ensures Names(acc, nodes, VersionAt(c, mem, placed, p[|p| - 1], 0))
    ensures StopWalk(nodes, alias, w, acc[VersionAt(c, mem, placed, p[|p| - 1], 0)])
    ensures Follows(mem, nodes, alias, p, 0, w)
    decreases |p|, 0
  {
    var i := QuietSince(c, mem, placed, alias, p);
    var d := p[i];
    PrefixRun(c, mem, p, i + 1);
    ClimbVersion(c, mem, placed, p[|p| - 1], d);
    assert p[..i + 1][i] == d;
    w := RunHasWalk(c, mem, placed, nodes, acc, alias, p[..i + 1], |mem[d]|);
    FollowStretch(mem, nodes, alias, p, i + 1, w);
  }

  lemma PrefixRun(c: SsaCfg, mem: MemoryEvents, p: seq<nat>, n: nat)
    requires RunTo(c, mem, p, 0) && 0 < n <= |p|
    ensures RunTo(c, mem, p[..n], |mem[p[n - 1]]|) && RunTo(c, mem, p[..n], 0)
  {
    SubPath(c.succs, p, 0, n);
    assert p[0..n] == p[..n];
  }

  lemma {:induction false} QuietRun(mem: MemoryEvents, alias: Oracle, p: seq<nat>)
    requires InBlocks(mem, p) && forall m :: 0 <= m < |p| - 1 ==> StoreIn(mem[p[m]], alias).None?
    ensures LastStore(mem, alias, p, 0).None?
  {
    if |p| > 1 {
      QuietStretch(mem, alias, p, 1);
      assert mem[p[0]][..|mem[p[0]]|] == mem[p[0]];
    }
  }

  /** Since the last visit of the immediate dominator of a block without a phi nothing is stored. */
  lemma QuietSince(c: SsaCfg, mem: MemoryEvents, placed: Places, alias: Oracle, p: seq<nat>) returns (i: int)
    requires CfgOk(c) && |mem| == |c.succs| && Placed(c, Lower(mem), placed) && RunTo(c, mem, p, 0)
    requires (p[|p| - 1], MEMORY) !in placed
    ensures -1 <= i < |p| - 1
    ensures p[|p| - 1] == c.root ==> i == -1
    ensures p[|p| - 1] != c.root ==> i >= 0 && c.tree.idom[p[|p| - 1]] == Some(p[i])
    ensures forall m :: i < m < |p| - 1 ==> StoreIn(mem[p[m]], alias).None?
  {
    var events := Lower(mem);
    i := LastIdomVisit(c, events, p);
    MemoryIsLive(c, mem, p[|p| - 1]);
    forall m: nat | i < m < |p| - 1 ensures StoreIn(mem[p[m]], alias).None? {
      NothingBetween(c, events, placed, p, MEMORY, i, m);
      if StoreIn(mem[p[m]], alias).Some? {
        StoreDefinesBlock(mem, p[m], alias);
      }
    }
  }

  /** The walk of the run that leaves out the last block also follows the whole run. */
  lemma {:induction false} EdgeWalk(c: SsaCfg, mem: MemoryEvents, placed: Places, nodes: Nodes, acc: Accesses,
      alias: Oracle, p: seq<nat>)
    returns (w: seq<nat>)
    requires IsGraph(c, mem, placed, nodes, acc) && NoStoreReturns(c, mem) && RunTo(c, mem, p, 0) && |p| > 1
    ensures Names(acc, nodes, VersionAt(c, mem, placed, p[|p| - 2], |mem[p[|p| - 2]]|))
    ensures StopWalk(nodes, alias, w, acc[VersionAt(c, mem, placed, p[|p| - 2], |mem[p[|p| - 2]]|)])
    ensures Follows(mem, nodes, alias, p, 0, w)
    decreases |p|, 0
  {
    PrefixRun(c, mem, p, |p| - 1);
    w := RunHasWalk(c, mem, placed, nodes, acc, alias, p[..|p| - 1], |mem[p[|p| - 2]]|);
    FollowStretch(mem, nodes, alias, p, |p| - 1, w);
  }

  lemma {:induction false} PhiWalk(c: SsaCfg, mem: MemoryEvents, placed: Places, nodes: Nodes, acc: Accesses,
      alias: Oracle, p: seq<nat>)
    returns (w: seq<nat>)
    requires IsGraph(c, mem, placed, nodes, acc) && NoStoreReturns(c, mem) && RunTo(c, mem, p, 0)
    requires HasPhi(placed, p[|p| - 1])
    ensures Names(acc, nodes, VersionAt(c, mem, placed, p[|p| - 1], 0))
    ensures StopWalk(nodes, alias, w, acc[VersionAt(c, mem, placed, p[|p| - 1], 0)])
    ensures Follows(mem, nodes, alias, p, 0, w)
    decreases |p|, 1
  {
    NoPhiAtRoot(c, mem, placed);
    var w' := EdgeWalk(c, mem, placed, nodes, acc, alias, p);
    w := ThroughPhi(c, mem, placed, nodes, acc, alias, p, w');
  }

  lemma ThroughPhi(c: SsaCfg, mem: MemoryEvents, placed: Places, nodes: Nodes, acc: Accesses, alias: Oracle,
      p: seq<nat>, w': seq<nat>)
    returns (w: seq<nat>)
    requires IsGraph(c, mem, placed, nodes, acc) && RunTo(c, mem, p, 0) && |p| > 1 && HasPhi(placed, p[|p| - 1])
    requires Names(acc, nodes, VersionAt(c, mem, placed, p[|p| - 2], |mem[p[|p| - 2]]|))
    requires StopWalk(nodes, alias, w', acc[VersionAt(c, mem, placed, p[|p| - 2], |mem[p[|p| - 2]]|)])
    requires Follows(mem, nodes, alias, p, 0, w')
    ensures Names(acc, nodes, VersionAt(c, mem, placed, p[|p| - 1], 0))
    ensures StopWalk(nodes, alias, w, acc[VersionAt(c, mem, placed, p[|p| - 1], 0)])
    ensures Follows(mem, nodes, alias, p, 0, w)
  {
    var b, u := p[|p| - 1], p[|p| - 2];
    assert Edge(c.succs, u, b);
    var k := InputOfEdge(c, mem, placed, nodes, acc, u, b);
    var n := acc[PhiVersion(MEMORY, b)];
    FollowPhi(mem, nodes, alias, p, n, w');
    BackPhi(nodes, alias, n, nodes[n].inputs, k);
    PrependWalk(nodes, alias, n, nodes[n].inputs[k].1, w');
    w := [n] + w';
  }

  /** The phi of `b` has an input for every edge, holding the access that leaves the predecessor. */
  lemma InputOfEdge(c: SsaCfg, mem: MemoryEvents, placed: Places, nodes: Nodes, acc: Accesses, u: nat, b: nat)
      returns (k: nat)
    requires IsGraph(c, mem, placed, nodes, acc) && HasPhi(placed, b) && Edge(c.succs, u, b)
    ensures b < |mem| && PhiNode(c, mem, placed, nodes, acc, b)
    ensures VersionAt(c, mem, placed, b, 0) == PhiVersion(MEMORY, b)
    ensures u < |mem| && VersionAt(c, mem, placed, u, |mem[u]|) in acc
    ensures
      var n := acc[PhiVersion(MEMORY, b)];
      k < |nodes[n].inputs| && nodes[n].inputs[k].1 == acc[VersionAt(c, mem, placed, u, |mem[u]|)]
  {
    VersionIn(c, mem, placed, b);
    assert PhiNode(c, mem, placed, nodes, acc, b);
    assert u in c.preds[b];
    k :| k < |c.preds[b]| && c.preds[b][k] == u;
    assert PhiInputs(c, mem, placed, nodes, acc, b, nodes[acc[PhiVersion(MEMORY, b)]].inputs);
  }

  lemma StopIsLast(nodes: Nodes, alias: Oracle, w: seq<nat>, k: nat)
    requires IsWalk(nodes, alias, w) && k < |w| && Stop(nodes, alias, w[k])
    ensures k == |w| - 1
  {
    if k < |w| - 1 {
      StopHasNoBack(nodes, alias, w[k], w[k + 1]);
    }
  }

  lemma StopHasNoBack(nodes: Nodes, alias: Oracle, n: nat, m: nat)
    ensures Stop(nodes, alias, n) ==> !Back(nodes, alias, n, m)
  {
  }

  ghost predicate AnswerHolds(mem: MemoryEvents, nodes: Nodes, alias: Oracle, p: seq<nat>, i: nat, a: nat)
    requires InBlocks(mem, p) && i <= |mem[p[|p| - 1]]| && a < |nodes|
  {
    if nodes[a].Phi? then PhiOnPath(mem, alias, p, i, nodes[a].block)
    else EndsAt(nodes, a, LastStore(mem, alias, p, i))
  }

  /**
    What a clobber answer for a program point says about runs. A definition is the last store that may
    alias on every run to the point; the initial memory means there is none; a phi is at a block every run
    passes through without storing again before the point.
   */
  lemma ClobberIsLastStore(c: SsaCfg, mem: MemoryEvents, placed: Places, nodes: Nodes, acc: Accesses, alias: Oracle,
                           p: seq<nat>, i: nat, a: nat)
    requires IsGraph(c, mem, placed, nodes, acc) && NoStoreReturns(c, mem) && RunTo(c, mem, p, i)
    requires VersionAt(c, mem, placed, p[|p| - 1], i) in acc
    requires a < |nodes| && !Through(nodes, alias, a)
    requires Mandatory(nodes, alias, acc[VersionAt(c, mem, placed, p[|p| - 1], i)], a)
    ensures AnswerHolds(mem, nodes, alias, p, i, a)
  {
    var w := RunHasWalk(c, mem, placed, nodes, acc, alias, p, i);
    var k: nat :| k < |w| && w[k] == a;
    if !nodes[a].Phi? {
      StopIsLast(nodes, alias, w, k);
    }
  }
}
