/** Second half of MemorySSA construction: from the SSA record to access nodes and program points. */
module MemoryBuild {
  import opened CfgErrors
  import opened DomTree
  import opened Dominance
  import opened SsaSpec
  import opened SsaScan
  import SB = SsaBuild
  import opened ClobberSpec
  import opened MemoryGraph
  import opened MemorySsa

  // ------------------------------------------------------------ recorded uses

  lemma {:induction false} LoweredPrefix(es: seq<MemoryEvent>, first: nat, i: nat)
    requires i <= |es|
    ensures Lowered(es[..i], first) <= Lowered(es, first)
    ensures i < |es| ==> |Lowered(es[..i], first)| < |Lowered(es, first)|
    ensures i < |es| ==> Lowered(es, first)[|Lowered(es[..i], first)|] == Use(MEMORY, first + 1 + i)
    decreases |es|
  {
    if i == |es| {
      assert es[..i] == es;
    } else {
      LoweredPrefix(es[..|es| - 1], first, i);
      assert es[..|es| - 1][..i] == es[..i];
    }
  }

  lemma UsePosition(mem: MemoryEvents, b: nat, i: nat) returns (k: nat, low: seq<Event>)
    requires b < |mem| && i <= |mem[b]|
    ensures k < |Lower(mem)[b]| && Lower(mem)[b][k] == Use(MEMORY, FirstUsage(mem, b) + 1 + i)
    ensures Lower(mem)[b][..k] == low == Lowered(mem[b][..i], FirstUsage(mem, b))
  {
    var first := FirstUsage(mem, b);
    LoweredPrefix(mem[b], first, i);
    low := Lowered(mem[b][..i], first);
    k := |low|;
    assert mem[b][..|mem[b]|] == mem[b];
    assert Lower(mem)[b] == LowerBlock(mem[b], first);
  }

  /** The use at event `i` of block `b` is recorded with its version. */
  ghost predicate UseHolds(c: SsaCfg, events: Events, placed: Places, uses: map<nat, Version>, b: nat, i: nat)
    requires CfgOk(c) && |events| == |c.succs| && b < |events| && i < |events[b]|
  {
    events[b][i].Use? ==>
      events[b][i].usage in uses
        && uses[events[b][i].usage] == UseVersion(c, events, placed, b, i, events[b][i].variable)
  }

  ghost predicate UsesHold(c: SsaCfg, events: Events, placed: Places, uses: map<nat, Version>) {
    && CfgOk(c) && |events| == |c.succs|
    && forall b: nat, i: nat {:trigger UseHolds(c, events, placed, uses, b, i)} ::
         b < |events| && i < |events[b]| ==> UseHolds(c, events, placed, uses, b, i)
  }

  lemma ExactUsesHold(c: SsaCfg, events: Events, placed: Places, uses: map<nat, Version>)
    requires CfgOk(c) && |events| == |c.succs| && SB.UsesExact(c, events, placed, uses)
    ensures UsesHold(c, events, placed, uses)
  {
  }

  ghost predicate RecordedAs(uses: map<nat, Version>, u: nat, x: Version) {
    u in uses && uses[u] == x
  }

  lemma UsePrefixRecorded(c: SsaCfg, mem: MemoryEvents, placed: Places, uses: map<nat, Version>, b: nat, i: nat,
      k: nat, low: seq<Event>)
    requires CfgOk(c) && |mem| == |c.succs| && b < |mem| && i <= |mem[b]| && UsesHold(c, Lower(mem), placed, uses)
    requires k < |Lower(mem)[b]| && Lower(mem)[b][k] == Use(MEMORY, FirstUsage(mem, b) + 1 + i)
    requires Lower(mem)[b][..k] == low
    ensures RecordedAs(uses, FirstUsage(mem, b) + 1 + i,
              After(low, MEMORY, InVersion(c, Lower(mem), placed, b, MEMORY)))
  {
    UseAt(c, Lower(mem), placed, uses, b, k, MEMORY, FirstUsage(mem, b) + 1 + i, low);
  }

  lemma UseRecordedAt(c: SsaCfg, mem: MemoryEvents, placed: Places, uses: map<nat, Version>, b: nat, i: nat, k: nat,
      low: seq<Event>)
    requires CfgOk(c) && |mem| == |c.succs| && b < |mem| && i <= |mem[b]| && UsesHold(c, Lower(mem), placed, uses)
    requires k < |Lower(mem)[b]| && Lower(mem)[b][k] == Use(MEMORY, FirstUsage(mem, b) + 1 + i)
    requires Lower(mem)[b][..k] == low == Lowered(mem[b][..i], FirstUsage(mem, b))
    ensures RecordedAs(uses, FirstUsage(mem, b) + 1 + i, VersionAt(c, mem, placed, b, i))
  {
    UsePrefixRecorded(c, mem, placed, uses, b, i, k, low);
  }

  /** The record holds for the use before event `i` the version at that event. */
  lemma UseRecorded(c: SsaCfg, mem: MemoryEvents, placed: Places, uses: map<nat, Version>, b: nat, i: nat)
    requires CfgOk(c) && |mem| == |c.succs| && b < |mem| && i <= |mem[b]| && UsesHold(c, Lower(mem), placed, uses)
    ensures RecordedAs(uses, FirstUsage(mem, b) + 1 + i, VersionAt(c, mem, placed, b, i))
  {
    var k, low := UsePosition(mem, b, i);
    UseRecordedAt(c, mem, placed, uses, b, i, k, low);
  }

  lemma UseAt(c: SsaCfg, events: Events, placed: Places, uses: map<nat, Version>, b: nat, k: nat, v: nat, u: nat,
      low: seq<Event>)
    requires CfgOk(c) && |events| == |c.succs| && b < |events| && k < |events[b]| && events[b][k] == Use(v, u)
    requires events[b][..k] == low
    requires UsesHold(c, events, placed, uses)
    ensures RecordedAs(uses, u, After(low, v, InVersion(c, events, placed, b, v)))
  {
    assert UseHolds(c, events, placed, uses, b, k);
  }

  lemma EntryRecorded(c: SsaCfg, mem: MemoryEvents, placed: Places, uses: map<nat, Version>, b: nat)
    requires CfgOk(c) && |mem| == |c.succs| && b < |mem| && UsesHold(c, Lower(mem), placed, uses)
    ensures RecordedAs(uses, FirstUsage(mem, b), VersionAt(c, mem, placed, b, 0))
  {
    FirstIsUse(mem[b], FirstUsage(mem, b));
    assert Lower(mem)[b][0] == Use(MEMORY, FirstUsage(mem, b));
    assert Lower(mem)[b][..0] == [];
    UseAt(c, Lower(mem), placed, uses, b, 0, MEMORY, FirstUsage(mem, b), []);
    VersionIn(c, mem, placed, b);
  }

  // ------------------------------------------------------------ every version has an access

  /** The initial memory, a collected store, or a placed phi. */
  ghost predicate Named(mem: MemoryEvents, placed: Places, x: Version) {
    x.variable == MEMORY &&
    match x
    case EntryVersion(_) => true
    case DefVersion(_, d) => exists k :: 0 <= k < |Stores(mem, |mem|)| && Stores(mem, |mem|)[k].definition == d
    case PhiVersion(_, y) => HasPhi(placed, y)
  }

  lemma {:induction false} StoreListedInBlock(es: seq<MemoryEvent>, first: nat, i: nat) returns (k: nat)
    requires i < |es| && es[i].definition.Some?
    ensures k < |BlockStores(es, first)|
    ensures BlockStores(es, first)[k] == PendingStore(es[i].definition.value, first + 1 + i)
    decreases |es|
  {
    if i < |es| - 1 {
      k := StoreListedInBlock(es[..|es| - 1], first, i);
    } else {
      k := |BlockStores(es[..|es| - 1], first)|;
    }
  }

  lemma {:induction false} StoresPrefix(mem: MemoryEvents, m: nat, n: nat)
    requires m <= n <= |mem|
    ensures Stores(mem, m) <= Stores(mem, n)
    decreases n
  {
    if m < n {
      StoresPrefix(mem, m, n - 1);
    }
  }

  lemma StoreListed(mem: MemoryEvents, b: nat, i: nat) returns (k: nat)
    requires b < |mem| && i < |mem[b]| && mem[b][i].definition.Some?
    ensures k < |Stores(mem, |mem|)|
    ensures Stores(mem, |mem|)[k] == PendingStore(mem[b][i].definition.value, FirstUsage(mem, b) + 1 + i)
  {
    var j := StoreListedInBlock(mem[b], FirstUsage(mem, b), i);
    StoresPrefix(mem, b + 1, |mem|);
    k := |Stores(mem, b)| + j;
    assert Stores(mem, b + 1)[k] == BlockStores(mem[b], FirstUsage(mem, b))[j];
  }

  lemma StepNamed(c: SsaCfg, mem: MemoryEvents, placed: Places, b: nat, i: nat)
    requires CfgOk(c) && |mem| == |c.succs| && b < |mem| && i < |mem[b]|
    requires Named(mem, placed, VersionAt(c, mem, placed, b, i))
    ensures Named(mem, placed, VersionAt(c, mem, placed, b, i + 1))
  {
    VersionStep(c, mem, placed, b, i);
    if mem[b][i].definition.Some? {
      var k := StoreListed(mem, b, i);
    }
  }

  /** Where the version on entry comes from: a phi, the start, or the exit of the immediate dominator. */
  lemma EntryFrom(c: SsaCfg, mem: MemoryEvents, placed: Places, b: nat) returns (d: nat)
    requires CfgOk(c) && |mem| == |c.succs| && b < |mem|
    ensures HasPhi(placed, b) ==> VersionAt(c, mem, placed, b, 0) == PhiVersion(MEMORY, b)
    ensures !HasPhi(placed, b) && b == c.root ==> VersionAt(c, mem, placed, b, 0) == EntryVersion(MEMORY)
    ensures !HasPhi(placed, b) && b != c.root ==>
      d < |mem| && VersionAt(c, mem, placed, b, 0) == VersionAt(c, mem, placed, d, |mem[d]|)
    ensures !HasPhi(placed, b) && b != c.root ==>
      |StrictDominators(c.succs, c.root, d)| < |StrictDominators(c.succs, c.root, b)|
  {
    d := 0;
    VersionIn(c, mem, placed, b);
    if !HasPhi(placed, b) && b != c.root {
      d := c.tree.idom[b].value;
      IdomHasFewer(c.succs, c.root, d, b);
      VersionIn(c, mem, placed, d);
    }
  }

  lemma {:induction false} VersionNamed(c: SsaCfg, mem: MemoryEvents, placed: Places, b: nat, i: nat)
    requires CfgOk(c) && |mem| == |c.succs| && b < |mem| && i <= |mem[b]|
    ensures Named(mem, placed, VersionAt(c, mem, placed, b, i))
    decreases |StrictDominators(c.succs, c.root, b)|, i
  {
    if i > 0 {
      VersionNamed(c, mem, placed, b, i - 1);
      StepNamed(c, mem, placed, b, i - 1);
    } else {
      var d := EntryFrom(c, mem, placed, b);
      if !HasPhi(placed, b) && b != c.root {
        VersionNamed(c, mem, placed, d, |mem[d]|);
      }
    }
  }

  /** Only the memory variable gets phis. */
  lemma PhisAreMemory(c: SsaCfg, mem: MemoryEvents, placed: Places, z: (nat, nat))
    requires CfgOk(c) && |mem| == |c.succs| && Placed(c, Lower(mem), placed) && z in placed
    ensures z.1 == MEMORY
  {
    var k: nat :| Needed(c, Lower(mem), z.1, z.0, k);
    var p :| LivePath(c, Lower(mem), z.1, p) && p[0] == z.0;
    var b := p[|p| - 1];
    var i :| 0 <= i < |Lower(mem)[b]| && Lower(mem)[b][i].Use? && Lower(mem)[b][i].variable == z.1;
    LowerEvent(mem, b, Lower(mem)[b][i]);
  }

  // ------------------------------------------------------------ access numbers

  /** The access of a version: 0 for the initial memory, else from the two tables. */
  function AccessFor(x: Version, definitions: map<nat, nat>, phis: map<nat, nat>): Option<nat> {
    match x
    case EntryVersion(_) => Some(0)
    case DefVersion(_, d) => if d in definitions then Some(definitions[d]) else None
    case PhiVersion(_, b) => if b in phis then Some(phis[b]) else None
  }

  ghost predicate DefinitionTable(stores: seq<PendingStore>, definitions: map<nat, nat>, n: nat) {
    && n <= |stores|
    && (forall d :: d in definitions ==> exists k :: 0 <= k < n && stores[k].definition == d)
    && forall k :: 0 <= k < n ==> stores[k].definition in definitions && definitions[stores[k].definition] == k + 1
  }

  ghost predicate PhiTableOk(phis: seq<SB.Phi>, accesses: map<nat, nat>, start: nat, n: nat) {
    && n <= |phis|
    && (forall b :: b in accesses ==> exists k :: 0 <= k < n && phis[k].block == b)
    && forall k :: 0 <= k < n ==> phis[k].block in accesses && accesses[phis[k].block] == start + k
  }

  method NumberStores(stores: seq<PendingStore>) returns (repeated: bool, definitions: map<nat, nat>)
    ensures repeated <==> !StoresDistinct(stores)
    ensures !repeated ==> DefinitionTable(stores, definitions, |stores|)
  {
    repeated, definitions := false, map[];
    for k := 0 to |stores|
      invariant DefinitionTable(stores, definitions, k)
      invariant forall i, j :: 0 <= i < j < k ==> stores[i].definition != stores[j].definition
    {
      var d := stores[k].definition;
      if d in definitions {
        repeated := true;
        return;
      }
      definitions := definitions[d := k + 1];
    }
  }

  method NumberPhis(phis: seq<SB.Phi>, start: nat) returns (repeated: Option<nat>, accesses: map<nat, nat>)
    ensures (forall i, j :: 0 <= i < j < |phis| ==> phis[i].block != phis[j].block) ==> repeated.None?
    ensures repeated.None? ==> PhiTableOk(phis, accesses, start, |phis|)
  {
    repeated, accesses := None, map[];
    for k := 0 to |phis|
      invariant PhiTableOk(phis, accesses, start, k)
    {
      var b := phis[k].block;
      if b in accesses {
        repeated := Some(b);
        return;
      }
      accesses := accesses[b := start + k];
    }
  }

  /** Both tables together name every version that can occur. */
  ghost predicate Complete(mem: MemoryEvents, placed: Places, definitions: map<nat, nat>, phis: map<nat, nat>) {
    forall x: Version :: Named(mem, placed, x) ==> AccessFor(x, definitions, phis).Some?
  }

  /** The phi at position `k` is the memory phi of its block, with exact inputs. */
  ghost predicate PhiHolds(c: SsaCfg, mem: MemoryEvents, placed: Places, phi: SB.Phi)
    requires CfgOk(c) && |mem| == |c.succs|
  {
    phi.variable == MEMORY && phi.block < |mem| && SB.InputsExact(c, Lower(mem), placed, phi)
  }

  ghost predicate PhiListed(phis: seq<SB.Phi>, b: nat) {
    exists k :: 0 <= k < |phis| && phis[k].block == b
  }

  /** What the record says, one fact per phi, block and use. */
  ghost predicate RecordHolds(c: SsaCfg, mem: MemoryEvents, placed: Places, ssa: SB.SparseSsa) {
    && CfgOk(c) && |mem| == |c.succs| && UsesHold(c, Lower(mem), placed, ssa.uses)
    && (forall k {:trigger PhiHolds(c, mem, placed, ssa.phis[k])} :: 0 <= k < |ssa.phis| ==>
         PhiHolds(c, mem, placed, ssa.phis[k]))
    && (forall b: nat {:trigger PhiListed(ssa.phis, b)} :: HasPhi(placed, b) ==> PhiListed(ssa.phis, b))
    && (forall i, j :: 0 <= i < j < |ssa.phis| ==> ssa.phis[i].block != ssa.phis[j].block)
  }

  lemma RecordFacts(c: SsaCfg, mem: MemoryEvents, placed: Places, ssa: SB.SparseSsa)
    requires SB.IsSsa(c, Lower(mem), placed, ssa) && |mem| == |c.succs|
    ensures RecordHolds(c, mem, placed, ssa)
  {
    ExactUsesHold(c, Lower(mem), placed, ssa.uses);
    forall k | 0 <= k < |ssa.phis| ensures ssa.phis[k].variable == MEMORY {
      PhisAreMemory(c, mem, placed, (ssa.phis[k].block, ssa.phis[k].variable));
    }
    forall i, j | 0 <= i < j < |ssa.phis| ensures ssa.phis[i].block != ssa.phis[j].block {
      assert SB.Before((ssa.phis[i].block, ssa.phis[i].variable), (ssa.phis[j].block, ssa.phis[j].variable));
    }
    forall b: nat | HasPhi(placed, b) ensures PhiListed(ssa.phis, b) {
      var k :| 0 <= k < |ssa.phis| && (ssa.phis[k].block, ssa.phis[k].variable) == (b, MEMORY);
    }
  }

  lemma TablesComplete(mem: MemoryEvents, placed: Places, list: seq<SB.Phi>, definitions: map<nat, nat>,
      phis: map<nat, nat>, start: nat)
    requires forall b: nat {:trigger PhiListed(list, b)} :: HasPhi(placed, b) ==> PhiListed(list, b)
    requires DefinitionTable(Stores(mem, |mem|), definitions, |Stores(mem, |mem|)|)
    requires PhiTableOk(list, phis, start, |list|)
    ensures Complete(mem, placed, definitions, phis)
  {
    forall x: Version | Named(mem, placed, x) ensures AccessFor(x, definitions, phis).Some? {
      match x
      case EntryVersion(_) =>
      case DefVersion(_, d) =>
        var k :| 0 <= k < |Stores(mem, |mem|)| && Stores(mem, |mem|)[k].definition == d;
      case PhiVersion(_, y) =>
        assert PhiListed(list, y);
    }
  }

  // ------------------------------------------------------------ nodes

  ghost predicate UseMissing(uses: map<nat, Version>, u: nat, definitions: map<nat, nat>, phis: map<nat, nat>) {
    u !in uses || AccessFor(uses[u], definitions, phis).None?
  }

  ghost predicate StoreTranslated(store: PendingStore, node: Node, uses: map<nat, Version>,
      definitions: map<nat, nat>, phis: map<nat, nat>) {
    && !UseMissing(uses, store.before, definitions, phis)
    && node == Definition(store.definition, AccessFor(uses[store.before], definitions, phis).value)
  }

  method StoreNodes(stores: seq<PendingStore>, uses: map<nat, Version>, definitions: map<nat, nat>, phis: map<nat, nat>)
    returns (missing: bool, nodes: Nodes)
    ensures missing ==> exists k :: 0 <= k < |stores| && UseMissing(uses, stores[k].before, definitions, phis)
    ensures !missing ==> |nodes| == |stores| + 1 && nodes[0] == LiveOnEntry
    ensures !missing ==>
              forall k :: 0 <= k < |stores| ==> StoreTranslated(stores[k], nodes[k + 1], uses, definitions, phis)
  {
    missing, nodes := false, [LiveOnEntry];
    for k := 0 to |stores|
      invariant |nodes| == k + 1 && nodes[0] == LiveOnEntry
      invariant forall j :: 0 <= j < k ==> StoreTranslated(stores[j], nodes[j + 1], uses, definitions, phis)
    {
      if stores[k].before !in uses {
        assert UseMissing(uses, stores[k].before, definitions, phis);
        missing := true;
        return;
      }
      var previous := AccessFor(uses[stores[k].before], definitions, phis);
      if previous.None? {
        assert UseMissing(uses, stores[k].before, definitions, phis);
        missing := true;
        return;
      }
      nodes := nodes + [Definition(stores[k].definition, previous.value)];
    }
  }

  ghost predicate Translated(inputs: seq<(nat, Version)>, r: seq<(nat, nat)>, definitions: map<nat, nat>,
      phis: map<nat, nat>) {
    && |r| == |inputs|
    && (forall i :: 0 <= i < |r| ==> AccessFor(inputs[i].1, definitions, phis).Some?)
    && forall i :: 0 <= i < |r| ==> r[i] == (inputs[i].0, AccessFor(inputs[i].1, definitions, phis).value)
  }

  ghost predicate InputMissing(inputs: seq<(nat, Version)>, definitions: map<nat, nat>, phis: map<nat, nat>) {
    exists i :: 0 <= i < |inputs| && AccessFor(inputs[i].1, definitions, phis).None?
  }

  method Translate(inputs: seq<(nat, Version)>, definitions: map<nat, nat>, phis: map<nat, nat>)
    returns (missing: bool, r: seq<(nat, nat)>)
    ensures missing ==> InputMissing(inputs, definitions, phis)
    ensures !missing ==> Translated(inputs, r, definitions, phis)
  {
    missing, r := false, [];
    for k := 0 to |inputs|
      invariant Translated(inputs[..k], r, definitions, phis)
    {
      var access := AccessFor(inputs[k].1, definitions, phis);
      if access.None? {
        missing := true;
        return;
      }
      r := r + [(inputs[k].0, access.value)];
    }
    assert inputs[..|inputs|] == inputs;
  }

  ghost predicate PhiTranslated(phi: SB.Phi, node: Node, definitions: map<nat, nat>, phis: map<nat, nat>) {
    node.Phi? && node.block == phi.block && Translated(phi.inputs, node.inputs, definitions, phis)
  }

  method PhiNodes(list: seq<SB.Phi>, nodes0: Nodes, definitions: map<nat, nat>, phis: map<nat, nat>)
      returns (missing: bool, nodes: Nodes)
    ensures missing ==> exists k :: 0 <= k < |list| && InputMissing(list[k].inputs, definitions, phis)
    ensures !missing ==> |nodes| == |nodes0| + |list| && nodes0 <= nodes
    ensures !missing ==> forall k :: 0 <= k < |list| ==> PhiTranslated(list[k], nodes[|nodes0| + k], definitions, phis)
  {
    missing, nodes := false, nodes0;
    for k := 0 to |list|
      invariant |nodes| == |nodes0| + k && nodes0 <= nodes
      invariant forall j :: 0 <= j < k ==> PhiTranslated(list[j], nodes[|nodes0| + j], definitions, phis)
    {
      var absent, inputs := Translate(list[k].inputs, definitions, phis);
      if absent {
        missing := true;
        return;
      }
      nodes := nodes + [ClobberSpec.Phi(list[k].block, inputs)];
    }
  }

  // ------------------------------------------------------------ program points

  ghost predicate PointResolved(point: PendingPoint, r: PointAccess, uses: map<nat, Version>,
      definitions: map<nat, nat>, phis: map<nat, nat>) {
    && !UseMissing(uses, point.before, definitions, phis)
    && r.before == AccessFor(uses[point.before], definitions, phis).value
    && match point.definition
       case None => r.after == r.before
       case Some(d) => d in definitions && r.after == definitions[d]
  }

  method ResolvePoints(points: seq<PendingPoint>, uses: map<nat, Version>, definitions: map<nat, nat>,
      phis: map<nat, nat>)
    returns (missing: bool, r: map<nat, PointAccess>)
    requires forall k :: 0 <= k < |points| && points[k].definition.Some? ==> points[k].definition.value in definitions
    ensures missing ==> !PointsDistinct(points) || exists k ::
              0 <= k < |points| && UseMissing(uses, points[k].before, definitions, phis)
    ensures !missing ==> forall k :: 0 <= k < |points| ==> points[k].point in r
    ensures !missing ==>
              forall k :: 0 <= k < |points| ==> PointResolved(points[k], r[points[k].point], uses, definitions, phis)
    ensures !missing ==> forall x :: x in r ==> exists k :: 0 <= k < |points| && points[k].point == x
  {
    missing, r := false, map[];
    for k := 0 to |points|
      invariant forall j :: 0 <= j < k ==> points[j].point in r
      invariant forall j :: 0 <= j < k ==> PointResolved(points[j], r[points[j].point], uses, definitions, phis)
      invariant forall x :: x in r ==> exists j :: 0 <= j < k && points[j].point == x
    {
      var before, after := None, None;
      if points[k].before in uses {
        before := AccessFor(uses[points[k].before], definitions, phis);
      }
      if before.None? {
        assert UseMissing(uses, points[k].before, definitions, phis);
        missing := true;
        return;
      }
      after := if points[k].definition.Some? then Some(definitions[points[k].definition.value]) else before;
      if points[k].point in r {
        missing := true;
        return;
      }
      r := r[points[k].point := PointAccess(before.value, after.value)];
    }
  }

  ghost predicate Resolved(uses: map<nat, Version>, u: nat, n: nat, definitions: map<nat, nat>, phis: map<nat, nat>) {
    !UseMissing(uses, u, definitions, phis) && n == AccessFor(uses[u], definitions, phis).value
  }

  method ResolveUsages(usages: seq<nat>, uses: map<nat, Version>, definitions: map<nat, nat>, phis: map<nat, nat>)
    returns (missing: bool, r: seq<nat>)
    ensures missing ==> exists k :: 0 <= k < |usages| && UseMissing(uses, usages[k], definitions, phis)
    ensures !missing ==> |r| == |usages|
    ensures !missing ==> forall k :: 0 <= k < |usages| ==> Resolved(uses, usages[k], r[k], definitions, phis)
  {
    missing, r := false, [];
    for k := 0 to |usages|
      invariant |r| == k
      invariant forall j :: 0 <= j < k ==> Resolved(uses, usages[j], r[j], definitions, phis)
    {
      if usages[k] !in uses || AccessFor(uses[usages[k]], definitions, phis).None? {
        assert UseMissing(uses, usages[k], definitions, phis);
        missing := true;
        return;
      }
      r := r + [AccessFor(uses[usages[k]], definitions, phis).value];
    }
  }

  // ------------------------------------------------------------ the finished graph

  ghost function VersionSet(definitions: map<nat, nat>, phis: map<nat, nat>): set<Version> {
    {EntryVersion(MEMORY)}
    + (set d | d in definitions :: DefVersion(MEMORY, d)) + (set b | b in phis :: PhiVersion(MEMORY, b))
  }

  ghost function AccessMap(definitions: map<nat, nat>, phis: map<nat, nat>): (acc: Accesses)
    ensures forall x: Version :: x.variable == MEMORY && AccessFor(x, definitions, phis).Some? ==>
      Maps(acc, x, AccessFor(x, definitions, phis).value)
  {
    map x | x in VersionSet(definitions, phis)
      && AccessFor(x, definitions, phis).Some? :: AccessFor(x, definitions, phis).value
  }

  ghost predicate Maps(acc: Accesses, x: Version, n: nat) {
    x in acc && acc[x] == n
  }

  /** A point's two coordinates: the accesses before and after its event. */
  ghost predicate PointOk(c: SsaCfg, mem: MemoryEvents, placed: Places, acc: Accesses, points: PointMap, b: nat, i: nat)
    requires CfgOk(c) && |mem| == |c.succs| && b < |mem| && i < |mem[b]|
  {
    && mem[b][i].point in points.events
    && Maps(acc, VersionAt(c, mem, placed, b, i), points.events[mem[b][i].point].before)
    && Maps(acc, VersionAt(c, mem, placed, b, i + 1), points.events[mem[b][i].point].after)
  }

  ghost predicate BlockOk(c: SsaCfg, mem: MemoryEvents, placed: Places, acc: Accesses, points: PointMap, b: nat)
    requires CfgOk(c) && |mem| == |c.succs| && b < |mem|
  {
    && |points.entries| == |mem| && |points.exits| == |mem|
    && Maps(acc, VersionAt(c, mem, placed, b, 0), points.entries[b])
    && Maps(acc, VersionAt(c, mem, placed, b, |mem[b]|), points.exits[b])
  }

  ghost predicate PointsOk(c: SsaCfg, mem: MemoryEvents, placed: Places, acc: Accesses, points: PointMap) {
    && CfgOk(c) && |mem| == |c.succs|
    && (forall b: nat, i: nat :: b < |mem| && i < |mem[b]| ==> PointOk(c, mem, placed, acc, points, b, i))
    && (forall b: nat :: b < |mem| ==> BlockOk(c, mem, placed, acc, points, b))
  }

  /** Every use before an event, at a block entry or exit has an access. */
  ghost predicate Known(x: Version, definitions: map<nat, nat>, phis: map<nat, nat>) {
    AccessFor(x, definitions, phis).Some?
      && Maps(AccessMap(definitions, phis), x, AccessFor(x, definitions, phis).value)
  }

  lemma VersionKnown(c: SsaCfg, mem: MemoryEvents, placed: Places, definitions: map<nat, nat>, phis: map<nat, nat>,
      b: nat, i: nat)
    requires CfgOk(c) && |mem| == |c.succs| && b < |mem| && i <= |mem[b]| && Complete(mem, placed, definitions, phis)
    ensures Known(VersionAt(c, mem, placed, b, i), definitions, phis)
  {
    VersionNamed(c, mem, placed, b, i);
  }

  /** Where the `k`-th collected store comes from. */
  lemma {:induction false} StoreOrigin(mem: MemoryEvents, n: nat, k: nat) returns (b: nat, i: nat)
    requires n <= |mem| && k < |Stores(mem, n)|
    ensures b < n && i < |mem[b]|
    ensures mem[b][i].definition == Some(Stores(mem, n)[k].definition)
    ensures Stores(mem, n)[k].before == FirstUsage(mem, b) + 1 + i
    decreases n
  {
    var before := Stores(mem, n - 1);
    if k < |before| {
      b, i := StoreOrigin(mem, n - 1, k);
    } else {
      b := n - 1;
      i := BlockStoreOrigin(mem[b], FirstUsage(mem, b), k - |before|);
    }
  }

  lemma {:induction false} BlockStoreOrigin(es: seq<MemoryEvent>, first: nat, k: nat) returns (i: nat)
    requires k < |BlockStores(es, first)|
    ensures i < |es| && es[i].definition == Some(BlockStores(es, first)[k].definition)
    ensures BlockStores(es, first)[k].before == first + 1 + i
    decreases |es|
  {
    if k < |BlockStores(es[..|es| - 1], first)| {
      i := BlockStoreOrigin(es[..|es| - 1], first, k);
    } else {
      i := |es| - 1;
    }
  }

  lemma {:induction false} PointOrigin(mem: MemoryEvents, n: nat, k: nat) returns (b: nat, i: nat)
    requires n <= |mem| && k < |Points(mem, n)|
    ensures b < n && i < |mem[b]|
    ensures Points(mem, n)[k] == PendingPoint(mem[b][i].point, FirstUsage(mem, b) + 1 + i, mem[b][i].definition)
    decreases n
  {
    var before := Points(mem, n - 1);
    if k < |before| {
      b, i := PointOrigin(mem, n - 1, k);
    } else {
      b, i := n - 1, k - |before|;
    }
  }

  lemma {:induction false} PointListed(mem: MemoryEvents, n: nat, b: nat, i: nat) returns (k: nat)
    requires b < n <= |mem| && i < |mem[b]|
    ensures k < |Points(mem, n)|
    ensures Points(mem, n)[k] == PendingPoint(mem[b][i].point, FirstUsage(mem, b) + 1 + i, mem[b][i].definition)
    decreases n
  {
    if b == n - 1 {
      k := |Points(mem, n - 1)| + i;
    } else {
      k := PointListed(mem, n - 1, b, i);
    }
  }

  ghost predicate AccessesFit(definitions: map<nat, nat>, phis: map<nat, nat>, nodes: Nodes) {
    forall x: Version :: AccessFor(x, definitions, phis).Some? ==> AccessFor(x, definitions, phis).value < |nodes|
  }

  lemma StoreNodeOk(c: SsaCfg, mem: MemoryEvents, placed: Places, uses: map<nat, Version>, definitions: map<nat, nat>,
      phis: map<nat, nat>,
                    nodes: Nodes, b: nat, i: nat, d: nat, k: nat)
    requires CfgOk(c) && |mem| == |c.succs| && b < |mem| && i < |mem[b]| && mem[b][i].definition == Some(d)
    requires RecordedAs(uses, FirstUsage(mem, b) + 1 + i, VersionAt(c, mem, placed, b, i))
    requires Complete(mem, placed, definitions, phis) && AccessesFit(definitions, phis, nodes)
    requires d in definitions && definitions[d] == k + 1 && k + 1 < |nodes|
    requires StoreTranslated(PendingStore(d, FirstUsage(mem, b) + 1 + i), nodes[k + 1], uses, definitions, phis)
    ensures StoreNode(c, mem, placed, nodes, AccessMap(definitions, phis), b, i)
  {
    VersionKnown(c, mem, placed, definitions, phis, b, i);
    StoreFromParts(mem, uses, definitions, phis, nodes, FirstUsage(mem, b) + 1 + i, d, k,
      VersionAt(c, mem, placed, b, i));
  }

  lemma StoreFromParts(mem: MemoryEvents, uses: map<nat, Version>, definitions: map<nat, nat>, phis: map<nat, nat>,
      nodes: Nodes,
                       u: nat, d: nat, k: nat, x: Version)
    requires RecordedAs(uses, u, x) && Known(x, definitions, phis) && d in definitions && definitions[d] == k + 1
    requires k + 1 < |nodes|
    requires AccessesFit(definitions, phis, nodes)
    requires StoreTranslated(PendingStore(d, u), nodes[k + 1], uses, definitions, phis)
    ensures var acc := AccessMap(definitions, phis);
            && x in acc && DefVersion(MEMORY, d) in acc && acc[DefVersion(MEMORY, d)] == k + 1
            && nodes[k + 1] == Definition(d, acc[x]) && acc[x] < |nodes|
  {
    assert AccessFor(DefVersion(MEMORY, d), definitions, phis) == Some(k + 1);
  }

  ghost predicate StoresTranslated(stores: seq<PendingStore>, nodes: Nodes, uses: map<nat, Version>,
      definitions: map<nat, nat>, phis: map<nat, nat>) {
    && |nodes| > |stores|
    && forall k :: 0 <= k < |stores| ==> StoreTranslated(stores[k], nodes[k + 1], uses, definitions, phis)
  }

  lemma StoreNodesOk(c: SsaCfg, mem: MemoryEvents, placed: Places, uses: map<nat, Version>,
      definitions: map<nat, nat>, phis: map<nat, nat>,
                     nodes: Nodes, b: nat, i: nat)
    requires CfgOk(c) && |mem| == |c.succs| && b < |mem| && i < |mem[b]| && UsesHold(c, Lower(mem), placed, uses)
    requires Complete(mem, placed, definitions, phis) && AccessesFit(definitions, phis, nodes)
    requires DefinitionTable(Stores(mem, |mem|), definitions, |Stores(mem, |mem|)|)
    requires StoresTranslated(Stores(mem, |mem|), nodes, uses, definitions, phis)
    ensures StoreNode(c, mem, placed, nodes, AccessMap(definitions, phis), b, i)
  {
    if mem[b][i].definition.Some? {
      var d := mem[b][i].definition.value;
      var k := StoreListed(mem, b, i);
      UseRecorded(c, mem, placed, uses, b, i);
      StoreNodeOk(c, mem, placed, uses, definitions, phis, nodes, b, i, d, k);
    }
  }

  lemma PhiNodeOk(c: SsaCfg, mem: MemoryEvents, placed: Places, phi: SB.Phi, definitions: map<nat, nat>,
      phis: map<nat, nat>, nodes: Nodes)
    requires CfgOk(c) && |mem| == |c.succs| && phi.block < |mem| && phi.variable == MEMORY
    requires SB.InputsExact(c, Lower(mem), placed, phi)
    requires Complete(mem, placed, definitions, phis) && AccessesFit(definitions, phis, nodes)
    requires phi.block in phis && phis[phi.block] < |nodes|
    requires PhiTranslated(phi, nodes[phis[phi.block]], definitions, phis)
    ensures PhiNode(c, mem, placed, nodes, AccessMap(definitions, phis), phi.block)
  {
    var b, acc := phi.block, AccessMap(definitions, phis);
    assert AccessFor(PhiVersion(MEMORY, b), definitions, phis) == Some(phis[b]);
    var inputs := nodes[phis[b]].inputs;
    forall i | 0 <= i < |inputs|
      ensures c.preds[b][i] < |mem|
      ensures Names(acc, nodes, VersionAt(c, mem, placed, c.preds[b][i], |mem[c.preds[b][i]]|))
      ensures inputs[i] == (c.preds[b][i], acc[VersionAt(c, mem, placed, c.preds[b][i], |mem[c.preds[b][i]]|)])
    {
      var u := c.preds[b][i];
      VersionIn(c, mem, placed, u);
      VersionNamed(c, mem, placed, u, |mem[u]|);
    }
  }

  // ------------------------------------------------------------ construction

  /** The finished product: an access graph, its coordinates, and the access of every version. */
  ghost predicate IsMemorySsa(c: SsaCfg, mem: MemoryEvents, placed: Places, graph: AccessGraph, points: PointMap,
      acc: Accesses) {
    && IsGraph(c, mem, placed, graph.nodes, acc) && NodesOk(graph.nodes)
    && |graph.nodes| == 1 + graph.definitionCount + graph.phiCount && graph.definitionCount == |Stores(mem, |mem|)|
    && PointsOk(c, mem, placed, acc, points)
  }

  ghost predicate PhisTranslated(list: seq<SB.Phi>, nodes: Nodes, start: nat, definitions: map<nat, nat>,
      phis: map<nat, nat>) {
    && |nodes| == start + |list|
    && forall k :: 0 <= k < |list| ==> PhiTranslated(list[k], nodes[start + k], definitions, phis)
  }

  lemma AccessesAreNodes(stores: seq<PendingStore>, list: seq<SB.Phi>, definitions: map<nat, nat>,
      phis: map<nat, nat>, nodes: Nodes)
    requires DefinitionTable(stores, definitions, |stores|) && PhiTableOk(list, phis, |stores| + 1, |list|)
    requires |nodes| == |stores| + 1 + |list|
    ensures AccessesFit(definitions, phis, nodes)
  {
    forall x: Version | AccessFor(x, definitions, phis).Some? ensures AccessFor(x, definitions, phis).value < |nodes| {
      match x
      case EntryVersion(_) =>
      case DefVersion(_, d) =>
        var k :| 0 <= k < |stores| && stores[k].definition == d;
      case PhiVersion(_, b) =>
        var k :| 0 <= k < |list| && list[k].block == b;
    }
  }

  lemma NodesFit(stores: seq<PendingStore>, list: seq<SB.Phi>, uses: map<nat, Version>, definitions: map<nat, nat>,
      phis: map<nat, nat>, nodes: Nodes)
    requires StoresTranslated(stores, nodes, uses, definitions, phis) && nodes[0] == LiveOnEntry
    requires PhisTranslated(list, nodes, |stores| + 1, definitions, phis) && AccessesFit(definitions, phis, nodes)
    ensures NodesOk(nodes)
  {
    forall n: nat | n < |nodes| ensures NodeOk(nodes, nodes[n]) {
      if 0 < n <= |stores| {
        assert StoreTranslated(stores[n - 1], nodes[n - 1 + 1], uses, definitions, phis);
      } else if n > |stores| {
        assert PhiTranslated(list[n - (|stores| + 1)], nodes[|stores| + 1 + (n - (|stores| + 1))], definitions, phis);
      }
    }
  }

  lemma PhiNodesOk(c: SsaCfg, mem: MemoryEvents, placed: Places, list: seq<SB.Phi>, definitions: map<nat, nat>,
      phis: map<nat, nat>, nodes: Nodes,
                   start: nat, b: nat)
    requires CfgOk(c) && |mem| == |c.succs| && PhiListed(list, b)
    requires forall k {:trigger PhiHolds(c, mem, placed, list[k])} :: 0 <= k < |list| ==>
               PhiHolds(c, mem, placed, list[k])
    requires Complete(mem, placed, definitions, phis) && AccessesFit(definitions, phis, nodes)
    requires PhiTableOk(list, phis, start, |list|) && PhisTranslated(list, nodes, start, definitions, phis)
    ensures b < |mem| && PhiNode(c, mem, placed, nodes, AccessMap(definitions, phis), b)
  {
    var k: nat :| k < |list| && list[k].block == b;
    assert PhiHolds(c, mem, placed, list[k]);
    PhiNodeOk(c, mem, placed, list[k], definitions, phis, nodes);
  }

  /** The nodes are right for every store and phi. */
  lemma NodesHold(c: SsaCfg, mem: MemoryEvents, placed: Places, ssa: SB.SparseSsa, definitions: map<nat, nat>,
      phis: map<nat, nat>, nodes: Nodes)
    requires RecordHolds(c, mem, placed, ssa) && Complete(mem, placed, definitions, phis)
    requires AccessesFit(definitions, phis, nodes)
    requires DefinitionTable(Stores(mem, |mem|), definitions, |Stores(mem, |mem|)|)
    requires PhiTableOk(ssa.phis, phis, |Stores(mem, |mem|)| + 1, |ssa.phis|)
    requires StoresTranslated(Stores(mem, |mem|), nodes, ssa.uses, definitions, phis)
    requires PhisTranslated(ssa.phis, nodes, |Stores(mem, |mem|)| + 1, definitions, phis)
    ensures forall b: nat, i: nat {:trigger StoreNode(c, mem, placed, nodes, AccessMap(definitions, phis), b, i)} ::
      b < |mem| && i < |mem[b]| ==> StoreNode(c, mem, placed, nodes, AccessMap(definitions, phis), b, i)
    ensures forall b: nat {:trigger PhiNode(c, mem, placed, nodes, AccessMap(definitions, phis), b)} ::
      b < |mem| && HasPhi(placed, b) ==> PhiNode(c, mem, placed, nodes, AccessMap(definitions, phis), b)
  {
    forall b: nat, i: nat | b < |mem| && i < |mem[b]|
      ensures StoreNode(c, mem, placed, nodes, AccessMap(definitions, phis), b, i)
    {
      StoreNodesOk(c, mem, placed, ssa.uses, definitions, phis, nodes, b, i);
    }
    forall b: nat | b < |mem| && HasPhi(placed, b)
      ensures PhiNode(c, mem, placed, nodes, AccessMap(definitions, phis), b)
    {
      assert PhiListed(ssa.phis, b);
      PhiNodesOk(c, mem, placed, ssa.phis, definitions, phis, nodes, |Stores(mem, |mem|)| + 1, b);
    }
  }

  lemma GraphOk(c: SsaCfg, mem: MemoryEvents, placed: Places, ssa: SB.SparseSsa, definitions: map<nat, nat>,
      phis: map<nat, nat>, nodes: Nodes)
    requires RecordHolds(c, mem, placed, ssa) && Placed(c, Lower(mem), placed)
    requires DefinitionTable(Stores(mem, |mem|), definitions, |Stores(mem, |mem|)|)
    requires PhiTableOk(ssa.phis, phis, |Stores(mem, |mem|)| + 1, |ssa.phis|)
    requires StoresTranslated(Stores(mem, |mem|), nodes, ssa.uses, definitions, phis) && nodes[0] == LiveOnEntry
    requires PhisTranslated(ssa.phis, nodes, |Stores(mem, |mem|)| + 1, definitions, phis)
    ensures IsGraph(c, mem, placed, nodes, AccessMap(definitions, phis)) && NodesOk(nodes)
  {
    TablesComplete(mem, placed, ssa.phis, definitions, phis, |Stores(mem, |mem|)| + 1);
    AccessesAreNodes(Stores(mem, |mem|), ssa.phis, definitions, phis, nodes);
    NodesFit(Stores(mem, |mem|), ssa.phis, ssa.uses, definitions, phis, nodes);
    NodesHold(c, mem, placed, ssa, definitions, phis, nodes);
    assert AccessFor(EntryVersion(MEMORY), definitions, phis) == Some(0);
  }

  type Versions = seq<seq<Version>>

  /** The version before each event and at the exit of each block. */
  ghost predicate VersionTable(c: SsaCfg, mem: MemoryEvents, placed: Places, versions: Versions)
    requires CfgOk(c) && |mem| == |c.succs|
  {
    && Shaped(mem, versions)
    && forall b: nat, i: nat {:trigger VersionAt(c, mem, placed, b, i)} :: b < |mem| && i <= |mem[b]| ==>
         versions[b][i] == VersionAt(c, mem, placed, b, i)
  }

  ghost predicate Shaped(mem: MemoryEvents, versions: Versions) {
    |versions| == |mem| && forall b: nat :: b < |mem| ==> |versions[b]| == |mem[b]| + 1
  }

  ghost method TableVersions(c: SsaCfg, mem: MemoryEvents, placed: Places) returns (versions: Versions)
    requires CfgOk(c) && |mem| == |c.succs|
    ensures VersionTable(c, mem, placed, versions)
  {
    versions := seq(|mem|, b requires 0 <= b < |mem| =>
      seq(|mem[b]| + 1, i requires 0 <= i <= |mem[b]| => VersionAt(c, mem, placed, b, i)));
  }

  /** The use before event `i` of block `b` is recorded and has the access of its version. */
  ghost predicate EventOk(mem: MemoryEvents, versions: Versions, uses: map<nat, Version>, definitions: map<nat, nat>,
      phis: map<nat, nat>, b: nat, i: nat)
    requires Shaped(mem, versions) && b < |mem| && i <= |mem[b]|
  {
    && !UseMissing(uses, FirstUsage(mem, b) + 1 + i, definitions, phis)
    && Maps(AccessMap(definitions, phis), versions[b][i],
      AccessFor(uses[FirstUsage(mem, b) + 1 + i], definitions, phis).value)
    && (i == 0 ==> !UseMissing(uses, FirstUsage(mem, b), definitions, phis))
    && (i == 0 ==> uses[FirstUsage(mem, b)] == uses[FirstUsage(mem, b) + 1])
    && NextVersion(mem, versions, b, i)
  }

  ghost predicate NextVersion(mem: MemoryEvents, versions: Versions, b: nat, i: nat)
    requires Shaped(mem, versions) && b < |mem| && i <= |mem[b]|
  {
    i < |mem[b]| ==> versions[b][i + 1] == match mem[b][i].definition
                                           case None => versions[b][i]
                                           case Some(d) => DefVersion(MEMORY, d)
  }

  ghost predicate EventsOk(mem: MemoryEvents, versions: Versions, uses: map<nat, Version>, definitions: map<nat, nat>,
      phis: map<nat, nat>) {
    && Shaped(mem, versions)
    && forall b: nat, i: nat :: b < |mem| && i <= |mem[b]| ==> EventOk(mem, versions, uses, definitions, phis, b, i)
  }

  lemma EventIsOk(c: SsaCfg, mem: MemoryEvents, placed: Places, uses: map<nat, Version>, definitions: map<nat, nat>,
      phis: map<nat, nat>,
                  versions: Versions, b: nat, i: nat)
    requires CfgOk(c) && |mem| == |c.succs| && b < |mem| && i <= |mem[b]|
    requires VersionTable(c, mem, placed, versions) && Complete(mem, placed, definitions, phis)
    requires RecordedAs(uses, FirstUsage(mem, b) + 1 + i, VersionAt(c, mem, placed, b, i))
    requires RecordedAs(uses, FirstUsage(mem, b), VersionAt(c, mem, placed, b, 0))
    ensures EventOk(mem, versions, uses, definitions, phis, b, i)
  {
    VersionKnown(c, mem, placed, definitions, phis, b, i);
    VersionKnown(c, mem, placed, definitions, phis, b, 0);
    TableStep(c, mem, placed, versions, b, i);
    EventFromParts(mem, uses, definitions, phis, versions, b, i, VersionAt(c, mem, placed, b, i),
      VersionAt(c, mem, placed, b, 0));
  }

  lemma EventFromParts(mem: MemoryEvents, uses: map<nat, Version>, definitions: map<nat, nat>, phis: map<nat, nat>,
      versions: Versions,
                       b: nat, i: nat, x: Version, first: Version)
    requires Shaped(mem, versions) && b < |mem| && i <= |mem[b]| && NextVersion(mem, versions, b, i)
    requires Known(x, definitions, phis) && Known(first, definitions, phis) && versions[b][i] == x
    requires (i == 0 ==> x == first)
    requires RecordedAs(uses, FirstUsage(mem, b) + 1 + i, x) && RecordedAs(uses, FirstUsage(mem, b), first)
    ensures EventOk(mem, versions, uses, definitions, phis, b, i)
  {
  }

  lemma TableStep(c: SsaCfg, mem: MemoryEvents, placed: Places, versions: Versions, b: nat, i: nat)
    requires CfgOk(c) && |mem| == |c.succs| && b < |mem| && i <= |mem[b]| && VersionTable(c, mem, placed, versions)
    ensures NextVersion(mem, versions, b, i) && versions[b][i] == VersionAt(c, mem, placed, b, i)
  {
    if i < |mem[b]| {
      VersionStep(c, mem, placed, b, i);
    }
  }

  lemma AllEventsOk(c: SsaCfg, mem: MemoryEvents, placed: Places, uses: map<nat, Version>, definitions: map<nat, nat>,
      phis: map<nat, nat>,
                    versions: Versions)
    requires CfgOk(c) && |mem| == |c.succs| && UsesHold(c, Lower(mem), placed, uses)
    requires VersionTable(c, mem, placed, versions) && Complete(mem, placed, definitions, phis)
    ensures EventsOk(mem, versions, uses, definitions, phis)
  {
    forall b: nat, i: nat | b < |mem| && i <= |mem[b]| ensures EventOk(mem, versions, uses, definitions, phis, b, i) {
      UseRecorded(c, mem, placed, uses, b, i);
      EntryRecorded(c, mem, placed, uses, b);
      EventIsOk(c, mem, placed, uses, definitions, phis, versions, b, i);
    }
  }

  ghost predicate PointAt(mem: MemoryEvents, versions: Versions, acc: Accesses, points: PointMap, b: nat, i: nat)
    requires Shaped(mem, versions) && b < |mem| && i < |mem[b]|
  {
    && mem[b][i].point in points.events
    && Maps(acc, versions[b][i], points.events[mem[b][i].point].before)
    && Maps(acc, versions[b][i + 1], points.events[mem[b][i].point].after)
  }

  ghost predicate BoundaryAt(mem: MemoryEvents, versions: Versions, acc: Accesses, points: PointMap, b: nat)
    requires Shaped(mem, versions) && b < |mem|
  {
    && |points.entries| == |mem| && |points.exits| == |mem|
    && Maps(acc, versions[b][0], points.entries[b]) && Maps(acc, versions[b][|mem[b]|], points.exits[b])
  }

  lemma PointIsOk(mem: MemoryEvents, versions: Versions, uses: map<nat, Version>, definitions: map<nat, nat>,
      phis: map<nat, nat>,
                  points: PointMap, b: nat, i: nat)
    requires EventsOk(mem, versions, uses, definitions, phis) && b < |mem| && i < |mem[b]|
    requires mem[b][i].point in points.events
    requires PointResolved(PendingPoint(mem[b][i].point, FirstUsage(mem, b) + 1 + i, mem[b][i].definition),
                           points.events[mem[b][i].point], uses, definitions, phis)
    ensures PointAt(mem, versions, AccessMap(definitions, phis), points, b, i)
  {
    assert EventOk(mem, versions, uses, definitions, phis, b, i);
    if mem[b][i].definition.Some? {
      var d := mem[b][i].definition.value;
      assert AccessFor(DefVersion(MEMORY, d), definitions, phis) == Some(definitions[d]);
    }
  }

  lemma BoundaryIsOk(mem: MemoryEvents, versions: Versions, uses: map<nat, Version>, definitions: map<nat, nat>,
      phis: map<nat, nat>,
                     points: PointMap, b: nat)
    requires EventsOk(mem, versions, uses, definitions, phis) && b < |mem|
    requires |points.entries| == |mem| && |points.exits| == |mem|
    requires Resolved(uses, FirstUsage(mem, b), points.entries[b], definitions, phis)
    requires Resolved(uses, FirstUsage(mem, b) + 1 + |mem[b]|, points.exits[b], definitions, phis)
    ensures BoundaryAt(mem, versions, AccessMap(definitions, phis), points, b)
  {
    assert EventOk(mem, versions, uses, definitions, phis, b, 0);
    assert EventOk(mem, versions, uses, definitions, phis, b, |mem[b]|);
  }

  /** No lookup of a collected use fails. */
  lemma NoStoreMissing(mem: MemoryEvents, versions: Versions, uses: map<nat, Version>, definitions: map<nat, nat>,
      phis: map<nat, nat>, k: nat)
    requires EventsOk(mem, versions, uses, definitions, phis) && k < |Stores(mem, |mem|)|
    ensures !UseMissing(uses, Stores(mem, |mem|)[k].before, definitions, phis)
  {
    var b, i := StoreOrigin(mem, |mem|, k);
    assert EventOk(mem, versions, uses, definitions, phis, b, i);
  }

  lemma NoPointMissing(mem: MemoryEvents, versions: Versions, uses: map<nat, Version>, definitions: map<nat, nat>,
      phis: map<nat, nat>, k: nat)
    requires EventsOk(mem, versions, uses, definitions, phis) && k < |Points(mem, |mem|)|
    ensures !UseMissing(uses, Points(mem, |mem|)[k].before, definitions, phis)
  {
    var b, i := PointOrigin(mem, |mem|, k);
    assert EventOk(mem, versions, uses, definitions, phis, b, i);
  }

  lemma NoBoundaryMissing(mem: MemoryEvents, versions: Versions, uses: map<nat, Version>, definitions: map<nat, nat>,
      phis: map<nat, nat>, b: nat)
    requires EventsOk(mem, versions, uses, definitions, phis) && b < |mem|
    ensures !UseMissing(uses, FirstUsage(mem, b), definitions, phis)
    ensures !UseMissing(uses, FirstUsage(mem, b) + 1 + |mem[b]|, definitions, phis)
  {
    assert EventOk(mem, versions, uses, definitions, phis, b, 0);
    assert EventOk(mem, versions, uses, definitions, phis, b, |mem[b]|);
  }

  lemma PointsFromTable(c: SsaCfg, mem: MemoryEvents, placed: Places, versions: Versions, acc: Accesses,
      points: PointMap)
    requires CfgOk(c) && |mem| == |c.succs| && VersionTable(c, mem, placed, versions)
    requires forall b: nat, i: nat :: b < |mem| && i < |mem[b]| ==> PointAt(mem, versions, acc, points, b, i)
    requires forall b: nat :: b < |mem| ==> BoundaryAt(mem, versions, acc, points, b)
    ensures PointsOk(c, mem, placed, acc, points)
  {
    forall b: nat, i: nat | b < |mem| && i < |mem[b]| ensures PointOk(c, mem, placed, acc, points, b, i) {
      assert PointAt(mem, versions, acc, points, b, i);
    }
    forall b: nat | b < |mem| ensures BlockOk(c, mem, placed, acc, points, b) {
      assert BoundaryAt(mem, versions, acc, points, b);
    }
  }

  lemma NoInputMissing(c: SsaCfg, mem: MemoryEvents, placed: Places, phi: SB.Phi, definitions: map<nat, nat>,
      phis: map<nat, nat>)
    requires CfgOk(c) && |mem| == |c.succs| && phi.block < |mem| && phi.variable == MEMORY
    requires SB.InputsExact(c, Lower(mem), placed, phi)
    requires Complete(mem, placed, definitions, phis)
    ensures !InputMissing(phi.inputs, definitions, phis)
  {
    forall i | 0 <= i < |phi.inputs| ensures AccessFor(phi.inputs[i].1, definitions, phis).Some? {
      var u := c.preds[phi.block][i];
      VersionIn(c, mem, placed, u);
      VersionNamed(c, mem, placed, u, |mem[u]|);
    }
  }

  lemma PointDefinitionsListed(mem: MemoryEvents, definitions: map<nat, nat>, k: nat)
    requires DefinitionTable(Stores(mem, |mem|), definitions, |Stores(mem, |mem|)|)
    requires k < |Points(mem, |mem|)| && Points(mem, |mem|)[k].definition.Some?
    ensures Points(mem, |mem|)[k].definition.value in definitions
  {
    var b, i := PointOrigin(mem, |mem|, k);
    var j := StoreListed(mem, b, i);
    assert Stores(mem, |mem|)[j].definition in definitions;
  }

  /** The nodes of the graph from a finished SSA record. */
  method MakeNodes(mem: MemoryEvents, ssa: SB.SparseSsa, stores: seq<PendingStore>, definitions: map<nat, nat>,
      phis: map<nat, nat>,
                   ghost versions: Versions) returns (missing: bool, nodes: Nodes)
    requires EventsOk(mem, versions, ssa.uses, definitions, phis) && stores == Stores(mem, |mem|)
    requires forall k :: 0 <= k < |ssa.phis| ==> !InputMissing(ssa.phis[k].inputs, definitions, phis)
    ensures !missing && |nodes| == 1 + |stores| + |ssa.phis| && nodes[0] == LiveOnEntry
    ensures StoresTranslated(stores, nodes, ssa.uses, definitions, phis)
    ensures PhisTranslated(ssa.phis, nodes, |stores| + 1, definitions, phis)
  {
    var storeMissing, front := StoreNodes(stores, ssa.uses, definitions, phis);
    if storeMissing {
      ghost var k: nat :| k < |stores| && UseMissing(ssa.uses, stores[k].before, definitions, phis);
      NoStoreMissing(mem, versions, ssa.uses, definitions, phis, k);
      assert false;
      return true, [];
    }
    var phiMissing, all := PhiNodes(ssa.phis, front, definitions, phis);
    if phiMissing {
      assert false;
      return true, [];
    }
    assert forall k :: 0 <= k < |front| ==> all[k] == front[k];
    missing, nodes := false, all;
  }

  ghost predicate PointTable(mem: MemoryEvents, table: map<nat, PointAccess>, uses: map<nat, Version>,
      definitions: map<nat, nat>, phis: map<nat, nat>) {
    forall b: nat, i: nat :: b < |mem| && i < |mem[b]| ==> PointEntry(mem, table, uses, definitions, phis, b, i)
  }

  ghost predicate PointEntry(mem: MemoryEvents, table: map<nat, PointAccess>, uses: map<nat, Version>,
      definitions: map<nat, nat>, phis: map<nat, nat>,
                             b: nat, i: nat)
    requires b < |mem| && i < |mem[b]|
  {
    && mem[b][i].point in table
    && PointResolved(PendingPoint(mem[b][i].point, FirstUsage(mem, b) + 1 + i, mem[b][i].definition),
                     table[mem[b][i].point], uses, definitions, phis)
  }

  method MakeTable(mem: MemoryEvents, uses: map<nat, Version>, points: seq<PendingPoint>, definitions: map<nat, nat>,
      phis: map<nat, nat>,
                   ghost versions: Versions) returns (missing: bool, table: map<nat, PointAccess>)
    requires EventsOk(mem, versions, uses, definitions, phis)
    requires DefinitionTable(Stores(mem, |mem|), definitions, |Stores(mem, |mem|)|)
    requires points == Points(mem, |mem|) && PointsDistinct(points)
    ensures !missing && PointTable(mem, table, uses, definitions, phis)
  {
    forall k: nat | k < |points| && points[k].definition.Some? ensures points[k].definition.value in definitions {
      PointDefinitionsListed(mem, definitions, k);
    }
    missing, table := ResolvePoints(points, uses, definitions, phis);
    if missing {
      ghost var k: nat :| k < |points| && UseMissing(uses, points[k].before, definitions, phis);
      NoPointMissing(mem, versions, uses, definitions, phis, k);
      assert false;
      return;
    }
    forall b: nat, i: nat | b < |mem| && i < |mem[b]| ensures PointEntry(mem, table, uses, definitions, phis, b, i) {
      var k := PointListed(mem, |mem|, b, i);
      assert points[k].point in table;
    }
  }

  ghost predicate Boundaries(mem: MemoryEvents, entries: seq<nat>, exits: seq<nat>, uses: map<nat, Version>,
      definitions: map<nat, nat>, phis: map<nat, nat>) {
    && |entries| == |exits| == |mem|
    && (forall b :: 0 <= b < |mem| ==> Resolved(uses, FirstUsage(mem, b), entries[b], definitions, phis))
    && forall b :: 0 <= b < |mem| ==> Resolved(uses, FirstUsage(mem, b) + 1 + |mem[b]|, exits[b], definitions, phis)
  }

  /** The usages to resolve are those of the block boundaries, and each of them resolves. */
  ghost predicate BoundaryUsages(mem: MemoryEvents, entries: seq<nat>, exits: seq<nat>, uses: map<nat, Version>,
      definitions: map<nat, nat>, phis: map<nat, nat>) {
    && |entries| == |exits| == |mem|
    && (forall b :: 0 <= b < |mem| ==>
         entries[b] == FirstUsage(mem, b) && !UseMissing(uses, entries[b], definitions, phis))
    && forall b :: 0 <= b < |mem| ==>
         exits[b] == FirstUsage(mem, b) + 1 + |mem[b]| && !UseMissing(uses, exits[b], definitions, phis)
  }

  lemma BoundaryNumbers(mem: MemoryEvents, events: Events, entries: seq<nat>, exits: seq<nat>, b: nat)
    requires BlocksLowered(mem, |mem|, events, entries, exits) && b < |mem|
    ensures entries[b] == FirstUsage(mem, b) && exits[b] == FirstUsage(mem, b) + 1 + |mem[b]|
  {
    assert BlockLowered(mem, b, events[b], entries[b], exits[b]);
  }

  lemma BoundariesKnown(mem: MemoryEvents, versions: Versions, entries: seq<nat>, exits: seq<nat>,
                        uses: map<nat, Version>, definitions: map<nat, nat>, phis: map<nat, nat>)
    requires EventsOk(mem, versions, uses, definitions, phis) && |entries| == |exits| == |mem|
    requires forall b: nat :: b < |mem| ==>
               entries[b] == FirstUsage(mem, b) && exits[b] == FirstUsage(mem, b) + 1 + |mem[b]|
    ensures BoundaryUsages(mem, entries, exits, uses, definitions, phis)
  {
    forall b: nat | b < |mem|
      ensures !UseMissing(uses, FirstUsage(mem, b), definitions, phis)
      ensures !UseMissing(uses, FirstUsage(mem, b) + 1 + |mem[b]|, definitions, phis)
    {
      NoBoundaryMissing(mem, versions, uses, definitions, phis, b);
    }
  }

  method MakeBoundaries(mem: MemoryEvents, uses: map<nat, Version>, entries: seq<nat>, exits: seq<nat>,
                        definitions: map<nat, nat>, phis: map<nat, nat>)
    returns (missing: bool, entryAccesses: seq<nat>, exitAccesses: seq<nat>)
    requires BoundaryUsages(mem, entries, exits, uses, definitions, phis)
    ensures !missing && Boundaries(mem, entryAccesses, exitAccesses, uses, definitions, phis)
  {
    var m, n;
    m, entryAccesses := ResolveUsages(entries, uses, definitions, phis);
    n, exitAccesses := ResolveUsages(exits, uses, definitions, phis);
    missing := m || n;
  }

  lemma PointMapOk(mem: MemoryEvents, versions: Versions, uses: map<nat, Version>, definitions: map<nat, nat>,
      phis: map<nat, nat>, r: PointMap)
    requires EventsOk(mem, versions, uses, definitions, phis) && PointTable(mem, r.events, uses, definitions, phis)
    requires Boundaries(mem, r.entries, r.exits, uses, definitions, phis)
    ensures forall b: nat, i: nat :: b < |mem| && i < |mem[b]| ==>
              PointAt(mem, versions, AccessMap(definitions, phis), r, b, i)
    ensures forall b: nat :: b < |mem| ==> BoundaryAt(mem, versions, AccessMap(definitions, phis), r, b)
  {
    forall b: nat, i: nat | b < |mem| && i < |mem[b]|
      ensures PointAt(mem, versions, AccessMap(definitions, phis), r, b, i)
    {
      assert PointEntry(mem, r.events, uses, definitions, phis, b, i);
      PointIsOk(mem, versions, uses, definitions, phis, r, b, i);
    }
    forall b: nat | b < |mem| ensures BoundaryAt(mem, versions, AccessMap(definitions, phis), r, b) {
      BoundaryIsOk(mem, versions, uses, definitions, phis, r, b);
    }
  }

  /** The tables of a finished record are enough for every lookup. */
  lemma TablesSuffice(c: SsaCfg, mem: MemoryEvents, placed: Places, ssa: SB.SparseSsa, definitions: map<nat, nat>,
      phis: map<nat, nat>, versions: Versions)
    requires RecordHolds(c, mem, placed, ssa) && VersionTable(c, mem, placed, versions)
    requires DefinitionTable(Stores(mem, |mem|), definitions, |Stores(mem, |mem|)|)
    requires PhiTableOk(ssa.phis, phis, |Stores(mem, |mem|)| + 1, |ssa.phis|)
    ensures EventsOk(mem, versions, ssa.uses, definitions, phis)
    ensures forall k :: 0 <= k < |ssa.phis| ==> !InputMissing(ssa.phis[k].inputs, definitions, phis)
  {
    TablesComplete(mem, placed, ssa.phis, definitions, phis, |Stores(mem, |mem|)| + 1);
    AllEventsOk(c, mem, placed, ssa.uses, definitions, phis, versions);
    forall k: nat | k < |ssa.phis| ensures !InputMissing(ssa.phis[k].inputs, definitions, phis) {
      assert PhiHolds(c, mem, placed, ssa.phis[k]);
      NoInputMissing(c, mem, placed, ssa.phis[k], definitions, phis);
    }
  }

  /** MemorySSA construction; the identity and lookup errors past SSA itself cannot arise. */
  method Build(c: SsaCfg, mem: MemoryEvents) returns (result: MemoryResult, ghost placed: Places, ghost acc: Accesses)
    requires CfgOk(c)
    ensures result.MemoryOk? <==> |mem| == |c.succs| && PointsDistinct(Points(mem, |mem|)) && Distinct(Lower(mem))
    ensures result.MemoryOk? ==> IsMemorySsa(c, mem, placed, result.graph, result.points, acc)
    ensures result.MemoryErr? ==> match result.error
      case ModelShape => |mem| != |c.succs|
      case PointIdentity(_) => |mem| == |c.succs| && !PointsDistinct(Points(mem, |mem|))
      case Ssa(error) => |mem| == |c.succs| && error.DefinitionIdentity? && Repeated(Lower(mem), error.block, false)
      case _ => false
  {
    placed, acc := {}, map[];
    if |mem| != |c.succs| {
      return MemoryErr(MemoryError.ModelShape), placed, acc;
    }
    var fault, events, points, stores, entries, exits := LowerAll(mem);
    if fault.Some? {
      return MemoryErr(PointIdentity(fault.value)), placed, acc;
    }
    var built;
    built, placed := SB.Build(c, events);
    if built.SsaErr? {
      match built.error {
        case UseIdentity(b) => NoUseRepeated(mem, b);
        case _ =>
      }
      return MemoryErr(Ssa(built.error)), placed, acc;
    }
    var ssa := built.ssa;
    StoresAreDistinct(mem);
    var repeatedStore, definitions := NumberStores(stores);
    if repeatedStore {
      assert false;
      return MemoryErr(MemoryError.DefinitionIdentity), placed, acc;
    }
    RecordFacts(c, mem, placed, ssa);
    var repeatedPhi, phis := NumberPhis(ssa.phis, |stores| + 1);
    match repeatedPhi {
      case Some(block) =>
        assert false;
        return MemoryErr(PhiIdentity(block)), placed, acc;
      case None =>
    }
    ghost var versions := TableVersions(c, mem, placed);
    TablesSuffice(c, mem, placed, ssa, definitions, phis, versions);
    var m1, nodes := MakeNodes(mem, ssa, stores, definitions, phis, versions);
    var m2, table := MakeTable(mem, ssa.uses, points, definitions, phis, versions);
    forall b: nat | b < |mem|
      ensures entries[b] == FirstUsage(mem, b) && exits[b] == FirstUsage(mem, b) + 1 + |mem[b]|
    {
      BoundaryNumbers(mem, events, entries, exits, b);
    }
    BoundariesKnown(mem, versions, entries, exits, ssa.uses, definitions, phis);
    var m3, entryAccesses, exitAccesses := MakeBoundaries(mem, ssa.uses, entries, exits, definitions, phis);
    if m1 || m2 || m3 {
      assert false;
      return MemoryErr(MissingAccess), placed, acc;
    }
    acc := AccessMap(definitions, phis);
    var pointMap := PointMap(table, entryAccesses, exitAccesses);
    PointMapOk(mem, versions, ssa.uses, definitions, phis, pointMap);
    GraphOk(c, mem, placed, ssa, definitions, phis, nodes);
    PointsFromTable(c, mem, placed, versions, acc, pointMap);
    return MemoryOk(AccessGraph(nodes, |stores|, |ssa.phis|), pointMap), placed, acc;
  }
}
