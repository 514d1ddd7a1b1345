/** Building the access graph of MemorySSA from pruned SSA of one memory variable. */
module MemorySsa {
  import opened CfgErrors
  import opened DomTree
  import opened SsaSpec
  import opened SsaScan
  import opened ClobberSpec
  import opened MemoryGraph

  datatype PendingPoint = PendingPoint(point: nat, before: nat, definition: Option<nat>)

  datatype PendingStore = PendingStore(definition: nat, before: nat)

  datatype PointAccess = PointAccess(before: nat, after: nat)

  datatype PointMap = PointMap(events: map<nat, PointAccess>, entries: seq<nat>, exits: seq<nat>)

  datatype AccessGraph = AccessGraph(nodes: Nodes, definitionCount: nat, phiCount: nat)

  datatype MemoryError =
    | ModelShape
    | PointIdentity(block: nat)
    | Ssa(error: SsaError)
    | DefinitionIdentity
    | PhiIdentity(block: nat)
    | MissingAccess

  datatype MemoryResult = MemoryOk(graph: AccessGraph, points: PointMap) | MemoryErr(error: MemoryError)

  // ------------------------------------------------------------ what lowering collects

  function BlockPoints(es: seq<MemoryEvent>, first: nat): (r: seq<PendingPoint>)
    ensures |r| == |es|
    ensures forall i :: 0 <= i < |es| ==> r[i] == PendingPoint(es[i].point, first + 1 + i, es[i].definition)
  {
    seq(|es|, i requires 0 <= i < |es| => PendingPoint(es[i].point, first + 1 + i, es[i].definition))
  }

  function BlockStores(es: seq<MemoryEvent>, first: nat): seq<PendingStore> {
    if es == [] then []
    else
      BlockStores(es[..|es| - 1], first) +
      match es[|es| - 1].definition
      case None => []
      case Some(d) => [PendingStore(d, first + |es|)]
  }

  function Points(mem: MemoryEvents, n: nat): seq<PendingPoint>
    requires n <= |mem|
  {
    if n == 0 then [] else Points(mem, n - 1) + BlockPoints(mem[n - 1], FirstUsage(mem, n - 1))
  }

  function Stores(mem: MemoryEvents, n: nat): seq<PendingStore>
    requires n <= |mem|
  {
    if n == 0 then [] else Stores(mem, n - 1) + BlockStores(mem[n - 1], FirstUsage(mem, n - 1))
  }

  ghost predicate PointsDistinct(points: seq<PendingPoint>) {
    forall i, j :: 0 <= i < j < |points| ==> points[i].point != points[j].point
  }

  ghost predicate StoresDistinct(stores: seq<PendingStore>) {
    forall i, j :: 0 <= i < j < |stores| ==> stores[i].definition != stores[j].definition
  }

  ghost function PointIds(points: seq<PendingPoint>): set<nat> {
    set k | 0 <= k < |points| :: points[k].point
  }

  method LowerOne(es: seq<MemoryEvent>, first: nat, ids: set<nat>, ghost points0: seq<PendingPoint>)
    returns (fault: bool, events: seq<Event>, points: seq<PendingPoint>, stores: seq<PendingStore>, ids': set<nat>)
    requires PointsDistinct(points0) && ids == PointIds(points0)
    ensures fault <==> !PointsDistinct(points0 + BlockPoints(es, first))
    ensures !fault ==>
              events == LowerBlock(es, first) && points == BlockPoints(es, first) && stores == BlockStores(es, first)
    ensures !fault ==> ids' == PointIds(points0 + points)
  {
    fault, points, stores, ids' := false, [], [], ids;
    events := [Use(MEMORY, first)];
    assert points0 + points == points0;
    for i := 0 to |es|
      invariant events == Lowered(es[..i], first) && stores == BlockStores(es[..i], first)
      invariant points == BlockPoints(es[..i], first)
      invariant PointsDistinct(points0 + points) && ids' == PointIds(points0 + points)
    {
      var event := es[i];
      assert es[..i + 1][..i] == es[..i];
      var next := PendingPoint(event.point, first + 1 + i, event.definition);
      if event.point in ids' {
        ghost var k :| 0 <= k < |points0 + points| && (points0 + points)[k].point == event.point;
        ghost var whole := points0 + BlockPoints(es, first);
        assert whole[k].point == whole[|points0| + i].point;
        fault := true;
        return;
      }
      AddPoint(points0 + points, next);
      assert points0 + (points + [next]) == points0 + points + [next];
      ids' := ids' + {event.point};
      events := events + [Use(MEMORY, first + 1 + i)];
      points := points + [next];
      if event.definition.Some? {
        events := events + [Def(MEMORY, event.definition.value)];
        stores := stores + [PendingStore(event.definition.value, first + 1 + i)];
      }
    }
    assert es[..|es|] == es;
    events := events + [Use(MEMORY, first + |es| + 1)];
  }

  lemma AddPoint(points: seq<PendingPoint>, next: PendingPoint)
    requires PointsDistinct(points) && next.point !in PointIds(points)
    ensures PointsDistinct(points + [next]) && PointIds(points + [next]) == PointIds(points) + {next.point}
  {
    var after := points + [next];
    forall x ensures x in PointIds(after) <==> x in PointIds(points) + {next.point} {
      if x in PointIds(points) {
        var k :| 0 <= k < |points| && points[k].point == x;
        assert after[k].point == x;
      } else if x == next.point {
        assert after[|points|].point == x;
      }
    }
    forall i, j | 0 <= i < j < |after| ensures after[i].point != after[j].point {
      if j == |points| {
        assert points[i].point in PointIds(points);
      }
    }
  }

  ghost predicate BlocksLowered(mem: MemoryEvents, n: nat, events: Events, entries: seq<nat>, exits: seq<nat>) {
    && n <= |mem| && |events| == |entries| == |exits| == n
    && forall a :: 0 <= a < n ==> BlockLowered(mem, a, events[a], entries[a], exits[a])
  }

  ghost predicate BlockLowered(mem: MemoryEvents, a: nat, events: seq<Event>, entry: nat, exit: nat)
    requires a < |mem|
  {
    && events == LowerBlock(mem[a], FirstUsage(mem, a))
    && entry == FirstUsage(mem, a) && exit == FirstUsage(mem, a) + |mem[a]| + 1
  }

  method LowerAll(mem: MemoryEvents)
    returns (fault: Option<nat>, events: Events, points: seq<PendingPoint>, stores: seq<PendingStore>,
      entries: seq<nat>, exits: seq<nat>)
    ensures fault.None? <==> PointsDistinct(Points(mem, |mem|))
    ensures fault.None? ==> events == Lower(mem) && points == Points(mem, |mem|) && stores == Stores(mem, |mem|)
    ensures fault.None? ==> BlocksLowered(mem, |mem|, events, entries, exits)
  {
    fault, events, points, stores, entries, exits := None, [], [], [], [], [];
    var ids: set<nat> := {};
    var nextUsage := 0;
    for b := 0 to |mem|
      invariant nextUsage == FirstUsage(mem, b) && BlocksLowered(mem, b, events, entries, exits)
      invariant points == Points(mem, b) && stores == Stores(mem, b)
      invariant PointsDistinct(points) && ids == PointIds(points)
    {
      var repeated, blockEvents, blockPoints, blockStores, ids' := LowerOne(mem[b], nextUsage, ids, points);
      if repeated {
        PrefixPoints(mem, b + 1, |mem|);
        fault := Some(b);
        return;
      }
      events, entries, exits := events + [blockEvents], entries + [nextUsage], exits + [nextUsage + |mem[b]| + 1];
      points, stores, ids := points + blockPoints, stores + blockStores, ids';
      nextUsage := nextUsage + |mem[b]| + 2;
    }
    LoweredAll(mem, events, entries, exits);
  }

  lemma LoweredAll(mem: MemoryEvents, events: Events, entries: seq<nat>, exits: seq<nat>)
    requires BlocksLowered(mem, |mem|, events, entries, exits)
    ensures events == Lower(mem)
  {
    forall a | 0 <= a < |mem| ensures events[a] == Lower(mem)[a] {
      assert BlockLowered(mem, a, events[a], entries[a], exits[a]);
    }
  }

  lemma {:induction false} PrefixPoints(mem: MemoryEvents, m: nat, n: nat)
    requires m <= n <= |mem| && !PointsDistinct(Points(mem, m))
    ensures !PointsDistinct(Points(mem, n))
    decreases n
  {
    if m < n {
      PrefixPoints(mem, m, n - 1);
      var p := Points(mem, n - 1);
      var i, j :| 0 <= i < j < |p| && p[i].point == p[j].point;
      var q := Points(mem, n);
      assert q[i] == p[i] && q[j] == p[j];
    }
  }

  // ------------------------------------------------------------ lowered identities

  lemma {:induction false} LoweredEvent(es: seq<MemoryEvent>, first: nat, k: nat)
    requires k < |Lowered(es, first)|
    ensures var e := Lowered(es, first)[k];
            e.variable == MEMORY && (e.Use? ==> first <= e.usage <= first + |es|)
  {
    if es != [] {
      var low := Lowered(es[..|es| - 1], first);
      if k < |low| {
        LoweredEvent(es[..|es| - 1], first, k);
        assert Lowered(es, first)[k] == low[k];
      }
    }
  }

  lemma {:induction false} LoweredUses(es: seq<MemoryEvent>, first: nat, i: nat, j: nat)
    requires i < j < |Lowered(es, first)| && Lowered(es, first)[i].Use? && Lowered(es, first)[j].Use?
    ensures Lowered(es, first)[i].usage < Lowered(es, first)[j].usage
  {
    var low := Lowered(es[..|es| - 1], first);
    if j < |low| {
      LoweredUses(es[..|es| - 1], first, i, j);
      assert Lowered(es, first)[i] == low[i] && Lowered(es, first)[j] == low[j];
    } else if i < |low| {
      LoweredEvent(es[..|es| - 1], first, i);
      assert Lowered(es, first)[i] == low[i];
    }
  }

  lemma {:induction false} UsageGrows(mem: MemoryEvents, a: nat, b: nat)
    requires a < b <= |mem|
    ensures FirstUsage(mem, a) + |mem[a]| + 1 < FirstUsage(mem, b)
  {
    if a < b - 1 {
      UsageGrows(mem, a, b - 1);
    }
  }

  lemma LowerEvent(mem: MemoryEvents, b: nat, e: Event)
    requires b < |mem| && e in Lower(mem)[b]
    ensures e.variable == MEMORY && (e.Use? ==> FirstUsage(mem, b) <= e.usage <= FirstUsage(mem, b) + |mem[b]| + 1)
  {
    var k :| 0 <= k < |Lower(mem)[b]| && Lower(mem)[b][k] == e;
    if k < |Lowered(mem[b], FirstUsage(mem, b))| {
      LoweredEvent(mem[b], FirstUsage(mem, b), k);
    }
  }

  /** The uses handed to SSA are all different. */
  lemma NoUseRepeated(mem: MemoryEvents, b: nat)
    ensures !Repeated(Lower(mem), b, true)
  {
    var events := Lower(mem);
    if b < |events| {
      var low := Lowered(mem[b], FirstUsage(mem, b));
      forall i, j | 0 <= i < j < |events[b]| && SameIdentity(events[b][i], events[b][j]) ensures !events[b][i].Use? {
        if events[b][i].Use? {
          LoweredEvent(mem[b], FirstUsage(mem, b), i);
          if j < |low| {
            LoweredUses(mem[b], FirstUsage(mem, b), i, j);
          }
        }
      }
      forall a, e, f | 0 <= a < b && e in events[a] && f in events[b] && SameIdentity(e, f) ensures !e.Use? {
        LowerEvent(mem, a, e);
        LowerEvent(mem, b, f);
        UsageGrows(mem, a, b);
      }
    }
  }

  lemma {:induction false} StoreInBlock(es: seq<MemoryEvent>, first: nat, k: nat) returns (i: nat)
    requires k < |BlockStores(es, first)|
    ensures i < |Lowered(es, first)| && Lowered(es, first)[i] == Def(MEMORY, BlockStores(es, first)[k].definition)
    ensures forall l: nat :: l < k ==>
              exists j: nat :: j < i && Lowered(es, first)[j] == Def(MEMORY, BlockStores(es, first)[l].definition)
  {
    var low, stores := Lowered(es[..|es| - 1], first), BlockStores(es[..|es| - 1], first);
    if k < |stores| {
      i := StoreInBlock(es[..|es| - 1], first, k);
      forall l: nat | l < k
        ensures exists j: nat :: j < i && Lowered(es, first)[j] == Def(MEMORY, BlockStores(es, first)[l].definition)
      {
        var j: nat :| j < i && low[j] == Def(MEMORY, stores[l].definition);
        assert Lowered(es, first)[j] == low[j];
      }
    } else {
      i := |low| + 1;
      forall l: nat | l < k
        ensures exists j: nat :: j < i && Lowered(es, first)[j] == Def(MEMORY, BlockStores(es, first)[l].definition)
      {
        var j := StoreInBlock(es[..|es| - 1], first, l);
        assert Lowered(es, first)[j] == low[j];
      }
    }
  }

  lemma {:induction false} StoreInEvents(mem: MemoryEvents, n: nat, k: nat) returns (b: nat)
    requires n <= |mem| && k < |Stores(mem, n)|
    ensures b < n && Def(MEMORY, Stores(mem, n)[k].definition) in Lower(mem)[b]
    decreases n
  {
    var before := Stores(mem, n - 1);
    if k < |before| {
      b := StoreInEvents(mem, n - 1, k);
    } else {
      b := n - 1;
      var i := StoreInBlock(mem[b], FirstUsage(mem, b), k - |before|);
      assert Lower(mem)[b][i] == Def(MEMORY, Stores(mem, n)[k].definition);
    }
  }

  lemma CrossDistinct(mem: MemoryEvents, b: nat, i: nat, j: nat)
    requires b < |mem| && Distinct(Lower(mem)) && i < |Stores(mem, b)| && j < |BlockStores(mem[b], FirstUsage(mem, b))|
    ensures Stores(mem, b)[i].definition != BlockStores(mem[b], FirstUsage(mem, b))[j].definition
  {
    var a := StoreInEvents(mem, b, i);
    var x := StoreInBlock(mem[b], FirstUsage(mem, b), j);
    var e, f := Def(MEMORY, Stores(mem, b)[i].definition), Lower(mem)[b][x];
    assert e in Lower(mem)[a] && f in Lower(mem)[b];
    assert !SameIdentity(e, f);
  }

  lemma BlockDistinct(mem: MemoryEvents, b: nat, i: nat, j: nat)
    requires b < |mem| && Distinct(Lower(mem)) && i < j < |BlockStores(mem[b], FirstUsage(mem, b))|
    ensures BlockStores(mem[b], FirstUsage(mem, b))[i].definition != BlockStores(mem[b],
              FirstUsage(mem, b))[j].definition
  {
    var first := FirstUsage(mem, b);
    var x := StoreInBlock(mem[b], first, j);
    var y: nat :| y < x && Lowered(mem[b], first)[y] == Def(MEMORY, BlockStores(mem[b], first)[i].definition);
    assert Lower(mem)[b][y] == Lowered(mem[b], first)[y] && Lower(mem)[b][x] == Lowered(mem[b], first)[x];
    assert DistinctIn(Lower(mem)[b]);
  }

  /** The stores of block `b` differ from each other and from those of earlier blocks. */
  ghost predicate BlockAdds(mem: MemoryEvents, b: nat)
    requires b < |mem|
  {
    var before, block := Stores(mem, b), BlockStores(mem[b], FirstUsage(mem, b));
    && StoresDistinct(block)
    && forall i, j :: 0 <= i < |before| && 0 <= j < |block| ==> before[i].definition != block[j].definition
  }

  lemma BlockAddsDistinct(mem: MemoryEvents, b: nat)
    requires b < |mem| && Distinct(Lower(mem))
    ensures BlockAdds(mem, b)
  {
    var before, block := Stores(mem, b), BlockStores(mem[b], FirstUsage(mem, b));
    forall i: nat, j: nat | i < |before| && j < |block| ensures before[i].definition != block[j].definition {
      CrossDistinct(mem, b, i, j);
    }
    forall i: nat, j: nat | i < j < |block| ensures block[i].definition != block[j].definition {
      BlockDistinct(mem, b, i, j);
    }
  }

  lemma {:induction false} JoinBlocks(mem: MemoryEvents, n: nat)
    requires n <= |mem| && forall b: nat :: b < |mem| ==> BlockAdds(mem, b)
    ensures StoresDistinct(Stores(mem, n))
    decreases n
  {
    if n > 0 {
      JoinBlocks(mem, n - 1);
      assert BlockAdds(mem, n - 1);
      JoinDistinct(Stores(mem, n - 1), BlockStores(mem[n - 1], FirstUsage(mem, n - 1)));
    }
  }

  /** If SSA accepts the events, no definition is stored twice. */
  lemma StoresAreDistinct(mem: MemoryEvents)
    requires Distinct(Lower(mem))
    ensures StoresDistinct(Stores(mem, |mem|))
  {
    forall b: nat | b < |mem| ensures BlockAdds(mem, b) {
      BlockAddsDistinct(mem, b);
    }
    JoinBlocks(mem, |mem|);
  }

  lemma JoinDistinct(a: seq<PendingStore>, b: seq<PendingStore>)
    requires StoresDistinct(a) && StoresDistinct(b)
    requires forall i, j :: 0 <= i < |a| && 0 <= j < |b| ==> a[i].definition != b[j].definition
    ensures StoresDistinct(a + b)
  {
  }
}
