/** What dependence tracking means: conflicting events, and edges whose closure orders them. */
module DependenceSpec {
  import opened CfgErrors
  import opened Memory
  import opened RangeHistory

  /** One ordered event: its reads happen before its writes. */
  datatype MemoryEvent = MemoryEvent(instruction: nat, loads: seq<MemoryEffect>, stores: seq<MemoryEffect>)

  type Log = seq<MemoryEvent>
  type Edges = set<(nat, nat)>

  ghost predicate ReadsByte(e: MemoryEvent, o: nat, x: int) {
    exists i :: 0 <= i < |e.loads| && Touches(e.loads[i], o, x)
  }

  ghost predicate WritesByte(e: MemoryEvent, o: nat, x: int) {
    exists i :: 0 <= i < |e.stores| && Touches(e.stores[i], o, x)
  }

  /** The events share a byte that one of them writes. */
  ghost predicate Conflict(e: MemoryEvent, f: MemoryEvent) {
    exists o: nat, x: int :: ConflictAt(e, f, o, x)
  }

  ghost predicate ConflictAt(e: MemoryEvent, f: MemoryEvent, o: nat, x: int) {
    (WritesByte(e, o, x) && (WritesByte(f, o, x) || ReadsByte(f, o, x))) || (ReadsByte(e, o, x) && WritesByte(f, o, x))
  }

  // ------------------------------------------------------------ closure

  /** A chain of edges, possibly empty. */
  ghost predicate IsChain(edges: Edges, p: seq<nat>, a: nat, b: nat) {
    && p != [] && p[0] == a && p[|p| - 1] == b
    && forall i, j :: 0 <= i && j == i + 1 && j < |p| ==> (p[i], p[j]) in edges
  }

  ghost predicate Ordered(edges: Edges, a: nat, b: nat) {
    exists p :: IsChain(edges, p, a, b)
  }

  lemma OrderedSelf(edges: Edges, a: nat)
    ensures Ordered(edges, a, a)
  {
    assert IsChain(edges, [a], a, a);
  }

  lemma OrderedThen(edges: Edges, a: nat, b: nat, c: nat)
    requires Ordered(edges, a, b) && (b == c || (b, c) in edges)
    ensures Ordered(edges, a, c)
  {
    if b != c {
      var p :| IsChain(edges, p, a, b);
      assert IsChain(edges, p + [c], a, c);
    }
  }

  lemma OrderedMore(edges: Edges, more: Edges, a: nat, b: nat)
    requires Ordered(edges, a, b) && edges <= more
    ensures Ordered(more, a, b)
  {
    var p :| IsChain(edges, p, a, b);
    assert IsChain(more, p, a, b);
  }

  lemma {:induction false} OrderedTrans(edges: Edges, a: nat, b: nat, c: nat)
    requires Ordered(edges, a, b) && Ordered(edges, b, c)
    ensures Ordered(edges, a, c)
  {
    var p :| IsChain(edges, p, a, b);
    var q :| IsChain(edges, q, b, c);
    assert IsChain(edges, p + q[1..], a, c);
  }

  // ------------------------------------------------------------ the tracker's state

  datatype ObjectHistory = ObjectHistory(segments: Segments, unknownWriter: Option<nat>, unknownReaders: seq<nat>)

  datatype TrackerState = TrackerState(objects: map<nat, ObjectHistory>, globalWriter: Option<nat>,
    globalReaders: seq<nat>)

  const NO_OBJECT := ObjectHistory([], None, [])

  function Object(st: TrackerState, o: nat): ObjectHistory {
    if o in st.objects then st.objects[o] else NO_OBJECT
  }

  ghost predicate StateOk(st: TrackerState) {
    forall o :: o in st.objects ==> Partition(st.objects[o].segments)
  }

  /** `w` is remembered as a writer that later accesses of the byte must follow. */
  ghost predicate Writer(st: TrackerState, o: nat, x: int, w: nat) {
    || st.globalWriter == Some(w)
    || Object(st, o).unknownWriter == Some(w)
    || WriterAt(Object(st, o).segments, x, w)
  }

  /** `w` is remembered as a reader that later writes of the byte must follow. */
  ghost predicate Reader(st: TrackerState, o: nat, x: int, w: nat) {
    || w in st.globalReaders
    || w in Object(st, o).unknownReaders
    || ReaderAt(Object(st, o).segments, x, w)
  }

  ghost predicate WriterTouched(st: TrackerState, e: MemoryEffect, w: nat) {
    exists o: nat, x: int :: Touches(e, o, x) && Writer(st, o, x, w)
  }

  ghost predicate ReaderTouched(st: TrackerState, e: MemoryEffect, w: nat) {
    exists o: nat, x: int :: Touches(e, o, x) && Reader(st, o, x, w)
  }

  /** A read adds the instruction as a reader of every byte it touches, and nothing else. */
  ghost predicate AfterRead(st: TrackerState, t: TrackerState, e: MemoryEffect, instruction: nat) {
    && (forall o: nat, x: int, w: nat :: Writer(t, o, x, w) <==> Writer(st, o, x, w))
    && forall o: nat, x: int, w: nat :: Reader(t, o, x, w) <==>
         Reader(st, o, x, w) || (w == instruction && Touches(e, o, x))
  }

  /** A write becomes a writer of every byte it touches; what it makes redundant there may be forgotten. */
  ghost predicate AfterWrite(st: TrackerState, t: TrackerState, e: MemoryEffect, instruction: nat) {
    && (forall o: nat, x: int :: Touches(e, o, x) ==> Writer(t, o, x, instruction))
    && (forall o: nat, x: int, w: nat :: Writer(t, o, x, w) ==>
         Writer(st, o, x, w) || (w == instruction && Touches(e, o, x)))
    && (forall o: nat, x: int, w: nat :: Reader(t, o, x, w) ==> Reader(st, o, x, w))
    && (forall o: nat, x: int, w: nat :: !Touches(e, o, x) && Writer(st, o, x, w) ==> Writer(t, o, x, w))
    && forall o: nat, x: int, w: nat :: !Touches(e, o, x) && Reader(st, o, x, w) ==> Reader(t, o, x, w)
  }

  // ------------------------------------------------------------ the invariant of a whole run

  /** The edge joins two conflicting events, the earlier one first. */
  ghost predicate SoundEdge(log: Log, edge: (nat, nat)) {
    exists p, q :: 0 <= p < q < |log| && log[p].instruction == edge.0 && log[q].instruction == edge.1
         && Conflict(log[p], log[q])
  }

  ghost predicate EdgesSound(log: Log, edges: Edges) {
    forall edge: (nat, nat) :: edge in edges ==> SoundEdge(log, edge)
  }

  ghost predicate WroteEarlier(log: Log, w: nat, o: nat, x: int) {
    exists p :: 0 <= p < |log| && log[p].instruction == w && WritesByte(log[p], o, x)
  }

  ghost predicate ReadEarlier(log: Log, w: nat, o: nat, x: int) {
    exists p :: 0 <= p < |log| && log[p].instruction == w && ReadsByte(log[p], o, x)
  }

  /** Whatever is remembered about a byte really touched it. */
  ghost predicate MemoryTrue(log: Log, st: TrackerState) {
    && (forall o: nat, x: int, w: nat :: Writer(st, o, x, w) ==> WroteEarlier(log, w, o, x))
    && forall o: nat, x: int, w: nat :: Reader(st, o, x, w) ==> ReadEarlier(log, w, o, x)
  }

  /** Some remembered writer of the byte comes after `j` or is `j`. */
  ghost predicate Covered(st: TrackerState, edges: Edges, j: nat, o: nat, x: int) {
    exists w: nat :: Writer(st, o, x, w) && Ordered(edges, j, w)
  }

  ghost predicate WritesCovered(log: Log, st: TrackerState, edges: Edges) {
    forall p: nat, o: nat, x: int :: p < |log| && WritesByte(log[p], o, x) ==>
         Covered(st, edges, log[p].instruction, o, x)
  }

  ghost predicate ReadsCovered(log: Log, st: TrackerState, edges: Edges) {
    forall p: nat, o: nat, x: int :: p < |log| && ReadsByte(log[p], o, x) ==>
      Reader(st, o, x, log[p].instruction) || Covered(st, edges, log[p].instruction, o, x)
  }

  /** Conflicting events are ordered by a chain of edges. */
  ghost predicate ConflictsOrdered(log: Log, edges: Edges) {
    forall p: nat, q: nat :: p < q < |log| && Conflict(log[p], log[q]) ==>
         Ordered(edges, log[p].instruction, log[q].instruction)
  }

  ghost predicate Inv(log: Log, st: TrackerState, edges: Edges) {
    && StateOk(st) && EdgesSound(log, edges) && MemoryTrue(log, st)
    && WritesCovered(log, st, edges) && ReadsCovered(log, st, edges) && ConflictsOrdered(log, edges)
  }

  // ------------------------------------------------------------ one more effect of the last event

  /** `next` gives the last event one more effect. */
  ghost predicate MoreReads(log: Log, next: Log, e: MemoryEffect) {
    && log != [] && |next| == |log| && next[..|log| - 1] == log[..|log| - 1]
    && next[|log| - 1] == log[|log| - 1].(loads := log[|log| - 1].loads + [e])
  }

  ghost predicate MoreWrites(log: Log, next: Log, e: MemoryEffect) {
    && log != [] && |next| == |log| && next[..|log| - 1] == log[..|log| - 1]
    && next[|log| - 1] == log[|log| - 1].(stores := log[|log| - 1].stores + [e])
  }

  ghost predicate MoreEffects(log: Log, next: Log) {
    && |next| == |log|
    && forall p :: 0 <= p < |log| ==> next[p].instruction == log[p].instruction && Includes(next[p], log[p])
  }

  ghost predicate Includes(f: MemoryEvent, e: MemoryEvent) {
    && (forall o: nat, x: int :: ReadsByte(e, o, x) ==> ReadsByte(f, o, x))
    && forall o: nat, x: int :: WritesByte(e, o, x) ==> WritesByte(f, o, x)
  }

  lemma ReadAdds(e: MemoryEvent, effect: MemoryEffect)
    ensures forall o: nat, x: int :: ReadsByte(e.(loads := e.loads + [effect]), o, x) <==>
              ReadsByte(e, o, x) || Touches(effect, o, x)
    ensures forall o: nat, x: int :: WritesByte(e.(loads := e.loads + [effect]), o, x) <==> WritesByte(e, o, x)
  {
    var f := e.(loads := e.loads + [effect]);
    forall o: nat, x: int ensures ReadsByte(f, o, x) <==> ReadsByte(e, o, x) || Touches(effect, o, x) {
      if ReadsByte(e, o, x) {
        var i :| 0 <= i < |e.loads| && Touches(e.loads[i], o, x);
        assert f.loads[i] == e.loads[i];
      }
      assert f.loads[|e.loads|] == effect;
    }
  }

  lemma WriteAdds(e: MemoryEvent, effect: MemoryEffect)
    ensures forall o: nat, x: int :: WritesByte(e.(stores := e.stores + [effect]), o, x) <==>
              WritesByte(e, o, x) || Touches(effect, o, x)
    ensures forall o: nat, x: int :: ReadsByte(e.(stores := e.stores + [effect]), o, x) <==> ReadsByte(e, o, x)
  {
    var f := e.(stores := e.stores + [effect]);
    forall o: nat, x: int ensures WritesByte(f, o, x) <==> WritesByte(e, o, x) || Touches(effect, o, x) {
      if WritesByte(e, o, x) {
        var i :| 0 <= i < |e.stores| && Touches(e.stores[i], o, x);
        assert f.stores[i] == e.stores[i];
      }
      assert f.stores[|e.stores|] == effect;
    }
  }

  lemma ConflictGrows(e: MemoryEvent, f: MemoryEvent, e': MemoryEvent, f': MemoryEvent)
    requires Conflict(e, f) && Includes(e', e) && Includes(f', f)
    ensures Conflict(e', f')
  {
    var o: nat, x: int :| ConflictAt(e, f, o, x);
    assert ConflictAt(e', f', o, x);
  }

  lemma SoundKept(log: Log, next: Log, edges: Edges)
    requires MoreEffects(log, next) && EdgesSound(log, edges)
    ensures EdgesSound(next, edges)
  {
    forall edge: (nat, nat) | edge in edges ensures SoundEdge(next, edge) {
      assert SoundEdge(log, edge);
      var p, q :| 0 <= p < q < |log| && log[p].instruction == edge.0 && log[q].instruction == edge.1
        && Conflict(log[p], log[q]);
      ConflictGrows(log[p], log[q], next[p], next[q]);
    }
  }

  // ------------------------------------------------------------ the effect of a read

  /** The new edges: from every other instruction `from` names to the last one. */
  ghost predicate EdgesAdded(edges: Edges, more: Edges, from: set<nat>, instruction: nat) {
    && edges <= more
    && (forall w: nat :: w in from && w != instruction ==> (w, instruction) in more)
    && forall edge: (nat, nat) :: edge in more ==>
         edge in edges || (edge.1 == instruction && edge.0 != instruction && edge.0 in from)
  }

  ghost predicate FromWriters(st: TrackerState, e: MemoryEffect, from: set<nat>) {
    forall w: nat :: w in from <==> WriterTouched(st, e, w)
  }

  ghost predicate FromAll(st: TrackerState, e: MemoryEffect, from: set<nat>) {
    forall w: nat :: w in from <==> WriterTouched(st, e, w) || ReaderTouched(st, e, w)
  }

  ghost predicate SameWrites(f: MemoryEvent, e: MemoryEvent) {
    forall o: nat, x: int :: WritesByte(f, o, x) <==> WritesByte(e, o, x)
  }

  ghost predicate SameReads(f: MemoryEvent, e: MemoryEvent) {
    forall o: nat, x: int :: ReadsByte(f, o, x) <==> ReadsByte(e, o, x)
  }

  lemma GrowReads(log: Log, next: Log, e: MemoryEffect)
    requires MoreReads(log, next, e)
    ensures MoreEffects(log, next)
    ensures forall p :: 0 <= p < |log| - 1 ==> next[p] == log[p]
    ensures forall o: nat, x: int :: ReadsByte(next[|log| - 1], o, x) <==>
              ReadsByte(log[|log| - 1], o, x) || Touches(e, o, x)
    ensures SameWrites(next[|log| - 1], log[|log| - 1])
  {
    ReadAdds(log[|log| - 1], e);
    forall p | 0 <= p < |log| - 1 ensures next[p] == log[p] {
      assert next[p] == next[..|log| - 1][p];
    }
  }

  lemma GrowWrites(log: Log, next: Log, e: MemoryEffect)
    requires MoreWrites(log, next, e)
    ensures MoreEffects(log, next)
    ensures forall p :: 0 <= p < |log| - 1 ==> next[p] == log[p]
    ensures forall o: nat, x: int :: WritesByte(next[|log| - 1], o, x) <==>
              WritesByte(log[|log| - 1], o, x) || Touches(e, o, x)
    ensures SameReads(next[|log| - 1], log[|log| - 1])
  {
    WriteAdds(log[|log| - 1], e);
    forall p | 0 <= p < |log| - 1 ensures next[p] == log[p] {
      assert next[p] == next[..|log| - 1][p];
    }
  }

  lemma OldEdgeSound(log: Log, next: Log, edges: Edges, edge: (nat, nat))
    requires MoreEffects(log, next) && EdgesSound(log, edges) && edge in edges
    ensures SoundEdge(next, edge)
  {
    SoundKept(log, next, edges);
  }

  /** A remembered instruction that is not the last event belongs to an earlier one. */
  lemma EarlierWriter(log: Log, st: TrackerState, w: nat, o: nat, x: int) returns (p: nat)
    requires log != [] && MemoryTrue(log, st) && Writer(st, o, x, w) && w != log[|log| - 1].instruction
    ensures p < |log| - 1 && log[p].instruction == w && WritesByte(log[p], o, x)
  {
    assert WroteEarlier(log, w, o, x);
    p :| p < |log| && log[p].instruction == w && WritesByte(log[p], o, x);
  }

  lemma EarlierReader(log: Log, st: TrackerState, w: nat, o: nat, x: int) returns (p: nat)
    requires log != [] && MemoryTrue(log, st) && Reader(st, o, x, w) && w != log[|log| - 1].instruction
    ensures p < |log| - 1 && log[p].instruction == w && ReadsByte(log[p], o, x)
  {
    assert ReadEarlier(log, w, o, x);
    p :| p < |log| && log[p].instruction == w && ReadsByte(log[p], o, x);
  }

  lemma ReadEdgesSound(log: Log, next: Log, st: TrackerState, edges: Edges, more: Edges, from: set<nat>,
      e: MemoryEffect)
    requires MoreReads(log, next, e) && EdgesSound(log, edges) && MemoryTrue(log, st)
    requires FromWriters(st, e, from) && EdgesAdded(edges, more, from, log[|log| - 1].instruction)
    ensures EdgesSound(next, more)
  {
    GrowReads(log, next, e);
    var last := |log| - 1;
    forall edge: (nat, nat) | edge in more ensures SoundEdge(next, edge) {
      if edge in edges {
        OldEdgeSound(log, next, edges, edge);
      } else {
        assert WriterTouched(st, e, edge.0);
        var o: nat, x: int :| Touches(e, o, x) && Writer(st, o, x, edge.0);
        var p := EarlierWriter(log, st, edge.0, o, x);
        assert ConflictAt(next[p], next[last], o, x);
      }
    }
  }

  lemma ReadMemoryTrue(log: Log, next: Log, st: TrackerState, t: TrackerState, e: MemoryEffect)
    requires MoreReads(log, next, e) && MemoryTrue(log, st) && AfterRead(st, t, e, log[|log| - 1].instruction)
    ensures MemoryTrue(next, t)
  {
    GrowReads(log, next, e);
    var last := |log| - 1;
    forall o: nat, x: int, w: nat | Writer(t, o, x, w) ensures WroteEarlier(next, w, o, x) {
      assert WroteEarlier(log, w, o, x);
      var p :| 0 <= p < |log| && log[p].instruction == w && WritesByte(log[p], o, x);
      assert WritesByte(next[p], o, x);
    }
    forall o: nat, x: int, w: nat | Reader(t, o, x, w) ensures ReadEarlier(next, w, o, x) {
      if Reader(st, o, x, w) {
        assert ReadEarlier(log, w, o, x);
        var p :| 0 <= p < |log| && log[p].instruction == w && ReadsByte(log[p], o, x);
        assert ReadsByte(next[p], o, x);
      } else {
        assert ReadsByte(next[last], o, x);
      }
    }
  }

  lemma CoveredKept(st: TrackerState, t: TrackerState, edges: Edges, more: Edges, j: nat, o: nat, x: int)
    requires Covered(st, edges, j, o, x) && edges <= more
    requires forall w: nat :: Writer(st, o, x, w) ==> Writer(t, o, x, w)
    ensures Covered(t, more, j, o, x)
  {
    var w: nat :| Writer(st, o, x, w) && Ordered(edges, j, w);
    OrderedMore(edges, more, j, w);
  }

  lemma ReadCovered(log: Log, next: Log, st: TrackerState, t: TrackerState, edges: Edges, more: Edges, e: MemoryEffect)
    requires MoreReads(log, next, e) && AfterRead(st, t, e, log[|log| - 1].instruction) && edges <= more
    requires WritesCovered(log, st, edges) && ReadsCovered(log, st, edges)
    ensures WritesCovered(next, t, more) && ReadsCovered(next, t, more)
  {
    GrowReads(log, next, e);
    forall p: nat, o: nat, x: int | p < |next| && WritesByte(next[p], o, x)
      ensures Covered(t, more, next[p].instruction, o, x)
    {
      assert WritesByte(log[p], o, x);
      CoveredKept(st, t, edges, more, log[p].instruction, o, x);
    }
    forall p: nat, o: nat, x: int | p < |next| && ReadsByte(next[p], o, x)
      ensures Reader(t, o, x, next[p].instruction) || Covered(t, more, next[p].instruction, o, x)
    {
      if ReadsByte(log[p], o, x) && !Reader(st, o, x, log[p].instruction) {
        CoveredKept(st, t, edges, more, log[p].instruction, o, x);
      }
    }
  }

  /** An instruction ordered before a remembered writer is ordered before whatever follows that writer. */
  lemma CoveredThen(st: TrackerState, edges: Edges, more: Edges, from: set<nat>, e: MemoryEffect, j: nat, o: nat,
      x: int, instruction: nat)
    requires Covered(st, edges, j, o, x) && Touches(e, o, x)
    requires edges <= more && forall w: nat :: w in from && w != instruction ==> (w, instruction) in more
    requires forall w: nat :: WriterTouched(st, e, w) ==> w in from
    ensures Ordered(more, j, instruction)
  {
    var w: nat :| Writer(st, o, x, w) && Ordered(edges, j, w);
    assert WriterTouched(st, e, w);
    OrderedMore(edges, more, j, w);
    OrderedThen(more, j, w, instruction);
  }

  lemma ReadConflictsOrdered(log: Log, next: Log, st: TrackerState, edges: Edges, more: Edges, from: set<nat>,
      e: MemoryEffect)
    requires MoreReads(log, next, e) && ConflictsOrdered(log, edges) && WritesCovered(log, st, edges)
    requires FromWriters(st, e, from) && EdgesAdded(edges, more, from, log[|log| - 1].instruction)
    ensures ConflictsOrdered(next, more)
  {
    GrowReads(log, next, e);
    var last := |log| - 1;
    forall p: nat, q: nat | p < q < |next| && Conflict(next[p], next[q])
      ensures Ordered(more, next[p].instruction, next[q].instruction)
    {
      if Conflict(log[p], log[q]) {
        OrderedMore(edges, more, log[p].instruction, log[q].instruction);
      } else {
        var o: nat, x: int :| ConflictAt(next[p], next[q], o, x);
        assert !ConflictAt(log[p], log[q], o, x);
        assert q == last && WritesByte(log[p], o, x) && Touches(e, o, x);
        CoveredThen(st, edges, more, from, e, log[p].instruction, o, x, log[last].instruction);
      }
    }
  }

  /** Recording one more read keeps the invariant. */
  lemma ReadStep(log: Log, next: Log, st: TrackerState, t: TrackerState, edges: Edges, more: Edges, from: set<nat>,
      e: MemoryEffect)
    requires Inv(log, st, edges) && StateOk(t) && MoreReads(log, next, e)
    requires AfterRead(st, t, e, log[|log| - 1].instruction)
    requires FromWriters(st, e, from) && EdgesAdded(edges, more, from, log[|log| - 1].instruction)
    ensures Inv(next, t, more)
  {
    GrowReads(log, next, e);
    ReadEdgesSound(log, next, st, edges, more, from, e);
    ReadMemoryTrue(log, next, st, t, e);
    ReadCovered(log, next, st, t, edges, more, e);
    ReadConflictsOrdered(log, next, st, edges, more, from, e);
  }

  // ------------------------------------------------------------ the effect of a write

  lemma WriteEdgesSound(log: Log, next: Log, st: TrackerState, edges: Edges, more: Edges, from: set<nat>,
      e: MemoryEffect)
    requires MoreWrites(log, next, e) && EdgesSound(log, edges) && MemoryTrue(log, st)
    requires FromAll(st, e, from) && EdgesAdded(edges, more, from, log[|log| - 1].instruction)
    ensures EdgesSound(next, more)
  {
    GrowWrites(log, next, e);
    var last := |log| - 1;
    forall edge: (nat, nat) | edge in more ensures SoundEdge(next, edge) {
      if edge in edges {
        OldEdgeSound(log, next, edges, edge);
      } else if WriterTouched(st, e, edge.0) {
        var o: nat, x: int :| Touches(e, o, x) && Writer(st, o, x, edge.0);
        var p := EarlierWriter(log, st, edge.0, o, x);
        assert ConflictAt(next[p], next[last], o, x);
      } else {
        assert ReaderTouched(st, e, edge.0);
        var o: nat, x: int :| Touches(e, o, x) && Reader(st, o, x, edge.0);
        var p := EarlierReader(log, st, edge.0, o, x);
        assert ConflictAt(next[p], next[last], o, x);
      }
    }
  }

  lemma WriteMemoryTrue(log: Log, next: Log, st: TrackerState, t: TrackerState, e: MemoryEffect)
    requires MoreWrites(log, next, e) && MemoryTrue(log, st) && AfterWrite(st, t, e, log[|log| - 1].instruction)
    ensures MemoryTrue(next, t)
  {
    GrowWrites(log, next, e);
    var last := |log| - 1;
    forall o: nat, x: int, w: nat | Writer(t, o, x, w) ensures WroteEarlier(next, w, o, x) {
      if Writer(st, o, x, w) {
        assert WroteEarlier(log, w, o, x);
        var p :| 0 <= p < |log| && log[p].instruction == w && WritesByte(log[p], o, x);
        assert WritesByte(next[p], o, x);
      } else {
        assert WritesByte(next[last], o, x);
      }
    }
    forall o: nat, x: int, w: nat | Reader(t, o, x, w) ensures ReadEarlier(next, w, o, x) {
      assert ReadEarlier(log, w, o, x);
      var p :| 0 <= p < |log| && log[p].instruction == w && ReadsByte(log[p], o, x);
      assert ReadsByte(next[p], o, x);
    }
  }

  /** Everything that accessed a byte is ordered before a new write of it. */
  lemma AccessThenWrite(log: Log, st: TrackerState, edges: Edges, more: Edges, from: set<nat>, e: MemoryEffect,
      p: nat, o: nat, x: int)
    requires log != [] && p < |log| && Touches(e, o, x) && (WritesByte(log[p], o, x) || ReadsByte(log[p], o, x))
    requires WritesCovered(log, st, edges) && ReadsCovered(log, st, edges)
    requires FromAll(st, e, from) && EdgesAdded(edges, more, from, log[|log| - 1].instruction)
    ensures Ordered(more, log[p].instruction, log[|log| - 1].instruction)
  {
    var j, instruction := log[p].instruction, log[|log| - 1].instruction;
    if Covered(st, edges, j, o, x) {
      CoveredThen(st, edges, more, from, e, j, o, x, instruction);
    } else {
      assert Reader(st, o, x, j);
      assert ReaderTouched(st, e, j);
      OrderedSelf(more, j);
      OrderedThen(more, j, j, instruction);
    }
  }

  lemma WriteCovered(log: Log, next: Log, st: TrackerState, t: TrackerState, edges: Edges, more: Edges,
      from: set<nat>, e: MemoryEffect)
    requires MoreWrites(log, next, e) && AfterWrite(st, t, e, log[|log| - 1].instruction)
    requires WritesCovered(log, st, edges) && ReadsCovered(log, st, edges)
    requires FromAll(st, e, from) && EdgesAdded(edges, more, from, log[|log| - 1].instruction)
    ensures WritesCovered(next, t, more) && ReadsCovered(next, t, more)
  {
    GrowWrites(log, next, e);
    var last := |log| - 1;
    OrderedSelf(more, log[last].instruction);
    forall p: nat, o: nat, x: int | p < |next| && WritesByte(next[p], o, x)
      ensures Covered(t, more, next[p].instruction, o, x)
    {
      if Touches(e, o, x) {
        if WritesByte(log[p], o, x) {
          AccessThenWrite(log, st, edges, more, from, e, p, o, x);
        }
        assert Writer(t, o, x, log[last].instruction);
      } else {
        CoveredKept(st, t, edges, more, log[p].instruction, o, x);
      }
    }
    forall p: nat, o: nat, x: int | p < |next| && ReadsByte(next[p], o, x)
      ensures Reader(t, o, x, next[p].instruction) || Covered(t, more, next[p].instruction, o, x)
    {
      assert ReadsByte(log[p], o, x);
      if Touches(e, o, x) {
        AccessThenWrite(log, st, edges, more, from, e, p, o, x);
        assert Writer(t, o, x, log[last].instruction);
      } else if !Reader(st, o, x, log[p].instruction) {
        CoveredKept(st, t, edges, more, log[p].instruction, o, x);
      }
    }
  }

  lemma WriteConflictsOrdered(log: Log, next: Log, st: TrackerState, edges: Edges, more: Edges, from: set<nat>,
      e: MemoryEffect)
    requires MoreWrites(log, next, e) && ConflictsOrdered(log, edges)
    requires WritesCovered(log, st, edges) && ReadsCovered(log, st, edges)
    requires FromAll(st, e, from) && EdgesAdded(edges, more, from, log[|log| - 1].instruction)
    ensures ConflictsOrdered(next, more)
  {
    GrowWrites(log, next, e);
    var last := |log| - 1;
    forall p: nat, q: nat | p < q < |next| && Conflict(next[p], next[q])
      ensures Ordered(more, next[p].instruction, next[q].instruction)
    {
      if Conflict(log[p], log[q]) {
        OrderedMore(edges, more, log[p].instruction, log[q].instruction);
      } else {
        var o: nat, x: int :| ConflictAt(next[p], next[q], o, x);
        assert !ConflictAt(log[p], log[q], o, x);
        assert q == last && Touches(e, o, x);
        AccessThenWrite(log, st, edges, more, from, e, p, o, x);
      }
    }
  }

  /** Recording one more write keeps the invariant. */
  lemma WriteStep(log: Log, next: Log, st: TrackerState, t: TrackerState, edges: Edges, more: Edges, from: set<nat>,
      e: MemoryEffect)
    requires Inv(log, st, edges) && StateOk(t) && MoreWrites(log, next, e)
    requires AfterWrite(st, t, e, log[|log| - 1].instruction)
    requires FromAll(st, e, from) && EdgesAdded(edges, more, from, log[|log| - 1].instruction)
    ensures Inv(next, t, more)
  {
    GrowWrites(log, next, e);
    WriteEdgesSound(log, next, st, edges, more, from, e);
    WriteMemoryTrue(log, next, st, t, e);
    WriteCovered(log, next, st, t, edges, more, from, e);
    WriteConflictsOrdered(log, next, st, edges, more, from, e);
  }

  lemma EventEdgesSound(log: Log, edges: Edges, e: MemoryEvent)
    requires EdgesSound(log, edges)
    ensures EdgesSound(log + [e], edges)
  {
    var next := log + [e];
    forall edge: (nat, nat) | edge in edges ensures SoundEdge(next, edge) {
      assert SoundEdge(log, edge);
      var p, q :| 0 <= p < q < |log| && log[p].instruction == edge.0 && log[q].instruction == edge.1
        && Conflict(log[p], log[q]);
      assert next[p] == log[p] && next[q] == log[q];
    }
  }

  lemma EventMemoryTrue(log: Log, st: TrackerState, e: MemoryEvent)
    requires MemoryTrue(log, st)
    ensures MemoryTrue(log + [e], st)
  {
    var next := log + [e];
    forall o: nat, x: int, w: nat | Writer(st, o, x, w) ensures WroteEarlier(next, w, o, x) {
      assert WroteEarlier(log, w, o, x);
      var p :| 0 <= p < |log| && log[p].instruction == w && WritesByte(log[p], o, x);
      assert next[p] == log[p];
    }
    forall o: nat, x: int, w: nat | Reader(st, o, x, w) ensures ReadEarlier(next, w, o, x) {
      assert ReadEarlier(log, w, o, x);
      var p :| 0 <= p < |log| && log[p].instruction == w && ReadsByte(log[p], o, x);
      assert next[p] == log[p];
    }
  }

  lemma EventCovered(log: Log, st: TrackerState, edges: Edges, e: MemoryEvent)
    requires WritesCovered(log, st, edges) && ReadsCovered(log, st, edges) && e.loads == [] && e.stores == []
    ensures WritesCovered(log + [e], st, edges) && ReadsCovered(log + [e], st, edges)
  {
    var next := log + [e];
    forall p: nat, o: nat, x: int | p < |next| && WritesByte(next[p], o, x)
      ensures Covered(st, edges, next[p].instruction, o, x)
    {
      assert p < |log| && next[p] == log[p];
    }
    forall p: nat, o: nat, x: int | p < |next| && ReadsByte(next[p], o, x)
      ensures Reader(st, o, x, next[p].instruction) || Covered(st, edges, next[p].instruction, o, x)
    {
      assert p < |log| && next[p] == log[p];
    }
  }

  lemma EventConflictsOrdered(log: Log, edges: Edges, e: MemoryEvent)
    requires ConflictsOrdered(log, edges) && e.loads == [] && e.stores == []
    ensures ConflictsOrdered(log + [e], edges)
  {
    var next := log + [e];
    forall p: nat, q: nat | p < q < |next| && Conflict(next[p], next[q])
      ensures Ordered(edges, next[p].instruction, next[q].instruction)
    {
      var o: nat, x: int :| ConflictAt(next[p], next[q], o, x);
      assert q < |log| && next[p] == log[p] && next[q] == log[q];
    }
  }

  /** A new event without effects keeps the invariant. */
  lemma EventStep(log: Log, st: TrackerState, edges: Edges, instruction: nat)
    requires Inv(log, st, edges)
    ensures Inv(log + [MemoryEvent(instruction, [], [])], st, edges)
  {
    var e := MemoryEvent(instruction, [], []);
    EventEdgesSound(log, edges, e);
    EventMemoryTrue(log, st, e);
    EventCovered(log, st, edges, e);
    EventConflictsOrdered(log, edges, e);
  }

  // ------------------------------------------------------------ the theorem

  /** All pairs of conflicting events, the earlier one first. */
  ghost predicate ConflictPair(log: Log, a: nat, b: nat) {
    exists p, q :: 0 <= p < q < |log| && log[p].instruction == a && log[q].instruction == b && Conflict(log[p], log[q])
  }

  ghost predicate ConflictChain(log: Log, p: seq<nat>, a: nat, b: nat) {
    && p != [] && p[0] == a && p[|p| - 1] == b
    && forall i, j :: 0 <= i && j == i + 1 && j < |p| ==> ConflictPair(log, p[i], p[j])
  }

  /** Chains of edges order exactly what chains of conflicts order. */
  lemma ClosureIsConflictClosure(log: Log, st: TrackerState, edges: Edges, a: nat, b: nat)
    requires Inv(log, st, edges)
    ensures Ordered(edges, a, b) <==> exists p :: ConflictChain(log, p, a, b)
  {
    if Ordered(edges, a, b) {
      var p :| IsChain(edges, p, a, b);
      forall i, j | 0 <= i && j == i + 1 && j < |p| ensures ConflictPair(log, p[i], p[j]) {
        assert SoundEdge(log, (p[i], p[j]));
      }
      assert ConflictChain(log, p, a, b);
    }
    if p :| ConflictChain(log, p, a, b) {
      ChainOrdered(log, edges, p, a, b);
    }
  }

  lemma {:induction false} ChainOrdered(log: Log, edges: Edges, p: seq<nat>, a: nat, b: nat)
    requires ConflictsOrdered(log, edges) && ConflictChain(log, p, a, b)
    ensures Ordered(edges, a, b)
    decreases |p|
  {
    if |p| == 1 {
      OrderedSelf(edges, a);
    } else {
      assert ConflictPair(log, p[0], p[1]);
      var i, j :| 0 <= i < j < |log| && log[i].instruction == p[0] && log[j].instruction == p[1]
        && Conflict(log[i], log[j]);
      assert Ordered(edges, p[0], p[1]);
      ChainOrdered(log, edges, p[1..], p[1], b);
      OrderedTrans(edges, a, p[1], b);
    }
  }

  /** For events without empty ranges, conflicting means: two aliasing effects, one of them a write. */
  lemma ConflictIsAlias(e: MemoryEvent, f: MemoryEvent)
    requires NoneEmpty(e) && NoneEmpty(f)
    ensures Conflict(e, f) <==> AliasingPair(e, f)
  {
    if Conflict(e, f) {
      var o: nat, x: int :| ConflictAt(e, f, o, x);
      if WritesByte(e, o, x) && WritesByte(f, o, x) {
        var i, j :| 0 <= i < |e.stores| && 0 <= j < |f.stores| && Touches(e.stores[i], o, x)
          && Touches(f.stores[j], o, x);
        AliasIsSharedByte(e.stores[i], f.stores[j]);
        assert AnyAlias(e.stores, f.stores);
      } else if WritesByte(e, o, x) {
        var i, j :| 0 <= i < |e.stores| && 0 <= j < |f.loads| && Touches(e.stores[i], o, x)
          && Touches(f.loads[j], o, x);
        AliasIsSharedByte(e.stores[i], f.loads[j]);
        assert AnyAlias(e.stores, f.loads);
      } else {
        var i, j :| 0 <= i < |e.loads| && 0 <= j < |f.stores| && Touches(e.loads[i], o, x)
          && Touches(f.stores[j], o, x);
        AliasIsSharedByte(e.loads[i], f.stores[j]);
        assert AnyAlias(e.loads, f.stores);
      }
    }
    if AnyAlias(e.stores, f.stores) {
      SharedByte(e.stores, f.stores, e, f);
    } else if AnyAlias(e.stores, f.loads) {
      SharedByte(e.stores, f.loads, e, f);
    } else if AnyAlias(e.loads, f.stores) {
      SharedByte(e.loads, f.stores, e, f);
    }
  }

  ghost predicate NoneEmpty(e: MemoryEvent) {
    && (forall i :: 0 <= i < |e.loads| ==> !EmptyRange(e.loads[i]))
    && forall i :: 0 <= i < |e.stores| ==> !EmptyRange(e.stores[i])
  }

  ghost predicate AnyAlias(a: seq<MemoryEffect>, b: seq<MemoryEffect>) {
    exists i, j :: 0 <= i < |a| && 0 <= j < |b| && EffectsMayAlias(a[i], b[j])
  }

  ghost predicate AliasingPair(e: MemoryEvent, f: MemoryEvent) {
    AnyAlias(e.stores, f.stores) || AnyAlias(e.stores, f.loads) || AnyAlias(e.loads, f.stores)
  }

  lemma SharedByte(a: seq<MemoryEffect>, b: seq<MemoryEffect>, e: MemoryEvent, f: MemoryEvent)
    requires AnyAlias(a, b) && NoneEmpty(e) && NoneEmpty(f)
    requires (a == e.stores && (b == f.stores || b == f.loads)) || (a == e.loads && b == f.stores)
    ensures Conflict(e, f)
  {
    var i, j :| 0 <= i < |a| && 0 <= j < |b| && EffectsMayAlias(a[i], b[j]);
    AliasIsSharedByte(a[i], b[j]);
    var o: nat, x: int :| Touches(a[i], o, x) && Touches(b[j], o, x);
    assert ConflictAt(e, f, o, x);
  }
}
