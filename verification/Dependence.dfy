/** The memory-dependence tracker: ordered events in, dependence edges out. */
module Dependence {
  import opened CfgErrors
  import opened Memory
  import opened RangeHistory
  import opened DependenceSpec

  function OptionSet(w: Option<nat>): (s: set<nat>)
    ensures forall x: nat :: x in s <==> w == Some(x)
  {
    match w
    case None => {}
    case Some(x) => {x}
  }

  function Elements(s: seq<nat>): (r: set<nat>)
    ensures forall x: nat :: x in r <==> x in s
  {
    set x | x in s
  }

  function PushReader(readers: seq<nat>, instruction: nat): (r: seq<nat>)
    ensures forall x: nat :: x in r <==> x in readers || x == instruction
  {
    if readers != [] && readers[|readers| - 1] == instruction then readers else readers + [instruction]
  }

  lemma WriterSomewhere(s: Segments, w: nat)
    requires Partition(s)
    ensures WriterIn(s, w) <==> exists x: int :: WriterAt(s, x, w)
  {
    if WriterIn(s, w) {
      var i :| 0 <= i < |s| && s[i].history.writer == Some(w);
      assert s[i].Covers(s[i].start);
      assert WriterAt(s, s[i].start, w);
    }
  }

  lemma ReaderSomewhere(s: Segments, w: nat)
    requires Partition(s)
    ensures ReaderIn(s, w) <==> exists x: int :: ReaderAt(s, x, w)
  {
    if ReaderIn(s, w) {
      var i :| 0 <= i < |s| && w in s[i].history.readers;
      assert s[i].Covers(s[i].start);
      assert ReaderAt(s, s[i].start, w);
    }
  }

  // ------------------------------------------------------------ one object

  method ObjectWriters(h: ObjectHistory, dependencies: set<nat>) returns (found: set<nat>)
    ensures forall w: nat :: w in found <==> w in dependencies || h.unknownWriter == Some(w) || WriterIn(h.segments, w)
  {
    found := CollectWriters(h.segments, dependencies + OptionSet(h.unknownWriter));
  }

  method ObjectAccesses(h: ObjectHistory, dependencies: set<nat>) returns (found: set<nat>)
    ensures forall w: nat :: w in found <==>
      || w in dependencies || h.unknownWriter == Some(w) || w in h.unknownReaders
      || WriterIn(h.segments, w) || ReaderIn(h.segments, w)
  {
    found := CollectAll(h.segments, dependencies + OptionSet(h.unknownWriter) + Elements(h.unknownReaders));
  }

  function SetObject(st: TrackerState, o: nat, h: ObjectHistory): TrackerState {
    st.(objects := st.objects[o := h])
  }

  // ------------------------------------------------------------ state changes

  lemma ReadExactState(st: TrackerState, location: MemoryLocation, end: int, r: Segments, instruction: nat)
    requires location.byteLen > 0 && location.End() == Some(end)
    requires ReadOf(Object(st, location.obj).segments, r, location.offset, end, instruction)
    ensures AfterRead(st, SetObject(st, location.obj, Object(st, location.obj).(segments := r)), Exact(location),
              instruction)
  {
  }

  lemma WriteExactState(st: TrackerState, location: MemoryLocation, end: int, r: Segments, instruction: nat)
    requires location.byteLen > 0 && location.End() == Some(end)
    requires WriteOf(Object(st, location.obj).segments, r, location.offset, end, instruction)
    ensures AfterWrite(st, SetObject(st, location.obj, Object(st, location.obj).(segments := r)), Exact(location),
              instruction)
  {
  }

  /** The effect covers one whole object. */
  ghost predicate WholeObject(e: MemoryEffect, o: nat) {
    forall p: nat, x: int :: Touches(e, p, x) <==> p == o
  }

  lemma ReadUnknownState(st: TrackerState, e: MemoryEffect, o: nat, instruction: nat)
    requires WholeObject(e, o)
    ensures
      var h := Object(st, o);
      AfterRead(st, SetObject(st, o, h.(unknownReaders := PushReader(h.unknownReaders, instruction))), e, instruction)
  {
  }

  lemma WriteUnknownState(st: TrackerState, e: MemoryEffect, o: nat, instruction: nat)
    requires WholeObject(e, o)
    ensures AfterWrite(st, SetObject(st, o, ObjectHistory([], Some(instruction), [])), e, instruction)
  {
    var t := SetObject(st, o, ObjectHistory([], Some(instruction), []));
    forall p: nat, x: int, w: nat | Writer(t, p, x, w)
      ensures Writer(st, p, x, w) || (w == instruction && Touches(e, p, x))
    {
    }
  }

  // ------------------------------------------------------------ what is collected

  lemma ExactWriters(st: TrackerState, location: MemoryLocation, end: int, w: nat)
    requires location.byteLen > 0 && location.End() == Some(end)
    ensures WriterTouched(st, Exact(location), w) <==>
      || st.globalWriter == Some(w) || Object(st, location.obj).unknownWriter == Some(w)
      || WriterInRange(Object(st, location.obj).segments, location.offset, end, w)
  {
    var e, o := Exact(location), location.obj;
    if st.globalWriter == Some(w) || Object(st, o).unknownWriter == Some(w) {
      assert Touches(e, o, location.offset) && Writer(st, o, location.offset, w);
    } else if WriterInRange(Object(st, o).segments, location.offset, end, w) {
      var x: int :| location.offset <= x < end && WriterAt(Object(st, o).segments, x, w);
      assert Touches(e, o, x) && Writer(st, o, x, w);
    }
  }

  lemma ExactReaders(st: TrackerState, location: MemoryLocation, end: int, w: nat)
    requires location.byteLen > 0 && location.End() == Some(end)
    ensures ReaderTouched(st, Exact(location), w) <==>
      || w in st.globalReaders || w in Object(st, location.obj).unknownReaders
      || ReaderInRange(Object(st, location.obj).segments, location.offset, end, w)
  {
    var e, o := Exact(location), location.obj;
    if w in st.globalReaders || w in Object(st, o).unknownReaders {
      assert Touches(e, o, location.offset) && Reader(st, o, location.offset, w);
    } else if ReaderInRange(Object(st, o).segments, location.offset, end, w) {
      var x: int :| location.offset <= x < end && ReaderAt(Object(st, o).segments, x, w);
      assert Touches(e, o, x) && Reader(st, o, x, w);
    }
  }

  lemma WholeWriters(st: TrackerState, e: MemoryEffect, o: nat, w: nat)
    requires WholeObject(e, o) && Partition(Object(st, o).segments)
    ensures WriterTouched(st, e, w) <==>
      || st.globalWriter == Some(w) || Object(st, o).unknownWriter == Some(w) || WriterIn(Object(st, o).segments, w)
  {
    WriterSomewhere(Object(st, o).segments, w);
    if st.globalWriter == Some(w) || Object(st, o).unknownWriter == Some(w) {
      assert Touches(e, o, 0) && Writer(st, o, 0, w);
    } else if WriterIn(Object(st, o).segments, w) {
      var x: int :| WriterAt(Object(st, o).segments, x, w);
      assert Touches(e, o, x) && Writer(st, o, x, w);
    }
  }

  lemma WholeReaders(st: TrackerState, e: MemoryEffect, o: nat, w: nat)
    requires WholeObject(e, o) && Partition(Object(st, o).segments)
    ensures ReaderTouched(st, e, w) <==>
      || w in st.globalReaders || w in Object(st, o).unknownReaders || ReaderIn(Object(st, o).segments, w)
  {
    ReaderSomewhere(Object(st, o).segments, w);
    if w in st.globalReaders || w in Object(st, o).unknownReaders {
      assert Touches(e, o, 0) && Reader(st, o, 0, w);
    } else if ReaderIn(Object(st, o).segments, w) {
      var x: int :| ReaderAt(Object(st, o).segments, x, w);
      assert Touches(e, o, x) && Reader(st, o, x, w);
    }
  }

  ghost predicate WriterOfObject(h: ObjectHistory, w: nat) {
    h.unknownWriter == Some(w) || WriterIn(h.segments, w)
  }

  ghost predicate ReaderOfObject(h: ObjectHistory, w: nat) {
    w in h.unknownReaders || ReaderIn(h.segments, w)
  }

  lemma AllWriters(st: TrackerState, w: nat)
    requires StateOk(st)
    ensures WriterTouched(st, UnknownAll, w) <==>
      st.globalWriter == Some(w) || InSome(st.objects, st.objects.Keys, false, w)
  {
    if st.globalWriter == Some(w) {
      assert Touches(UnknownAll, 0, 0) && Writer(st, 0, 0, w);
    }
    if o :| o in st.objects.Keys && o in st.objects && OfObject(st.objects[o], false, w) {
      WriterSomewhere(st.objects[o].segments, w);
      if st.objects[o].unknownWriter == Some(w) {
        assert Touches(UnknownAll, o, 0) && Writer(st, o, 0, w);
      } else {
        var x: int :| WriterAt(st.objects[o].segments, x, w);
        assert Touches(UnknownAll, o, x) && Writer(st, o, x, w);
      }
    }
    if WriterTouched(st, UnknownAll, w) && st.globalWriter != Some(w) {
      var o: nat, x: int :| Writer(st, o, x, w);
      assert o in st.objects;
      WriterSomewhere(st.objects[o].segments, w);
      assert o in st.objects.Keys && OfObject(st.objects[o], false, w);
    }
  }

  lemma AllReaders(st: TrackerState, w: nat)
    requires StateOk(st)
    ensures ReaderTouched(st, UnknownAll, w) <==>
      w in st.globalReaders || exists o :: o in st.objects && ReaderOfObject(st.objects[o], w)
  {
    if w in st.globalReaders {
      assert Touches(UnknownAll, 0, 0) && Reader(st, 0, 0, w);
    }
    if o :| o in st.objects && ReaderOfObject(st.objects[o], w) {
      ReaderSomewhere(st.objects[o].segments, w);
      if w in st.objects[o].unknownReaders {
        assert Touches(UnknownAll, o, 0) && Reader(st, o, 0, w);
      } else {
        var x: int :| ReaderAt(st.objects[o].segments, x, w);
        assert Touches(UnknownAll, o, x) && Reader(st, o, x, w);
      }
    }
    if ReaderTouched(st, UnknownAll, w) && w !in st.globalReaders {
      var o: nat, x: int :| Reader(st, o, x, w);
      assert o in st.objects;
      ReaderSomewhere(st.objects[o].segments, w);
      assert ReaderOfObject(st.objects[o], w);
    }
  }

  ghost predicate OfObject(h: ObjectHistory, readersToo: bool, w: nat) {
    WriterOfObject(h, w) || (readersToo && ReaderOfObject(h, w))
  }

  ghost predicate InSome(objects: map<nat, ObjectHistory>, names: set<nat>, readersToo: bool, w: nat) {
    exists o :: o in names && o in objects && OfObject(objects[o], readersToo, w)
  }

  lemma InOneMore(objects: map<nat, ObjectHistory>, names: set<nat>, o: nat, readersToo: bool)
    requires o in objects
    ensures forall w: nat :: InSome(objects, names + {o}, readersToo, w) <==>
      InSome(objects, names, readersToo, w) || OfObject(objects[o], readersToo, w)
  {
    forall w: nat | InSome(objects, names, readersToo, w) ensures InSome(objects, names + {o}, readersToo, w) {
      var p :| p in names && p in objects && OfObject(objects[p], readersToo, w);
      assert p in names + {o};
    }
    assert o in names + {o};
  }

  lemma InEither(objects: map<nat, ObjectHistory>, w: nat)
    ensures InSome(objects, objects.Keys, true, w) <==>
      InSome(objects, objects.Keys, false, w) || exists o :: o in objects && ReaderOfObject(objects[o], w)
  {
    if o :| o in objects.Keys && o in objects && OfObject(objects[o], false, w) {
      assert OfObject(objects[o], true, w);
    }
    if o :| o in objects && ReaderOfObject(objects[o], w) {
      assert o in objects.Keys && OfObject(objects[o], true, w);
    }
    if o :| o in objects.Keys && o in objects && OfObject(objects[o], true, w) {
      assert WriterOfObject(objects[o], w) ==> OfObject(objects[o], false, w);
    }
  }

  // ------------------------------------------------------------ the tracker

  class MemoryDependencyTracker {
    var objects: map<nat, ObjectHistory>
    var globalWriter: Option<nat>
    var globalReaders: seq<nat>

    /** Every event so far, and every edge reported so far. */
    ghost var log: Log
    ghost var edges: Edges

    ghost function State(): TrackerState
      reads `objects, `globalWriter, `globalReaders
    {
      TrackerState(objects, globalWriter, globalReaders)
    }

    ghost predicate Valid()
      reads this
    {
      Inv(log, State(), edges)
    }

    constructor ()
      ensures Valid() && log == [] && edges == {}
    {
      objects, globalWriter, globalReaders := map[], None, [];
      log, edges := [], {};
    }

    /** Writers, and if asked readers, of every represented object. */
    method CollectObjects(readersToo: bool, dependencies: set<nat>) returns (found: set<nat>)
      ensures forall w: nat :: w in found <==> w in dependencies || InSome(objects, objects.Keys, readersToo, w)
    {
      found := dependencies;
      var rest := objects.Keys;
      while rest != {}
        invariant rest <= objects.Keys
        invariant forall w: nat :: w in found <==>
                    w in dependencies || InSome(objects, objects.Keys - rest, readersToo, w)
        decreases |rest|
      {
        var o :| o in rest;
        ghost var before := found;
        if readersToo {
          found := ObjectAccesses(objects[o], found);
        } else {
          found := ObjectWriters(objects[o], found);
        }
        assert forall w: nat :: w in found <==> w in before || OfObject(objects[o], readersToo, w);
        assert objects.Keys - (rest - {o}) == (objects.Keys - rest) + {o};
        InOneMore(objects, objects.Keys - rest, o, readersToo);
        rest := rest - {o};
      }
    }

    method ReadUnknown(ghost e: MemoryEffect, o: nat, instruction: nat, dependencies: set<nat>)
        returns (found: set<nat>)
      requires StateOk(State()) && WholeObject(e, o)
      modifies `objects
      ensures StateOk(State()) && AfterRead(old(State()), State(), e, instruction)
      ensures forall w: nat :: w in found <==> w in dependencies || WriterTouched(old(State()), e, w)
    {
      var h := if o in objects then objects[o] else NO_OBJECT;
      found := ObjectWriters(h, dependencies + OptionSet(globalWriter));
      forall w: nat ensures w in found <==> w in dependencies || WriterTouched(State(), e, w) {
        WholeWriters(State(), e, o, w);
      }
      ReadUnknownState(State(), e, o, instruction);
      objects := objects[o := h.(unknownReaders := PushReader(h.unknownReaders, instruction))];
    }

    method Read(e: MemoryEffect, instruction: nat, dependencies: set<nat>) returns (found: set<nat>)
      requires StateOk(State()) && ValidEffect(e)
      modifies `objects, `globalReaders
      ensures StateOk(State()) && AfterRead(old(State()), State(), e, instruction)
      ensures forall w: nat :: w in found <==> w in dependencies || WriterTouched(old(State()), e, w)
    {
      match e {
        case Exact(location) =>
          if location.byteLen == 0 {
            return dependencies;
          }
          match location.End() {
            case Some(end) =>
              var h := if location.obj in objects then objects[location.obj] else NO_OBJECT;
              var segments;
              segments, found := ReadRange(h.segments, location.offset, end, instruction,
                                           dependencies + OptionSet(globalWriter) + OptionSet(h.unknownWriter));
              forall w: nat ensures w in found <==> w in dependencies || WriterTouched(State(), e, w) {
                ExactWriters(State(), location, end, w);
              }
              ReadExactState(State(), location, end, segments, instruction);
              objects := objects[location.obj := h.(segments := segments)];
            case None =>
              found := ReadUnknown(e, location.obj, instruction, dependencies);
          }
        case UnknownObject(o) =>
          found := ReadUnknown(e, o, instruction, dependencies);
        case UnknownAll =>
          found := CollectObjects(false, dependencies + OptionSet(globalWriter));
          forall w: nat ensures w in found <==> w in dependencies || WriterTouched(State(), e, w) {
            AllWriters(State(), w);
          }
          globalReaders := PushReader(globalReaders, instruction);
      }
    }

    method WriteUnknown(ghost e: MemoryEffect, o: nat, instruction: nat, dependencies: set<nat>)
        returns (found: set<nat>)
      requires StateOk(State()) && WholeObject(e, o)
      modifies `objects
      ensures StateOk(State()) && AfterWrite(old(State()), State(), e, instruction)
      ensures forall w: nat :: w in found <==>
                w in dependencies || WriterTouched(old(State()), e, w) || ReaderTouched(old(State()), e, w)
    {
      var h := if o in objects then objects[o] else NO_OBJECT;
      found := ObjectAccesses(h, dependencies + OptionSet(globalWriter) + Elements(globalReaders));
      forall w: nat
        ensures w in found <==> w in dependencies || WriterTouched(State(), e, w) || ReaderTouched(State(), e, w)
      {
        WholeWriters(State(), e, o, w);
        WholeReaders(State(), e, o, w);
      }
      WriteUnknownState(State(), e, o, instruction);
      objects := objects[o := ObjectHistory([], Some(instruction), [])];
    }

    method Write(e: MemoryEffect, instruction: nat, dependencies: set<nat>) returns (found: set<nat>)
      requires StateOk(State()) && ValidEffect(e)
      modifies `objects, `globalWriter, `globalReaders
      ensures StateOk(State()) && AfterWrite(old(State()), State(), e, instruction)
      ensures forall w: nat :: w in found <==>
                w in dependencies || WriterTouched(old(State()), e, w) || ReaderTouched(old(State()), e, w)
    {
      match e {
        case Exact(location) =>
          if location.byteLen == 0 {
            return dependencies;
          }
          match location.End() {
            case Some(end) =>
              var h := if location.obj in objects then objects[location.obj] else NO_OBJECT;
              var segments;
              segments, found := WriteRange(h.segments, location.offset, end, instruction,
                                            dependencies + OptionSet(globalWriter) + Elements(globalReaders)
                                            + OptionSet(h.unknownWriter) + Elements(h.unknownReaders));
              forall w: nat
                ensures w in found <==>
                          w in dependencies || WriterTouched(State(), e, w) || ReaderTouched(State(), e, w)
              {
                ExactWriters(State(), location, end, w);
                ExactReaders(State(), location, end, w);
              }
              WriteExactState(State(), location, end, segments, instruction);
              objects := objects[location.obj := h.(segments := segments)];
            case None =>
              found := WriteUnknown(e, location.obj, instruction, dependencies);
          }
        case UnknownObject(o) =>
          found := WriteUnknown(e, o, instruction, dependencies);
        case UnknownAll =>
          found := CollectObjects(true, dependencies + OptionSet(globalWriter) + Elements(globalReaders));
          forall w: nat
            ensures w in found <==> w in dependencies || WriterTouched(State(), e, w) || ReaderTouched(State(), e, w)
          {
            AllWriters(State(), w);
            AllReaders(State(), w);
            InEither(objects, w);
          }
          objects, globalWriter, globalReaders := map[], Some(instruction), [];
      }
    }

    method AddLoads(ghost log0: Log, ghost edges0: Edges, instruction: nat, loads: seq<MemoryEffect>,
        dependencies: set<nat>)
      returns (found: set<nat>)
      requires Valid() && log == log0 + [MemoryEvent(instruction, [], [])] && edges == edges0
      requires forall i :: 0 <= i < |loads| ==> ValidEffect(loads[i])
      modifies this
      ensures Valid() && log == log0 + [MemoryEvent(instruction, loads, [])]
      ensures Reported(edges0, edges, dependencies, found, instruction)
    {
      found := dependencies;
      for i := 0 to |loads|
        invariant log == log0 + [MemoryEvent(instruction, loads[..i], [])] && Valid()
        invariant Reported(edges0, edges, dependencies, found, instruction)
      {
        ghost var st, found0 := State(), found;
        found := Read(loads[i], instruction, found);
        assert loads[..i + 1] == loads[..i] + [loads[i]];
        ghost var next := log0 + [MemoryEvent(instruction, loads[..i + 1], [])];
        ghost var more := Loaded(log, next, st, State(), edges0, edges, loads[i], instruction, dependencies, found0,
          found);
        log, edges := next, more;
      }
      assert loads[..|loads|] == loads;
    }

    method AddStores(ghost log0: Log, ghost edges0: Edges, instruction: nat, ghost loads: seq<MemoryEffect>,
        stores: seq<MemoryEffect>,
                     ghost dependencies0: set<nat>, dependencies: set<nat>)
      returns (found: set<nat>)
      requires Valid() && log == log0 + [MemoryEvent(instruction, loads, [])]
      requires Reported(edges0, edges, dependencies0, dependencies, instruction)
      requires forall i :: 0 <= i < |stores| ==> ValidEffect(stores[i])
      modifies this
      ensures Valid() && log == log0 + [MemoryEvent(instruction, loads, stores)]
      ensures Reported(edges0, edges, dependencies0, found, instruction)
    {
      found := dependencies;
      for i := 0 to |stores|
        invariant log == log0 + [MemoryEvent(instruction, loads, stores[..i])] && Valid()
        invariant Reported(edges0, edges, dependencies0, found, instruction)
      {
        ghost var st, found0 := State(), found;
        found := Write(stores[i], instruction, found);
        assert stores[..i + 1] == stores[..i] + [stores[i]];
        ghost var next := log0 + [MemoryEvent(instruction, loads, stores[..i + 1])];
        ghost var more := Stored(log, next, st, State(), edges0, edges, stores[i], instruction, dependencies0, found0,
          found);
        log, edges := next, more;
      }
      assert stores[..|stores|] == stores;
    }

    /**
      Adds one event and returns the given dependencies with its own. Afterwards every edge reported so far joins
      two conflicting events, and any two conflicting events so far are ordered by a chain of edges.
     */
    method AddEvent(instruction: nat, loads: seq<MemoryEffect>, stores: seq<MemoryEffect>, dependencies: set<nat>)
      returns (found: set<nat>)
      requires Valid()
      requires (forall i :: 0 <= i < |loads| ==> ValidEffect(loads[i]))
      requires forall i :: 0 <= i < |stores| ==> ValidEffect(stores[i])
      modifies this
      ensures Valid() && log == old(log) + [MemoryEvent(instruction, loads, stores)]
      ensures Reported(old(edges), edges, dependencies, found, instruction) && instruction !in found
    {
      EventStep(log, State(), edges, instruction);
      ghost var log0, edges0 := log, edges;
      log := log + [MemoryEvent(instruction, [], [])];
      var loaded := AddLoads(log0, edges0, instruction, loads, dependencies);
      found := AddStores(log0, edges0, instruction, loads, stores, dependencies, loaded);
      found := found - {instruction};
    }
  }

  /** What has been found for the current event is what has been given or reported. */
  ghost predicate Reported(edges0: Edges, edges: Edges, dependencies: set<nat>, found: set<nat>, instruction: nat) {
    && edges0 <= edges && dependencies - {instruction} <= found
    && (forall edge :: edge in edges - edges0 ==> edge.1 == instruction && edge.0 in found && edge.0 != instruction)
    && forall w: nat :: w in found && w != instruction ==> w in dependencies || (w, instruction) in edges
  }

  /** One edge to the instruction from each of the others in `from`. */
  ghost function AddEdges(edges: Edges, from: set<nat>, instruction: nat): (more: Edges)
    ensures EdgesAdded(edges, more, from, instruction)
  {
    edges + set w | w in from && w != instruction :: (w, instruction)
  }

  lemma ReportMore(edges0: Edges, edges: Edges, dependencies: set<nat>, found0: set<nat>, found: set<nat>,
      from: set<nat>, instruction: nat)
    requires Reported(edges0, edges, dependencies, found0, instruction) && found == found0 + from
    ensures Reported(edges0, AddEdges(edges, from, instruction), dependencies, found, instruction)
  {
  }

  lemma Loaded(log: Log, next: Log, st: TrackerState, t: TrackerState, edges0: Edges, edges: Edges, e: MemoryEffect,
      instruction: nat,
               dependencies: set<nat>, found0: set<nat>, found: set<nat>) returns (more: Edges)
    requires Inv(log, st, edges) && StateOk(t) && MoreReads(log, next, e) && log[|log| - 1].instruction == instruction
    requires AfterRead(st, t, e, instruction) && Reported(edges0, edges, dependencies, found0, instruction)
    requires forall w: nat :: w in found <==> w in found0 || WriterTouched(st, e, w)
    ensures Inv(next, t, more) && Reported(edges0, more, dependencies, found, instruction)
  {
    var from := set w | w in found && WriterTouched(st, e, w);
    more := AddEdges(edges, from, instruction);
    ReportMore(edges0, edges, dependencies, found0, found, from, instruction);
    ReadStep(log, next, st, t, edges, more, from, e);
  }

  lemma Stored(log: Log, next: Log, st: TrackerState, t: TrackerState, edges0: Edges, edges: Edges, e: MemoryEffect,
      instruction: nat,
               dependencies: set<nat>, found0: set<nat>, found: set<nat>) returns (more: Edges)
    requires Inv(log, st, edges) && StateOk(t) && MoreWrites(log, next, e) && log[|log| - 1].instruction == instruction
    requires AfterWrite(st, t, e, instruction) && Reported(edges0, edges, dependencies, found0, instruction)
    requires forall w: nat :: w in found <==> w in found0 || WriterTouched(st, e, w) || ReaderTouched(st, e, w)
    ensures Inv(next, t, more) && Reported(edges0, more, dependencies, found, instruction)
  {
    var from := set w | w in found && (WriterTouched(st, e, w) || ReaderTouched(st, e, w));
    more := AddEdges(edges, from, instruction);
    ReportMore(edges0, edges, dependencies, found0, found, from, instruction);
    WriteStep(log, next, st, t, edges, more, from, e);
  }
}
