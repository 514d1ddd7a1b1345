/** The bound analysis iterated to a fixpoint, and its soundness over all runs. */
module MirFixpoint {
  import opened CfgErrors
  import opened Words
  import opened Mir
  import opened MirBounds
  import opened MirLaws
  import opened MirTrace

  // ------------------------------------------------------------ what a set of bounds promises

  /** Wherever the bounds hold, the instruction's result stays within `b`. */
  ghost predicate Guaranteed(i: Inst, bounds: Bounds, b: nat)
    requires Def(i).Some?
  {
    forall regs: Regs, seen: nat :: RegsOk(regs) && Holds(bounds, regs) && Uses(i) <= regs.Keys ==>
         Value(false, i, regs, seen) <= b
  }

  ghost predicate InstClosed(i: Inst, bounds: Bounds) {
    Def(i).Some? && Def(i).value in bounds ==> Guaranteed(i, bounds, bounds[Def(i).value])
  }

  predicate PhiClosed(phi: Phi, bounds: Bounds) {
    phi.dst in bounds ==> SourcesWithin(phi.sources, bounds, bounds[phi.dst])
  }

  /** Every bound is justified by the definition of its register under the same bounds. */
  ghost predicate Closed(f: Function, bounds: Bounds) {
    && BoundsOk(bounds)
    && (forall b, k :: HasInst(f, b, k) ==> InstClosed(f.blocks[b].insts[k], bounds))
    && (forall b, k :: HasPhi(f, b, k) ==> PhiClosed(f.blocks[b].phis[k], bounds))
    && forall v :: v in bounds ==> v < f.vregs
  }

  lemma TighterHolds(next: Bounds, bounds: Bounds, regs: Regs)
    requires Tighter(next, bounds) && Holds(next, regs)
    ensures Holds(bounds, regs)
  {
  }

  lemma GuaranteedKept(i: Inst, bounds: Bounds, next: Bounds, b: nat)
    requires Def(i).Some? && Tighter(next, bounds) && Guaranteed(i, bounds, b)
    ensures Guaranteed(i, next, b)
  {
    forall regs: Regs, seen: nat | RegsOk(regs) && Holds(next, regs) && Uses(i) <= regs.Keys
      ensures Value(false, i, regs, seen) <= b
    {
      TighterHolds(next, bounds, regs);
    }
  }

  // ------------------------------------------------------------ inserting a bound

  lemma InsertFromInst(f: Function, bounds: Bounds, b: nat, k: nat, bound: nat)
    requires Closed(f, bounds) && SingleAssignment(f) && FunctionOk(f) && HasInst(f, b, k)
    requires Def(f.blocks[b].insts[k]).Some? && Guaranteed(f.blocks[b].insts[k], bounds, bound) && bound < WORD
    ensures Closed(f, Insert(bounds, Def(f.blocks[b].insts[k]).value, bound).0)
  {
    var i := f.blocks[b].insts[k];
    var v := Def(i).value;
    var next := Insert(bounds, v, bound).0;
    assert InstOk(i, f.vregs);
    forall c, l | HasInst(f, c, l) ensures InstClosed(f.blocks[c].insts[l], next) {
      var j := f.blocks[c].insts[l];
      if Def(j).Some? && Def(j).value in next {
        assert InstClosed(j, bounds);
        if Def(j).value == v {
          assert SameDef(i, j);
          if next == bounds[v := bound] {
            GuaranteedKept(i, bounds, next, bound);
          }
        } else {
          GuaranteedKept(j, bounds, next, bounds[Def(j).value]);
        }
      }
    }
    forall c, l | HasPhi(f, c, l) ensures PhiClosed(f.blocks[c].phis[l], next) {
      assert PhiClosed(f.blocks[c].phis[l], bounds);
      assert f.blocks[c].phis[l].dst != v;
    }
  }

  lemma InsertFromPhi(f: Function, bounds: Bounds, b: nat, k: nat, bound: nat)
    requires Closed(f, bounds) && SingleAssignment(f) && FunctionOk(f) && HasPhi(f, b, k)
    requires SourcesWithin(f.blocks[b].phis[k].sources, bounds, bound) && bound < WORD
    ensures Closed(f, Insert(bounds, f.blocks[b].phis[k].dst, bound).0)
  {
    var phi := f.blocks[b].phis[k];
    var next := Insert(bounds, phi.dst, bound).0;
    assert PhiOk(phi, f.vregs);
    forall c, l | HasInst(f, c, l) ensures InstClosed(f.blocks[c].insts[l], next) {
      var j := f.blocks[c].insts[l];
      if Def(j).Some? && Def(j).value in next {
        assert InstClosed(j, bounds);
        assert Def(j) != Some(phi.dst);
        GuaranteedKept(j, bounds, next, bounds[Def(j).value]);
      }
    }
    forall c, l | HasPhi(f, c, l) ensures PhiClosed(f.blocks[c].phis[l], next) {
      assert PhiClosed(f.blocks[c].phis[l], bounds);
    }
  }

  // ------------------------------------------------------------ termination

  /** What is left to tighten; an unbounded register counts as one more than any bound. */
  function Slack(bounds: Bounds, n: nat): nat {
    if n == 0 then 0 else Slack(bounds, n - 1) + if n - 1 in bounds then bounds[n - 1] else WORD
  }

  lemma {:induction false} SlackInsert(bounds: Bounds, v: VReg, b: nat, n: nat)
    requires v !in bounds || b < bounds[v]
    requires b < WORD
    ensures v < n ==> Slack(bounds[v := b], n) < Slack(bounds, n)
    ensures v >= n ==> Slack(bounds[v := b], n) == Slack(bounds, n)
  {
    if n > 0 {
      SlackInsert(bounds, v, b, n - 1);
    }
  }

  // ------------------------------------------------------------ one pass

  /** No instruction or phi gives a tighter bound any more. */
  predicate InstStable(i: Inst, bounds: Bounds)
    requires BoundsOk(bounds)
  {
    Def(i).Some? && BoundOf(i, bounds).Some? ==>
      Def(i).value in bounds && bounds[Def(i).value] <= BoundOf(i, bounds).value
  }

  predicate PhiStable(phi: Phi, bounds: Bounds) {
    PhiBound(phi.sources, bounds).Some? ==> phi.dst in bounds && bounds[phi.dst] <= PhiBound(phi.sources, bounds).value
  }

  predicate BlockStable(block: Block, bounds: Bounds)
    requires BoundsOk(bounds)
  {
    && (forall k :: 0 <= k < |block.phis| ==> PhiStable(block.phis[k], bounds))
    && forall k :: 0 <= k < |block.insts| ==> InstStable(block.insts[k], bounds)
  }

  /** The pass has only tightened, and says whether it has. */
  ghost predicate Progress(f: Function, before: Bounds, bounds: Bounds, changed: bool) {
    && (changed ==> Slack(bounds, f.vregs) < Slack(before, f.vregs))
    && (!changed ==> bounds == before)
  }

  /** What every step of the iteration keeps. */
  ghost predicate Justified(f: Function, bounds: Bounds) {
    Closed(f, bounds) && Traced(f, bounds)
  }

  method TightenPhis(f: Function, b: nat, bounds0: Bounds) returns (bounds: Bounds, changed: bool)
    requires b < |f.blocks| && Justified(f, bounds0) && SingleAssignment(f) && FunctionOk(f)
    ensures Justified(f, bounds) && Progress(f, bounds0, bounds, changed)
    ensures !changed ==> forall k :: 0 <= k < |f.blocks[b].phis| ==> PhiStable(f.blocks[b].phis[k], bounds)
  {
    bounds, changed := bounds0, false;
    for k := 0 to |f.blocks[b].phis|
      invariant Justified(f, bounds) && Progress(f, bounds0, bounds, changed)
      invariant !changed ==> forall l :: 0 <= l < k ==> PhiStable(f.blocks[b].phis[l], bounds)
    {
      var phi := f.blocks[b].phis[k];
      assert HasPhi(f, b, k) && PhiOk(phi, f.vregs);
      match PhiBound(phi.sources, bounds) {
        case Some(bound) =>
          InsertFromPhi(f, bounds, b, k, bound);
          TracePhi(f, bounds, b, k, bound);
          var (next, tightened) := Insert(bounds, phi.dst, bound);
          if tightened {
            SlackInsert(bounds, phi.dst, bound, f.vregs);
          }
          bounds, changed := next, changed || tightened;
        case None =>
      }
    }
  }

  method TightenInsts(f: Function, b: nat, bounds0: Bounds) returns (bounds: Bounds, changed: bool)
    requires b < |f.blocks| && Justified(f, bounds0) && SingleAssignment(f) && FunctionOk(f)
    ensures Justified(f, bounds) && Progress(f, bounds0, bounds, changed)
    ensures !changed ==> forall k :: 0 <= k < |f.blocks[b].insts| ==> InstStable(f.blocks[b].insts[k], bounds)
  {
    bounds, changed := bounds0, false;
    for k := 0 to |f.blocks[b].insts|
      invariant Justified(f, bounds) && Progress(f, bounds0, bounds, changed)
      invariant !changed ==> forall l :: 0 <= l < k ==> InstStable(f.blocks[b].insts[l], bounds)
    {
      var i := f.blocks[b].insts[k];
      assert HasInst(f, b, k) && InstOk(i, f.vregs);
      var bound := BoundOf(i, bounds);
      if Def(i).Some? && bound.Some? {
        BoundFits(i, f.vregs, bounds);
        GuaranteedByBound(i, f.vregs, bounds);
        InsertFromInst(f, bounds, b, k, bound.value);
        TraceInst(f, bounds, b, k, bound.value);
        var (next, tightened) := Insert(bounds, Def(i).value, bound.value);
        if tightened {
          SlackInsert(bounds, Def(i).value, bound.value, f.vregs);
        }
        bounds, changed := next, changed || tightened;
      }
    }
  }

  lemma GuaranteedByBound(i: Inst, vregs: nat, bounds: Bounds)
    requires InstOk(i, vregs) && Def(i).Some? && BoundsOk(bounds) && BoundOf(i, bounds).Some?
    ensures Guaranteed(i, bounds, BoundOf(i, bounds).value)
  {
    forall regs: Regs, seen: nat | RegsOk(regs) && Holds(bounds, regs) && Uses(i) <= regs.Keys
      ensures Value(false, i, regs, seen) <= BoundOf(i, bounds).value
    {
      BoundSound(i, vregs, bounds, regs, seen);
    }
  }

  method Pass(f: Function, bounds0: Bounds) returns (bounds: Bounds, changed: bool)
    requires Justified(f, bounds0) && SingleAssignment(f) && FunctionOk(f)
    ensures Justified(f, bounds) && Progress(f, bounds0, bounds, changed)
    ensures !changed ==> forall b :: 0 <= b < |f.blocks| ==> BlockStable(f.blocks[b], bounds)
  {
    bounds, changed := bounds0, false;
    for b := 0 to |f.blocks|
      invariant Justified(f, bounds) && Progress(f, bounds0, bounds, changed)
      invariant !changed ==> forall c :: 0 <= c < b ==> BlockStable(f.blocks[c], bounds)
    {
      var inPhis, inInsts;
      bounds, inPhis := TightenPhis(f, b, bounds);
      bounds, inInsts := TightenInsts(f, b, bounds);
      changed := changed || inPhis || inInsts;
    }
  }

  lemma StableIsLawful(f: Function, bounds: Bounds)
    requires Traced(f, bounds) && FunctionOk(f)
    requires forall b :: 0 <= b < |f.blocks| ==> BlockStable(f.blocks[b], bounds)
    ensures Lawful(f, bounds)
  {
    forall b, k | HasInst(f, b, k) ensures InstLaw(f.blocks[b].insts[k], bounds) {
      var i := f.blocks[b].insts[k];
      assert InstOk(i, f.vregs) && InstTraced(i, bounds) && BlockStable(f.blocks[b], bounds) && InstStable(i, bounds);
      LawHolds(i, f.vregs, bounds);
    }
    forall b, k | HasPhi(f, b, k) ensures PhiLaw(f.blocks[b].phis[k], bounds) {
      var phi := f.blocks[b].phis[k];
      assert PhiTraced(phi, bounds) && BlockStable(f.blocks[b], bounds) && PhiStable(phi, bounds);
      PhiLawHolds(phi, bounds);
    }
  }

  /** Iterates until nothing changes. It ends; the result is justified, every register has the bound its operation
      gives and no other, and it is the loosest such result. */
  method ValueUpperBounds(f: Function) returns (bounds: Bounds)
    requires SingleAssignment(f) && FunctionOk(f)
    ensures Closed(f, bounds) && Lawful(f, bounds) && Loosest(f, bounds)
  {
    bounds := map[];
    var changed := true;
    while changed
      invariant Justified(f, bounds)
      invariant !changed ==> forall b :: 0 <= b < |f.blocks| ==> BlockStable(f.blocks[b], bounds)
      decreases Slack(bounds, f.vregs), changed
    {
      bounds, changed := Pass(f, bounds);
    }
    StableIsLawful(f, bounds);
  }

  // ------------------------------------------------------------ soundness over runs

  ghost predicate OutcomeHolds(bounds: Bounds, o: Outcome) {
    o.Goto? ==> RegsOk(o.regs) && Holds(bounds, o.regs)
  }

  lemma {:induction false} InstsHold(insts: seq<Inst>, vregs: nat, bounds: Bounds, block: nat, regs: Regs,
      log: StoreLog, memory: Memory)
    requires forall k :: 0 <= k < |insts| ==> InstOk(insts[k], vregs) && InstClosed(insts[k], bounds)
    requires RegsOk(regs) && Holds(bounds, regs)
    ensures OutcomeHolds(bounds, RunInsts(false, block, insts, regs, log, memory))
    decreases |insts|
  {
    if insts != [] && Uses(insts[0]) <= regs.Keys {
      var i := insts[0];
      if Def(i).Some? {
        var x := Value(false, i, regs, Seen(i, log, memory));
        ValueFits(false, i, vregs, regs, Seen(i, log, memory));
        assert InstClosed(i, bounds);
        InstsHold(insts[1..], vregs, bounds, block, regs[i.dst := x], log, memory);
      } else if i.Store? {
        InstsHold(insts[1..], vregs, bounds, block, regs, log + [StoreEvent(i.offset, i.size, regs[i.src])], memory);
      }
    }
  }

  lemma {:induction false} SourceListed(sources: seq<(nat, VReg)>, from: nat)
    requires SourceFrom(sources, from).Some?
    ensures exists k :: 0 <= k < |sources| && sources[k].1 == SourceFrom(sources, from).value
  {
    if sources[0].0 == from {
      assert sources[0].1 == SourceFrom(sources, from).value;
    } else {
      SourceListed(sources[1..], from);
      var k :| 0 <= k < |sources[1..]| && sources[1..][k].1 == SourceFrom(sources[1..], from).value;
      assert sources[k + 1].1 == SourceFrom(sources, from).value;
    }
  }

  lemma {:induction false} PhisHold(phis: seq<Phi>, bounds: Bounds, from: nat, regs: Regs)
    requires forall k :: 0 <= k < |phis| ==> PhiClosed(phis[k], bounds)
    requires RegsOk(regs) && Holds(bounds, regs)
    ensures EnterPhis(phis, from, regs).Some? ==>
      RegsOk(EnterPhis(phis, from, regs).value) && Holds(bounds, EnterPhis(phis, from, regs).value)
    decreases |phis|
  {
    if phis != [] {
      PhisHold(phis[..|phis| - 1], bounds, from, regs);
      var phi := phis[|phis| - 1];
      if SourceFrom(phi.sources, from).Some? {
        SourceListed(phi.sources, from);
        assert PhiClosed(phi, bounds);
      }
    }
  }

  /** Every bound holds for its register in every run, at the end of every block. */
  lemma {:induction false} BoundsHoldInRuns(f: Function, bounds: Bounds, memory: Memory, n: nat)
    requires FunctionOk(f) && Closed(f, bounds)
    ensures OutcomeHolds(bounds, Run(f, false, memory, n))
  {
    if n > 0 {
      BoundsHoldInRuns(f, bounds, memory, n - 1);
      BoundsHoldInBlock(f, bounds, memory, Run(f, false, memory, n - 1));
    }
  }

  lemma BoundsHoldInBlock(f: Function, bounds: Bounds, memory: Memory, o: Outcome)
    requires FunctionOk(f) && Closed(f, bounds) && OutcomeHolds(bounds, o)
    ensures OutcomeHolds(bounds, Step(f, false, o, memory))
  {
    if o.Goto? && o.block < |f.blocks| {
      var block := f.blocks[o.block];
      forall k | 0 <= k < |block.phis| ensures PhiClosed(block.phis[k], bounds) {
        assert HasPhi(f, o.block, k);
      }
      PhisHold(block.phis, bounds, o.from, o.regs);
      var entered := EnterPhis(block.phis, o.from, o.regs);
      if entered.Some? {
        forall k | 0 <= k < |block.insts|
          ensures InstOk(block.insts[k], f.vregs) && InstClosed(block.insts[k], bounds)
        {
          assert HasInst(f, o.block, k);
        }
        InstsHold(block.insts, f.vregs, bounds, o.block, entered.value, o.log, memory);
      }
    }
  }
}
