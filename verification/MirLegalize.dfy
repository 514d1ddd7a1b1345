/** Legalizing variable shift counts for a machine that takes them modulo 64. */
module MirLegalize {
  import opened CfgErrors
  import opened Words
  import opened Mir
  import opened MirBounds
  import opened MirLaws
  import opened MirTrace
  import opened MirFixpoint

  // ------------------------------------------------------------ the rewriting

  predicate IsShift(i: Inst) {
    i.Binary? && (i.op.Shl? || i.op.Shr? || i.op.Sar?)
  }

  /** A shift whose count is not known to be below 64. */
  predicate NeedsGuard(i: Inst, bounds: Bounds) {
    IsShift(i) && !(i.rhs in bounds && bounds[i.rhs] < 64)
  }

  /** The raw machine shift, the value for counts out of range, and the choice between them. */
  function Guarded(i: Inst, next: VReg): (r: seq<Inst>)
    requires IsShift(i)
    ensures |r| == 3
  {
    [ Binary(i.op, next, i.lhs, i.rhs),
      if i.op.Sar? then Immediate(SarImm, next + 1, i.lhs, 63) else LoadImm(next + 1, 0),
      CmpImmSelect(i.dst, i.rhs, 64, LtU, next, next + 1) ]
  }

  function GuardDescs(i: Inst): seq<SpillDesc>
    requires IsShift(i)
  {
    [Transient, if i.op.Sar? then Transient else Remat(0)]
  }

  function GuardCount(insts: seq<Inst>, bounds: Bounds): nat {
    if insts == [] then 0 else (if NeedsGuard(insts[0], bounds) then 1 else 0) + GuardCount(insts[1..], bounds)
  }

  function One(i: Inst, bounds: Bounds, next: VReg): seq<Inst> {
    if NeedsGuard(i, bounds) then Guarded(i, next) else [i]
  }

  function NextAfter(i: Inst, bounds: Bounds, next: VReg): VReg {
    if NeedsGuard(i, bounds) then next + 2 else next
  }

  /** The rewritten instructions of a block; temporaries are numbered from `next` on. */
  function Rewritten(insts: seq<Inst>, bounds: Bounds, next: VReg): seq<Inst> {
    if insts == [] then []
    else One(insts[0], bounds, next) + Rewritten(insts[1..], bounds, NextAfter(insts[0], bounds, next))
  }

  function RewrittenDescs(insts: seq<Inst>, bounds: Bounds): seq<SpillDesc> {
    if insts == [] then []
    else (if NeedsGuard(insts[0], bounds) then GuardDescs(insts[0]) else []) + RewrittenDescs(insts[1..], bounds)
  }

  lemma {:induction false} CountJoin(a: seq<Inst>, b: seq<Inst>, bounds: Bounds)
    ensures GuardCount(a + b, bounds) == GuardCount(a, bounds) + GuardCount(b, bounds)
    decreases |a|
  {
    if a == [] {
      assert a + b == b;
    } else {
      assert (a + b)[1..] == a[1..] + b;
      CountJoin(a[1..], b, bounds);
    }
  }

  lemma {:induction false} DescsJoin(a: seq<Inst>, b: seq<Inst>, bounds: Bounds)
    ensures RewrittenDescs(a + b, bounds) == RewrittenDescs(a, bounds) + RewrittenDescs(b, bounds)
    decreases |a|
  {
    if a == [] {
      assert a + b == b;
    } else {
      assert (a + b)[1..] == a[1..] + b;
      DescsJoin(a[1..], b, bounds);
    }
  }

  lemma {:induction false} RewrittenJoin(a: seq<Inst>, b: seq<Inst>, bounds: Bounds, next: VReg)
    ensures Rewritten(a + b, bounds, next) ==
            Rewritten(a, bounds, next) + Rewritten(b, bounds, next + 2 * GuardCount(a, bounds))
    decreases |a|
  {
    if a == [] {
      assert a + b == b;
    } else {
      var i, rest := a[0], a[1..];
      RewrittenJoin(rest, b, bounds, NextAfter(i, bounds, next));
      assert a + b == [i] + (rest + b) && a == [i] + rest;
      JoinCons(i, rest, b, bounds, next, next + 2 * GuardCount(a, bounds));
    }
  }

  lemma JoinCons(i: Inst, rest: seq<Inst>, b: seq<Inst>, bounds: Bounds, next: VReg, last: VReg)
    requires Rewritten(rest + b, bounds, NextAfter(i, bounds, next)) ==
             Rewritten(rest, bounds, NextAfter(i, bounds, next)) + Rewritten(b, bounds, last)
    ensures Rewritten([i] + (rest + b), bounds, next) ==
            Rewritten([i] + rest, bounds, next) + Rewritten(b, bounds, last)
  {
    RewrittenCons(i, rest + b, bounds, next);
    RewrittenCons(i, rest, bounds, next);
    Associate(One(i, bounds, next), Rewritten(rest, bounds, NextAfter(i, bounds, next)), Rewritten(b, bounds, last));
  }

  lemma Associate(a: seq<Inst>, b: seq<Inst>, c: seq<Inst>)
    ensures a + (b + c) == (a + b) + c
  {
  }

  lemma RewrittenCons(i: Inst, insts: seq<Inst>, bounds: Bounds, next: VReg)
    ensures Rewritten([i] + insts, bounds, next) ==
            One(i, bounds, next) + Rewritten(insts, bounds, NextAfter(i, bounds, next))
  {
    assert ([i] + insts)[0] == i && ([i] + insts)[1..] == insts;
  }

  lemma {:induction false} NothingToGuard(insts: seq<Inst>, bounds: Bounds, next: VReg)
    requires GuardCount(insts, bounds) == 0
    ensures Rewritten(insts, bounds, next) == insts && RewrittenDescs(insts, bounds) == []
  {
    if insts != [] {
      NothingToGuard(insts[1..], bounds, next);
    }
  }

  method CountGuards(insts: seq<Inst>, bounds: Bounds) returns (count: nat)
    ensures count == GuardCount(insts, bounds)
  {
    count := 0;
    for k := 0 to |insts|
      invariant count == GuardCount(insts[..k], bounds)
    {
      assert insts[..k + 1] == insts[..k] + [insts[k]];
      CountJoin(insts[..k], [insts[k]], bounds);
      if NeedsGuard(insts[k], bounds) {
        count := count + 1;
      }
    }
    assert insts[..|insts|] == insts;
  }

  lemma OneMore(insts: seq<Inst>, k: nat, bounds: Bounds, next0: VReg)
    requires k < |insts|
    ensures
      var (a, i) := (insts[..k], insts[k]);
      var next := next0 + 2 * GuardCount(a, bounds);
      && Rewritten(insts[..k + 1], bounds, next0) == Rewritten(a, bounds, next0) + One(i, bounds, next)
      && next0 + 2 * GuardCount(insts[..k + 1], bounds) == NextAfter(i, bounds, next)
      && RewrittenDescs(insts[..k + 1], bounds) ==
         RewrittenDescs(a, bounds) + if NeedsGuard(i, bounds) then GuardDescs(i) else []
  {
    var a, i := insts[..k], insts[k];
    assert insts[..k + 1] == a + [i];
    RewrittenJoin(a, [i], bounds, next0);
    CountJoin(a, [i], bounds);
    DescsJoin(a, [i], bounds);
  }

  /** Pushes one instruction, guarded if it needs to be. */
  method PushOne(i: Inst, bounds: Bounds, rewritten0: seq<Inst>, next0: VReg, descs0: seq<SpillDesc>)
    returns (rewritten: seq<Inst>, next: VReg, descs: seq<SpillDesc>)
    requires |descs0| == next0
    ensures rewritten == rewritten0 + One(i, bounds, next0) && next == NextAfter(i, bounds, next0)
    ensures descs == descs0 + (if NeedsGuard(i, bounds) then GuardDescs(i) else []) && |descs| == next
  {
    rewritten, next, descs := rewritten0, next0, descs0;
    if !NeedsGuard(i, bounds) {
      rewritten := rewritten + [i];
    } else {
      var raw, other := next, next + 1;
      descs := descs + [Transient, if i.op.Sar? then Transient else Remat(0)];
      next := next + 2;
      rewritten := rewritten + [Binary(i.op, raw, i.lhs, i.rhs)];
      rewritten := rewritten + [if i.op.Sar? then Immediate(SarImm, other, i.lhs, 63) else LoadImm(other, 0)];
      rewritten := rewritten + [CmpImmSelect(i.dst, i.rhs, 64, LtU, raw, other)];
    }
  }

  /** Rewrites one block, taking temporaries from the register counter. */
  method LegalizeBlock(insts: seq<Inst>, bounds: Bounds, next0: VReg, descs0: seq<SpillDesc>)
    returns (rewritten: seq<Inst>, next: VReg, descs: seq<SpillDesc>)
    requires |descs0| == next0
    ensures rewritten == Rewritten(insts, bounds, next0) && next == next0 + 2 * GuardCount(insts, bounds)
    ensures descs == descs0 + RewrittenDescs(insts, bounds) && |descs| == next
  {
    rewritten, next, descs := insts, next0, descs0;
    var count := CountGuards(insts, bounds);
    if count == 0 {
      NothingToGuard(insts, bounds, next0);
      return;
    }
    rewritten := [];
    for k := 0 to |insts|
      invariant rewritten == Rewritten(insts[..k], bounds, next0) && next == next0 + 2 * GuardCount(insts[..k], bounds)
      invariant descs == descs0 + RewrittenDescs(insts[..k], bounds) && |descs| == next
    {
      OneMore(insts, k, bounds, next0);
      rewritten, next, descs := PushOne(insts[k], bounds, rewritten, next, descs);
    }
    assert insts[..|insts|] == insts;
  }

  /** The first temporary of block `b`: after the original registers and the temporaries of earlier blocks. */
  function NextAt(f: Function, bounds: Bounds, b: nat): (next: VReg)
    requires b <= |f.blocks|
    ensures next >= f.vregs
  {
    if b == 0 then f.vregs else NextAt(f, bounds, b - 1) + 2 * GuardCount(f.blocks[b - 1].insts, bounds)
  }

  /** What is recorded of the temporaries of the first `b` blocks. */
  function DescsAt(f: Function, bounds: Bounds, b: nat): seq<SpillDesc>
    requires b <= |f.blocks|
  {
    if b == 0 then [] else DescsAt(f, bounds, b - 1) + RewrittenDescs(f.blocks[b - 1].insts, bounds)
  }

  /** Blocks keep their phis; their instructions are rewritten, each with temporaries of its own. */
  ghost predicate IsLegalized(f: Function, r: Function, bounds: Bounds) {
    && |r.blocks| == |f.blocks| && r.vregs == NextAt(f, bounds, |f.blocks|)
    && r.spillDescs == f.spillDescs + DescsAt(f, bounds, |f.blocks|)
    && forall b :: 0 <= b < |f.blocks| ==> r.blocks[b] == LegalizedBlock(f, bounds, b)
  }

  function LegalizedBlock(f: Function, bounds: Bounds, b: nat): Block
    requires b < |f.blocks|
  {
    Block(f.blocks[b].phis, Rewritten(f.blocks[b].insts, bounds, NextAt(f, bounds, b)))
  }

  lemma JoinDescs(a: seq<SpillDesc>, b: seq<SpillDesc>, c: seq<SpillDesc>)
    ensures (a + b) + c == a + (b + c)
  {
  }

  method Legalize(f: Function) returns (r: Function, ghost bounds: Bounds)
    requires SingleAssignment(f) && FunctionOk(f) && |f.spillDescs| == f.vregs
    ensures Closed(f, bounds) && Lawful(f, bounds) && Loosest(f, bounds)
    ensures IsLegalized(f, r, bounds) && |r.spillDescs| == r.vregs
  {
    var known := ValueUpperBounds(f);
    bounds := known;
    var blocks: seq<Block> := [];
    var next, descs := f.vregs, f.spillDescs;
    for b := 0 to |f.blocks|
      invariant |blocks| == b && next == NextAt(f, known, b) && |descs| == next
      invariant descs == f.spillDescs + DescsAt(f, known, b)
      invariant forall c :: 0 <= c < b ==> blocks[c] == LegalizedBlock(f, known, c)
    {
      var insts;
      insts, next, descs := LegalizeBlock(f.blocks[b].insts, known, next, descs);
      JoinDescs(f.spillDescs, DescsAt(f, known, b), RewrittenDescs(f.blocks[b].insts, known));
      blocks := blocks + [Block(f.blocks[b].phis, insts)];
    }
    r := Function(blocks, next, descs);
  }

  // ------------------------------------------------------------ the simulation

  /** Every original register that is written has the same value; temporaries are free. */
  ghost predicate Related(vregs: nat, regs: Regs, machineRegs: Regs) {
    forall v :: v in regs ==> v < vregs && v in machineRegs && machineRegs[v] == regs[v]
  }

  ghost predicate SameOutcome(vregs: nat, o: Outcome, m: Outcome) {
    match o
    case Goto(block, from, regs, log) =>
      m.Goto? && m.block == block && m.from == from && m.log == log && Related(vregs, regs, m.regs)
    case Halted(log) => m == Halted(log)
    case Stuck => true
  }

  /** An instruction other than an unguarded shift computes the same on the machine. */
  lemma SameValue(i: Inst, vregs: nat, bounds: Bounds, regs: Regs, machineRegs: Regs, seen: nat)
    requires InstOk(i, vregs) && Def(i).Some? && Uses(i) <= regs.Keys && Related(vregs, regs, machineRegs)
    requires Holds(bounds, regs) && !NeedsGuard(i, bounds)
    ensures Uses(i) <= machineRegs.Keys && Value(true, i, machineRegs, seen) == Value(false, i, regs, seen)
  {
    if IsShift(i) {
      assert regs[i.rhs] < 64;
      assert machineRegs[i.rhs] % 64 == regs[i.rhs];
    }
  }

  /** What the three instructions leave in the destination is the shift MIR means. */
  lemma GuardValue(op: BinaryOp, a: nat, s: nat)
    requires (op.Shl? || op.Shr? || op.Sar?) && a < WORD && s < WORD
    ensures
      var raw := BinaryValue(true, op, a, s);
      var other := if op.Sar? then ImmediateValue(SarImm, a, 63) else 0;
      (if Compare(LtU, s, Wrap(64)) then raw else other) == BinaryValue(false, op, a, s)
  {
    ShiftBySign(a);
    if s < 64 {
      assert s % 64 == s;
    }
  }

  lemma RunOne(machine: bool, block: nat, i: Inst, rest: seq<Inst>, regs: Regs, log: StoreLog, memory: Memory)
    requires Def(i).Some? && Uses(i) <= regs.Keys
    ensures RunInsts(machine, block, [i] + rest, regs, log, memory) ==
            RunInsts(machine, block, rest, regs[i.dst := Value(machine, i, regs, Seen(i, log, memory))], log, memory)
  {
    assert ([i] + rest)[1..] == rest;
  }

  /** The registers after the three instructions of a guarded shift. */
  ghost function AfterGuard(i: Inst, next: VReg, machineRegs: Regs): (r: Regs)
    requires IsShift(i) && Uses(i) <= machineRegs.Keys
  {
    var m1 := machineRegs[next := BinaryValue(true, i.op, machineRegs[i.lhs], machineRegs[i.rhs])];
    var m2 := m1[next + 1 := if i.op.Sar? then ImmediateValue(SarImm, machineRegs[i.lhs], 63) else 0];
    m2[i.dst := if Compare(LtU, machineRegs[i.rhs], Wrap(64)) then m2[next] else m2[next + 1]]
  }

  lemma RunThree(machine: bool, block: nat, a: Inst, b: Inst, c: Inst, rest: seq<Inst>, regs: Regs, log: StoreLog,
      memory: Memory)
    requires Def(a).Some? && Def(b).Some? && Def(c).Some? && !a.Load? && !b.Load? && !c.Load?
    requires Uses(a) <= regs.Keys
    requires Uses(b) <= regs[a.dst := Value(machine, a, regs, 0)].Keys
    requires
      var m1 := regs[a.dst := Value(machine, a, regs, 0)];
      Uses(c) <= m1[b.dst := Value(machine, b, m1, 0)].Keys
    ensures
      var m1 := regs[a.dst := Value(machine, a, regs, 0)];
      var m2 := m1[b.dst := Value(machine, b, m1, 0)];
      RunInsts(machine, block, [a, b, c] + rest, regs, log, memory) ==
      RunInsts(machine, block, rest, m2[c.dst := Value(machine, c, m2, 0)], log, memory)
  {
    var m1 := regs[a.dst := Value(machine, a, regs, 0)];
    var m2 := m1[b.dst := Value(machine, b, m1, 0)];
    assert [a, b, c] + rest == [a] + ([b] + ([c] + rest));
    RunOne(machine, block, a, [b] + ([c] + rest), regs, log, memory);
    RunOne(machine, block, b, [c] + rest, m1, log, memory);
    RunOne(machine, block, c, rest, m2, log, memory);
  }

  lemma GuardSteps(i: Inst, next: VReg, vregs: nat, machineRegs: Regs)
    requires IsShift(i) && InstOk(i, vregs) && Uses(i) <= machineRegs.Keys && next >= vregs
    ensures
      var three := Guarded(i, next);
      var m1 := machineRegs[next := Value(true, three[0], machineRegs, 0)];
      Uses(three[1]) <= m1.Keys &&
      var m2 := m1[next + 1 := Value(true, three[1], m1, 0)];
      Uses(three[2]) <= m2.Keys && m2[i.dst := Value(true, three[2], m2, 0)] == AfterGuard(i, next, machineRegs)
  {
  }

  lemma RunGuard(i: Inst, next: VReg, rest: seq<Inst>, vregs: nat, block: nat, machineRegs: Regs, log: StoreLog,
      memory: Memory)
    requires IsShift(i) && InstOk(i, vregs) && Uses(i) <= machineRegs.Keys && next >= vregs
    ensures RunInsts(true, block, Guarded(i, next) + rest, machineRegs, log, memory) ==
            RunInsts(true, block, rest, AfterGuard(i, next, machineRegs), log, memory)
  {
    var three := Guarded(i, next);
    GuardSteps(i, next, vregs, machineRegs);
    assert three == [three[0], three[1], three[2]];
    RunThree(true, block, three[0], three[1], three[2], rest, machineRegs, log, memory);
  }

  /** Running the guarded form of a shift writes the same value as the shift, and two temporaries. */
  lemma GuardRelated(i: Inst, next: VReg, vregs: nat, regs: Regs, machineRegs: Regs)
    requires IsShift(i) && InstOk(i, vregs) && Uses(i) <= regs.Keys && RegsOk(regs)
    requires Related(vregs, regs, machineRegs) && next >= vregs
    ensures Uses(i) <= machineRegs.Keys
    ensures Related(vregs, regs[i.dst := Value(false, i, regs, 0)], AfterGuard(i, next, machineRegs))
  {
    GuardValue(i.op, regs[i.lhs], regs[i.rhs]);
  }

  lemma {:induction false} SimulateInsts(insts: seq<Inst>, next: VReg, vregs: nat, bounds: Bounds, block: nat,
                                         regs: Regs, machineRegs: Regs, log: StoreLog, memory: Memory)
    requires forall k :: 0 <= k < |insts| ==> InstOk(insts[k], vregs) && InstClosed(insts[k], bounds)
    requires RegsOk(regs) && Holds(bounds, regs) && Related(vregs, regs, machineRegs) && next >= vregs
    ensures SameOutcome(vregs, RunInsts(false, block, insts, regs, log, memory),
                        RunInsts(true, block, Rewritten(insts, bounds, next), machineRegs, log, memory))
    decreases |insts|
  {
    if insts != [] && Uses(insts[0]) <= regs.Keys {
      var i, rest := insts[0], insts[1..];
      assert [i] + rest == insts;
      if Def(i).Some? {
        SimulateDef(insts, next, vregs, bounds, block, regs, machineRegs, log, memory);
      } else {
        var out := Rewritten(rest, bounds, next);
        assert ([i] + out)[0] == i && ([i] + out)[1..] == out;
        if i.Store? {
          SimulateInsts(rest, next, vregs, bounds, block, regs, machineRegs,
            log + [StoreEvent(i.offset, i.size, regs[i.src])], memory);
        }
      }
    }
  }

  lemma {:induction false} SimulateDef(insts: seq<Inst>, next: VReg, vregs: nat, bounds: Bounds, block: nat,
                                       regs: Regs, machineRegs: Regs, log: StoreLog, memory: Memory)
    requires forall k :: 0 <= k < |insts| ==> InstOk(insts[k], vregs) && InstClosed(insts[k], bounds)
    requires RegsOk(regs) && Holds(bounds, regs) && Related(vregs, regs, machineRegs) && next >= vregs
    requires insts != [] && Def(insts[0]).Some? && Uses(insts[0]) <= regs.Keys
    ensures SameOutcome(vregs, RunInsts(false, block, insts, regs, log, memory),
                        RunInsts(true, block, Rewritten(insts, bounds, next), machineRegs, log, memory))
    decreases |insts|, 0
  {
    var i, rest := insts[0], insts[1..];
    var seen := Seen(i, log, memory);
    var x := Value(false, i, regs, seen);
    assert [i] + rest == insts;
    RunOne(false, block, i, rest, regs, log, memory);
    ValueFits(false, i, vregs, regs, seen);
    assert InstClosed(i, bounds);
    if NeedsGuard(i, bounds) {
      GuardRelated(i, next, vregs, regs, machineRegs);
      RunGuard(i, next, Rewritten(rest, bounds, next + 2), vregs, block, machineRegs, log, memory);
      SimulateInsts(rest, next + 2, vregs, bounds, block, regs[i.dst := x], AfterGuard(i, next, machineRegs), log,
        memory);
    } else {
      SameValue(i, vregs, bounds, regs, machineRegs, seen);
      RunOne(true, block, i, Rewritten(rest, bounds, next), machineRegs, log, memory);
      SimulateInsts(rest, next, vregs, bounds, block, regs[i.dst := x], machineRegs[i.dst := x], log, memory);
    }
  }

  lemma {:induction false} SimulatePhis(phis: seq<Phi>, vregs: nat, from: nat, regs: Regs, machineRegs: Regs)
    requires forall k :: 0 <= k < |phis| ==> PhiOk(phis[k], vregs)
    requires Related(vregs, regs, machineRegs) && EnterPhis(phis, from, regs).Some?
    ensures EnterPhis(phis, from, machineRegs).Some?
    ensures Related(vregs, EnterPhis(phis, from, regs).value, EnterPhis(phis, from, machineRegs).value)
    decreases |phis|
  {
    if phis != [] {
      SimulatePhis(phis[..|phis| - 1], vregs, from, regs, machineRegs);
      assert PhiOk(phis[|phis| - 1], vregs);
    }
  }

  lemma SimulateBlock(f: Function, r: Function, bounds: Bounds, memory: Memory, o: Outcome, m: Outcome)
    requires FunctionOk(f) && Closed(f, bounds) && IsLegalized(f, r, bounds)
    requires OutcomeHolds(bounds, o) && !o.Stuck? && SameOutcome(f.vregs, o, m)
    ensures SameOutcome(f.vregs, Step(f, false, o, memory), Step(r, true, m, memory))
  {
    if o.Goto? && o.block < |f.blocks| {
      var block := f.blocks[o.block];
      assert r.blocks[o.block] == LegalizedBlock(f, bounds, o.block);
      var entered := EnterPhis(block.phis, o.from, o.regs);
      if entered.Some? {
        forall k | 0 <= k < |block.phis| ensures PhiOk(block.phis[k], f.vregs) && PhiClosed(block.phis[k], bounds) {
          assert HasPhi(f, o.block, k);
        }
        SimulatePhis(block.phis, f.vregs, o.from, o.regs, m.regs);
        PhisHold(block.phis, bounds, o.from, o.regs);
        forall k | 0 <= k < |block.insts|
          ensures InstOk(block.insts[k], f.vregs) && InstClosed(block.insts[k], bounds)
        {
          assert HasInst(f, o.block, k);
        }
        SimulateInsts(block.insts, NextAt(f, bounds, o.block), f.vregs, bounds, o.block, entered.value,
          EnterPhis(block.phis, o.from, m.regs).value, o.log, memory);
      }
    }
  }

  /**
    For every memory and any number of blocks run: unless the original reads a register it never wrote, the
    legalized function on the machine is at the same block with the same stores done and the same values in
    all original registers, or has returned with the same stores.
   */
  lemma {:induction false} LegalizedRunsAlike(f: Function, r: Function, bounds: Bounds, memory: Memory, n: nat)
    requires FunctionOk(f) && Closed(f, bounds) && IsLegalized(f, r, bounds)
    ensures SameOutcome(f.vregs, Run(f, false, memory, n), Run(r, true, memory, n))
    decreases n
  {
    if n > 0 {
      LegalizedRunsAlike(f, r, bounds, memory, n - 1);
      BoundsHoldInRuns(f, bounds, memory, n - 1);
      var o := Run(f, false, memory, n - 1);
      if !o.Stuck? {
        SimulateBlock(f, r, bounds, memory, o, Run(r, true, memory, n - 1));
      }
    }
  }
}
