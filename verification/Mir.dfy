/** A small machine IR in SSA form, one instruction per semantic class, and how it runs. */
module Mir {
  import opened CfgErrors
  import opened Words

  type VReg = nat

  datatype Size = S8 | S16 | S32 | S64

  datatype CmpKind = Eq | Ne | LtU | LtS | LeU | LeS | GtU | GtS | GeU | GeS

  /** Two-operand operations; the `32` forms work on the low halves and clear the high half. */
  datatype BinaryOp =
    | And | And32 | Or | Or32 | Xor | Xor32
    | Add | Add32 | Sub | Sub32 | Mul | Mul32
    | Shl | Shr | Sar

  datatype ImmediateOp = AndImm | AndImm32 | OrImm | AddImm | ShlImm | ShrImm | SarImm

  datatype Inst =
    | LoadImm(dst: VReg, value: nat)
    | Mov(dst: VReg, src: VReg)
    | Mov32(dst: VReg, src: VReg)
    | Load(dst: VReg, offset: int, size: Size)
    | Store(offset: int, src: VReg, size: Size)
    | Binary(op: BinaryOp, dst: VReg, lhs: VReg, rhs: VReg)
    | Immediate(iop: ImmediateOp, dst: VReg, src: VReg, imm: int)
    | Cmp(dst: VReg, lhs: VReg, rhs: VReg, kind: CmpKind)
    | CmpImm(dst: VReg, lhs: VReg, imm: int, kind: CmpKind)
    | Select(dst: VReg, cond: VReg, trueVal: VReg, falseVal: VReg)
    | CmpSelect(dst: VReg, lhs: VReg, rhs: VReg, kind: CmpKind, trueVal: VReg, falseVal: VReg)
    | CmpImmSelect(dst: VReg, lhs: VReg, imm: int, kind: CmpKind, trueVal: VReg, falseVal: VReg)
    | GuardedCmpSelect(dst: VReg, guard: VReg, lhs: VReg, rhs: VReg, kind: CmpKind, trueVal: VReg, falseVal: VReg)
    | Branch(cond: VReg, trueBlock: nat, falseBlock: nat)
    | Jump(target: nat)
    | Return

  datatype Phi = Phi(dst: VReg, sources: seq<(nat, VReg)>)

  datatype Block = Block(phis: seq<Phi>, insts: seq<Inst>)

  datatype SpillDesc = Transient | Remat(value: nat)

  datatype Function = Function(blocks: seq<Block>, vregs: nat, spillDescs: seq<SpillDesc>)

  // ------------------------------------------------------------ operands

  function Def(i: Inst): Option<VReg> {
    match i
    case Store(_, _, _) => None
    case Branch(_, _, _) => None
    case Jump(_) => None
    case Return => None
    case _ => Some(i.dst)
  }

  function Uses(i: Inst): set<VReg> {
    match i
    case LoadImm(_, _) => {}
    case Mov(_, src) => {src}
    case Mov32(_, src) => {src}
    case Load(_, _, _) => {}
    case Store(_, src, _) => {src}
    case Binary(_, _, lhs, rhs) => {lhs, rhs}
    case Immediate(_, _, src, _) => {src}
    case Cmp(_, lhs, rhs, _) => {lhs, rhs}
    case CmpImm(_, lhs, _, _) => {lhs}
    case Select(_, cond, t, f) => {cond, t, f}
    case CmpSelect(_, lhs, rhs, _, t, f) => {lhs, rhs, t, f}
    case CmpImmSelect(_, lhs, _, _, t, f) => {lhs, t, f}
    case GuardedCmpSelect(_, guard, lhs, rhs, _, t, f) => {guard, lhs, rhs, t, f}
    case Branch(cond, _, _) => {cond}
    case Jump(_) => {}
    case Return => {}
  }

  // ------------------------------------------------------------ values

  type Regs = map<VReg, nat>

  /** Everything a run has stored so far, which determines what its loads see. */
  datatype StoreEvent = StoreEvent(offset: int, size: Size, value: nat)

  type StoreLog = seq<StoreEvent>

  /** What a load sees after the given stores; any memory whatsoever. */
  type Memory = (StoreLog, int, Size) -> nat

  function SizeMask(size: Size): (r: nat)
    ensures r < WORD
  {
    match size
    case S8 => 0xFF
    case S16 => 0xFFFF
    case S32 => 0xFFFF_FFFF
    case S64 => 0xFFFF_FFFF_FFFF_FFFF
  }

  predicate Compare(kind: CmpKind, a: nat, b: nat) {
    match kind
    case Eq => a == b
    case Ne => a != b
    case LtU => a < b
    case LeU => a <= b
    case GtU => a > b
    case GeU => a >= b
    case LtS => Signed(a) < Signed(b)
    case LeS => Signed(a) <= Signed(b)
    case GtS => Signed(a) > Signed(b)
    case GeS => Signed(a) >= Signed(b)
  }

  /** The machine takes variable shift counts modulo 64; MIR does not. */
  function Count(machine: bool, s: nat): nat {
    if machine then s % 64 else s
  }

  function BinaryValue(machine: bool, op: BinaryOp, a: nat, b: nat): (r: nat) {
    match op
    case And => BitAnd(a, b)
    case And32 => BitAnd(a % WORD32, b % WORD32)
    case Or => BitOr(a, b)
    case Or32 => BitOr(a % WORD32, b % WORD32)
    case Xor => BitXor(a, b)
    case Xor32 => BitXor(a % WORD32, b % WORD32)
    case Add => (a + b) % WORD
    case Add32 => (a + b) % WORD32
    case Sub => Wrap(a - b)
    case Sub32 => (a - b) % WORD32
    case Mul => a * b % WORD
    case Mul32 => a * b % WORD32
    case Shl => ShiftLeft(a, Count(machine, b))
    case Shr => ShiftRight(a, Count(machine, b))
    case Sar => ShiftArithmetic(a, Count(machine, b))
  }

  function ImmediateValue(op: ImmediateOp, a: nat, imm: int): nat {
    match op
    case AndImm => BitAnd(a, Wrap(imm))
    case AndImm32 => BitAnd(a % WORD32, imm % WORD32)
    case OrImm => BitOr(a, Wrap(imm))
    case AddImm => Wrap(a + imm)
    case ShlImm => if imm < 0 then 0 else ShiftLeft(a, imm)
    case ShrImm => if imm < 0 then 0 else ShiftRight(a, imm)
    case SarImm => if imm < 0 then 0 else ShiftArithmetic(a, imm)
  }

  function Bit(b: bool): nat {
    if b then 1 else 0
  }

  /** The value an instruction defines; `seen` is what a load finds in memory. */
  function Value(machine: bool, i: Inst, regs: Regs, seen: nat): nat
    requires Def(i).Some? && Uses(i) <= regs.Keys
  {
    match i
    case LoadImm(_, value) => value
    case Mov(_, src) => regs[src]
    case Mov32(_, src) => regs[src] % WORD32
    case Load(_, _, size) => seen % (SizeMask(size) + 1)
    case Binary(op, _, lhs, rhs) => BinaryValue(machine, op, regs[lhs], regs[rhs])
    case Immediate(op, _, src, imm) => ImmediateValue(op, regs[src], imm)
    case Cmp(_, lhs, rhs, kind) => Bit(Compare(kind, regs[lhs], regs[rhs]))
    case CmpImm(_, lhs, imm, kind) => Bit(Compare(kind, regs[lhs], Wrap(imm)))
    case Select(_, cond, t, f) => if regs[cond] != 0 then regs[t] else regs[f]
    case CmpSelect(_, lhs, rhs, kind, t, f) => if Compare(kind, regs[lhs], regs[rhs]) then regs[t] else regs[f]
    case CmpImmSelect(_, lhs, imm, kind, t, f) => if Compare(kind, regs[lhs], Wrap(imm)) then regs[t] else regs[f]
    case GuardedCmpSelect(_, guard, lhs, rhs, kind, t, f) =>
      if regs[guard] != 0 && Compare(kind, regs[lhs], regs[rhs]) then regs[t] else regs[f]
  }

  // ------------------------------------------------------------ running

  function Seen(i: Inst, log: StoreLog, memory: Memory): nat {
    if i.Load? then memory(log, i.offset, i.size) else 0
  }

  /** Where running a block leads. Reading a register that was never written is stuck. */
  datatype Outcome =
    | Goto(block: nat, from: nat, regs: Regs, log: StoreLog)
    | Halted(log: StoreLog)
    | Stuck

  function RunInsts(machine: bool, block: nat, insts: seq<Inst>, regs: Regs, log: StoreLog, memory: Memory): Outcome
    decreases |insts|
  {
    if insts == [] || !(Uses(insts[0]) <= regs.Keys) then Stuck
    else
      match insts[0]
      case Return => Halted(log)
      case Jump(target) => Goto(target, block, regs, log)
      case Branch(cond, t, f) => Goto(if regs[cond] != 0 then t else f, block, regs, log)
      case Store(offset, src, size) =>
        RunInsts(machine, block, insts[1..], regs, log + [StoreEvent(offset, size, regs[src])], memory)
      case i =>
        RunInsts(machine, block, insts[1..], regs[i.dst := Value(machine, i, regs, Seen(i, log, memory))], log, memory)
  }

  /** The source of a phi for the edge from `from`. */
  function SourceFrom(sources: seq<(nat, VReg)>, from: nat): Option<VReg> {
    if sources == [] then None
    else if sources[0].0 == from then Some(sources[0].1)
    else SourceFrom(sources[1..], from)
  }

  /** All phis of a block read the registers of the edge at once. */
  function EnterPhis(phis: seq<Phi>, from: nat, regs: Regs): Option<Regs> {
    if phis == [] then Some(regs)
    else
      var rest := EnterPhis(phis[..|phis| - 1], from, regs);
      var phi := phis[|phis| - 1];
      var source := SourceFrom(phi.sources, from);
      if rest.None? || source.None? || source.value !in regs then None
      else Some(rest.value[phi.dst := regs[source.value]])
  }

  /** Runs the block an outcome leads to. */
  function Step(f: Function, machine: bool, o: Outcome, memory: Memory): Outcome {
    if !o.Goto? then o
    else if o.block >= |f.blocks| then Stuck
    else
      var entered := EnterPhis(f.blocks[o.block].phis, o.from, o.regs);
      if entered.None? then Stuck
      else RunInsts(machine, o.block, f.blocks[o.block].insts, entered.value, o.log, memory)
  }

  /** The entry block has no phis to fill; it is entered from no block. */
  function Start(): Outcome {
    Goto(0, 0, map[], [])
  }

  function Run(f: Function, machine: bool, memory: Memory, n: nat): Outcome {
    if n == 0 then Start() else Step(f, machine, Run(f, machine, memory, n - 1), memory)
  }
}
