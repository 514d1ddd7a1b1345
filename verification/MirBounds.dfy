/** Upper bounds of register values: the fixpoint, and why its bounds hold in every run. */
module MirBounds {
  import opened CfgErrors
  import opened Words
  import opened Mir

  type Bounds = map<VReg, nat>

  // ------------------------------------------------------------ well-formed functions

  predicate InstOk(i: Inst, vregs: nat) {
    && (forall v :: v in Uses(i) ==> v < vregs)
    && (Def(i).Some? ==> Def(i).value < vregs)
    && match i
       case LoadImm(_, value) => value < WORD
       case Immediate(op, _, _, imm) =>
         (match op
          case AndImm => 0 <= imm < WORD
          case OrImm => 0 <= imm < WORD
          case AndImm32 => 0 <= imm < WORD32
          case AddImm => -0x8000_0000 <= imm < 0x8000_0000
          case ShlImm => 0 <= imm < 256
          case ShrImm => 0 <= imm < 64
          case SarImm => 0 <= imm < 64)
       case _ => true
  }

  predicate PhiOk(phi: Phi, vregs: nat) {
    phi.dst < vregs && forall k :: 0 <= k < |phi.sources| ==> phi.sources[k].1 < vregs
  }

  predicate FunctionOk(f: Function) {
    && (forall b, k :: 0 <= b < |f.blocks| && 0 <= k < |f.blocks[b].insts| ==> InstOk(f.blocks[b].insts[k], f.vregs))
    && (forall b, k :: 0 <= b < |f.blocks| && 0 <= k < |f.blocks[b].phis| ==> PhiOk(f.blocks[b].phis[k], f.vregs))
  }

  /** Static single assignment: one defining instruction or phi per register. */
  ghost predicate SingleAssignment(f: Function) {
    && (forall b, k, c, l ::
          HasInst(f, b, k) && HasInst(f, c, l) && SameDef(f.blocks[b].insts[k], f.blocks[c].insts[l]) ==>
            b == c && k == l)
    && (forall b, k, c, l ::
          HasPhi(f, b, k) && HasPhi(f, c, l) && f.blocks[b].phis[k].dst == f.blocks[c].phis[l].dst ==> b == c && k == l)
    && (forall b, k, c, l :: HasInst(f, b, k) && HasPhi(f, c, l) ==>
         Def(f.blocks[b].insts[k]) != Some(f.blocks[c].phis[l].dst))
  }

  predicate SameDef(i: Inst, j: Inst) {
    Def(i).Some? && Def(i) == Def(j)
  }

  predicate HasInst(f: Function, b: int, k: int) {
    0 <= b < |f.blocks| && 0 <= k < |f.blocks[b].insts|
  }

  predicate HasPhi(f: Function, b: int, k: int) {
    0 <= b < |f.blocks| && 0 <= k < |f.blocks[b].phis|
  }

  // ------------------------------------------------------------ one instruction

  function Get(bounds: Bounds, v: VReg): Option<nat> {
    if v in bounds then Some(bounds[v]) else None
  }

  function GetOr(bounds: Bounds, v: VReg, other: nat): nat {
    if v in bounds then bounds[v] else other
  }

  function Min(a: nat, b: nat): nat {
    if a < b then a else b
  }

  function Max(a: nat, b: nat): nat {
    if a < b then b else a
  }

  function Checked(bound: int): Option<nat> {
    if 0 <= bound < WORD then Some(bound) else None
  }

  predicate BoundsOk(bounds: Bounds) {
    forall v :: v in bounds ==> bounds[v] < WORD
  }

  function BinaryBound(op: BinaryOp, left: Option<nat>, right: Option<nat>): Option<nat>
    requires (left.Some? ==> left.value < WORD) && (right.Some? ==> right.value < WORD)
  {
    match op
    case And =>
      if left.Some? && right.Some? then Some(Min(left.value, right.value)) else if left.Some? then left else right
    case And32 =>
      Some(Min(if left.Some? then left.value else WORD32 - 1, if right.Some? then right.value else WORD32 - 1))
    case Or => if left.Some? && right.Some? then Some(EnclosingLowMask(Max(left.value, right.value))) else None
    case Xor => if left.Some? && right.Some? then Some(EnclosingLowMask(Max(left.value, right.value))) else None
    case Or32 => if left.Some?
      && right.Some? then Some(EnclosingLowMask(Max(left.value, right.value))) else Some(WORD32 - 1)
    case Xor32 => if left.Some?
      && right.Some? then Some(EnclosingLowMask(Max(left.value, right.value))) else Some(WORD32 - 1)
    case Add => if left.Some? && right.Some? then Checked(left.value + right.value) else None
    case Mul => if left.Some? && right.Some? then Checked(left.value * right.value) else None
    case Add32 => Some(WORD32 - 1)
    case Sub32 => Some(WORD32 - 1)
    case Mul32 => Some(WORD32 - 1)
    case Sub => None
    case Shl => None
    case Shr => None
    case Sar => None
  }

  function ImmediateBound(op: ImmediateOp, bound: Option<nat>, imm: int): Option<nat>
    requires bound.Some? ==> bound.value < WORD
  {
    match op
    case AndImm => Checked(if imm < 0 then -1 else Min(if bound.Some? then bound.value else WORD - 1, imm))
    case AndImm32 => Checked(if imm < 0 then -1 else Min(if bound.Some? then bound.value else WORD32 - 1, imm))
    case OrImm => if bound.Some? && 0 <= imm < WORD then Some(EnclosingLowMask(Max(bound.value, imm))) else None
    case AddImm => if bound.Some? && imm >= 0 then Checked(bound.value + imm) else None
    case ShrImm =>
      if 0 <= imm < 64 then Some(Quotient(if bound.Some? then bound.value else WORD - 1, Pow2(imm))) else None
    case ShlImm =>
      if bound.Some? && 0 <= imm < 64
        && bound.value <= Quotient(WORD - 1, Pow2(imm)) then Some(bound.value * Pow2(imm)) else None
    case SarImm => None
  }

  function BothBound(left: Option<nat>, right: Option<nat>): Option<nat> {
    if left.Some? && right.Some? then Some(Max(left.value, right.value)) else None
  }

  /** The bound one instruction gives its result. */
  function BoundOf(i: Inst, bounds: Bounds): Option<nat>
    requires BoundsOk(bounds)
  {
    match i
    case LoadImm(_, value) => Some(value)
    case Mov(_, src) => Get(bounds, src)
    case Mov32(_, src) => Some(Min(GetOr(bounds, src, WORD32 - 1), WORD32 - 1))
    case Load(_, _, size) => Some(SizeMask(size))
    case Binary(op, _, lhs, rhs) => BinaryBound(op, Get(bounds, lhs), Get(bounds, rhs))
    case Immediate(op, _, src, imm) => ImmediateBound(op, Get(bounds, src), imm)
    case Cmp(_, _, _, _) => Some(1)
    case CmpImm(_, _, _, _) => Some(1)
    case Select(_, _, t, f) => BothBound(Get(bounds, t), Get(bounds, f))
    case CmpSelect(_, _, _, _, t, f) => BothBound(Get(bounds, t), Get(bounds, f))
    case CmpImmSelect(_, _, _, _, t, f) => BothBound(Get(bounds, t), Get(bounds, f))
    case GuardedCmpSelect(_, _, _, _, _, t, f) => BothBound(Get(bounds, t), Get(bounds, f))
    case Store(_, _, _) => None
    case Branch(_, _, _) => None
    case Jump(_) => None
    case Return => None
  }

  // ------------------------------------------------------------ soundness of one instruction

  predicate RegsOk(regs: Regs) {
    forall v :: v in regs ==> regs[v] < WORD
  }

  predicate Holds(bounds: Bounds, regs: Regs) {
    forall v :: v in bounds && v in regs ==> regs[v] <= bounds[v]
  }

  predicate Below(x: nat, bound: Option<nat>) {
    bound.Some? ==> x <= bound.value
  }

  lemma MulMono(a: nat, b: nat, c: nat, d: nat)
    requires a <= c && b <= d
    ensures a * b <= c * d
  {
    assert a * b <= c * b;
    assert c * b <= c * d;
  }

  lemma JoinBelow(a: nat, b: nat, left: nat, right: nat)
    requires a <= left < WORD && b <= right < WORD
    ensures BitOr(a, b) <= EnclosingLowMask(Max(left, right)) && BitXor(a, b) <= EnclosingLowMask(Max(left, right))
  {
    MaskHolds(a, b, EnclosingLowMask(Max(left, right)));
  }

  lemma LowHalfBelow(a: nat)
    ensures a % WORD32 <= a
  {
  }

  lemma BinarySound(op: BinaryOp, a: nat, b: nat, left: Option<nat>, right: Option<nat>)
    requires a < WORD && b < WORD && Below(a, left) && Below(b, right)
    requires (left.Some? ==> left.value < WORD) && (right.Some? ==> right.value < WORD)
    ensures Below(BinaryValue(false, op, a, b), BinaryBound(op, left, right))
  {
    match op
    case And => MeetSound(a, b, left, right);
    case And32 => MeetSound(a, b, left, right);
    case Or => JoinSound(a, b, left, right);
    case Xor => JoinSound(a, b, left, right);
    case Or32 => LowJoinSound(a, b, left, right);
    case Xor32 => LowJoinSound(a, b, left, right);
    case Mul =>
      if left.Some? && right.Some? {
        MulMono(a, b, left.value, right.value);
      }
    case _ =>
  }

  lemma MeetSound(a: nat, b: nat, left: Option<nat>, right: Option<nat>)
    requires Below(a, left) && Below(b, right)
    requires (left.Some? ==> left.value < WORD) && (right.Some? ==> right.value < WORD)
    ensures Below(BitAnd(a, b), BinaryBound(And, left, right))
    ensures Below(BitAnd(a % WORD32, b % WORD32), BinaryBound(And32, left, right))
  {
    BitAndBelow(a, b);
    BitAndBelow(a % WORD32, b % WORD32);
    LowHalfBelow(a);
    LowHalfBelow(b);
  }

  lemma JoinSound(a: nat, b: nat, left: Option<nat>, right: Option<nat>)
    requires a < WORD && b < WORD && Below(a, left) && Below(b, right)
    requires (left.Some? ==> left.value < WORD) && (right.Some? ==> right.value < WORD)
    ensures Below(BitOr(a, b), BinaryBound(Or, left, right)) && Below(BitXor(a, b), BinaryBound(Xor, left, right))
  {
    if left.Some? && right.Some? {
      JoinBelow(a, b, left.value, right.value);
    }
  }

  lemma LowJoinSound(a: nat, b: nat, left: Option<nat>, right: Option<nat>)
    requires a < WORD && b < WORD && Below(a, left) && Below(b, right)
    requires (left.Some? ==> left.value < WORD) && (right.Some? ==> right.value < WORD)
    ensures Below(BitOr(a % WORD32, b % WORD32), BinaryBound(Or32, left, right))
    ensures Below(BitXor(a % WORD32, b % WORD32), BinaryBound(Xor32, left, right))
  {
    if left.Some? && right.Some? {
      JoinBelow(a % WORD32, b % WORD32, left.value, right.value);
    } else {
      WordIsPow2();
      BitOrBelow(a % WORD32, b % WORD32, 32);
    }
  }

  lemma QuotientMono(a: nat, b: nat, d: nat)
    requires a <= b && d > 0
    ensures Quotient(a, d) <= Quotient(b, d)
  {
    var q, r := Quotient(a, d), Quotient(b, d);
    AtLeastOne(q - r, d);
    assert (q - r) * d == q * d - r * d;
  }

  lemma ImmediateSound(op: ImmediateOp, a: nat, imm: int, bound: Option<nat>)
    requires a < WORD && Below(a, bound) && (bound.Some? ==> bound.value < WORD)
    requires op.AndImm? || op.OrImm? ==> 0 <= imm < WORD
    requires op.AndImm32? ==> 0 <= imm < WORD32
    ensures Below(ImmediateValue(op, a, imm), ImmediateBound(op, bound, imm))
  {
    match op
    case AndImm => AndImmSound(a, imm, bound);
    case AndImm32 => AndImm32Sound(a, imm, bound);
    case OrImm => OrImmSound(a, imm, bound);
    case AddImm => AddImmSound(a, imm, bound);
    case ShrImm => ShrImmSound(a, imm, bound);
    case ShlImm => ShlImmSound(a, imm, bound);
    case SarImm =>
  }

  lemma AndImmSound(a: nat, imm: int, bound: Option<nat>)
    requires Below(a, bound) && 0 <= imm < WORD
    ensures Below(BitAnd(a, Wrap(imm)), Some(Min(if bound.Some? then bound.value else WORD - 1, imm)))
  {
    var w := Wrap(imm);
    assert w == imm;
    BitAndBelow(a, w);
  }

  lemma AndImm32Sound(a: nat, imm: int, bound: Option<nat>)
    requires Below(a, bound) && 0 <= imm < WORD32
    ensures Below(BitAnd(a % WORD32, imm % WORD32), Some(Min(if bound.Some? then bound.value else WORD32 - 1, imm)))
  {
    LowHalfBelow(a);
    BitAndBelow(a % WORD32, imm);
  }

  lemma OrImmSound(a: nat, imm: int, bound: Option<nat>)
    requires a < WORD && Below(a, bound) && (bound.Some? ==> bound.value < WORD) && 0 <= imm < WORD
    ensures Below(ImmediateValue(OrImm, a, imm), ImmediateBound(OrImm, bound, imm))
  {
    var w := Wrap(imm);
    assert w == imm;
    if bound.Some? {
      JoinBelow(a, w, bound.value, w);
    }
  }

  lemma AddImmSound(a: nat, imm: int, bound: Option<nat>)
    requires a < WORD && Below(a, bound)
    ensures Below(Wrap(a + imm), if bound.Some? && imm >= 0 then Checked(bound.value + imm) else None)
  {
  }

  lemma ShrImmSound(a: nat, imm: int, bound: Option<nat>)
    requires a < WORD && Below(a, bound) && (bound.Some? ==> bound.value < WORD)
    ensures Below(ImmediateValue(ShrImm, a, imm), ImmediateBound(ShrImm, bound, imm))
  {
    if 0 <= imm < 64 {
      QuotientMono(a, if bound.Some? then bound.value else WORD - 1, Pow2(imm));
    }
  }

  lemma ShlImmSound(a: nat, imm: int, bound: Option<nat>)
    requires a < WORD && Below(a, bound) && (bound.Some? ==> bound.value < WORD)
    ensures Below(ImmediateValue(ShlImm, a, imm), ImmediateBound(ShlImm, bound, imm))
  {
    if bound.Some? && 0 <= imm < 64 && bound.value <= Quotient(WORD - 1, Pow2(imm)) {
      var p := Pow2(imm);
      MulMono(a, p, bound.value, p);
      MulMono(bound.value, p, Quotient(WORD - 1, p), p);
      assert a * p < WORD;
    }
  }

  /** Each instruction keeps its result within the bound it gives. */
  lemma BoundSound(i: Inst, vregs: nat, bounds: Bounds, regs: Regs, seen: nat)
    requires InstOk(i, vregs) && Def(i).Some? && Uses(i) <= regs.Keys
    requires RegsOk(regs) && BoundsOk(bounds) && Holds(bounds, regs)
    ensures Below(Value(false, i, regs, seen), BoundOf(i, bounds))
  {
    match i
    case Binary(op, _, lhs, rhs) => BinarySound(op, regs[lhs], regs[rhs], Get(bounds, lhs), Get(bounds, rhs));
    case Immediate(op, _, src, imm) => ImmediateSound(op, regs[src], imm, Get(bounds, src));
    case Mov32(_, src) => LowHalfBelow(regs[src]);
    case _ =>
  }

  lemma BoundFits(i: Inst, vregs: nat, bounds: Bounds)
    requires InstOk(i, vregs) && BoundsOk(bounds) && BoundOf(i, bounds).Some?
    ensures BoundOf(i, bounds).value < WORD
  {
    match i
    case Immediate(ShlImm, _, src, imm) =>
      MulMono(bounds[src], Pow2(imm), Quotient(WORD - 1, Pow2(imm)), Pow2(imm));
    case Immediate(ShrImm, _, src, imm) =>
      var b := GetOr(bounds, src, WORD - 1);
      assert Quotient(b, Pow2(imm)) * Pow2(imm) <= b;
      MulMono(Quotient(b, Pow2(imm)), 1, Quotient(b, Pow2(imm)), Pow2(imm));
    case _ =>
  }

  lemma ValueFits(machine: bool, i: Inst, vregs: nat, regs: Regs, seen: nat)
    requires InstOk(i, vregs) && Def(i).Some? && Uses(i) <= regs.Keys && RegsOk(regs)
    ensures Value(machine, i, regs, seen) < WORD
  {
    match i
    case Binary(op, _, lhs, rhs) => BinaryFits(machine, op, regs[lhs], regs[rhs]);
    case Immediate(op, _, src, imm) => ImmediateFits(op, regs[src], imm);
    case _ =>
  }

  lemma BinaryFits(machine: bool, op: BinaryOp, a: nat, b: nat)
    requires a < WORD && b < WORD
    ensures BinaryValue(machine, op, a, b) < WORD
  {
    WordIsPow2();
    BitAndBelow(a, b);
    BitAndBelow(a % WORD32, b % WORD32);
    BitOrBelow(a, b, 64);
    BitOrBelow(a % WORD32, b % WORD32, 32);
    ShiftsFit(a, Count(machine, b));
  }

  lemma ShiftsFit(a: nat, s: nat)
    requires a < WORD
    ensures ShiftRight(a, s) < WORD && ShiftLeft(a, s) < WORD && ShiftArithmetic(a, s) < WORD
  {
    if s < 64 {
      var q := Quotient(a, Pow2(s));
      MulMono(q, 1, q, Pow2(s));
    }
  }

  lemma ImmediateFits(op: ImmediateOp, a: nat, imm: int)
    requires a < WORD
    ensures ImmediateValue(op, a, imm) < WORD
  {
    WordIsPow2();
    BitAndBelow(a, Wrap(imm));
    BitAndBelow(a % WORD32, imm % WORD32);
    BitOrBelow(a, Wrap(imm), 64);
    if imm >= 0 {
      ShiftsFit(a, imm);
    }
  }
}
