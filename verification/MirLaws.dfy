/** What the bounds of a function are: for every operation, when its result has a bound and which number it is. */
module MirLaws {
  import opened CfgErrors
  import opened Words
  import opened Mir
  import opened MirBounds

  const LOW: nat := 0xFFFF_FFFF

  predicate BoundIs(x: Bounds, d: VReg, n: nat) {
    d in x && x[d] == n
  }

  /** `d` has a bound exactly when `known`, and then it is `n`. */
  predicate BoundIff(x: Bounds, d: VReg, known: bool, n: nat) {
    if known then BoundIs(x, d, n) else d !in x
  }

  /** The number itself, or, where the analysis is not the same in every order of visits, one from `LOW` to it. */
  predicate Near(b: nat, n: nat) {
    b == n || LOW <= b < n
  }

  /** What a register without a bound counts as. */
  function Known(x: Bounds, v: VReg, other: nat): nat {
    if v in x then x[v] else other
  }

  ghost predicate JoinLaw(x: Bounds, d: VReg, l: VReg, r: VReg) {
    if l in x && r in x then d in x && LowMask(x[d], if x[l] <= x[r] then x[r] else x[l]) else d !in x
  }

  ghost predicate LowJoinLaw(x: Bounds, d: VReg, l: VReg, r: VReg) {
    && d in x
    && if l in x && r in x
       then exists m: nat :: LowMask(m, if x[l] <= x[r] then x[r] else x[l]) && Near(x[d], m)
       else x[d] == LOW
  }

  predicate MeetLaw(x: Bounds, d: VReg, l: VReg, r: VReg) {
    && (d in x <==> l in x || r in x)
    && (d in x ==>
         && (l in x ==> x[d] <= x[l]) && (r in x ==> x[d] <= x[r])
         && ((l in x && x[d] == x[l]) || (r in x && x[d] == x[r])))
  }

  predicate LowMeetLaw(x: Bounds, d: VReg, l: VReg, r: VReg) {
    d in x && Near(x[d], if Known(x, l, LOW) <= Known(x, r, LOW) then Known(x, l, LOW) else Known(x, r, LOW))
  }

  ghost predicate BinaryLaw(op: BinaryOp, d: VReg, l: VReg, r: VReg, x: Bounds) {
    match op
    case And => MeetLaw(x, d, l, r)
    case And32 => LowMeetLaw(x, d, l, r)
    case Or => JoinLaw(x, d, l, r)
    case Xor => JoinLaw(x, d, l, r)
    case Or32 => LowJoinLaw(x, d, l, r)
    case Xor32 => LowJoinLaw(x, d, l, r)
    case Add =>
      BoundIff(x, d, l in x && r in x && x[l] + x[r] <= 0xFFFF_FFFF_FFFF_FFFF, Known(x, l, 0) + Known(x, r, 0))
    case Mul =>
      BoundIff(x, d, l in x && r in x && x[l] * x[r] <= 0xFFFF_FFFF_FFFF_FFFF, Known(x, l, 0) * Known(x, r, 0))
    case Add32 => BoundIs(x, d, LOW)
    case Sub32 => BoundIs(x, d, LOW)
    case Mul32 => BoundIs(x, d, LOW)
    case _ => d !in x
  }

  /** `q` is `n` shifted right by `s`. */
  predicate ShiftedDown(q: nat, n: nat, s: nat) {
    q * Pow2(s) <= n < (q + 1) * Pow2(s)
  }

  ghost predicate ImmediateLaw(op: ImmediateOp, d: VReg, s: VReg, imm: nat, x: Bounds) {
    match op
    case AndImm => BoundIs(x, d, if s in x && x[s] < imm then x[s] else imm)
    case AndImm32 => BoundIs(x, d, if s in x && x[s] < imm then x[s] else imm)
    case OrImm => if s in x then d in x && LowMask(x[d], if x[s] <= imm then imm else x[s]) else d !in x
    case AddImm => BoundIff(x, d, s in x && x[s] + imm <= 0xFFFF_FFFF_FFFF_FFFF, Known(x, s, 0) + imm)
    case ShrImm => d in x && ShiftedDown(x[d], Known(x, s, 0xFFFF_FFFF_FFFF_FFFF), imm)
    case ShlImm =>
      BoundIff(x, d, s in x && imm < 64 && x[s] * Pow2(imm) <= 0xFFFF_FFFF_FFFF_FFFF, Known(x, s, 0) * Pow2(imm))
    case SarImm => d !in x
  }

  /** The larger of the two, if both are known. */
  predicate ChoiceLaw(x: Bounds, d: VReg, t: VReg, f: VReg) {
    BoundIff(x, d, t in x && f in x, if Known(x, t, 0) <= Known(x, f, 0) then Known(x, f, 0) else Known(x, t, 0))
  }

  ghost predicate InstLaw(i: Inst, x: Bounds) {
    match i
    case LoadImm(d, value) => BoundIs(x, d, value)
    case Mov(d, s) => BoundIff(x, d, s in x, Known(x, s, 0))
    case Mov32(d, s) => BoundIs(x, d, if s in x && x[s] < LOW then x[s] else LOW)
    case Load(d, _, size) =>
      BoundIs(x, d,
        match size case S8 => 0xFF case S16 => 0xFFFF case S32 => 0xFFFF_FFFF case S64 => 0xFFFF_FFFF_FFFF_FFFF)
    case Binary(op, d, l, r) => BinaryLaw(op, d, l, r, x)
    case Immediate(op, d, s, imm) => if imm < 0 then d !in x else ImmediateLaw(op, d, s, imm, x)
    case Cmp(d, _, _, _) => BoundIs(x, d, 1)
    case CmpImm(d, _, _, _) => BoundIs(x, d, 1)
    case Select(d, _, t, f) => ChoiceLaw(x, d, t, f)
    case CmpSelect(d, _, _, _, t, f) => ChoiceLaw(x, d, t, f)
    case CmpImmSelect(d, _, _, _, t, f) => ChoiceLaw(x, d, t, f)
    case GuardedCmpSelect(d, _, _, _, _, t, f) => ChoiceLaw(x, d, t, f)
    case _ => true
  }

  /** The largest bound of the sources, if there are any and all have one. */
  predicate PhiLaw(phi: Phi, x: Bounds) {
    if phi.sources == [] || exists k :: 0 <= k < |phi.sources| && phi.sources[k].1 !in x then phi.dst !in x
    else
      && phi.dst in x
      && (forall k :: 0 <= k < |phi.sources| ==> x[phi.sources[k].1] <= x[phi.dst])
      && exists k :: 0 <= k < |phi.sources| && x[phi.sources[k].1] == x[phi.dst]
  }

  /** Every instruction and phi has the bound its operation gives, and no other register has one. */
  ghost predicate Lawful(f: Function, x: Bounds) {
    && BoundsOk(x)
    && (forall b, k :: HasInst(f, b, k) ==> InstLaw(f.blocks[b].insts[k], x))
    && (forall b, k :: HasPhi(f, b, k) ==> PhiLaw(f.blocks[b].phis[k], x))
    && forall v :: v in x ==> Defined(f, v)
  }

  ghost predicate Defined(f: Function, v: VReg) {
    || (exists b, k :: HasInst(f, b, k) && Def(f.blocks[b].insts[k]) == Some(v))
    || exists b, k :: HasPhi(f, b, k) && f.blocks[b].phis[k].dst == v
  }

  /** The operations on low halves whose bound the order of visits may lower. */
  predicate LowJoinOrMeet(i: Inst) {
    i.Binary? && i.op in {And32, Or32, Xor32}
  }

  /** No bound of such an operation leaves the low half. */
  ghost predicate LowHalves(f: Function, x: Bounds) {
    forall b, k :: HasInst(f, b, k) && LowJoinOrMeet(f.blocks[b].insts[k]) ==>
      Def(f.blocks[b].insts[k]).value in x && x[Def(f.blocks[b].insts[k]).value] <= LOW
  }

  // ------------------------------------------------------------ from the inferred bounds to the laws

  /** At least as many and as tight bounds. */
  predicate Tighter(next: Bounds, bounds: Bounds) {
    forall v :: v in bounds ==> v in next && next[v] <= bounds[v]
  }

  /** What the bound of an instruction never falls below. */
  function Floor(i: Inst, x: Bounds): Option<nat>
    requires BoundsOk(x)
  {
    var bound := BoundOf(i, x);
    if LowJoinOrMeet(i) && bound.Some? then Some(Min(bound.value, LOW)) else bound
  }

  predicate AtMost(a: Option<nat>, b: Option<nat>) {
    b.Some? ==> a.Some? && a.value <= b.value
  }

  lemma MaskMono(a: nat, b: nat, a': nat, b': nat)
    requires a' <= a < WORD && b' <= b < WORD
    ensures EnclosingLowMask(Max(a', b')) <= EnclosingLowMask(Max(a, b))
  {
    LowMaskGrows(EnclosingLowMask(Max(a', b')), Max(a', b'), EnclosingLowMask(Max(a, b)), Max(a, b));
  }

  lemma BinaryMono(op: BinaryOp, l: Option<nat>, r: Option<nat>, l': Option<nat>, r': Option<nat>)
    requires AtMost(l', l) && AtMost(r', r)
    requires (l.Some? ==> l.value < WORD) && (r.Some? ==> r.value < WORD)
    requires (l'.Some? ==> l'.value < WORD) && (r'.Some? ==> r'.value < WORD)
    requires !op.And32? && !op.Or32? && !op.Xor32?
    ensures AtMost(BinaryBound(op, l', r'), BinaryBound(op, l, r))
  {
    if l.Some? && r.Some? {
      match op
      case Mul => MulMono(l'.value, r'.value, l.value, r.value);
      case Or => MaskMono(l.value, r.value, l'.value, r'.value);
      case Xor => MaskMono(l.value, r.value, l'.value, r'.value);
      case _ =>
    }
  }

  lemma LowMono(op: BinaryOp, l: Option<nat>, r: Option<nat>, l': Option<nat>, r': Option<nat>)
    requires AtMost(l', l) && AtMost(r', r)
    requires (l.Some? ==> l.value < WORD) && (r.Some? ==> r.value < WORD)
    requires (l'.Some? ==> l'.value < WORD) && (r'.Some? ==> r'.value < WORD)
    requires op.And32? || op.Or32? || op.Xor32?
    ensures BinaryBound(op, l', r').Some? && BinaryBound(op, l, r).Some?
    ensures Min(BinaryBound(op, l', r').value, LOW) <= Min(BinaryBound(op, l, r).value, LOW)
  {
    if l.Some? && r.Some? {
      MaskMono(l.value, r.value, l'.value, r'.value);
    }
  }

  lemma ImmediateMono(op: ImmediateOp, b: Option<nat>, b': Option<nat>, imm: int)
    requires AtMost(b', b) && (b.Some? ==> b.value < WORD) && (b'.Some? ==> b'.value < WORD)
    requires op.AndImm32? ==> imm < WORD32
    ensures AtMost(ImmediateBound(op, b', imm), ImmediateBound(op, b, imm))
  {
    if op.ShrImm? && 0 <= imm < 64 {
      QuotientMono(if b'.Some? then b'.value else WORD - 1, if b.Some? then b.value else WORD - 1, Pow2(imm));
    }
    if op.ShlImm? && 0 <= imm < 64 && b.Some? {
      MulMono(b'.value, Pow2(imm), b.value, Pow2(imm));
    }
    if op.OrImm? && b.Some? && 0 <= imm < WORD {
      MaskMono(b.value, imm, b'.value, imm);
    }
  }

  /** Tighter bounds of the operands give a result that is at least as tight. */
  lemma FloorMono(i: Inst, vregs: nat, x: Bounds, y: Bounds)
    requires InstOk(i, vregs) && BoundsOk(x) && BoundsOk(y) && Tighter(y, x)
    ensures AtMost(Floor(i, y), Floor(i, x))
  {
    match i
    case Binary(op, _, l, r) =>
      if LowJoinOrMeet(i) {
        LowMono(op, Get(x, l), Get(x, r), Get(y, l), Get(y, r));
      } else {
        BinaryMono(op, Get(x, l), Get(x, r), Get(y, l), Get(y, r));
      }
    case Immediate(op, _, s, imm) => ImmediateMono(op, Get(x, s), Get(y, s), imm);
    case _ =>
  }

  /** The bound of an instruction's register lies between what it may and what it must be. */
  predicate Settled(i: Inst, x: Bounds)
    requires BoundsOk(x)
  {
    Def(i).Some? ==>
      AtMost(Get(x, Def(i).value), BoundOf(i, x)) && AtMost(Floor(i, x), Get(x, Def(i).value))
  }

  lemma ShlFits(b: nat, imm: nat)
    requires imm < 64
    ensures b <= Quotient(WORD - 1, Pow2(imm)) <==> b * Pow2(imm) <= WORD - 1
  {
    var p := Pow2(imm);
    var q := Quotient(WORD - 1, p);
    if b <= q {
      MulMono(b, p, q, p);
    } else {
      MulMono(q + 1, p, b, p);
      assert (q + 1) * p == q * p + p;
    }
  }

  lemma LowJoinHolds(op: BinaryOp, d: VReg, l: VReg, r: VReg, x: Bounds)
    requires BoundsOk(x) && Settled(Binary(op, d, l, r), x) && (op.Or32? || op.Xor32?)
    ensures LowJoinLaw(x, d, l, r)
  {
    assert Def(Binary(op, d, l, r)) == Some(d);
    if l in x && r in x {
      assert LowMask(EnclosingLowMask(Max(x[l], x[r])), Max(x[l], x[r]));
      assert Near(x[d], EnclosingLowMask(Max(x[l], x[r])));
    }
  }

  lemma LowMeetHolds(op: BinaryOp, d: VReg, l: VReg, r: VReg, x: Bounds)
    requires BoundsOk(x) && Settled(Binary(op, d, l, r), x) && op.And32?
    ensures LowMeetLaw(x, d, l, r)
  {
    assert Def(Binary(op, d, l, r)) == Some(d);
  }

  lemma JoinHolds(op: BinaryOp, d: VReg, l: VReg, r: VReg, x: Bounds)
    requires BoundsOk(x) && Settled(Binary(op, d, l, r), x) && (op.Or? || op.Xor?)
    ensures JoinLaw(x, d, l, r)
  {
    assert Def(Binary(op, d, l, r)) == Some(d);
  }

  lemma BinaryLawHolds(op: BinaryOp, d: VReg, l: VReg, r: VReg, x: Bounds)
    requires BoundsOk(x) && Settled(Binary(op, d, l, r), x)
    ensures BinaryLaw(op, d, l, r, x)
  {
    match op
    case And32 => LowMeetHolds(op, d, l, r, x);
    case Or => JoinHolds(op, d, l, r, x);
    case Xor => JoinHolds(op, d, l, r, x);
    case Or32 => LowJoinHolds(op, d, l, r, x);
    case Xor32 => LowJoinHolds(op, d, l, r, x);
    case _ => assert Def(Binary(op, d, l, r)) == Some(d);
  }

  lemma ImmediateLawHolds(op: ImmediateOp, d: VReg, s: VReg, imm: nat, x: Bounds, vregs: nat)
    requires BoundsOk(x) && InstOk(Immediate(op, d, s, imm), vregs) && Settled(Immediate(op, d, s, imm), x)
    ensures ImmediateLaw(op, d, s, imm, x)
  {
    var i := Immediate(op, d, s, imm);
    assert Def(i) == Some(d);
    assert BoundOf(i, x) == ImmediateBound(op, Get(x, s), imm);
    if op.ShlImm? && imm < 64 && s in x {
      ShlFits(x[s], imm);
    }
  }

  lemma LawHolds(i: Inst, vregs: nat, x: Bounds)
    requires BoundsOk(x) && InstOk(i, vregs) && Settled(i, x)
    ensures InstLaw(i, x)
  {
    match i
    case Binary(op, d, l, r) => BinaryLawHolds(op, d, l, r, x);
    case Immediate(op, d, s, imm) =>
      if imm >= 0 {
        ImmediateLawHolds(op, d, s, imm, x, vregs);
      }
    case _ =>
  }

  // ------------------------------------------------------------ from the laws to the inferred bounds

  lemma JoinUpper(op: BinaryOp, d: VReg, l: VReg, r: VReg, x: Bounds)
    requires BoundsOk(x) && (op.Or? || op.Xor?) && JoinLaw(x, d, l, r)
    ensures AtMost(Get(x, d), Floor(Binary(op, d, l, r), x))
  {
    if l in x && r in x {
      OneLowMask(x[d], EnclosingLowMask(Max(x[l], x[r])), Max(x[l], x[r]));
    }
  }

  lemma LowJoinUpper(op: BinaryOp, d: VReg, l: VReg, r: VReg, x: Bounds)
    requires BoundsOk(x) && (op.Or32? || op.Xor32?) && LowJoinLaw(x, d, l, r) && x[d] <= LOW
    ensures AtMost(Get(x, d), Floor(Binary(op, d, l, r), x))
  {
    if l in x && r in x {
      var m: nat :| LowMask(m, Max(x[l], x[r])) && Near(x[d], m);
      OneLowMask(m, EnclosingLowMask(Max(x[l], x[r])), Max(x[l], x[r]));
    }
  }

  lemma BinaryUpper(op: BinaryOp, d: VReg, l: VReg, r: VReg, x: Bounds)
    requires BoundsOk(x) && BinaryLaw(op, d, l, r, x)
    requires op in {And32, Or32, Xor32} ==> d in x && x[d] <= LOW
    ensures AtMost(Get(x, d), Floor(Binary(op, d, l, r), x))
  {
    match op
    case Or => JoinUpper(op, d, l, r, x);
    case Xor => JoinUpper(op, d, l, r, x);
    case Or32 => LowJoinUpper(op, d, l, r, x);
    case Xor32 => LowJoinUpper(op, d, l, r, x);
    case _ =>
  }

  lemma ShiftedIsQuotient(q: nat, n: nat, s: nat)
    requires ShiftedDown(q, n, s)
    ensures q == Quotient(n, Pow2(s))
  {
    assert q * Pow2(s) == Pow2(s) * q;
    assert (q + 1) * Pow2(s) == Pow2(s) * q + Pow2(s);
    DivUnique(n, Pow2(s), q, n - q * Pow2(s));
  }

  lemma ImmediateUpper(op: ImmediateOp, d: VReg, s: VReg, imm: nat, x: Bounds, vregs: nat)
    requires BoundsOk(x) && InstOk(Immediate(op, d, s, imm), vregs) && ImmediateLaw(op, d, s, imm, x)
    ensures AtMost(Get(x, d), Floor(Immediate(op, d, s, imm), x))
  {
    match op
    case OrImm =>
      if s in x {
        OneLowMask(x[d], EnclosingLowMask(Max(x[s], imm)), Max(x[s], imm));
      }
    case ShrImm => ShiftedIsQuotient(x[d], GetOr(x, s, WORD - 1), imm);
    case ShlImm =>
      if s in x && imm < 64 {
        ShlFits(x[s], imm);
      }
    case _ =>
  }

  /** Bounds that obey the law of an instruction are no looser than what it infers from them. */
  lemma LawUpper(i: Inst, vregs: nat, x: Bounds)
    requires BoundsOk(x) && InstOk(i, vregs) && Def(i).Some? && InstLaw(i, x)
    requires LowJoinOrMeet(i) ==> Def(i).value in x && x[Def(i).value] <= LOW
    ensures AtMost(Get(x, Def(i).value), Floor(i, x))
  {
    match i
    case Binary(op, d, l, r) => BinaryUpper(op, d, l, r, x);
    case Immediate(op, d, s, imm) =>
      if imm >= 0 {
        ImmediateUpper(op, d, s, imm, x, vregs);
      }
    case _ =>
  }
}
