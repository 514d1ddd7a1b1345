/** Which bounds are reached by some operands within their own bounds, and so could not be smaller. */
module MirPrecision {
  import opened CfgErrors
  import opened Words
  import opened Mir
  import opened MirBounds
  import opened MirLaws

  /** Some operands within their bounds give the result `n`. */
  ghost predicate Reaches(i: Inst, x: Bounds, n: nat)
    requires Def(i).Some?
  {
    exists regs: Regs, seen: nat :: Gives(i, x, regs, seen, n)
  }

  ghost predicate Gives(i: Inst, x: Bounds, regs: Regs, seen: nat, n: nat)
    requires Def(i).Some?
  {
    RegsOk(regs) && Holds(x, regs) && Uses(i) <= regs.Keys && Value(false, i, regs, seen) == n
  }

  /** Constants, copies, loads, conjunctions, sums, products and shifts by constants. */
  predicate IsExact(i: Inst) {
    match i
    case LoadImm(_, _) => true
    case Mov(_, _) => true
    case Mov32(_, _) => true
    case Load(_, _, _) => true
    case Binary(op, _, _, _) => op.And? || op.Add? || op.Mul?
    case Immediate(op, _, _, _) => op.AddImm? || op.ShrImm? || op.ShlImm?
    case _ => false
  }

  lemma {:induction false} BitAndSelf(a: nat)
    ensures BitAnd(a, a) == a
  {
    if a != 0 {
      BitAndSelf(a / 2);
    }
  }

  /** Equal operands within both bounds meet in themselves. */
  lemma MeetGives(op: BinaryOp, d: VReg, l: VReg, r: VReg, x: Bounds, n: nat)
    requires op.And? || (op.And32? && n <= LOW)
    requires n < WORD && (l in x ==> n <= x[l]) && (r in x ==> n <= x[r])
    ensures Reaches(Binary(op, d, l, r), x, n)
  {
    var regs: Regs := map[l := n, r := n];
    BitAndSelf(n);
    if op.And32? {
      LowHalfSelf(n);
    }
    assert BinaryValue(false, op, n, n) == n;
    assert regs[l] == n && regs[r] == n;
    assert Gives(Binary(op, d, l, r), x, regs, 0, n);
  }

  lemma LowHalfSelf(n: nat)
    requires n <= LOW
    ensures n % WORD32 == n
  {
  }

  lemma ArithmeticReached(op: BinaryOp, d: VReg, l: VReg, r: VReg, x: Bounds)
    requires BoundsOk(x) && (op.Add? || op.Mul?) && BinaryLaw(op, d, l, r, x) && d in x
    ensures Reaches(Binary(op, d, l, r), x, x[d])
  {
    var regs: Regs := map[l := x[l], r := x[r]];
    assert BinaryValue(false, op, x[l], x[r]) == x[d];
    assert regs[l] == x[l] && regs[r] == x[r];
    assert Gives(Binary(op, d, l, r), x, regs, 0, x[d]);
  }

  lemma BinaryReached(op: BinaryOp, d: VReg, l: VReg, r: VReg, x: Bounds)
    requires BoundsOk(x) && (op.And? || op.Add? || op.Mul?) && BinaryLaw(op, d, l, r, x) && d in x
    ensures Reaches(Binary(op, d, l, r), x, x[d])
  {
    if op.And? {
      MeetGives(op, d, l, r, x, x[d]);
    } else {
      ArithmeticReached(op, d, l, r, x);
    }
  }

  lemma ImmediateReached(op: ImmediateOp, d: VReg, s: VReg, imm: nat, x: Bounds, vregs: nat)
    requires BoundsOk(x) && InstOk(Immediate(op, d, s, imm), vregs) && (op.AddImm? || op.ShrImm? || op.ShlImm?)
    requires ImmediateLaw(op, d, s, imm, x) && d in x
    ensures Reaches(Immediate(op, d, s, imm), x, x[d])
  {
    var a := Known(x, s, WORD - 1);
    if op.ShrImm? {
      ShiftedIsQuotient(x[d], a, imm);
    }
    assert Gives(Immediate(op, d, s, imm), x, map[s := a], 0, x[d]);
  }

  /** The bound is the largest result: operands within their bounds reach it. */
  lemma BoundReached(i: Inst, vregs: nat, x: Bounds)
    requires BoundsOk(x) && InstOk(i, vregs) && IsExact(i) && InstLaw(i, x) && i.dst in x
    ensures Reaches(i, x, x[i.dst])
  {
    match i
    case LoadImm(d, value) => assert Gives(i, x, map[], 0, value);
    case Mov(d, s) => assert Gives(i, x, map[s := x[s]], 0, x[d]);
    case Mov32(d, s) => assert Gives(i, x, map[s := x[d]], 0, x[d]);
    case Load(d, _, size) => assert Gives(i, x, map[], x[d], x[d]);
    case Binary(op, d, l, r) => BinaryReached(op, d, l, r, x);
    case Immediate(op, d, s, imm) => ImmediateReached(op, d, s, imm, x, vregs);
  }

  /** A masked value reaches its bound exactly when the mask is within the operand's bound or keeps all its bits. */
  lemma MaskReachedIff(d: VReg, s: VReg, imm: nat, x: Bounds)
    requires BoundsOk(x) && imm < WORD && ImmediateLaw(AndImm, d, s, imm, x)
    ensures Reaches(Immediate(AndImm, d, s, imm), x, x[d]) <==>
            s !in x || imm <= x[s] || BitAnd(x[s], imm) == x[s]
  {
    var i := Immediate(AndImm, d, s, imm);
    BitAndSelf(imm);
    if s !in x || imm <= x[s] {
      assert Gives(i, x, map[s := imm], 0, imm);
    } else {
      if BitAnd(x[s], imm) == x[s] {
        assert Gives(i, x, map[s := x[s]], 0, x[s]);
      }
      if Reaches(i, x, x[d]) {
        var regs: Regs, seen: nat :| Gives(i, x, regs, seen, x[d]);
        BitAndBelow(regs[s], imm);
        assert regs[s] == x[s];
      }
    }
  }

  /** The conjunction of low halves reaches its bound exactly when the bound is within the low half: operands whose
      bounds are larger give it one that no result reaches. */
  lemma LowMeetReachedIff(d: VReg, l: VReg, r: VReg, x: Bounds)
    requires BoundsOk(x) && BinaryLaw(And32, d, l, r, x)
    ensures Reaches(Binary(And32, d, l, r), x, x[d]) <==> x[d] <= LOW
  {
    var i := Binary(And32, d, l, r);
    if x[d] <= LOW {
      assert x[d] <= Known(x, l, LOW) && x[d] <= Known(x, r, LOW);
      MeetGives(And32, d, l, r, x, x[d]);
    }
    forall regs: Regs, seen: nat | RegsOk(regs) && Uses(i) <= regs.Keys ensures Value(false, i, regs, seen) <= LOW {
      BitAndBelow(regs[l] % WORD32, regs[r] % WORD32);
    }
  }

  /** The same for joins of low halves: beyond the low half the bound is never reached. */
  lemma LowJoinUnreached(op: BinaryOp, d: VReg, l: VReg, r: VReg, x: Bounds)
    requires op.Or32? || op.Xor32?
    requires BoundsOk(x) && BinaryLaw(op, d, l, r, x) && x[d] > LOW
    ensures !Reaches(Binary(op, d, l, r), x, x[d])
  {
    var i := Binary(op, d, l, r);
    forall regs: Regs, seen: nat | RegsOk(regs) && Uses(i) <= regs.Keys ensures Value(false, i, regs, seen) <= LOW {
      WordIsPow2();
      BitOrBelow(regs[l] % WORD32, regs[r] % WORD32, 32);
    }
  }
}
