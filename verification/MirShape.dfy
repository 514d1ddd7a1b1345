/** What legalization leaves alone and what it replaces, instruction by instruction. */
module MirShape {
  import opened CfgErrors
  import opened Mir
  import opened MirBounds
  import opened MirLegalize

  predicate VariableShift(i: Inst) {
    i.Binary? && i.op in {Shl, Shr, Sar}
  }

  /** A variable shift whose count may be 64 or more. */
  predicate OpenShift(i: Inst, bounds: Bounds) {
    VariableShift(i) && (i.rhs !in bounds || bounds[i.rhs] >= 64)
  }

  ghost function OpenShifts(insts: seq<Inst>, bounds: Bounds, n: nat): set<nat>
    requires n <= |insts|
  {
    set k: nat | k < n && OpenShift(insts[k], bounds)
  }

  /** How many there are in the first `b` blocks. */
  ghost function OpenBefore(f: Function, bounds: Bounds, b: nat): nat
    requires b <= |f.blocks|
  {
    if b == 0 then 0
    else OpenBefore(f, bounds, b - 1) + |OpenShifts(f.blocks[b - 1].insts, bounds, |f.blocks[b - 1].insts|)|
  }

  lemma {:induction false} CountIsOpen(insts: seq<Inst>, bounds: Bounds, n: nat)
    requires n <= |insts|
    ensures GuardCount(insts[..n], bounds) == |OpenShifts(insts, bounds, n)|
  {
    if n == 0 {
      assert OpenShifts(insts, bounds, n) == {};
    } else {
      CountIsOpen(insts, bounds, n - 1);
      assert insts[..n] == insts[..n - 1] + [insts[n - 1]];
      CountJoin(insts[..n - 1], [insts[n - 1]], bounds);
      var before := OpenShifts(insts, bounds, n - 1);
      if OpenShift(insts[n - 1], bounds) {
        assert OpenShifts(insts, bounds, n) == before + {n - 1};
      } else {
        assert OpenShifts(insts, bounds, n) == before;
      }
    }
  }

  lemma {:induction false} NextIsOpen(f: Function, bounds: Bounds, b: nat)
    requires b <= |f.blocks|
    ensures NextAt(f, bounds, b) == f.vregs + 2 * OpenBefore(f, bounds, b)
  {
    if b > 0 {
      NextIsOpen(f, bounds, b - 1);
      var insts := f.blocks[b - 1].insts;
      CountIsOpen(insts, bounds, |insts|);
      assert insts[..|insts|] == insts;
    }
  }

  lemma {:induction false} SizeIsCount(insts: seq<Inst>, bounds: Bounds, next: VReg)
    ensures |Rewritten(insts, bounds, next)| == |insts| + 2 * GuardCount(insts, bounds)
    ensures |RewrittenDescs(insts, bounds)| == 2 * GuardCount(insts, bounds)
  {
    if insts != [] {
      SizeIsCount(insts[1..], bounds, NextAfter(insts[0], bounds, next));
    }
  }

  /** Where the form of instruction `k` stands in the rewritten block, after `n` guarded shifts. */
  lemma PieceAt(insts: seq<Inst>, bounds: Bounds, next: VReg, k: nat, n: nat)
    requires k < |insts| && n == GuardCount(insts[..k], bounds)
    ensures var p := k + 2 * n;
            var piece := One(insts[k], bounds, next + 2 * n);
            p + |piece| <= |Rewritten(insts, bounds, next)| && Rewritten(insts, bounds, next)[p..p + |piece|] == piece
  {
    var a, i, c := insts[..k], insts[k], insts[k + 1..];
    var at := next + 2 * n;
    SizeIsCount(a, bounds, next);
    assert insts == a + ([i] + c);
    RewrittenJoin(a, [i] + c, bounds, next);
    RewrittenCons(i, c, bounds, at);
    MiddleOf(Rewritten(a, bounds, next), One(i, bounds, at), Rewritten(c, bounds, NextAfter(i, bounds, at)));
  }

  lemma MiddleOf<T>(a: seq<T>, b: seq<T>, c: seq<T>)
    ensures (a + (b + c))[|a|..|a| + |b|] == b
  {
  }

  lemma DescsPieceAt(insts: seq<Inst>, bounds: Bounds, k: nat, n: nat)
    requires k < |insts| && OpenShift(insts[k], bounds) && n == GuardCount(insts[..k], bounds)
    ensures 2 * n + 2 <= |RewrittenDescs(insts, bounds)|
    ensures RewrittenDescs(insts, bounds)[2 * n] == Transient
    ensures RewrittenDescs(insts, bounds)[2 * n + 1] == if insts[k].op == Sar then Transient else Remat(0)
  {
    var a, i, c := insts[..k], insts[k], insts[k + 1..];
    SizeIsCount(a, bounds, 0);
    assert insts == a + ([i] + c);
    DescsJoin(a, [i] + c, bounds);
    DescsCons(i, c, bounds);
  }

  lemma DescsCons(i: Inst, insts: seq<Inst>, bounds: Bounds)
    requires NeedsGuard(i, bounds)
    ensures RewrittenDescs([i] + insts, bounds) == GuardDescs(i) + RewrittenDescs(insts, bounds)
  {
    assert ([i] + insts)[0] == i && ([i] + insts)[1..] == insts;
  }

  lemma {:induction false} DescsSize(f: Function, bounds: Bounds, b: nat)
    requires b <= |f.blocks|
    ensures |DescsAt(f, bounds, b)| == 2 * OpenBefore(f, bounds, b)
  {
    if b > 0 {
      DescsSize(f, bounds, b - 1);
      var insts := f.blocks[b - 1].insts;
      SizeIsCount(insts, bounds, 0);
      CountIsOpen(insts, bounds, |insts|);
      assert insts[..|insts|] == insts;
    }
  }

  lemma {:induction false} DescsGrow(f: Function, bounds: Bounds, b: nat, c: nat)
    requires b <= c <= |f.blocks|
    ensures DescsAt(f, bounds, b) <= DescsAt(f, bounds, c)
    decreases c
  {
    if b < c {
      DescsGrow(f, bounds, b, c - 1);
    }
  }

  /** The raw shift into a temporary, the fill for counts out of range into the next, and the choice. */
  predicate IsReplacement(i: Inst, t: VReg, three: seq<Inst>)
    requires VariableShift(i)
  {
    && |three| == 3 && three[0] == Binary(i.op, t, i.lhs, i.rhs)
    && three[1] == (if i.op == Sar then Immediate(SarImm, t + 1, i.lhs, 63) else LoadImm(t + 1, 0))
    && three[2] == CmpImmSelect(i.dst, i.rhs, 64, LtU, t, t + 1)
  }

  /** The temporaries are new and their spill records say how to get them back. */
  predicate Recorded(f: Function, r: Function, i: Inst, t: VReg) {
    && f.vregs <= t && t + 1 < r.vregs == |r.spillDescs| && r.spillDescs[t] == Transient
    && r.spillDescs[t + 1] == if i.Binary? && i.op == Sar then Transient else Remat(0)
  }

  lemma PieceOf(f: Function, r: Function, bounds: Bounds, b: nat, k: nat, n: nat)
    requires IsLegalized(f, r, bounds) && HasInst(f, b, k) && n == |OpenShifts(f.blocks[b].insts, bounds, k)|
    ensures var p := k + 2 * n;
            var piece := One(f.blocks[b].insts[k], bounds, f.vregs + 2 * OpenBefore(f, bounds, b) + 2 * n);
            p + |piece| <= |r.blocks[b].insts| && r.blocks[b].insts[p..p + |piece|] == piece
  {
    assert r.blocks[b] == LegalizedBlock(f, bounds, b);
    NextIsOpen(f, bounds, b);
    CountIsOpen(f.blocks[b].insts, bounds, k);
    PieceAt(f.blocks[b].insts, bounds, NextAt(f, bounds, b), k, n);
  }

  lemma DescsHere(f: Function, bounds: Bounds, b: nat, k: nat, n: nat)
    requires HasInst(f, b, k) && OpenShift(f.blocks[b].insts[k], bounds)
    requires n == |OpenShifts(f.blocks[b].insts, bounds, k)|
    ensures var descs, q := DescsAt(f, bounds, b + 1), 2 * OpenBefore(f, bounds, b) + 2 * n;
            && q + 1 < |descs| && descs[q] == Transient
            && descs[q + 1] == if f.blocks[b].insts[k].op == Sar then Transient else Remat(0)
  {
    CountIsOpen(f.blocks[b].insts, bounds, k);
    DescsSize(f, bounds, b);
    DescsPieceAt(f.blocks[b].insts, bounds, k, n);
  }

  lemma RecordShape(f: Function, r: Function, bounds: Bounds, b: nat, k: nat, n: nat)
    requires IsLegalized(f, r, bounds) && |r.spillDescs| == r.vregs && |f.spillDescs| == f.vregs
    requires HasInst(f, b, k) && OpenShift(f.blocks[b].insts[k], bounds)
    requires n == |OpenShifts(f.blocks[b].insts, bounds, k)|
    ensures Recorded(f, r, f.blocks[b].insts[k], f.vregs + 2 * OpenBefore(f, bounds, b) + 2 * n)
  {
    var all := DescsAt(f, bounds, |f.blocks|);
    var q := 2 * OpenBefore(f, bounds, b) + 2 * n;
    DescsHere(f, bounds, b, k, n);
    DescsGrow(f, bounds, b + 1, |f.blocks|);
    assert r.spillDescs[f.vregs + q] == all[q] && r.spillDescs[f.vregs + q + 1] == all[q + 1];
  }

  /** An open shift is replaced by three instructions with two temporaries of its own. */
  lemma OpenShape(f: Function, r: Function, bounds: Bounds, b: nat, k: nat)
    requires IsLegalized(f, r, bounds) && |r.spillDescs| == r.vregs && |f.spillDescs| == f.vregs
    requires HasInst(f, b, k) && OpenShift(f.blocks[b].insts[k], bounds)
    ensures
      var before := |OpenShifts(f.blocks[b].insts, bounds, k)|;
      var p := k + 2 * before;
      var t := f.vregs + 2 * OpenBefore(f, bounds, b) + 2 * before;
      && p + 3 <= |r.blocks[b].insts|
      && IsReplacement(f.blocks[b].insts[k], t, r.blocks[b].insts[p..p + 3])
      && Recorded(f, r, f.blocks[b].insts[k], t)
  {
    var before := |OpenShifts(f.blocks[b].insts, bounds, k)|;
    PieceOf(f, r, bounds, b, k, before);
    RecordShape(f, r, bounds, b, k, before);
  }

  /** Any other instruction stands unchanged, moved on by two places for every open shift before it in the block. */
  lemma OtherShape(f: Function, r: Function, bounds: Bounds, b: nat, k: nat)
    requires IsLegalized(f, r, bounds) && HasInst(f, b, k) && !OpenShift(f.blocks[b].insts[k], bounds)
    ensures
      var p := k + 2 * |OpenShifts(f.blocks[b].insts, bounds, k)|;
      p < |r.blocks[b].insts| && r.blocks[b].insts[p] == f.blocks[b].insts[k]
  {
    var before := |OpenShifts(f.blocks[b].insts, bounds, k)|;
    PieceOf(f, r, bounds, b, k, before);
    var p := k + 2 * before;
    assert r.blocks[b].insts[p] == r.blocks[b].insts[p..p + 1][0];
  }

  /** Nothing else is added: a block grows by two for every open shift, and without one is returned as it was. */
  lemma BlockShape(f: Function, r: Function, bounds: Bounds, b: nat)
    requires IsLegalized(f, r, bounds) && b < |f.blocks|
    ensures
      var insts := f.blocks[b].insts;
      && r.blocks[b].phis == f.blocks[b].phis
      && |r.blocks[b].insts| == |insts| + 2 * |OpenShifts(insts, bounds, |insts|)|
      && ((forall k :: 0 <= k < |insts| ==> !OpenShift(insts[k], bounds)) ==> r.blocks[b] == f.blocks[b])
  {
    var insts := f.blocks[b].insts;
    assert r.blocks[b] == LegalizedBlock(f, bounds, b);
    CountIsOpen(insts, bounds, |insts|);
    assert insts[..|insts|] == insts;
    SizeIsCount(insts, bounds, NextAt(f, bounds, b));
    if forall k :: 0 <= k < |insts| ==> !OpenShift(insts[k], bounds) {
      assert OpenShifts(insts, bounds, |insts|) == {};
      NothingToGuard(insts, bounds, NextAt(f, bounds, b));
    }
  }

  /** The register count grows by two for every open shift; the records of the registers before stay. */
  lemma FunctionShape(f: Function, r: Function, bounds: Bounds)
    requires IsLegalized(f, r, bounds)
    ensures |r.blocks| == |f.blocks| && r.vregs == f.vregs + 2 * OpenBefore(f, bounds, |f.blocks|)
    ensures f.spillDescs <= r.spillDescs
  {
    NextIsOpen(f, bounds, |f.blocks|);
  }
}
