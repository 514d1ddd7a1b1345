/** The legalized function is well-formed and in static single assignment form again. */
module MirSsa {
  import opened CfgErrors
  import opened Mir
  import opened MirBounds
  import opened MirLegalize

  // ------------------------------------------------------------ where a rewritten instruction comes from

  /** The first temporary of instruction `j`. */
  ghost function Temp(insts: seq<Inst>, bounds: Bounds, next: VReg, j: nat): VReg
    requires j <= |insts|
  {
    next + 2 * GuardCount(insts[..j], bounds)
  }

  lemma {:induction false} CountGrows(insts: seq<Inst>, bounds: Bounds, i: nat, j: nat)
    requires i < j <= |insts|
    ensures GuardCount(insts[..i], bounds) + (if NeedsGuard(insts[i], bounds) then 1 else 0) <= GuardCount(insts[..j],
              bounds)
    ensures GuardCount(insts[..j], bounds) <= GuardCount(insts, bounds)
  {
    assert insts[..j] == insts[..i] + insts[i..j] && insts == insts[..j] + insts[j..];
    CountJoin(insts[..i], insts[i..j], bounds);
    CountJoin(insts[..j], insts[j..], bounds);
    assert insts[i..j][0] == insts[i];
  }

  /** Rewritten instruction `k` is part `o` of what instruction `j` becomes, and no other instruction's part. */
  ghost predicate PartOf(insts: seq<Inst>, bounds: Bounds, next: VReg, k: nat, j: nat, o: nat) {
    && k < |Rewritten(insts, bounds, next)| && j < |insts|
    && o < |One(insts[j], bounds, Temp(insts, bounds, next, j))|
    && Rewritten(insts, bounds, next)[k] == One(insts[j], bounds, Temp(insts, bounds, next, j))[o]
    && k == j + 2 * GuardCount(insts[..j], bounds) + o
  }

  lemma {:induction false} Parts(insts: seq<Inst>, bounds: Bounds, next: VReg, k: nat) returns (j: nat, o: nat)
    requires k < |Rewritten(insts, bounds, next)|
    ensures PartOf(insts, bounds, next, k, j, o)
    decreases |insts|
  {
    var i, rest := insts[0], insts[1..];
    var first := One(i, bounds, next);
    if k < |first| {
      j, o := 0, k;
      assert insts[..0] == [];
    } else {
      j, o := Parts(rest, bounds, NextAfter(i, bounds, next), k - |first|);
      CountFirst(insts, bounds, j);
      j := j + 1;
    }
  }

  lemma CountFirst(insts: seq<Inst>, bounds: Bounds, j: nat)
    requires insts != [] && j < |insts|
    ensures GuardCount(insts[..j + 1], bounds) ==
            (if NeedsGuard(insts[0], bounds) then 1 else 0) + GuardCount(insts[1..][..j], bounds)
  {
    assert insts[..j + 1] == [insts[0]] + insts[1..][..j];
    assert insts[..j + 1][1..] == insts[1..][..j];
  }

  /** What a part defines: the instruction's own register or one of its two temporaries. */
  lemma PartDefines(i: Inst, bounds: Bounds, n: VReg, o: nat)
    requires o < |One(i, bounds, n)|
    ensures Def(One(i, bounds, n)[o]).Some? ==>
              (if NeedsGuard(i, bounds) && o < 2 then Def(One(i, bounds, n)[o]) == Some(n + o)
               else Def(One(i, bounds, n)[o]) == Def(i))
  {
  }

  // ------------------------------------------------------------ temporaries are all different

  lemma {:induction false} NextGrows(f: Function, bounds: Bounds, b: nat, c: nat)
    requires b < c <= |f.blocks|
    ensures NextAt(f, bounds, b) + 2 * GuardCount(f.blocks[b].insts, bounds) <= NextAt(f, bounds, c)
    decreases c
  {
    if b + 1 < c {
      NextGrows(f, bounds, b, c - 1);
    }
  }

  /** A guarded instruction's temporaries come before those of any later instruction, and before the end. */
  lemma TempsApart(f: Function, bounds: Bounds, b: nat, i: nat, c: nat, j: nat)
    requires b < |f.blocks| && i < |f.blocks[b].insts| && c < |f.blocks| && j <= |f.blocks[c].insts|
    requires b < c || (b == c && i < j)
    requires NeedsGuard(f.blocks[b].insts[i], bounds)
    ensures Temp(f.blocks[b].insts, bounds, NextAt(f, bounds, b), i) + 2 <=
            Temp(f.blocks[c].insts, bounds, NextAt(f, bounds, c), j)
  {
    if b == c {
      CountGrows(f.blocks[b].insts, bounds, i, j);
    } else {
      CountGrows(f.blocks[b].insts, bounds, i, |f.blocks[b].insts|);
      assert f.blocks[b].insts[..|f.blocks[b].insts|] == f.blocks[b].insts;
      NextGrows(f, bounds, b, c);
    }
  }

  lemma TempsBelow(f: Function, bounds: Bounds, b: nat, i: nat)
    requires b < |f.blocks| && i < |f.blocks[b].insts| && NeedsGuard(f.blocks[b].insts[i], bounds)
    ensures Temp(f.blocks[b].insts, bounds, NextAt(f, bounds, b), i) + 2 <= NextAt(f, bounds, |f.blocks|)
  {
    CountGrows(f.blocks[b].insts, bounds, i, |f.blocks[b].insts|);
    assert f.blocks[b].insts[..|f.blocks[b].insts|] == f.blocks[b].insts;
    NextGrows(f, bounds, b, |f.blocks|);
  }

  // ------------------------------------------------------------ the theorem

  ghost predicate FromPart(f: Function, r: Function, bounds: Bounds, b: nat, k: nat, j: nat, o: nat) {
    && b < |f.blocks| && b < |r.blocks| && k < |r.blocks[b].insts|
    && PartOf(f.blocks[b].insts, bounds, NextAt(f, bounds, b), k, j, o)
    && r.blocks[b].insts[k] == One(f.blocks[b].insts[j], bounds,
      Temp(f.blocks[b].insts, bounds, NextAt(f, bounds, b), j))[o]
  }

  lemma PartAt(f: Function, r: Function, bounds: Bounds, b: nat, k: nat) returns (j: nat, o: nat)
    requires IsLegalized(f, r, bounds) && b < |r.blocks| && k < |r.blocks[b].insts|
    ensures FromPart(f, r, bounds, b, k, j, o)
  {
    assert r.blocks[b] == LegalizedBlock(f, bounds, b);
    j, o := Parts(f.blocks[b].insts, bounds, NextAt(f, bounds, b), k);
  }

  predicate IsTemp(i: Inst, bounds: Bounds, o: nat) {
    NeedsGuard(i, bounds) && o < 2
  }

  /** A part's register: below the original count if it is the instruction's own, a temporary's number otherwise. */
  lemma PartRegister(f: Function, r: Function, bounds: Bounds, b: nat, k: nat, j: nat, o: nat)
    requires FunctionOk(f) && FromPart(f, r, bounds, b, k, j, o) && Def(r.blocks[b].insts[k]).Some?
    ensures var i, d := f.blocks[b].insts[j], Def(r.blocks[b].insts[k]).value;
            if IsTemp(i, bounds, o) then d == Temp(f.blocks[b].insts, bounds, NextAt(f, bounds, b), j) + o
              && d >= f.vregs
            else Def(i) == Some(d) && d < f.vregs
  {
    PartDefines(f.blocks[b].insts[j], bounds, Temp(f.blocks[b].insts, bounds, NextAt(f, bounds, b), j), o);
    assert InstOk(f.blocks[b].insts[j], f.vregs);
  }

  lemma OneDefinition(f: Function, r: Function, bounds: Bounds, b: nat, k: nat, c: nat, l: nat)
    requires FunctionOk(f) && SingleAssignment(f) && IsLegalized(f, r, bounds)
    requires HasInst(r, b, k) && HasInst(r, c, l) && SameDef(r.blocks[b].insts[k], r.blocks[c].insts[l])
    ensures b == c && k == l
  {
    var j, o := PartAt(f, r, bounds, b, k);
    var j', o' := PartAt(f, r, bounds, c, l);
    PartRegister(f, r, bounds, b, k, j, o);
    PartRegister(f, r, bounds, c, l, j', o');
    if IsTemp(f.blocks[b].insts[j], bounds, o) {
      if b < c || (b == c && j < j') {
        TempsApart(f, bounds, b, j, c, j');
      } else if c < b || (b == c && j' < j) {
        TempsApart(f, bounds, c, j', b, j);
      }
    } else {
      assert HasInst(f, b, j) && HasInst(f, c, j');
      assert SameDef(f.blocks[b].insts[j], f.blocks[c].insts[j']);
      SamePart(f, r, bounds, b, k, l, j, o, o');
    }
  }

  /** Of one instruction's parts, only one defines its own register. */
  lemma SamePart(f: Function, r: Function, bounds: Bounds, b: nat, k: nat, l: nat, j: nat, o: nat, o': nat)
    requires FromPart(f, r, bounds, b, k, j, o) && FromPart(f, r, bounds, b, l, j, o')
    requires !IsTemp(f.blocks[b].insts[j], bounds, o) && !IsTemp(f.blocks[b].insts[j], bounds, o')
    ensures k == l
  {
  }

  lemma NotAPhi(f: Function, r: Function, bounds: Bounds, b: nat, k: nat, c: nat, l: nat)
    requires FunctionOk(f) && SingleAssignment(f) && IsLegalized(f, r, bounds) && HasInst(r, b, k) && HasPhi(r, c, l)
    ensures Def(r.blocks[b].insts[k]) != Some(r.blocks[c].phis[l].dst)
  {
    assert r.blocks[c] == LegalizedBlock(f, bounds, c) && HasPhi(f, c, l);
    assert PhiOk(f.blocks[c].phis[l], f.vregs);
    if Def(r.blocks[b].insts[k]).Some? {
      var j, o := PartAt(f, r, bounds, b, k);
      PartRegister(f, r, bounds, b, k, j, o);
      assert HasInst(f, b, j);
    }
  }

  lemma PartIsOk(f: Function, r: Function, bounds: Bounds, b: nat, k: nat)
    requires FunctionOk(f) && IsLegalized(f, r, bounds) && b < |r.blocks| && k < |r.blocks[b].insts|
    ensures InstOk(r.blocks[b].insts[k], r.vregs)
  {
    var j, o := PartAt(f, r, bounds, b, k);
    var i := f.blocks[b].insts[j];
    assert InstOk(i, f.vregs);
    if NeedsGuard(i, bounds) {
      TempsBelow(f, bounds, b, j);
    }
    OneIsOk(i, bounds, Temp(f.blocks[b].insts, bounds, NextAt(f, bounds, b), j), o, f.vregs, r.vregs);
  }

  lemma OneIsOk(i: Inst, bounds: Bounds, n: VReg, o: nat, vregs: nat, more: nat)
    requires InstOk(i, vregs) && vregs <= more && (NeedsGuard(i, bounds) ==> n + 2 <= more) && o < |One(i, bounds, n)|
    ensures InstOk(One(i, bounds, n)[o], more)
  {
    if NeedsGuard(i, bounds) {
      assert i.lhs in Uses(i) && i.rhs in Uses(i);
    } else {
      assert forall v :: v in Uses(i) ==> v < more;
    }
  }

  /** Legalization keeps functions well-formed and every register defined once. */
  lemma LegalizedIsSsa(f: Function, r: Function, bounds: Bounds)
    requires FunctionOk(f) && SingleAssignment(f) && IsLegalized(f, r, bounds)
    ensures FunctionOk(r) && SingleAssignment(r)
  {
    forall b, k | 0 <= b < |r.blocks| && 0 <= k < |r.blocks[b].insts| ensures InstOk(r.blocks[b].insts[k], r.vregs) {
      PartIsOk(f, r, bounds, b, k);
    }
    forall b, k | 0 <= b < |r.blocks| && 0 <= k < |r.blocks[b].phis| ensures PhiOk(r.blocks[b].phis[k], r.vregs) {
      assert r.blocks[b] == LegalizedBlock(f, bounds, b);
      assert PhiOk(f.blocks[b].phis[k], f.vregs);
    }
    forall b, k, c, l | HasInst(r, b, k) && HasInst(r, c, l) && SameDef(r.blocks[b].insts[k], r.blocks[c].insts[l])
      ensures b == c && k == l
    {
      OneDefinition(f, r, bounds, b, k, c, l);
    }
    forall b, k, c, l | HasPhi(r, b, k) && HasPhi(r, c, l) && r.blocks[b].phis[k].dst == r.blocks[c].phis[l].dst
      ensures b == c && k == l
    {
      assert r.blocks[b] == LegalizedBlock(f, bounds, b) && r.blocks[c] == LegalizedBlock(f, bounds, c);
      assert HasPhi(f, b, k) && HasPhi(f, c, l);
    }
    forall b, k, c, l | HasInst(r, b, k) && HasPhi(r, c, l)
      ensures Def(r.blocks[b].insts[k]) != Some(r.blocks[c].phis[l].dst)
    {
      NotAPhi(f, r, bounds, b, k, c, l);
    }
  }
}
