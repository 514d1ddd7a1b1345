/** The bounds recorded so far are never tighter than their operations give, nor than any lawful bounds. */
module MirTrace {
  import opened CfgErrors
  import opened Words
  import opened Mir
  import opened MirBounds
  import opened MirLaws

  predicate SourcesWithin(sources: seq<(nat, VReg)>, bounds: Bounds, b: nat) {
    forall k :: 0 <= k < |sources| ==> sources[k].1 in bounds && bounds[sources[k].1] <= b
  }

  /** The largest bound of the sources, if all have one. */
  function PhiBound(sources: seq<(nat, VReg)>, bounds: Bounds): (r: Option<nat>)
    ensures r.Some? ==> SourcesWithin(sources, bounds, r.value) && (BoundsOk(bounds) ==> r.value < WORD)
    ensures r.Some? ==> exists k :: 0 <= k < |sources| && sources[k].1 in bounds && bounds[sources[k].1] == r.value
    ensures r.None? ==> sources == [] || exists k :: 0 <= k < |sources| && sources[k].1 !in bounds
  {
    if sources == [] then None
    else if |sources| == 1 then Get(bounds, sources[0].1)
    else
      var rest := PhiBound(sources[1..], bounds);
      if sources[0].1 !in bounds || rest.None? then None else Some(Max(bounds[sources[0].1], rest.value))
  }

  function Insert(bounds: Bounds, v: VReg, b: nat): (r: (Bounds, bool))
    ensures Tighter(r.0, bounds) && v in r.0 && r.0[v] <= b
    ensures r.1 <==> v !in bounds || b < bounds[v]
    ensures !r.1 ==> r.0 == bounds
    ensures r.1 ==> r.0 == bounds[v := b]
  {
    if v in bounds && bounds[v] <= b then (bounds, false) else (bounds[v := b], true)
  }

  ghost predicate InstTraced(i: Inst, x: Bounds)
    requires BoundsOk(x)
  {
    Def(i).Some? ==> AtMost(Floor(i, x), Get(x, Def(i).value))
  }

  ghost predicate PhiTraced(phi: Phi, x: Bounds) {
    AtMost(PhiBound(phi.sources, x), Get(x, phi.dst))
  }

  /** No lawful bounds are looser. */
  ghost predicate Loosest(f: Function, x: Bounds) {
    forall y: Bounds :: Lawful(f, y) && LowHalves(f, y) ==> Tighter(y, x)
  }

  ghost predicate Traced(f: Function, x: Bounds) {
    && BoundsOk(x) && Loosest(f, x)
    && (forall b, k :: HasInst(f, b, k) ==> InstTraced(f.blocks[b].insts[k], x))
    && (forall b, k :: HasPhi(f, b, k) ==> PhiTraced(f.blocks[b].phis[k], x))
    && forall v :: v in x ==> Defined(f, v)
  }

  lemma PhiMono(sources: seq<(nat, VReg)>, x: Bounds, y: Bounds)
    requires Tighter(y, x)
    ensures AtMost(PhiBound(sources, y), PhiBound(sources, x))
  {
    if PhiBound(sources, x).Some? {
      forall k | 0 <= k < |sources| ensures sources[k].1 in y && y[sources[k].1] <= PhiBound(sources, x).value {
      }
    }
  }

  lemma PhiUpper(phi: Phi, x: Bounds)
    requires PhiLaw(phi, x)
    ensures AtMost(Get(x, phi.dst), PhiBound(phi.sources, x))
  {
  }

  lemma PhiLawHolds(phi: Phi, x: Bounds)
    requires PhiTraced(phi, x) && AtMost(Get(x, phi.dst), PhiBound(phi.sources, x))
    ensures PhiLaw(phi, x)
  {
  }

  /** A bound taken from an instruction keeps the other instructions' and phis' bounds where they were. */
  lemma InsertKeeps(f: Function, x: Bounds, v: VReg, bound: nat, y: Bounds)
    requires Traced(f, x) && FunctionOk(f) && y == Insert(x, v, bound).0 && bound < WORD
    ensures forall b, k :: HasInst(f, b, k) && Def(f.blocks[b].insts[k]) != Some(v) ==>
              InstTraced(f.blocks[b].insts[k], y)
    ensures forall b, k :: HasPhi(f, b, k) && f.blocks[b].phis[k].dst != v ==> PhiTraced(f.blocks[b].phis[k], y)
  {
    forall b, k | HasInst(f, b, k) && Def(f.blocks[b].insts[k]) != Some(v)
      ensures InstTraced(f.blocks[b].insts[k], y)
    {
      var i := f.blocks[b].insts[k];
      assert InstOk(i, f.vregs) && InstTraced(i, x);
      FloorMono(i, f.vregs, x, y);
    }
    forall b, k | HasPhi(f, b, k) && f.blocks[b].phis[k].dst != v ensures PhiTraced(f.blocks[b].phis[k], y) {
      assert PhiTraced(f.blocks[b].phis[k], x);
      PhiMono(f.blocks[b].phis[k].sources, x, y);
    }
  }

  lemma InsertLoosest(f: Function, x: Bounds, v: VReg, bound: nat)
    requires Loosest(f, x)
    requires forall y: Bounds :: Lawful(f, y) && LowHalves(f, y) ==> v in y && y[v] <= bound
    ensures Loosest(f, Insert(x, v, bound).0)
  {
    forall y: Bounds | Lawful(f, y) && LowHalves(f, y) ensures Tighter(y, Insert(x, v, bound).0) {
      assert Tighter(y, x);
    }
  }

  lemma LawfulInst(f: Function, x: Bounds, b: nat, k: nat, bound: nat, z: Bounds)
    requires Traced(f, x) && FunctionOk(f) && HasInst(f, b, k) && Lawful(f, z) && LowHalves(f, z)
    requires Def(f.blocks[b].insts[k]).Some? && BoundOf(f.blocks[b].insts[k], x) == Some(bound)
    ensures var v := Def(f.blocks[b].insts[k]).value; v in z && z[v] <= bound
  {
    var i := f.blocks[b].insts[k];
    assert InstOk(i, f.vregs) && InstLaw(i, z);
    LawUpper(i, f.vregs, z);
    assert Tighter(z, x);
    FloorMono(i, f.vregs, x, z);
  }

  lemma LawfulPhi(f: Function, x: Bounds, b: nat, k: nat, bound: nat, z: Bounds)
    requires Traced(f, x) && HasPhi(f, b, k) && Lawful(f, z) && LowHalves(f, z)
    requires PhiBound(f.blocks[b].phis[k].sources, x) == Some(bound)
    ensures var v := f.blocks[b].phis[k].dst; v in z && z[v] <= bound
  {
    var phi := f.blocks[b].phis[k];
    assert PhiLaw(phi, z);
    PhiUpper(phi, z);
    assert Tighter(z, x);
    PhiMono(phi.sources, x, z);
  }

  lemma TraceInst(f: Function, x: Bounds, b: nat, k: nat, bound: nat)
    requires Traced(f, x) && SingleAssignment(f) && FunctionOk(f) && HasInst(f, b, k)
    requires Def(f.blocks[b].insts[k]).Some? && BoundOf(f.blocks[b].insts[k], x) == Some(bound) && bound < WORD
    ensures Traced(f, Insert(x, Def(f.blocks[b].insts[k]).value, bound).0)
  {
    var i := f.blocks[b].insts[k];
    var v := Def(i).value;
    var y := Insert(x, v, bound).0;
    assert InstOk(i, f.vregs) && InstTraced(i, x);
    InsertKeeps(f, x, v, bound, y);
    FloorMono(i, f.vregs, x, y);
    assert InstTraced(i, y);
    forall c, l | HasInst(f, c, l) ensures InstTraced(f.blocks[c].insts[l], y) {
      if Def(f.blocks[c].insts[l]) == Some(v) {
        assert SameDef(i, f.blocks[c].insts[l]);
      }
    }
    forall c, l | HasPhi(f, c, l) ensures PhiTraced(f.blocks[c].phis[l], y) {
      assert Def(i) != Some(f.blocks[c].phis[l].dst);
    }
    forall z: Bounds | Lawful(f, z) && LowHalves(f, z) ensures v in z && z[v] <= bound {
      LawfulInst(f, x, b, k, bound, z);
    }
    InsertLoosest(f, x, v, bound);
    assert Defined(f, v);
  }

  lemma OtherDefinitions(f: Function, b: nat, k: nat)
    requires SingleAssignment(f) && HasPhi(f, b, k)
    ensures forall c, l :: HasInst(f, c, l) ==> Def(f.blocks[c].insts[l]) != Some(f.blocks[b].phis[k].dst)
    ensures forall c, l :: HasPhi(f, c, l) && f.blocks[c].phis[l].dst == f.blocks[b].phis[k].dst ==> c == b && l == k
  {
  }

  lemma TracePhi(f: Function, x: Bounds, b: nat, k: nat, bound: nat)
    requires Traced(f, x) && SingleAssignment(f) && FunctionOk(f) && HasPhi(f, b, k)
    requires PhiBound(f.blocks[b].phis[k].sources, x) == Some(bound) && bound < WORD
    ensures Traced(f, Insert(x, f.blocks[b].phis[k].dst, bound).0)
  {
    var phi := f.blocks[b].phis[k];
    var y := Insert(x, phi.dst, bound).0;
    OtherDefinitions(f, b, k);
    InsertKeeps(f, x, phi.dst, bound, y);
    PhiStays(f, x, b, k, bound);
    forall z: Bounds | Lawful(f, z) && LowHalves(f, z) ensures phi.dst in z && z[phi.dst] <= bound {
      LawfulPhi(f, x, b, k, bound, z);
    }
    InsertLoosest(f, x, phi.dst, bound);
    assert Defined(f, phi.dst);
  }

  lemma PhiStays(f: Function, x: Bounds, b: nat, k: nat, bound: nat)
    requires Traced(f, x) && HasPhi(f, b, k) && PhiBound(f.blocks[b].phis[k].sources, x) == Some(bound)
    ensures PhiTraced(f.blocks[b].phis[k], Insert(x, f.blocks[b].phis[k].dst, bound).0)
  {
    var phi := f.blocks[b].phis[k];
    assert PhiTraced(phi, x);
    PhiMono(phi.sources, x, Insert(x, phi.dst, bound).0);
  }

  /** Two lawful sets of bounds that are both the loosest are the same. */
  lemma OneLoosest(f: Function, x: Bounds, y: Bounds)
    requires Lawful(f, x) && LowHalves(f, x) && Loosest(f, x)
    requires Lawful(f, y) && LowHalves(f, y) && Loosest(f, y)
    ensures x == y
  {
    assert Tighter(x, y) && Tighter(y, x);
  }
}
