/** Clobber queries that share their memo: when later answers stay right, and when they do not. */
module ClobberSession {
  import opened ClobberSpec
  import opened ClobberInvariant
  import opened ClobberRun

  /** No two phis lead to each other. */
  ghost predicate NoMutualPhis(nodes: Nodes, alias: Oracle) {
    forall p: nat, q: nat :: p < |nodes| && q < |nodes| && p != q && nodes[p].Phi? && nodes[q].Phi? ==>
      !(LeadsTo(nodes, alias, p, q) && LeadsTo(nodes, alias, q, p))
  }

  // ------------------------------------------------------------ mandatory accesses

  lemma MandatoryBeyond(nodes: Nodes, alias: Oracle, n: nat, e: nat, c: nat)
    requires NodesOk(nodes) && Ends(nodes, alias, n, e) && Mandatory(nodes, alias, e, c)
    ensures Mandatory(nodes, alias, n, c)
  {
    forall w | StopWalk(nodes, alias, w, n) ensures c in w {
      var f, i := WalkMeetsEnd(nodes, alias, w, n);
      EndsUnique(nodes, alias, n, e, f);
      TailWalk(nodes, alias, w, n, i);
      assert c in w[i..];
    }
  }

  /** Each input of `p` leads back to `p` or to an access from which `c` is mandatory. */
  ghost predicate InputsAgree(nodes: Nodes, alias: Oracle, p: nat, c: nat)
    requires p < |nodes| && nodes[p].Phi?
  {
    forall j: nat, e: nat :: j < |nodes[p].inputs| && Ends(nodes, alias, nodes[p].inputs[j].1, e) ==>
      e == p || Mandatory(nodes, alias, e, c)
  }

  lemma {:induction false} PhiMandatory(nodes: Nodes, alias: Oracle, p: nat, c: nat, w: seq<nat>)
    requires NodesOk(nodes) && p < |nodes| && nodes[p].Phi? && InputsAgree(nodes, alias, p, c)
    requires StopWalk(nodes, alias, w, p)
    ensures c in w
    decreases |w|
  {
    assert |w| > 1 && Back(nodes, alias, w[0], w[1]);
    var j: nat :| j < |nodes[p].inputs| && nodes[p].inputs[j].1 == w[1];
    TailWalk(nodes, alias, w, p, 1);
    var e, i := WalkMeetsEnd(nodes, alias, w[1..], w[1]);
    TailWalk(nodes, alias, w, p, i + 1);
    assert Ends(nodes, alias, nodes[p].inputs[j].1, e);
    assert w[1..][i..] == w[i + 1..];
    if e == p {
      PhiMandatory(nodes, alias, p, c, w[i + 1..]);
    } else {
      assert Mandatory(nodes, alias, e, c);
      assert StopWalk(nodes, alias, w[i + 1..], e);
      assert c in w[i + 1..];
    }
  }

  // ------------------------------------------------------------ the stack as a walk

  lemma {:induction false} StackLeads(nodes: Nodes, alias: Oracle, start: nat, gs: seq<Group>, i: nat, k: nat)
    requires NodesOk(nodes) && StackOk(nodes, alias, start, gs) && i <= k < |gs|
    ensures LeadsTo(nodes, alias, Who(gs[i]), Who(gs[k]))
    decreases k - i
  {
    if i == k {
      SelfLeads(nodes, alias, Who(gs[k]));
    } else {
      StackLeads(nodes, alias, start, gs, i + 1, k);
      assert Linked(nodes, alias, gs, i);
      assert GroupOk(nodes, alias, gs[i]);
      assert Back(nodes, alias, Who(gs[i]), Who(gs[i + 1]));
      ExtendWalk(nodes, alias, Who(gs[i]), Who(gs[i + 1]), Who(gs[k]));
    }
  }

  lemma MergedInputsAgree(nodes: Nodes, alias: Oracle, start: nat, memo: seq<Mark>, gs: seq<Group>, p: nat,
      vals: seq<Resolution>)
    requires NoMutualPhis(nodes, alias) && Sound(nodes, alias, memo)
    requires NodesOk(nodes) && StackOk(nodes, alias, start, gs)
    requires gs != [] && gs[|gs| - 1] == PhiG(p, vals) && GroupOk(nodes, alias, gs[|gs| - 1])
    requires |vals| == |nodes[p].inputs| && GroupValuesOk(nodes, alias, memo, gs, |gs| - 1)
    requires Merge(p, vals) != p
    ensures InputsAgree(nodes, alias, p, Merge(p, vals))
  {
    var k, r := |gs| - 1, Merge(p, vals);
    MergeAgrees(p, vals);
    forall j: nat, e: nat | j < |nodes[p].inputs| && Ends(nodes, alias, nodes[p].inputs[j].1, e)
      ensures e == p || Mandatory(nodes, alias, e, r)
    {
      var m := nodes[p].inputs[j].1;
      assert gs[..k + 1] == gs;
      assert ValueOk(nodes, alias, memo, gs, m, vals[j]);
      match vals[j]
      case Cycle =>
        assert OpenPhi(gs, e);
        var i: nat :| i < |gs| && gs[i].PhiG? && gs[i].p == e;
        assert GroupOk(nodes, alias, gs[i]);
        StackLeads(nodes, alias, start, gs, i, k);
        SelfLeads(nodes, alias, e);
        EndsLeads(nodes, alias, m, e, e);
        assert Back(nodes, alias, p, m);
        ExtendWalk(nodes, alias, p, m, e);
      case Access(c) =>
        var f: nat :| Ends(nodes, alias, m, f) && f < |memo| && memo[f] == Done(c);
        EndsUnique(nodes, alias, m, e, f);
    }
  }

  lemma SoundMark(nodes: Nodes, alias: Oracle, memo: seq<Mark>, x: nat, mark: Mark)
    requires Sound(nodes, alias, memo) && x < |memo|
    requires mark.Done? ==> Mandatory(nodes, alias, x, mark.access)
    ensures Sound(nodes, alias, memo[x := mark])
  {
  }

  /** The mark a step leaves on the access it takes from the stack. */
  ghost predicate TopMark(nodes: Nodes, alias: Oracle, s: Walk, mark: Mark)
    requires CanStep(nodes, s)
  {
    match s.frames[|s.frames| - 1]
    case Enter(x) => mark.Done? ==> mark == s.memo[x] || (Stop(nodes, alias, x) && mark == Done(x))
    case FinishDefinition(_) => mark == DefinitionMark(s.values[|s.values| - 1])
    case FinishPhi(p, n) => mark == Done(Merge(p, s.values[|s.values| - n..]))
  }

  /** A step changes at most the mark of the access on top. */
  lemma StepChanges(nodes: Nodes, alias: Oracle, s: Walk) returns (mark: Mark)
    requires CanStep(nodes, s)
    ensures TopMark(nodes, alias, s, mark) && s.frames[|s.frames| - 1].access < |s.memo|
    ensures Step(nodes, alias, s).memo == s.memo[s.frames[|s.frames| - 1].access := mark]
  {
    mark := Step(nodes, alias, s).memo[s.frames[|s.frames| - 1].access];
    match s.frames[|s.frames| - 1]
    case Enter(_) =>
    case FinishDefinition(_) =>
    case FinishPhi(_, _) =>
  }

  /** Without mutually dependent phis every result on the way is already right. */
  lemma SoundTop(nodes: Nodes, alias: Oracle, start: nat, s: Walk, gs: seq<Group>, mark: Mark)
    requires Head(nodes, alias, start, s, gs) && s.frames != [] && CanStep(nodes, s)
    requires NoMutualPhis(nodes, alias) && Sound(nodes, alias, s.memo) && TopMark(nodes, alias, s, mark)
    ensures mark.Done? ==> Mandatory(nodes, alias, s.frames[|s.frames| - 1].access, mark.access)
  {
    match s.frames[|s.frames| - 1]
    case Enter(_) =>
    case FinishDefinition(_) =>
      if s.values[|s.values| - 1].Access? {
        SoundDefinition(nodes, alias, start, s, gs);
      }
    case FinishPhi(_, _) =>
      SoundPhi(nodes, alias, start, s, gs);
  }

  lemma SoundDefinition(nodes: Nodes, alias: Oracle, start: nat, s: Walk, gs: seq<Group>)
    requires Head(nodes, alias, start, s, gs) && CanStep(nodes, s) && s.frames[|s.frames| - 1].FinishDefinition?
    requires Sound(nodes, alias, s.memo) && s.values[|s.values| - 1].Access?
    ensures Mandatory(nodes, alias, s.frames[|s.frames| - 1].access, s.values[|s.values| - 1].access)
  {
    var d, c := s.frames[|s.frames| - 1].access, s.values[|s.values| - 1].access;
    assert gs != [];
    assert GroupOk(nodes, alias, gs[|gs| - 1]);
    var e: nat :| Ends(nodes, alias, nodes[d].previous, e) && e < |s.memo| && s.memo[e] == Done(c);
    EndsThrough(nodes, alias, d);
    MandatoryBeyond(nodes, alias, d, e, c);
  }

  lemma PhiTop(nodes: Nodes, alias: Oracle, start: nat, s: Walk, gs: seq<Group>)
    requires Head(nodes, alias, start, s, gs) && s.frames != [] && s.frames[|s.frames| - 1].FinishPhi?
    ensures Complete(nodes, alias, start, s, gs)
    ensures
      var g := gs[|gs| - 1];
      s.frames[|s.frames| - 1] == FinishPhi(g.p, |g.vals|) && |s.values| >= |g.vals|
        && s.values[|s.values| - |g.vals|..] == g.vals
  {
    assert gs != [];
    var k := |gs| - 1;
    assert GroupFrames(nodes, gs[k]) == [FinishPhi(gs[k].p, |gs[k].vals|)];
  }

  lemma SoundPhi(nodes: Nodes, alias: Oracle, start: nat, s: Walk, gs: seq<Group>)
    requires Head(nodes, alias, start, s, gs) && CanStep(nodes, s) && s.frames[|s.frames| - 1].FinishPhi?
    requires NoMutualPhis(nodes, alias) && Sound(nodes, alias, s.memo)
    ensures
      var p, n := s.frames[|s.frames| - 1].access, s.frames[|s.frames| - 1].inputs;
      Mandatory(nodes, alias, p, Merge(p, s.values[|s.values| - n..]))
  {
    PhiTop(nodes, alias, start, s, gs);
    var g := gs[|gs| - 1];
    var r := Merge(g.p, g.vals);
    if r != g.p {
      MergedInputsAgree(nodes, alias, start, s.memo, gs, g.p, g.vals);
      forall w | StopWalk(nodes, alias, w, g.p) ensures r in w {
        PhiMandatory(nodes, alias, g.p, r, w);
      }
    }
  }

  // ------------------------------------------------------------ the answer is the last mandatory access

  ghost predicate CanStop(nodes: Nodes, alias: Oracle, n: nat) {
    exists w :: StopWalk(nodes, alias, w, n)
  }

  /** Every access leads to the initial memory or to a definition that may alias. */
  ghost predicate AllStop(nodes: Nodes, alias: Oracle) {
    forall n: nat :: n < |nodes| ==> CanStop(nodes, alias, n)
  }

  /** No other access is on every walk from `c`. */
  ghost predicate Final(nodes: Nodes, alias: Oracle, c: nat) {
    forall z: nat :: z != c ==> !Mandatory(nodes, alias, c, z)
  }

  ghost predicate Sharp(nodes: Nodes, alias: Oracle, memo: seq<Mark>) {
    forall n: nat :: n < |memo| && memo[n].Done? ==> Final(nodes, alias, memo[n].access)
  }

  /** If `c` is final and every walk from `m` also meets `z`, then `z` comes first. */
  lemma MandatoryOrder(nodes: Nodes, alias: Oracle, m: nat, c: nat, z: nat)
    requires LeadsTo(nodes, alias, m, c) && Mandatory(nodes, alias, m, c) && Final(nodes, alias, c)
    requires Mandatory(nodes, alias, m, z) && z != c
    ensures LeadsTo(nodes, alias, z, c) && Mandatory(nodes, alias, z, c)
  {
    var v0 :| IsWalk(nodes, alias, v0) && v0[0] == m && v0[|v0| - 1] == c;
    var v := CutWalk(nodes, alias, v0, c);
    assert !Mandatory(nodes, alias, c, z);
    var u :| StopWalk(nodes, alias, u, c) && z !in u;
    var long := v + u[1..];
    assert StopWalk(nodes, alias, long, m) by {
      forall i | 0 <= i < |long| - 1 ensures Back(nodes, alias, long[i], long[i + 1]) {
        if i >= |v| - 1 {
          assert Back(nodes, alias, u[i - (|v| - 1)], u[i - (|v| - 1) + 1]);
        } else {
          assert Back(nodes, alias, v[i], v[i + 1]);
        }
      }
      assert long[|long| - 1] == u[|u| - 1];
    }
    var i: nat :| i < |long| && long[i] == z;
    assert i < |v| - 1;
    assert IsWalk(nodes, alias, v[i..]);
    forall w | StopWalk(nodes, alias, w, z) ensures c in w {
      var whole := v[..i] + w;
      forall j | 0 <= j < |whole| - 1 ensures Back(nodes, alias, whole[j], whole[j + 1]) {
        if j < i {
          assert Back(nodes, alias, v[j], v[j + 1]);
        } else {
          assert Back(nodes, alias, w[j - i], w[j - i + 1]);
        }
      }
      assert whole[|whole| - 1] == w[|w| - 1];
      assert StopWalk(nodes, alias, whole, m);
      var j: nat :| j < |whole| && whole[j] == c;
      assert j < i ==> whole[j] == v[j];
    }
  }

  /** The walk up to its first visit of `c`. */
  lemma {:induction false} CutWalk(nodes: Nodes, alias: Oracle, v: seq<nat>, c: nat) returns (r: seq<nat>)
    requires IsWalk(nodes, alias, v) && v[|v| - 1] == c
    ensures IsWalk(nodes, alias, r) && r[0] == v[0] && r[|r| - 1] == c
    ensures forall i :: 0 <= i < |r| - 1 ==> r[i] != c
    decreases |v|
  {
    if i :| 0 <= i < |v| - 1 && v[i] == c {
      assert Back(nodes, alias, v[i], v[i + 1]);
      r := CutWalk(nodes, alias, v[..i + 1], c);
    } else {
      r := v;
    }
  }

  /** A phi whose inputs have different final answers is final itself. */
  lemma DivergedFinal(nodes: Nodes, alias: Oracle, p: nat, m1: nat, m2: nat, c1: nat, c2: nat)
    requires Back(nodes, alias, p, m1) && Back(nodes, alias, p, m2) && c1 != c2
    requires LeadsTo(nodes, alias, m1, c1) && Mandatory(nodes, alias, m1, c1) && Final(nodes, alias, c1)
    requires LeadsTo(nodes, alias, m2, c2) && Mandatory(nodes, alias, m2, c2) && Final(nodes, alias, c2)
    ensures Final(nodes, alias, p)
  {
    forall z: nat | z != p ensures !Mandatory(nodes, alias, p, z) {
      if Mandatory(nodes, alias, p, z) {
        MandatoryNext(nodes, alias, p, m1, z);
        MandatoryNext(nodes, alias, p, m2, z);
        if z != c1 {
          MandatoryOrder(nodes, alias, m1, c1, z);
        }
        if z != c2 {
          MandatoryOrder(nodes, alias, m2, c2, z);
        }
        if z != c1 && z != c2 {
          MandatoryOrder(nodes, alias, z, c1, c2);
        }
      }
    }
  }

  lemma MandatoryNext(nodes: Nodes, alias: Oracle, p: nat, m: nat, z: nat)
    requires Back(nodes, alias, p, m) && Mandatory(nodes, alias, p, z) && z != p
    ensures Mandatory(nodes, alias, m, z)
  {
    forall w | StopWalk(nodes, alias, w, m) ensures z in w {
      assert StopWalk(nodes, alias, [p] + w, p);
    }
  }

  /** A phi all of whose inputs lead back to it never reaches a stop. */
  lemma {:induction false} NoWayOut(nodes: Nodes, alias: Oracle, p: nat, w: seq<nat>)
    requires NodesOk(nodes) && p < |nodes| && nodes[p].Phi?
    requires forall j: nat, e: nat :: j < |nodes[p].inputs| && Ends(nodes, alias, nodes[p].inputs[j].1, e) ==> e == p
    ensures !StopWalk(nodes, alias, w, p)
    decreases |w|
  {
    if StopWalk(nodes, alias, w, p) {
      assert |w| > 1 && Back(nodes, alias, w[0], w[1]);
      var j: nat :| j < |nodes[p].inputs| && nodes[p].inputs[j].1 == w[1];
      TailWalk(nodes, alias, w, p, 1);
      var e, i := WalkMeetsEnd(nodes, alias, w[1..], w[1]);
      TailWalk(nodes, alias, w, p, i + 1);
      assert Ends(nodes, alias, nodes[p].inputs[j].1, e);
      NoWayOut(nodes, alias, p, w[i + 1..]);
    }
  }

  /** A phi open on top of the stack whose inputs all answered "cycle" leads only to itself. */
  lemma CyclesLeadBack(nodes: Nodes, alias: Oracle, start: nat, memo: seq<Mark>, gs: seq<Group>, p: nat,
      vals: seq<Resolution>)
    requires NoMutualPhis(nodes, alias) && NodesOk(nodes) && StackOk(nodes, alias, start, gs)
    requires gs != [] && gs[|gs| - 1] == PhiG(p, vals) && GroupOk(nodes, alias, gs[|gs| - 1])
    requires |vals| == |nodes[p].inputs| && GroupValuesOk(nodes, alias, memo, gs, |gs| - 1)
    requires forall i :: 0 <= i < |vals| ==> vals[i].Cycle?
    ensures forall j: nat, e: nat :: j < |nodes[p].inputs| && Ends(nodes, alias, nodes[p].inputs[j].1, e) ==> e == p
  {
    var k := |gs| - 1;
    forall j: nat, e: nat | j < |nodes[p].inputs| && Ends(nodes, alias, nodes[p].inputs[j].1, e)
      ensures e == p
    {
      var m := nodes[p].inputs[j].1;
      assert gs[..k + 1] == gs;
      assert ValueOk(nodes, alias, memo, gs, m, vals[j]);
      assert OpenPhi(gs, e);
      var i: nat :| i < |gs| && gs[i].PhiG? && gs[i].p == e;
      assert GroupOk(nodes, alias, gs[i]);
      StackLeads(nodes, alias, start, gs, i, k);
      SelfLeads(nodes, alias, e);
      EndsLeads(nodes, alias, m, e, e);
      assert Back(nodes, alias, p, m);
      ExtendWalk(nodes, alias, p, m, e);
    }
  }

  /** What a stored result says about its input. */
  lemma ResultFinal(nodes: Nodes, alias: Oracle, memo: seq<Mark>, m: nat, c: nat)
    requires NodesOk(nodes) && MemoOk(nodes, alias, memo) && EndsDone(nodes, alias, memo, m, c)
    requires Sound(nodes, alias, memo) && Sharp(nodes, alias, memo)
    ensures LeadsTo(nodes, alias, m, c) && Mandatory(nodes, alias, m, c) && Final(nodes, alias, c)
    ensures c < |memo| && memo[c] == Done(c)
  {
    var e: nat :| Ends(nodes, alias, m, e) && e < |memo| && memo[e] == Done(c);
    assert DoneOk(nodes, alias, memo, e, c);
    EndsLeads(nodes, alias, m, e, c);
    MandatoryBeyond(nodes, alias, m, e, c);
  }

  lemma MergedFinal(nodes: Nodes, alias: Oracle, start: nat, memo: seq<Mark>, gs: seq<Group>, p: nat,
      vals: seq<Resolution>)
    requires NoMutualPhis(nodes, alias) && CanStop(nodes, alias, p)
    requires NodesOk(nodes) && MemoOk(nodes, alias, memo) && StackOk(nodes, alias, start, gs)
    requires Sound(nodes, alias, memo) && Sharp(nodes, alias, memo)
    requires gs != [] && gs[|gs| - 1] == PhiG(p, vals) && GroupOk(nodes, alias, gs[|gs| - 1])
    requires |vals| == |nodes[p].inputs| && GroupValuesOk(nodes, alias, memo, gs, |gs| - 1)
    ensures Final(nodes, alias, Merge(p, vals))
  {
    assert gs[..|gs| - 1 + 1] == gs;
    if i, j :| 0 <= i < |vals| && 0 <= j < |vals| && vals[i].Access? && vals[j].Access? && vals[i] != vals[j] {
      var m1, m2 := nodes[p].inputs[i].1, nodes[p].inputs[j].1;
      ResultFinal(nodes, alias, memo, m1, vals[i].access);
      ResultFinal(nodes, alias, memo, m2, vals[j].access);
      assert Back(nodes, alias, p, m1) && Back(nodes, alias, p, m2);
      DivergedFinal(nodes, alias, p, m1, m2, vals[i].access, vals[j].access);
    } else if i :| 0 <= i < |vals| && vals[i].Access? {
      MergeAgrees(p, vals);
      var j :| 0 <= j < |vals| && vals[j] == Access(Merge(p, vals));
      ResultFinal(nodes, alias, memo, nodes[p].inputs[j].1, Merge(p, vals));
    } else {
      CyclesLeadBack(nodes, alias, start, memo, gs, p, vals);
      var w :| StopWalk(nodes, alias, w, p);
      NoWayOut(nodes, alias, p, w);
    }
  }

  lemma StopFinal(nodes: Nodes, alias: Oracle, x: nat)
    requires Stop(nodes, alias, x)
    ensures Final(nodes, alias, x)
  {
    assert StopWalk(nodes, alias, [x], x);
  }

  lemma SharpMark(nodes: Nodes, alias: Oracle, memo: seq<Mark>, x: nat, mark: Mark)
    requires Sharp(nodes, alias, memo) && x < |memo|
    requires mark.Done? ==> Final(nodes, alias, mark.access)
    ensures Sharp(nodes, alias, memo[x := mark])
  {
  }

  /** Without mutually dependent phis every result on the way is final. */
  lemma SharpTop(nodes: Nodes, alias: Oracle, start: nat, s: Walk, gs: seq<Group>, mark: Mark)
    requires Head(nodes, alias, start, s, gs) && s.frames != [] && CanStep(nodes, s)
    requires NoMutualPhis(nodes, alias) && AllStop(nodes, alias) && TopMark(nodes, alias, s, mark)
    requires Sound(nodes, alias, s.memo) && Sharp(nodes, alias, s.memo)
    ensures mark.Done? ==> Final(nodes, alias, mark.access)
  {
    match s.frames[|s.frames| - 1]
    case Enter(x) =>
      if Stop(nodes, alias, x) {
        StopFinal(nodes, alias, x);
      }
    case FinishDefinition(_) =>
      if s.values[|s.values| - 1].Access? {
        ReturnedFinal(nodes, alias, start, s, gs);
      }
    case FinishPhi(_, _) =>
      SharpPhi(nodes, alias, start, s, gs);
  }

  lemma SharpPhi(nodes: Nodes, alias: Oracle, start: nat, s: Walk, gs: seq<Group>)
    requires Head(nodes, alias, start, s, gs) && s.frames != [] && CanStep(nodes, s)
    requires s.frames[|s.frames| - 1].FinishPhi?
    requires NoMutualPhis(nodes, alias) && AllStop(nodes, alias)
    requires Sound(nodes, alias, s.memo) && Sharp(nodes, alias, s.memo)
    ensures
      var p, n := s.frames[|s.frames| - 1].access, s.frames[|s.frames| - 1].inputs;
      Final(nodes, alias, Merge(p, s.values[|s.values| - n..]))
  {
    PhiTop(nodes, alias, start, s, gs);
    MergedFinal(nodes, alias, start, s.memo, gs, gs[|gs| - 1].p, gs[|gs| - 1].vals);
  }

  lemma ReturnedFinal(nodes: Nodes, alias: Oracle, start: nat, s: Walk, gs: seq<Group>)
    requires Head(nodes, alias, start, s, gs) && s.frames != [] && CanStep(nodes, s)
    requires s.frames[|s.frames| - 1].FinishDefinition? && s.values[|s.values| - 1].Access?
    requires Sound(nodes, alias, s.memo) && Sharp(nodes, alias, s.memo)
    ensures Final(nodes, alias, s.values[|s.values| - 1].access)
  {
    var d := s.frames[|s.frames| - 1].access;
    assert gs != [];
    ResultFinal(nodes, alias, s.memo, nodes[d].previous, s.values[|s.values| - 1].access);
  }
}
