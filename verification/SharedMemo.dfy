/** How a shared memo goes wrong: a phi resolved below the phi it depends on keeps a premature answer. */
module SharedMemo {
  import opened CfgErrors
  import opened ClobberSpec
  import opened ClobberInvariant
  import opened ClobberRun
  import opened ClobberSession

  // ------------------------------------------------------------ runs of the step machine

  /** `k` steps of a walk. */
  ghost function Run(nodes: Nodes, alias: Oracle, s: Walk, k: nat): Walk
    decreases k
  {
    if k == 0 || s.frames == [] || !CanStep(nodes, s) then s else Run(nodes, alias, Step(nodes, alias, s), k - 1)
  }

  lemma {:induction false} RunMore(nodes: Nodes, alias: Oracle, s: Walk, k: nat)
    requires Run(nodes, alias, s, k).frames != [] && CanStep(nodes, Run(nodes, alias, s, k))
    ensures Run(nodes, alias, s, k + 1) == Step(nodes, alias, Run(nodes, alias, s, k))
    decreases k
  {
    if k > 0 && s.frames != [] && CanStep(nodes, s) {
      RunMore(nodes, alias, Step(nodes, alias, s), k - 1);
    }
  }

  lemma Once(nodes: Nodes, alias: Oracle, s: Walk, t: Walk, k: nat)
    requires s.frames != [] && CanStep(nodes, s) && t == Step(nodes, alias, s)
    ensures Run(nodes, alias, s, k + 1) == Run(nodes, alias, t, k)
  {
  }

  function Fresh(nodes: Nodes): (memo: seq<Mark>)
    ensures |memo| == |nodes| && forall n :: 0 <= n < |memo| ==> memo[n] == New
  {
    seq(|nodes|, _ => New)
  }

  // ------------------------------------------------------------ a walk resolves everything it can reach

  /** Some pending entry leads down at most `k` passed definitions to `e`. */
  ghost predicate PendingAt(nodes: Nodes, alias: Oracle, frames: seq<Frame>, e: nat, k: nat) {
    exists i :: 0 <= i < |frames| && frames[i].Enter? && ChainEnd(nodes, alias, frames[i].access, k) == Some(e)
  }

  ghost predicate MetAt(nodes: Nodes, alias: Oracle, s: Walk, e: nat, k: nat) {
    (e < |s.memo| && !s.memo[e].New?) || PendingAt(nodes, alias, s.frames, e, k)
  }

  /** The end of the chain from `m` has been entered or is about to be. */
  ghost predicate Met(nodes: Nodes, alias: Oracle, s: Walk, m: nat) {
    forall e: nat, k: nat {:trigger MetAt(nodes, alias, s, e, k)} ::
      ChainEnd(nodes, alias, m, k) == Some(e) ==> MetAt(nodes, alias, s, e, k)
  }

  /** Everything behind an entered access has been entered or is about to be. */
  ghost predicate Explored(nodes: Nodes, alias: Oracle, s: Walk) {
    |s.memo| == |nodes| &&
    forall n: nat, m: nat :: n < |s.memo| && !s.memo[n].New? && Back(nodes, alias, n, m) ==> Met(nodes, alias, s, m)
  }

  /** The fewest passed definitions to the end of a chain. */
  lemma {:induction false} Least(nodes: Nodes, alias: Oracle, n: nat, e: nat, k: nat) returns (l: nat)
    requires ChainEnd(nodes, alias, n, k) == Some(e)
    ensures l <= k && ChainEnd(nodes, alias, n, l) == Some(e) && (l > 0 ==> ChainEnd(nodes, alias, n, l - 1) != Some(e))
    decreases k
  {
    l := k;
    if k > 0 && ChainEnd(nodes, alias, n, k - 1) == Some(e) {
      l := Least(nodes, alias, n, e, k - 1);
    }
  }

  /** Entering a known access again loses nothing: what lies behind it is met without that entry. */
  lemma KnownEntry(nodes: Nodes, alias: Oracle, s: Walk, x: nat, e: nat, k: nat)
    requires Explored(nodes, alias, s) && s.frames != [] && s.frames[|s.frames| - 1] == Enter(x)
    requires x < |s.memo| && !s.memo[x].New? && ChainEnd(nodes, alias, x, k) == Some(e)
    ensures (e < |s.memo| && !s.memo[e].New?) || PendingAt(nodes, alias, s.frames[..|s.frames| - 1], e, k)
  {
    if Through(nodes, alias, x) {
      var l := Least(nodes, alias, x, e, k);
      var m := nodes[x].previous;
      assert Back(nodes, alias, x, m) && ChainEnd(nodes, alias, m, l - 1) == Some(e);
      assert Met(nodes, alias, s, m);
      assert MetAt(nodes, alias, s, e, l - 1);
      if e >= |s.memo| || s.memo[e].New? {
        var i :| 0 <= i < |s.frames| && s.frames[i].Enter?
          && ChainEnd(nodes, alias, s.frames[i].access, l - 1) == Some(e);
        ChainEndStable(nodes, alias, s.frames[i].access, l - 1, k);
        var rest := s.frames[..|s.frames| - 1];
        assert rest[i] == s.frames[i];
      }
    }
  }

  lemma PendingKept(nodes: Nodes, alias: Oracle, before: seq<Frame>, after: seq<Frame>, e: nat, k: nat)
    requires PendingAt(nodes, alias, before, e, k) && |before| <= |after| && after[..|before|] == before
    ensures PendingAt(nodes, alias, after, e, k)
  {
    var i :| 0 <= i < |before| && before[i].Enter? && ChainEnd(nodes, alias, before[i].access, k) == Some(e);
    assert after[i] == before[i];
  }

  /** The frames below the top stay; only the topmost entry is replaced. */
  lemma NotTop(nodes: Nodes, alias: Oracle, frames: seq<Frame>, e: nat, k: nat)
    requires frames != [] && PendingAt(nodes, alias, frames, e, k)
    ensures
      var n := |frames| - 1;
      PendingAt(nodes, alias, frames[..n], e, k) ||
      (frames[n].Enter? && ChainEnd(nodes, alias, frames[n].access, k) == Some(e))
  {
    var n := |frames| - 1;
    var i :| 0 <= i <= n && frames[i].Enter? && ChainEnd(nodes, alias, frames[i].access, k) == Some(e);
    if i < n {
      assert frames[..n][i] == frames[i];
    }
  }

  lemma EntersAll(inputs: seq<(nat, nat)>, from: nat, j: nat)
    requires from <= j < |inputs|
    ensures Enter(inputs[j].1) in Enters(inputs, from)
    decreases |inputs| - from
  {
    if from < j {
      EntersAll(inputs, from + 1, j);
    }
  }

  lemma StepShape(nodes: Nodes, alias: Oracle, s: Walk)
    requires CanStep(nodes, s)
    ensures
      var t, n := Step(nodes, alias, s), |s.frames| - 1;
      |t.frames| >= n && t.frames[..n] == s.frames[..n]
  {
  }

  /** Entering a new access puts an entry for everything behind it on the stack. */
  lemma NewEntry(nodes: Nodes, alias: Oracle, s: Walk, x: nat, m: nat)
    requires CanStep(nodes, s) && s.frames[|s.frames| - 1] == Enter(x) && s.memo[x].New? && Back(nodes, alias, x, m)
    ensures Enter(m) in Step(nodes, alias, s).frames
  {
    var t := Step(nodes, alias, s);
    if nodes[x].Phi? {
      var j :| 0 <= j < |nodes[x].inputs| && nodes[x].inputs[j].1 == m;
      EntersAll(nodes[x].inputs, 0, j);
    } else {
      assert t.frames[|t.frames| - 1] == Enter(m);
    }
  }

  lemma InFrames(nodes: Nodes, alias: Oracle, s: Walk, m: nat)
    requires Enter(m) in s.frames
    ensures Met(nodes, alias, s, m)
  {
    var i :| 0 <= i < |s.frames| && s.frames[i] == Enter(m);
    forall e: nat, k: nat | ChainEnd(nodes, alias, m, k) == Some(e) ensures MetAt(nodes, alias, s, e, k) {
      assert s.frames[i].Enter?;
    }
  }

  /** A frame that finishes an access finishes an open one; definitions among them are passed. */
  ghost predicate TopOk(nodes: Nodes, alias: Oracle, s: Walk) {
    && CanStep(nodes, s)
    && (s.frames[|s.frames| - 1].FinishDefinition? ==> Through(nodes, alias, s.frames[|s.frames| - 1].access))
    && (!s.frames[|s.frames| - 1].Enter? ==>
          s.frames[|s.frames| - 1].access < |s.memo| && s.memo[s.frames[|s.frames| - 1].access].Open?)
  }

  lemma HeadTopOk(nodes: Nodes, alias: Oracle, start: nat, s: Walk, gs: seq<Group>)
    requires Head(nodes, alias, start, s, gs) && s.frames != []
    ensures TopOk(nodes, alias, s)
  {
    HeadCanStep(nodes, alias, start, s, gs);
    match s.frames[|s.frames| - 1]
    case Enter(_) =>
    case FinishDefinition(_) =>
      FinishedDefinition(nodes, alias, start, s, gs);
      OpenDefinition(nodes, alias, start, s, gs);
    case FinishPhi(_, _) =>
      FinishedPhi(nodes, alias, start, s, gs);
  }

  lemma OpenDefinition(nodes: Nodes, alias: Oracle, start: nat, s: Walk, gs: seq<Group>)
    requires Head(nodes, alias, start, s, gs) && s.frames != [] && s.frames[|s.frames| - 1].FinishDefinition?
    ensures s.frames[|s.frames| - 1].access < |s.memo| && s.memo[s.frames[|s.frames| - 1].access].Open?
  {
    assert gs != [];
    assert Who(gs[|gs| - 1]) == s.frames[|s.frames| - 1].access;
  }

  /** An entered end of a chain stays entered: only passed definitions are ever reset. */
  lemma StaysEntered(nodes: Nodes, alias: Oracle, s: Walk, e: nat)
    requires TopOk(nodes, alias, s) && e < |s.memo| && !s.memo[e].New? && !Through(nodes, alias, e)
    ensures !Step(nodes, alias, s).memo[e].New?
  {
    var mark := StepChanges(nodes, alias, s);
  }

  lemma MetKept(nodes: Nodes, alias: Oracle, s: Walk, e: nat, k: nat, n: nat)
    requires TopOk(nodes, alias, s) && Explored(nodes, alias, s)
    requires ChainEnd(nodes, alias, n, k) == Some(e) && MetAt(nodes, alias, s, e, k)
    ensures MetAt(nodes, alias, Step(nodes, alias, s), e, k)
  {
    ChainEndStable(nodes, alias, n, k, k);
    if !s.memo[e].New? {
      StaysEntered(nodes, alias, s, e);
    } else {
      PendingStep(nodes, alias, s, e, k);
    }
  }

  lemma PendingStep(nodes: Nodes, alias: Oracle, s: Walk, e: nat, k: nat)
    requires TopOk(nodes, alias, s) && Explored(nodes, alias, s)
    requires e < |nodes| && s.memo[e].New? && PendingAt(nodes, alias, s.frames, e, k)
    ensures MetAt(nodes, alias, Step(nodes, alias, s), e, k)
  {
    var top := |s.frames| - 1;
    NotTop(nodes, alias, s.frames, e, k);
    if PendingAt(nodes, alias, s.frames[..top], e, k) {
      StepShape(nodes, alias, s);
      PendingKept(nodes, alias, s.frames[..top], Step(nodes, alias, s).frames, e, k);
    } else {
      TopEntry(nodes, alias, s, s.frames[top].access, e, k);
    }
  }

  /** What only the topmost entry led to is entered now, or the entry behind it leads there. */
  lemma TopEntry(nodes: Nodes, alias: Oracle, s: Walk, x: nat, e: nat, k: nat)
    requires CanStep(nodes, s) && s.frames[|s.frames| - 1] == Enter(x) && Explored(nodes, alias, s)
    requires ChainEnd(nodes, alias, x, k) == Some(e) && e < |nodes| && s.memo[e].New?
    requires !PendingAt(nodes, alias, s.frames[..|s.frames| - 1], e, k)
    ensures MetAt(nodes, alias, Step(nodes, alias, s), e, k)
  {
    var t := Step(nodes, alias, s);
    if !s.memo[x].New? {
      KnownEntry(nodes, alias, s, x, e, k);
    } else if Through(nodes, alias, x) {
      var m := nodes[x].previous;
      ChainEndStable(nodes, alias, m, k - 1, k);
      NewEntry(nodes, alias, s, x, m);
      InFrames(nodes, alias, t, m);
    }
  }

  lemma StepExplores(nodes: Nodes, alias: Oracle, s: Walk)
    requires TopOk(nodes, alias, s) && Explored(nodes, alias, s)
    ensures Explored(nodes, alias, Step(nodes, alias, s))
    ensures forall m: nat :: Met(nodes, alias, s, m) ==> Met(nodes, alias, Step(nodes, alias, s), m)
  {
    var t := Step(nodes, alias, s);
    forall m: nat | Met(nodes, alias, s, m) ensures Met(nodes, alias, t, m) {
      forall e: nat, k: nat | ChainEnd(nodes, alias, m, k) == Some(e) ensures MetAt(nodes, alias, t, e, k) {
        assert MetAt(nodes, alias, s, e, k);
        MetKept(nodes, alias, s, e, k, m);
      }
    }
    forall n: nat, m: nat | n < |t.memo| && !t.memo[n].New? && Back(nodes, alias, n, m)
      ensures Met(nodes, alias, t, m)
    {
      if s.memo[n].New? {
        NewlyEntered(nodes, alias, s, n);
        NewEntry(nodes, alias, s, n, m);
        InFrames(nodes, alias, t, m);
      }
    }
  }

  lemma NewlyEntered(nodes: Nodes, alias: Oracle, s: Walk, n: nat)
    requires TopOk(nodes, alias, s) && n < |s.memo| && s.memo[n].New? && !Step(nodes, alias, s).memo[n].New?
    ensures s.frames[|s.frames| - 1] == Enter(n)
  {
    var mark := StepChanges(nodes, alias, s);
  }

  /** When nothing is pending, whatever an entered access leads to has been entered. */
  lemma {:induction false} ReachedIsEntered(nodes: Nodes, alias: Oracle, s: Walk, w: seq<nat>, e: nat)
    requires Explored(nodes, alias, s) && s.frames == [] && IsWalk(nodes, alias, w) && Ends(nodes, alias, w[|w| - 1], e)
    requires Met(nodes, alias, s, w[0])
    ensures e < |s.memo| && !s.memo[e].New?
    decreases |w|
  {
    if |w| == 1 {
      var k: nat :| ChainEnd(nodes, alias, w[0], k) == Some(e);
      assert MetAt(nodes, alias, s, e, k);
    } else {
      assert Back(nodes, alias, w[0], w[1]);
      MetBehind(nodes, alias, s, w[0], w[1]);
      assert IsWalk(nodes, alias, w[1..]);
      ReachedIsEntered(nodes, alias, s, w[1..], e);
    }
  }

  lemma MetBehind(nodes: Nodes, alias: Oracle, s: Walk, n: nat, m: nat)
    requires Explored(nodes, alias, s) && s.frames == [] && Met(nodes, alias, s, n) && Back(nodes, alias, n, m)
    ensures Met(nodes, alias, s, m)
  {
    if Through(nodes, alias, n) {
      forall e: nat, k: nat | ChainEnd(nodes, alias, m, k) == Some(e) ensures MetAt(nodes, alias, s, e, k) {
        assert ChainEnd(nodes, alias, n, k + 1) == Some(e);
        assert MetAt(nodes, alias, s, e, k + 1);
      }
    } else {
      assert ChainEnd(nodes, alias, n, 0) == Some(n);
      assert MetAt(nodes, alias, s, n, 0);
    }
  }

  // ------------------------------------------------------------ the failing shape

  ghost predicate InputEnds(nodes: Nodes, alias: Oracle, q: nat, e: nat)
    requires q < |nodes| && nodes[q].Phi?
  {
    exists j :: 0 <= j < |nodes[q].inputs| && Ends(nodes, alias, nodes[q].inputs[j].1, e)
  }

  /**
    Two phis that lead to each other: the inner one has a single way out of the circle, which the outer one can avoid.
   */
  ghost predicate Entangled(nodes: Nodes, alias: Oracle, p: nat, q: nat, c: nat) {
    && NodesOk(nodes) && p < |nodes| && q < |nodes| && p != q && nodes[p].Phi? && nodes[q].Phi? && Stop(nodes, alias, c)
    && LeadsTo(nodes, alias, p, q)
    && (forall e: nat :: InputEnds(nodes, alias, q, e) ==> e == p || e == c)
    && InputEnds(nodes, alias, q, p) && InputEnds(nodes, alias, q, c)
    && !Mandatory(nodes, alias, p, c)
  }

  /** While the outer phi is unfinished, the inner one resolves to its way out. */
  lemma InnerResult(nodes: Nodes, alias: Oracle, p: nat, q: nat, c: nat, s: Walk, gs: seq<Group>)
    requires Entangled(nodes, alias, p, q, c) && Complete(nodes, alias, p, s, gs) && gs[|gs| - 1].p == q
    ensures Merge(q, gs[|gs| - 1].vals) == c
  {
    var vals := gs[|gs| - 1].vals;
    forall j | 0 <= j < |vals| && vals[j].Access? ensures vals[j] == Access(c) {
      InnerValue(nodes, alias, p, q, c, s, gs, j);
    }
    var j := WayOut(nodes, alias, p, q, c, s, gs);
  }

  /** The input that leads out of the circle has delivered its access. */
  lemma WayOut(nodes: Nodes, alias: Oracle, p: nat, q: nat, c: nat, s: Walk, gs: seq<Group>) returns (j: nat)
    requires Entangled(nodes, alias, p, q, c) && Complete(nodes, alias, p, s, gs) && gs[|gs| - 1].p == q
    ensures j < |gs[|gs| - 1].vals| && gs[|gs| - 1].vals[j].Access?
  {
    var k := |gs| - 1;
    assert gs[..k + 1] == gs && GroupValuesOk(nodes, alias, s.memo, gs, k);
    j :| 0 <= j < |nodes[q].inputs| && Ends(nodes, alias, nodes[q].inputs[j].1, c);
    assert ValueOk(nodes, alias, s.memo, gs, nodes[q].inputs[j].1, gs[k].vals[j]);
    StopNotOpen(nodes, alias, gs, c);
  }

  lemma StopNotOpen(nodes: Nodes, alias: Oracle, gs: seq<Group>, c: nat)
    requires Stop(nodes, alias, c) && forall i :: 0 <= i < |gs| ==> GroupOk(nodes, alias, gs[i])
    ensures !OpenPhi(gs, c)
  {
    forall i | 0 <= i < |gs| && gs[i].PhiG? ensures gs[i].p != c {
      assert GroupOk(nodes, alias, gs[i]);
    }
  }

  lemma InnerValue(nodes: Nodes, alias: Oracle, p: nat, q: nat, c: nat, s: Walk, gs: seq<Group>, j: nat)
    requires Entangled(nodes, alias, p, q, c) && Complete(nodes, alias, p, s, gs) && gs[|gs| - 1].p == q
    requires j < |gs[|gs| - 1].vals| && gs[|gs| - 1].vals[j].Access?
    ensures gs[|gs| - 1].vals[j] == Access(c)
  {
    var k := |gs| - 1;
    var m, r := nodes[q].inputs[j].1, gs[k].vals[j].access;
    assert gs[..k + 1] == gs && GroupValuesOk(nodes, alias, s.memo, gs, k);
    assert ValueOk(nodes, alias, s.memo, gs, m, gs[k].vals[j]);
    var e: nat :| Ends(nodes, alias, m, e) && e < |s.memo| && s.memo[e] == Done(r);
    assert InputEnds(nodes, alias, q, e);
    assert Who(gs[0]) == p && s.memo[Who(gs[0])].Open?;
    assert DoneOk(nodes, alias, s.memo, e, r);
  }

  /** The inner phi's mark: not finished, or finished with its way out. */
  ghost predicate InnerMark(memo: seq<Mark>, q: nat, c: nat) {
    q < |memo| && (memo[q].Done? ==> memo[q] == Done(c))
  }

  lemma StepInner(nodes: Nodes, alias: Oracle, p: nat, q: nat, c: nat, s: Walk, gs: seq<Group>)
    requires Entangled(nodes, alias, p, q, c) && Head(nodes, alias, p, s, gs) && s.frames != [] && CanStep(nodes, s)
    requires InnerMark(s.memo, q, c)
    ensures InnerMark(Step(nodes, alias, s).memo, q, c)
  {
    var mark := StepChanges(nodes, alias, s);
    if s.frames[|s.frames| - 1].access == q {
      TopInner(nodes, alias, p, q, c, s, gs, mark);
    }
  }

  lemma TopInner(nodes: Nodes, alias: Oracle, p: nat, q: nat, c: nat, s: Walk, gs: seq<Group>, mark: Mark)
    requires Entangled(nodes, alias, p, q, c) && Head(nodes, alias, p, s, gs) && s.frames != [] && CanStep(nodes, s)
    requires s.frames[|s.frames| - 1].access == q && TopMark(nodes, alias, s, mark) && InnerMark(s.memo, q, c)
    ensures mark.Done? ==> mark == Done(c)
  {
    match s.frames[|s.frames| - 1]
    case Enter(_) =>
    case FinishDefinition(_) => FinishedDefinition(nodes, alias, p, s, gs);
    case FinishPhi(_, _) =>
      PhiTop(nodes, alias, p, s, gs);
      InnerResult(nodes, alias, p, q, c, s, gs);
  }

  ghost predicate Between(nodes: Nodes, alias: Oracle, p: nat, q: nat, c: nat, s: Walk, gs: seq<Group>) {
    && Entangled(nodes, alias, p, q, c) && Head(nodes, alias, p, s, gs)
    && Explored(nodes, alias, s) && Met(nodes, alias, s, p) && InnerMark(s.memo, q, c)
  }

  /** The walk has ended with the inner phi resolved to its way out. */
  ghost predicate Resolved(nodes: Nodes, s: Walk, q: nat, c: nat) {
    s.frames == [] && |s.memo| == |nodes| && q < |s.memo| && s.memo[q] == Done(c)
  }

  ghost predicate Steps(nodes: Nodes, alias: Oracle, s: Walk, t: Walk) {
    s.frames != [] && CanStep(nodes, s) && t == Step(nodes, alias, s)
  }

  ghost predicate IsTrace(nodes: Nodes, alias: Oracle, trace: seq<Walk>) {
    trace != [] && forall i, j :: 0 <= i && j == i + 1 && j < |trace| ==> Steps(nodes, alias, trace[i], trace[j])
  }

  lemma {:induction false} TraceIsRun(nodes: Nodes, alias: Oracle, trace: seq<Walk>)
    requires IsTrace(nodes, alias, trace)
    ensures Run(nodes, alias, trace[0], |trace| - 1) == trace[|trace| - 1]
    decreases |trace|
  {
    if |trace| > 1 {
      assert Steps(nodes, alias, trace[0], trace[1]);
      TraceIsRun(nodes, alias, trace[1..]);
      Once(nodes, alias, trace[0], trace[1], |trace| - 2);
    }
  }

  lemma TracePush(nodes: Nodes, alias: Oracle, s: Walk, trace: seq<Walk>)
    requires IsTrace(nodes, alias, trace) && Steps(nodes, alias, s, trace[0])
    ensures IsTrace(nodes, alias, [s] + trace)
  {
    var more := [s] + trace;
    forall i, j | 0 <= i && j == i + 1 && j < |more| ensures Steps(nodes, alias, more[i], more[j]) {
      assert i > 0 ==> more[i] == trace[i - 1] && more[j] == trace[i];
    }
  }

  /** The query of the outer phi ends, having finished the inner one with its way out. */
  lemma {:induction false} OuterEnds(nodes: Nodes, alias: Oracle, p: nat, q: nat, c: nat, s: Walk, gs: seq<Group>)
    returns (trace: seq<Walk>)
    requires Between(nodes, alias, p, q, c, s, gs)
    ensures IsTrace(nodes, alias, trace) && trace[0] == s && Resolved(nodes, trace[|trace| - 1], q, c)
    decreases |NewPhis(nodes, s.memo)|, EnterCount(s.frames), Slack(s)
  {
    if s.frames == [] {
      trace := [s];
      OuterEnded(nodes, alias, p, q, c, s, gs);
    } else {
      var t, gt := BetweenStep(nodes, alias, p, q, c, s, gs);
      var rest := OuterEnds(nodes, alias, p, q, c, t, gt);
      TracePush(nodes, alias, s, rest);
      trace := [s] + rest;
    }
  }

  lemma BetweenStep(nodes: Nodes, alias: Oracle, p: nat, q: nat, c: nat, s: Walk, gs: seq<Group>)
      returns (t: Walk, gt: seq<Group>)
    requires Between(nodes, alias, p, q, c, s, gs) && s.frames != []
    ensures Between(nodes, alias, p, q, c, t, gt) && Smaller(nodes, t, s) && Steps(nodes, alias, s, t)
  {
    gt := StepKeeps(nodes, alias, p, s, gs);
    t := Step(nodes, alias, s);
    StepShrinks(nodes, alias, p, s, gs);
    HeadTopOk(nodes, alias, p, s, gs);
    StepExplores(nodes, alias, s);
    StepInner(nodes, alias, p, q, c, s, gs);
  }

  lemma OuterEnded(nodes: Nodes, alias: Oracle, p: nat, q: nat, c: nat, s: Walk, gs: seq<Group>)
    requires Between(nodes, alias, p, q, c, s, gs) && s.frames == []
    ensures Resolved(nodes, s, q, c)
  {
    WalkAnswers(nodes, alias, p, s, gs);
    var w :| IsWalk(nodes, alias, w) && w[0] == p && w[|w| - 1] == q;
    EndsHere(nodes, alias, q);
    assert Ends(nodes, alias, q, q);
    ReachedIsEntered(nodes, alias, s, w, q);
  }

  /** A walk along passed definitions. */
  lemma {:induction false} ChainWalk(nodes: Nodes, alias: Oracle, n: nat, k: nat, e: nat) returns (w: seq<nat>)
    requires ChainEnd(nodes, alias, n, k) == Some(e)
    ensures IsWalk(nodes, alias, w) && w[0] == n && w[|w| - 1] == e
    ensures forall i :: 0 <= i < |w| - 1 ==> Through(nodes, alias, w[i])
    decreases k
  {
    ChainEndStable(nodes, alias, n, k, k);
    if Through(nodes, alias, n) {
      var rest := ChainWalk(nodes, alias, nodes[n].previous, k - 1, e);
      w := [n] + rest;
      forall i, j | 0 <= i && j == i + 1 && j < |w| ensures Back(nodes, alias, w[i], w[j]) {
        assert i > 0 ==> w[i] == rest[i - 1] && w[j] == rest[i];
      }
    } else {
      w := [n];
    }
  }

  lemma AppendWalk(nodes: Nodes, alias: Oracle, v: seq<nat>, w: seq<nat>)
    requires IsWalk(nodes, alias, v) && IsWalk(nodes, alias, w) && Back(nodes, alias, v[|v| - 1], w[0])
    ensures IsWalk(nodes, alias, v + w)
  {
    var whole := v + w;
    forall i, j | 0 <= i && j == i + 1 && j < |whole| ensures Back(nodes, alias, whole[i], whole[j]) {
      if i >= |v| {
        assert whole[i] == w[i - |v|] && whole[j] == w[i + 1 - |v|];
      } else if i < |v| - 1 {
        assert whole[i] == v[i] && whole[j] == v[i + 1];
      }
    }
  }

  /** From the inner phi, too, a complete walk avoids its way out: back to the outer phi and on from there. */
  lemma InnerAvoids(nodes: Nodes, alias: Oracle, p: nat, q: nat, c: nat)
    requires Entangled(nodes, alias, p, q, c)
    ensures !Mandatory(nodes, alias, q, c)
  {
    var w :| StopWalk(nodes, alias, w, p) && c !in w;
    var j :| 0 <= j < |nodes[q].inputs| && Ends(nodes, alias, nodes[q].inputs[j].1, p);
    var m := nodes[q].inputs[j].1;
    var k: nat :| ChainEnd(nodes, alias, m, k) == Some(p);
    var v := ChainWalk(nodes, alias, m, k, p);
    var down := v[..|v| - 1];
    assert Back(nodes, alias, q, m);
    assert forall i :: 0 <= i < |down| ==> Through(nodes, alias, down[i]);
    if down == [] {
      AppendWalk(nodes, alias, [q], w);
      assert StopWalk(nodes, alias, [q] + w, q) && c !in [q] + w;
    } else {
      assert Back(nodes, alias, v[|v| - 2], v[|v| - 1]);
      assert IsWalk(nodes, alias, down);
      AppendWalk(nodes, alias, [q], down);
      AppendWalk(nodes, alias, [q] + down, w);
      assert StopWalk(nodes, alias, [q] + down + w, q) && c !in [q] + down + w;
    }
  }

  /**
    On every entangled pair a session goes wrong: after a query of the outer phi, a query of the inner one
    answers its way out at once, although a complete walk from there avoids it.
   */
  lemma EntangledMisses(nodes: Nodes, alias: Oracle, p: nat, q: nat, c: nat) returns (i: nat)
    requires Entangled(nodes, alias, p, q, c)
    ensures
      var first := Run(nodes, alias, Start(Fresh(nodes), p), i);
      && first.frames == []
      && (forall j: nat :: j > 0 ==> Run(nodes, alias, Start(first.memo, q), j) == Walk(first.memo, [], [Access(c)]))
    ensures !Mandatory(nodes, alias, q, c)
  {
    StartBetween(nodes, alias, p, q, c);
    var trace := OuterEnds(nodes, alias, p, q, c, Start(Fresh(nodes), p), []);
    TraceIsRun(nodes, alias, trace);
    i := |trace| - 1;
    KnownAnswer(nodes, alias, Run(nodes, alias, Start(Fresh(nodes), p), i).memo, q, c);
    InnerAvoids(nodes, alias, p, q, c);
  }

  lemma StartBetween(nodes: Nodes, alias: Oracle, p: nat, q: nat, c: nat)
    requires Entangled(nodes, alias, p, q, c)
    ensures Between(nodes, alias, p, q, c, Start(Fresh(nodes), p), [])
  {
    var s := Start(Fresh(nodes), p);
    assert Ready(nodes, alias, s.memo);
    StartHead(nodes, alias, p, s.memo);
    assert s.frames[0] == Enter(p);
    InFrames(nodes, alias, s, p);
  }

  /** A query of a finished access is answered from the memo in one step. */
  lemma KnownAnswer(nodes: Nodes, alias: Oracle, memo: seq<Mark>, q: nat, c: nat)
    requires q < |memo| == |nodes| && memo[q] == Done(c)
    ensures forall j: nat :: j > 0 ==> Run(nodes, alias, Start(memo, q), j) == Walk(memo, [], [Access(c)])
  {
    forall j: nat | j > 0 ensures Run(nodes, alias, Start(memo, q), j) == Walk(memo, [], [Access(c)]) {
      Once(nodes, alias, Start(memo, q), Walk(memo, [], [Access(c)]), j - 1);
    }
  }

  /** Entangled phis are mutual, so the condition that keeps sessions right excludes them. */
  lemma EntangledIsMutual(nodes: Nodes, alias: Oracle, p: nat, q: nat, c: nat)
    requires Entangled(nodes, alias, p, q, c)
    ensures !NoMutualPhis(nodes, alias)
  {
    var j :| 0 <= j < |nodes[q].inputs| && Ends(nodes, alias, nodes[q].inputs[j].1, p);
    SelfLeads(nodes, alias, p);
    EndsLeads(nodes, alias, nodes[q].inputs[j].1, p, p);
    assert Back(nodes, alias, q, nodes[q].inputs[j].1);
    ExtendWalk(nodes, alias, q, nodes[q].inputs[j].1, p);
  }
}
