/** Whole clobber walks: every step keeps the invariant, the walk ends, and its answer is mandatory. */
module ClobberRun {
  import opened Finite
  import opened ClobberSpec
  import opened ClobberInvariant

  // ------------------------------------------------------------ one step

  lemma HeadCanStep(nodes: Nodes, alias: Oracle, start: nat, s: Walk, gs: seq<Group>)
    requires Head(nodes, alias, start, s, gs) && s.frames != []
    ensures CanStep(nodes, s)
  {
    if Entering(nodes, alias, start, s, gs) {
      TargetInRange(nodes, alias, start, gs);
    } else if Complete(nodes, alias, start, s, gs) {
      CompleteCanStep(nodes, alias, start, s, gs);
    } else {
      assert gs != [];
      assert GroupOk(nodes, alias, gs[|gs| - 1]);
    }
  }

  lemma CompleteCanStep(nodes: Nodes, alias: Oracle, start: nat, s: Walk, gs: seq<Group>)
    requires Complete(nodes, alias, start, s, gs)
    ensures CanStep(nodes, s)
  {
    var g := gs[|gs| - 1];
    assert GroupOk(nodes, alias, g);
    SplitFrames(nodes, gs);
    assert Enters(nodes[g.p].inputs, |g.vals| + 1) == [];
  }

  lemma TargetInRange(nodes: Nodes, alias: Oracle, start: nat, gs: seq<Group>)
    requires NodesOk(nodes) && start < |nodes| && (gs != [] ==> Waiting(nodes, alias, gs[|gs| - 1]))
    ensures Target(nodes, alias, start, gs) < |nodes|
  {
    if gs != [] {
      assert NodeOk(nodes, nodes[Who(gs[|gs| - 1])]);
    }
  }

  lemma EnterStopHead(nodes: Nodes, alias: Oracle, start: nat, s: Walk, gs: seq<Group>, x: nat, t: Walk)
      returns (gt: seq<Group>)
    requires Entering(nodes, alias, start, s, gs) && x == Target(nodes, alias, start, gs) && x < |nodes|
    requires s.memo[x].New? && Stop(nodes, alias, x)
    requires t == Walk(s.memo[x := Done(x)], FramesOf(nodes, gs), s.values + [Access(x)])
    ensures Head(nodes, alias, start, t, gt)
  {
    EnterStop(nodes, alias, start, s, gs, x, t);
    assert Returned(nodes, alias, start, t, gs);
    gt := Deliver(nodes, alias, start, t, gs);
  }

  lemma TwoFrames(f: seq<Frame>, a: Frame, b: Frame)
    ensures f + [a, b] == (f + [a]) + [b]
  {
  }

  lemma EnterDefinitionHead(nodes: Nodes, alias: Oracle, start: nat, s: Walk, gs: seq<Group>, x: nat, t: Walk)
    requires Entering(nodes, alias, start, s, gs) && x == Target(nodes, alias, start, gs)
    requires Through(nodes, alias, x) && s.memo[x].New?
    requires t ==
             Walk(s.memo[x := Open], FramesOf(nodes, gs) + [FinishDefinition(x), Enter(nodes[x].previous)], s.values)
    ensures Head(nodes, alias, start, t, gs + [DefG(x)])
  {
    var gt := gs + [DefG(x)];
    OpenInv(nodes, alias, start, s, gs, DefG(x), t);
    DefinitionFrames(nodes, gs, x);
    TwoFrames(FramesOf(nodes, gs), FinishDefinition(x), Enter(nodes[x].previous));
    assert gt[|gt| - 1] == DefG(x);
    assert Target(nodes, alias, start, gt) == nodes[x].previous;
    assert Entering(nodes, alias, start, t, gt);
  }

  lemma EnterPhiHead(nodes: Nodes, alias: Oracle, start: nat, s: Walk, gs: seq<Group>, x: nat, t: Walk)
    requires Entering(nodes, alias, start, s, gs) && x == Target(nodes, alias, start, gs) && x < |nodes|
    requires nodes[x].Phi? && s.memo[x].New?
    requires t == Walk(s.memo[x := Open],
                       FramesOf(nodes, gs) + [FinishPhi(x, |nodes[x].inputs|)] + Enters(nodes[x].inputs, 0), s.values)
    ensures Head(nodes, alias, start, t, gs + [PhiG(x, [])])
  {
    var gt := gs + [PhiG(x, [])];
    OpenInv(nodes, alias, start, s, gs, PhiG(x, []), t);
    PhiFrames(nodes, gs, x);
    PhiValues(gs, x);
    if |nodes[x].inputs| > 0 {
      assert Entering(nodes, alias, start, t, gt);
    } else {
      assert Complete(nodes, alias, start, t, gt);
    }
  }

  lemma EnterNew(nodes: Nodes, alias: Oracle, start: nat, s: Walk, gs: seq<Group>, x: nat, t: Walk)
      returns (gt: seq<Group>)
    requires Entering(nodes, alias, start, s, gs) && x == Target(nodes, alias, start, gs) && x < |nodes|
    requires s.memo[x].New? && CanStep(nodes, s) && t == Step(nodes, alias, s)
    requires s.frames == FramesOf(nodes, gs) + [Enter(x)]
    ensures Head(nodes, alias, start, t, gt)
  {
    assert s.frames[..|s.frames| - 1] == FramesOf(nodes, gs);
    if Stop(nodes, alias, x) {
      gt := EnterStopHead(nodes, alias, start, s, gs, x, t);
    } else if nodes[x].Phi? {
      EnterPhiHead(nodes, alias, start, s, gs, x, t);
      gt := gs + [PhiG(x, [])];
    } else {
      EnterDefinitionHead(nodes, alias, start, s, gs, x, t);
      gt := gs + [DefG(x)];
    }
  }

  lemma EnterStep(nodes: Nodes, alias: Oracle, start: nat, s: Walk, gs: seq<Group>) returns (gt: seq<Group>)
    requires Entering(nodes, alias, start, s, gs) && CanStep(nodes, s)
    ensures Head(nodes, alias, start, Step(nodes, alias, s), gt)
  {
    TargetInRange(nodes, alias, start, gs);
    var x := Target(nodes, alias, start, gs);
    if s.memo[x].New? {
      gt := EnterNew(nodes, alias, start, s, gs, x, Step(nodes, alias, s));
    } else {
      EnterKnown(nodes, alias, start, s, gs);
      gt := Deliver(nodes, alias, start, Step(nodes, alias, s), gs);
    }
  }

  lemma DefinitionStep(nodes: Nodes, alias: Oracle, start: nat, s: Walk, gs: seq<Group>) returns (gt: seq<Group>)
    requires Returned(nodes, alias, start, s, gs) && CanStep(nodes, s) && gs != [] && gs[|gs| - 1].DefG?
    ensures Head(nodes, alias, start, Step(nodes, alias, s), gt)
  {
    var k := |gs| - 1;
    var d := gs[k].d;
    var t := Step(nodes, alias, s);
    FinishDef(nodes, alias, start, s, gs, d, s.values[|s.values| - 1], t);
    CloseStack(nodes, alias, start, s.memo, gs, New);
    assert FramesOf(nodes, gs) == FramesOf(nodes, gs[..k]) + [FinishDefinition(d)];
    assert ValuesOf(gs) == ValuesOf(gs[..k]);
    assert Returned(nodes, alias, start, t, gs[..k]);
    gt := Deliver(nodes, alias, start, t, gs[..k]);
  }

  lemma PhiStep(nodes: Nodes, alias: Oracle, start: nat, s: Walk, gs: seq<Group>) returns (gt: seq<Group>)
    requires Complete(nodes, alias, start, s, gs) && CanStep(nodes, s)
    ensures Head(nodes, alias, start, Step(nodes, alias, s), gt)
  {
    var k := |gs| - 1;
    var p, vals, below := gs[k].p, gs[k].vals, ValuesOf(gs[..k]);
    var t := Step(nodes, alias, s);
    assert GroupFrames(nodes, gs[k]) == [FinishPhi(p, |vals|)];
    assert s.values == below + vals;
    assert s.values[|s.values| - |vals|..] == vals;
    FinishMerge(nodes, alias, start, s, gs, p, vals, below, t);
    CloseStack(nodes, alias, start, s.memo, gs, New);
    assert Returned(nodes, alias, start, t, gs[..k]);
    gt := Deliver(nodes, alias, start, t, gs[..k]);
  }

  /** Every step of a walk keeps its invariant. */
  lemma StepKeeps(nodes: Nodes, alias: Oracle, start: nat, s: Walk, gs: seq<Group>) returns (gt: seq<Group>)
    requires Head(nodes, alias, start, s, gs) && s.frames != []
    ensures CanStep(nodes, s) && Head(nodes, alias, start, Step(nodes, alias, s), gt)
  {
    HeadCanStep(nodes, alias, start, s, gs);
    if Entering(nodes, alias, start, s, gs) {
      gt := EnterStep(nodes, alias, start, s, gs);
    } else if Complete(nodes, alias, start, s, gs) {
      gt := PhiStep(nodes, alias, start, s, gs);
    } else {
      gt := DefinitionStep(nodes, alias, start, s, gs);
    }
  }

  // ------------------------------------------------------------ termination

  ghost function NewPhis(nodes: Nodes, memo: seq<Mark>): set<nat> {
    set n | n in Below(|nodes|) && n < |memo| && nodes[n].Phi? && memo[n].New?
  }

  ghost function NewMarks(memo: seq<Mark>): set<nat> {
    set n | n in Below(|memo|) && memo[n].New?
  }

  ghost function EnterCount(frames: seq<Frame>): nat {
    if frames == [] then 0
    else EnterCount(frames[..|frames| - 1]) + if frames[|frames| - 1].Enter? then 1 else 0
  }

  /** How many steps the top of the stack can take before an access resolves. */
  ghost function Slack(s: Walk): nat {
    if s.frames != [] && s.frames[|s.frames| - 1].Enter? then |NewMarks(s.memo)| else |s.memo| + 1 + |s.frames|
  }

  ghost predicate Smaller(nodes: Nodes, t: Walk, s: Walk) {
    var a, b := |NewPhis(nodes, t.memo)|, |NewPhis(nodes, s.memo)|;
    var c, d := EnterCount(t.frames), EnterCount(s.frames);
    a < b || (a == b && (c < d || (c == d && Slack(t) < Slack(s))))
  }

  lemma NewMarksBound(memo: seq<Mark>)
    ensures |NewMarks(memo)| <= |memo|
  {
    SubsetCard(NewMarks(memo), Below(|memo|));
  }

  lemma MarkCount(memo: seq<Mark>, x: nat, mark: Mark)
    requires x < |memo| && memo[x].New? && !mark.New?
    ensures |NewMarks(memo[x := mark])| < |NewMarks(memo)|
  {
    assert x in NewMarks(memo);
    assert NewMarks(memo[x := mark]) == NewMarks(memo) - {x};
  }

  lemma PhiCount(nodes: Nodes, memo: seq<Mark>, x: nat, mark: Mark)
    requires x < |memo| == |nodes| && memo[x].New? && !mark.New?
    ensures nodes[x].Phi? ==> |NewPhis(nodes, memo[x := mark])| < |NewPhis(nodes, memo)|
    ensures !nodes[x].Phi? ==> NewPhis(nodes, memo[x := mark]) == NewPhis(nodes, memo)
  {
    if nodes[x].Phi? {
      assert x in NewPhis(nodes, memo);
      assert NewPhis(nodes, memo[x := mark]) == NewPhis(nodes, memo) - {x};
    }
  }

  lemma EnterShrinks(nodes: Nodes, alias: Oracle, s: Walk)
    requires CanStep(nodes, s) && s.frames[|s.frames| - 1].Enter?
    ensures Smaller(nodes, Step(nodes, alias, s), s)
  {
    var x := s.frames[|s.frames| - 1].access;
    var rest := s.frames[..|s.frames| - 1];
    var t := Step(nodes, alias, s);
    if s.memo[x].New? {
      MarkCount(s.memo, x, t.memo[x]);
      PhiCount(nodes, s.memo, x, t.memo[x]);
      assert t.memo == s.memo[x := t.memo[x]];
      if Through(nodes, alias, x) {
        assert t.frames == rest + [FinishDefinition(x)] + [Enter(nodes[x].previous)];
        assert (rest + [FinishDefinition(x)])[..|rest|] == rest;
        assert t.frames[..|t.frames| - 1] == rest + [FinishDefinition(x)];
      }
    }
  }

  lemma FinishShrinks(nodes: Nodes, alias: Oracle, s: Walk)
    requires CanStep(nodes, s) && !s.frames[|s.frames| - 1].Enter?
    requires s.frames[|s.frames| - 1].FinishDefinition? ==> Through(nodes, alias, s.frames[|s.frames| - 1].access)
    requires s.frames[|s.frames| - 1].FinishPhi? ==> s.memo[s.frames[|s.frames| - 1].access].Open?
    ensures Smaller(nodes, Step(nodes, alias, s), s)
  {
    var t := Step(nodes, alias, s);
    NewMarksBound(t.memo);
    assert NewPhis(nodes, t.memo) == NewPhis(nodes, s.memo);
  }

  lemma StepShrinks(nodes: Nodes, alias: Oracle, start: nat, s: Walk, gs: seq<Group>)
    requires Head(nodes, alias, start, s, gs) && s.frames != [] && CanStep(nodes, s)
    ensures Smaller(nodes, Step(nodes, alias, s), s)
  {
    match s.frames[|s.frames| - 1]
    case Enter(x) =>
      EnterShrinks(nodes, alias, s);
    case FinishDefinition(d) =>
      FinishedDefinition(nodes, alias, start, s, gs);
      FinishShrinks(nodes, alias, s);
    case FinishPhi(p, n) =>
      FinishedPhi(nodes, alias, start, s, gs);
      FinishShrinks(nodes, alias, s);
  }

  lemma FinishedDefinition(nodes: Nodes, alias: Oracle, start: nat, s: Walk, gs: seq<Group>)
    requires Head(nodes, alias, start, s, gs) && s.frames != [] && s.frames[|s.frames| - 1].FinishDefinition?
    ensures Through(nodes, alias, s.frames[|s.frames| - 1].access)
  {
    assert gs != [];
    assert GroupOk(nodes, alias, gs[|gs| - 1]);
  }

  lemma FinishedPhi(nodes: Nodes, alias: Oracle, start: nat, s: Walk, gs: seq<Group>)
    requires Head(nodes, alias, start, s, gs) && s.frames != [] && s.frames[|s.frames| - 1].FinishPhi?
    ensures s.frames[|s.frames| - 1].access < |s.memo| && s.memo[s.frames[|s.frames| - 1].access].Open?
  {
    assert gs != [];
    var k := |gs| - 1;
    if Complete(nodes, alias, start, s, gs) {
      assert Enters(nodes[gs[k].p].inputs, |gs[k].vals| + 1) == [];
      assert Who(gs[k]) == gs[k].p;
    }
  }

  // ------------------------------------------------------------ the answer

  ghost predicate NoneOpen(memo: seq<Mark>) {
    forall n: nat :: n < |memo| ==> !memo[n].Open?
  }

  /** Every remembered answer of earlier queries of the session is met by every walk. */
  ghost predicate Sound(nodes: Nodes, alias: Oracle, memo: seq<Mark>) {
    forall n: nat :: n < |memo| && memo[n].Done? ==> Mandatory(nodes, alias, n, memo[n].access)
  }

  ghost predicate Ready(nodes: Nodes, alias: Oracle, memo: seq<Mark>) {
    NodesOk(nodes) && MemoOk(nodes, alias, memo) && NoneOpen(memo) && Sound(nodes, alias, memo)
  }

  lemma StartHead(nodes: Nodes, alias: Oracle, start: nat, memo: seq<Mark>)
    requires Ready(nodes, alias, memo) && start < |nodes|
    ensures Head(nodes, alias, start, Start(memo, start), [])
  {
    assert Entering(nodes, alias, start, Start(memo, start), []);
  }

  /** A walk that starts where the answer agrees meets the answer. */
  lemma {:induction false} AnswerMet(nodes: Nodes, alias: Oracle, memo: seq<Mark>, w: seq<nat>, n: nat, c: nat)
    requires NodesOk(nodes) && MemoOk(nodes, alias, memo) && NoneOpen(memo) && PhisOk(nodes, alias, memo, [Access(c)])
    requires StopWalk(nodes, alias, w, n) && EndsDone(nodes, alias, memo, n, c)
    ensures c in w
    decreases |w|
  {
    var e: nat :| Ends(nodes, alias, n, e) && e < |memo| && memo[e] == Done(c);
    var f, i := WalkMeetsEnd(nodes, alias, w, n);
    EndsUnique(nodes, alias, n, e, f);
    TailWalk(nodes, alias, w, n, i);
    assert DoneOk(nodes, alias, memo, e, c);
    if e != c {
      if Mandatory(nodes, alias, e, c) {
        assert c in w[i..];
      } else {
        assert PhiOk(nodes, alias, memo, [Access(c)], e, c);
        assert Back(nodes, alias, w[i], w[i + 1]);
        TailWalk(nodes, alias, w, n, i + 1);
        var m := w[i + 1];
        var j :| 0 <= j < |nodes[e].inputs| && nodes[e].inputs[j].1 == m;
        assert InputOk(nodes, alias, memo, [Access(c)], m, c);
        var g, _ := WalkMeetsEnd(nodes, alias, w[i + 1..], m);
        EndsUnique(nodes, alias, m, g, g);
        assert memo[g] == Done(c);
        AnswerMet(nodes, alias, memo, w[i + 1..], m, c);
      }
    }
  }

  /** What a finished walk says about its start. */
  ghost predicate Answers(nodes: Nodes, alias: Oracle, start: nat, r: Resolution) {
    match r
    case Cycle => Endless(nodes, alias, start)
    case Access(c) =>
      && c < |nodes| && !Through(nodes, alias, c) && !Endless(nodes, alias, start)
      && LeadsTo(nodes, alias, start, c) && Mandatory(nodes, alias, start, c)
  }

  lemma WalkAnswers(nodes: Nodes, alias: Oracle, start: nat, s: Walk, gs: seq<Group>)
    requires Head(nodes, alias, start, s, gs) && s.frames == []
    ensures |s.values| == 1 && Answers(nodes, alias, start, s.values[0])
    ensures MemoOk(nodes, alias, s.memo) && NoneOpen(s.memo)
  {
    EmptyStack(nodes, gs);
    var v := s.values[0];
    assert forall e: nat :: !OpenPhi(gs, e);
    assert NoneOpen(s.memo);
    if v.Access? {
      var c := v.access;
      var e: nat :| Ends(nodes, alias, start, e) && e < |s.memo| && s.memo[e] == Done(c);
      assert DoneOk(nodes, alias, s.memo, e, c);
      EndsLeads(nodes, alias, start, e, c);
      forall w | StopWalk(nodes, alias, w, start) ensures c in w {
        assert s.values == [Access(c)];
        AnswerMet(nodes, alias, s.memo, w, start, c);
      }
    }
  }

  lemma EmptyStack(nodes: Nodes, gs: seq<Group>)
    ensures gs != [] ==> FramesOf(nodes, gs) != []
    ensures gs == [] ==> FramesOf(nodes, gs) == [] && ValuesOf(gs) == []
  {
  }
}
