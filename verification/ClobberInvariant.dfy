/** What every step of a clobber walk keeps, and why its answer meets every backward walk. */
module ClobberInvariant {
  import opened CfgErrors
  import opened ClobberSpec

  /** One unfinished access: a passed definition, or a phi with the results of its first inputs. */
  datatype Group = DefG(d: nat) | PhiG(p: nat, vals: seq<Resolution>)

  function Who(g: Group): nat {
    if g.DefG? then g.d else g.p
  }

  ghost predicate GroupOk(nodes: Nodes, alias: Oracle, g: Group) {
    match g
    case DefG(d) => Through(nodes, alias, d)
    case PhiG(p, vals) => p < |nodes| && nodes[p].Phi? && |vals| <= |nodes[p].inputs|
  }

  ghost predicate Waiting(nodes: Nodes, alias: Oracle, g: Group) {
    GroupOk(nodes, alias, g) && (g.PhiG? ==> |g.vals| < |nodes[g.p].inputs|)
  }

  /** The access a waiting group waits for. */
  ghost function Wanted(nodes: Nodes, alias: Oracle, g: Group): nat
    requires Waiting(nodes, alias, g)
  {
    if g.DefG? then nodes[g.d].previous else nodes[g.p].inputs[|g.vals|].1
  }

  function InputsOf(nodes: Nodes, p: nat): seq<(nat, nat)> {
    if p < |nodes| && nodes[p].Phi? then nodes[p].inputs else []
  }

  ghost function GroupFrames(nodes: Nodes, g: Group): seq<Frame> {
    match g
    case DefG(d) => [FinishDefinition(d)]
    case PhiG(p, vals) => [FinishPhi(p, |InputsOf(nodes, p)|)] + Enters(InputsOf(nodes, p), |vals| + 1)
  }

  ghost function FramesOf(nodes: Nodes, gs: seq<Group>): seq<Frame> {
    if gs == [] then [] else FramesOf(nodes, gs[..|gs| - 1]) + GroupFrames(nodes, gs[|gs| - 1])
  }

  ghost function GroupValues(g: Group): seq<Resolution> {
    if g.DefG? then [] else g.vals
  }

  ghost function ValuesOf(gs: seq<Group>): seq<Resolution> {
    if gs == [] then []
    else ValuesOf(gs[..|gs| - 1]) + GroupValues(gs[|gs| - 1])
  }

  ghost predicate OpenPhi(gs: seq<Group>, e: nat) {
    exists i :: 0 <= i < |gs| && gs[i].PhiG? && gs[i].p == e
  }

  /** `v` is the result of access `m`, as seen by the unfinished accesses `gs`. */
  ghost predicate ValueOk(nodes: Nodes, alias: Oracle, memo: seq<Mark>, gs: seq<Group>, m: nat, v: Resolution) {
    match v
    case Access(c) => EndsDone(nodes, alias, memo, m, c)
    case Cycle => forall e: nat :: Ends(nodes, alias, m, e) ==> OpenPhi(gs, e)
  }

  ghost predicate EndsDone(nodes: Nodes, alias: Oracle, memo: seq<Mark>, m: nat, c: nat) {
    exists e: nat :: Ends(nodes, alias, m, e) && e < |memo| && memo[e] == Done(c)
  }

  ghost predicate GroupValuesOk(nodes: Nodes, alias: Oracle, memo: seq<Mark>, gs: seq<Group>, i: nat)
    requires i < |gs| && GroupOk(nodes, alias, gs[i])
  {
    gs[i].PhiG? ==>
      forall j :: 0 <= j < |gs[i].vals| ==>
        ValueOk(nodes, alias, memo, gs[..i + 1], nodes[gs[i].p].inputs[j].1, gs[i].vals[j])
  }

  // ------------------------------------------------------------ the stack

  ghost predicate Linked(nodes: Nodes, alias: Oracle, gs: seq<Group>, i: nat) {
    i + 1 < |gs| ==> Waiting(nodes, alias, gs[i]) && Wanted(nodes, alias, gs[i]) == Who(gs[i + 1])
  }

  ghost predicate OnStack(gs: seq<Group>, n: nat) {
    exists i :: 0 <= i < |gs| && Who(gs[i]) == n
  }

  ghost predicate StackOk(nodes: Nodes, alias: Oracle, start: nat, gs: seq<Group>) {
    && (forall i :: 0 <= i < |gs| ==> GroupOk(nodes, alias, gs[i]))
    && (forall i: nat {:trigger Linked(nodes, alias, gs, i)} :: Linked(nodes, alias, gs, i))
    && (gs != [] ==> Who(gs[0]) == start)
    && (forall i, j :: 0 <= i < j < |gs| ==> Who(gs[i]) != Who(gs[j]))
  }

  /** Exactly the accesses on the stack are open. */
  ghost predicate OpenOk(memo: seq<Mark>, gs: seq<Group>) {
    && (forall i :: 0 <= i < |gs| ==> Who(gs[i]) < |memo| && memo[Who(gs[i])].Open?)
    && (forall n: nat :: n < |memo| && memo[n].Open? ==> OnStack(gs, n))
  }

  // ------------------------------------------------------------ the memo

  /** A finished access names an access that names itself and that it leads to. */
  ghost predicate DoneOk(nodes: Nodes, alias: Oracle, memo: seq<Mark>, n: nat, c: nat) {
    && n < |nodes| && c < |nodes| == |memo|
    && memo[c] == Done(c) && !Through(nodes, alias, c)
    && LeadsTo(nodes, alias, n, c)
    && (Stop(nodes, alias, n) ==> c == n)
    && (Through(nodes, alias, n) ==> EndsDone(nodes, alias, memo, n, c))
  }

  ghost predicate MemoOk(nodes: Nodes, alias: Oracle, memo: seq<Mark>) {
    |memo| == |nodes| && forall n: nat :: n < |memo| && memo[n].Done? ==> DoneOk(nodes, alias, memo, n, memo[n].access)
  }

  /** Some pending result differs from `c`. */
  ghost predicate Poisoned(values: seq<Resolution>, c: nat) {
    exists v :: v in values && v.Access? && v.access != c
  }

  /** Input `m` of a phi resolved to `c` agrees, or an unfinished phi will still decide. */
  ghost predicate InputOk(nodes: Nodes, alias: Oracle, memo: seq<Mark>, values: seq<Resolution>, m: nat, c: nat) {
    forall e: nat :: Ends(nodes, alias, m, e) && e < |memo| ==>
      memo[e] == Done(c) || memo[e].Open? || Poisoned(values, c)
  }

  ghost predicate PhiOk(nodes: Nodes, alias: Oracle, memo: seq<Mark>, values: seq<Resolution>, n: nat, c: nat) {
    || n == c
    || Mandatory(nodes, alias, n, c)
    || (n < |nodes| && nodes[n].Phi? &&
        forall j :: 0 <= j < |nodes[n].inputs| ==> InputOk(nodes, alias, memo, values, nodes[n].inputs[j].1, c))
  }

  ghost predicate PhisOk(nodes: Nodes, alias: Oracle, memo: seq<Mark>, values: seq<Resolution>) {
    forall n: nat :: n < |memo| && n < |nodes| && nodes[n].Phi? && memo[n].Done? ==>
      PhiOk(nodes, alias, memo, values, n, memo[n].access)
  }

  // ------------------------------------------------------------ the invariant

  ghost predicate Inv(nodes: Nodes, alias: Oracle, start: nat, s: Walk, gs: seq<Group>) {
    && NodesOk(nodes) && start < |nodes| && |s.memo| == |nodes|
    && StackOk(nodes, alias, start, gs)
    && OpenOk(s.memo, gs)
    && MemoOk(nodes, alias, s.memo)
    && PhisOk(nodes, alias, s.memo, s.values)
    && (forall i :: 0 <= i < |gs| ==> GroupValuesOk(nodes, alias, s.memo, gs, i))
  }

  ghost function Target(nodes: Nodes, alias: Oracle, start: nat, gs: seq<Group>): nat
    requires gs != [] ==> Waiting(nodes, alias, gs[|gs| - 1])
  {
    if gs == [] then start else Wanted(nodes, alias, gs[|gs| - 1])
  }

  /** The next step enters the wanted access. */
  ghost predicate Entering(nodes: Nodes, alias: Oracle, start: nat, s: Walk, gs: seq<Group>) {
    && Inv(nodes, alias, start, s, gs)
    && (gs != [] ==> Waiting(nodes, alias, gs[|gs| - 1]))
    && s.frames == FramesOf(nodes, gs) + [Enter(Target(nodes, alias, start, gs))]
    && s.values == ValuesOf(gs)
  }

  /** The result of the wanted access is on top of the value stack. */
  ghost predicate Returned(nodes: Nodes, alias: Oracle, start: nat, s: Walk, gs: seq<Group>) {
    && Inv(nodes, alias, start, s, gs)
    && (gs != [] ==> Waiting(nodes, alias, gs[|gs| - 1]))
    && s.frames == FramesOf(nodes, gs)
    && |s.values| > 0 && s.values == ValuesOf(gs) + [s.values[|s.values| - 1]]
    && ValueOk(nodes, alias, s.memo, gs, Target(nodes, alias, start, gs), s.values[|s.values| - 1])
  }

  /** Every input of the phi on top has its result. */
  ghost predicate Complete(nodes: Nodes, alias: Oracle, start: nat, s: Walk, gs: seq<Group>) {
    && Inv(nodes, alias, start, s, gs)
    && gs != [] && gs[|gs| - 1].PhiG? && |gs[|gs| - 1].vals| == |nodes[gs[|gs| - 1].p].inputs|
    && s.frames == FramesOf(nodes, gs)
    && s.values == ValuesOf(gs)
  }

  ghost predicate Head(nodes: Nodes, alias: Oracle, start: nat, s: Walk, gs: seq<Group>) {
    || Entering(nodes, alias, start, s, gs)
    || Complete(nodes, alias, start, s, gs)
    || (Returned(nodes, alias, start, s, gs) && (gs == [] || gs[|gs| - 1].DefG?))
  }

  /** `gt` continues the last phi of `gs` with one more result. */
  ghost predicate Continues(gs: seq<Group>, gt: seq<Group>, v: Resolution) {
    && gs != [] && |gt| == |gs| && gt[..|gs| - 1] == gs[..|gs| - 1]
    && gs[|gs| - 1].PhiG? && gt[|gs| - 1] == PhiG(gs[|gs| - 1].p, gs[|gs| - 1].vals + [v])
  }

  lemma ContinueStack(nodes: Nodes, alias: Oracle, start: nat, gs: seq<Group>, gt: seq<Group>, v: Resolution)
    requires Continues(gs, gt, v) && StackOk(nodes, alias, start, gs)
    requires Waiting(nodes, alias, gs[|gs| - 1])
    ensures StackOk(nodes, alias, start, gt)
  {
    var k := |gs| - 1;
    assert forall i :: 0 <= i < k ==> gt[i] == gs[..k][i];
    forall i: nat ensures Linked(nodes, alias, gt, i) {
      assert Linked(nodes, alias, gs, i);
    }
    forall i, j | 0 <= i < j < |gt| ensures Who(gt[i]) != Who(gt[j]) {
      assert Who(gs[i]) != Who(gs[j]);
    }
  }

  lemma ContinueOpen(memo: seq<Mark>, gs: seq<Group>, gt: seq<Group>, v: Resolution)
    requires Continues(gs, gt, v) && OpenOk(memo, gs)
    ensures OpenOk(memo, gt)
  {
    var k := |gs| - 1;
    assert forall i :: 0 <= i < k ==> gt[i] == gs[..k][i];
    forall n: nat | n < |memo| && memo[n].Open? ensures OnStack(gt, n) {
      assert OnStack(gs, n);
      var i :| 0 <= i < |gs| && Who(gs[i]) == n;
      assert Who(gt[i]) == n;
    }
  }

  lemma ContinueValues(nodes: Nodes, alias: Oracle, memo: seq<Mark>, gs: seq<Group>, gt: seq<Group>, v: Resolution,
      i: nat)
    requires Continues(gs, gt, v) && i < |gs| && GroupOk(nodes, alias, gs[i]) && GroupOk(nodes, alias, gt[i])
    requires GroupValuesOk(nodes, alias, memo, gs, i) && Waiting(nodes, alias, gs[|gs| - 1])
    requires ValueOk(nodes, alias, memo, gs, Wanted(nodes, alias, gs[|gs| - 1]), v)
    ensures GroupValuesOk(nodes, alias, memo, gt, i)
  {
    var k := |gs| - 1;
    assert forall j :: 0 <= j < k ==> gt[j] == gs[..k][j];
    SameOpen(gs[..i + 1], gt[..i + 1]);
    assert gs[..k + 1] == gs;
  }

  lemma ContinueInv(nodes: Nodes, alias: Oracle, start: nat, s: Walk, gs: seq<Group>, gt: seq<Group>, v: Resolution)
    requires Continues(gs, gt, v) && Inv(nodes, alias, start, s, gs) && Waiting(nodes, alias, gs[|gs| - 1])
    requires ValueOk(nodes, alias, s.memo, gs, Wanted(nodes, alias, gs[|gs| - 1]), v)
    ensures Inv(nodes, alias, start, s, gt)
  {
    ContinueStack(nodes, alias, start, gs, gt, v);
    ContinueOpen(s.memo, gs, gt, v);
    forall i: nat | i < |gt| ensures GroupValuesOk(nodes, alias, s.memo, gt, i) {
      assert GroupValuesOk(nodes, alias, s.memo, gs, i);
      ContinueValues(nodes, alias, s.memo, gs, gt, v, i);
    }
  }

  lemma SplitFrames(nodes: Nodes, gs: seq<Group>)
    requires gs != []
    ensures FramesOf(nodes, gs) == FramesOf(nodes, gs[..|gs| - 1]) + GroupFrames(nodes, gs[|gs| - 1])
  {
  }

  /** Handing a phi one more result takes the entry of its next input off its frames. */
  lemma NextEntry(below: seq<Frame>, inputs: seq<(nat, nat)>, f: Frame, n: nat)
    requires n > 0
    ensures below + ([f] + Enters(inputs, n)) ==
            (below + ([f] + Enters(inputs, n + 1))) + if n < |inputs| then [Enter(inputs[n].1)] else []
  {
    if n < |inputs| {
      Regroup(below, f, Enters(inputs, n + 1), Enter(inputs[n].1));
    }
  }

  lemma ContinueFrames(nodes: Nodes, gs: seq<Group>, gt: seq<Group>, v: Resolution)
    requires Continues(gs, gt, v)
    ensures ValuesOf(gt) == ValuesOf(gs) + [v]
    ensures
      var g := gt[|gt| - 1];
      var inputs := InputsOf(nodes, g.p);
      FramesOf(nodes, gs) ==
        FramesOf(nodes, gt) + if |g.vals| < |inputs| then [Enter(inputs[|g.vals|].1)] else []
  {
    var p, n := gt[|gt| - 1].p, |gt[|gt| - 1].vals|;
    PushValue(gs, gt, v);
    SplitFrames(nodes, gs);
    SplitFrames(nodes, gt);
    NextEntry(FramesOf(nodes, gs[..|gs| - 1]), InputsOf(nodes, p), FinishPhi(p, |InputsOf(nodes, p)|), n);
  }

  lemma PushValue(gs: seq<Group>, gt: seq<Group>, v: Resolution)
    requires Continues(gs, gt, v)
    ensures ValuesOf(gt) == ValuesOf(gs) + [v]
  {
    var k := |gs| - 1;
    assert ValuesOf(gs) == ValuesOf(gs[..k]) + gs[k].vals;
    assert ValuesOf(gt) == ValuesOf(gs[..k]) + (gs[k].vals + [v]);
  }

  lemma Regroup(below: seq<Frame>, f: Frame, left: seq<Frame>, next: Frame)
    ensures below + ([f] + (left + [next])) == (below + ([f] + left)) + [next]
  {
  }

  lemma ContinuedHead(nodes: Nodes, alias: Oracle, start: nat, s: Walk, gs: seq<Group>, gt: seq<Group>, v: Resolution)
    requires Continues(gs, gt, v) && Inv(nodes, alias, start, s, gt)
    requires s.frames == FramesOf(nodes, gs) && s.values == ValuesOf(gt)
    requires
      var g := gt[|gt| - 1];
      var inputs := InputsOf(nodes, g.p);
      FramesOf(nodes, gs) ==
        FramesOf(nodes, gt) + if |g.vals| < |inputs| then [Enter(inputs[|g.vals|].1)] else []
    ensures Head(nodes, alias, start, s, gt)
  {
    var g := gt[|gt| - 1];
    assert GroupOk(nodes, alias, g);
    if |g.vals| < |nodes[g.p].inputs| {
      assert Waiting(nodes, alias, g);
      assert Entering(nodes, alias, start, s, gt);
    } else {
      assert Complete(nodes, alias, start, s, gt);
    }
  }

  /** A result handed to a phi becomes the result of its next input. */
  lemma Deliver(nodes: Nodes, alias: Oracle, start: nat, s: Walk, gs: seq<Group>) returns (gt: seq<Group>)
    requires Returned(nodes, alias, start, s, gs)
    ensures Head(nodes, alias, start, s, gt)
  {
    gt := gs;
    if gs != [] && gs[|gs| - 1].PhiG? {
      var k := |gs| - 1;
      var v := s.values[|s.values| - 1];
      gt := gs[..k] + [PhiG(gs[k].p, gs[k].vals + [v])];
      ContinueInv(nodes, alias, start, s, gs, gt, v);
      ContinueFrames(nodes, gs, gt, v);
      ContinuedHead(nodes, alias, start, s, gs, gt, v);
    }
  }

  lemma SameOpen(gs: seq<Group>, gt: seq<Group>)
    requires |gs| == |gt| && forall i :: 0 <= i < |gs| ==> Who(gs[i]) == Who(gt[i]) && gs[i].PhiG? == gt[i].PhiG?
    ensures forall e: nat :: OpenPhi(gs, e) <==> OpenPhi(gt, e)
  {
    forall e: nat | OpenPhi(gs, e) ensures OpenPhi(gt, e) {
      var i :| 0 <= i < |gs| && gs[i].PhiG? && gs[i].p == e;
      assert gt[i].PhiG?;
    }
    forall e: nat | OpenPhi(gt, e) ensures OpenPhi(gs, e) {
      var i :| 0 <= i < |gt| && gt[i].PhiG? && gt[i].p == e;
      assert gs[i].PhiG?;
    }
  }

  // ------------------------------------------------------------ one mark changes

  /** Finished accesses stay finished when the mark of an unfinished one changes. */
  lemma EndsDoneKept(nodes: Nodes, alias: Oracle, memo: seq<Mark>, x: nat, mark: Mark, m: nat, c: nat)
    requires x < |memo| && !memo[x].Done? && EndsDone(nodes, alias, memo, m, c)
    ensures EndsDone(nodes, alias, memo[x := mark], m, c)
  {
    var e: nat :| Ends(nodes, alias, m, e) && e < |memo| && memo[e] == Done(c);
    assert memo[x := mark][e] == Done(c);
  }

  lemma MemoKept(nodes: Nodes, alias: Oracle, memo: seq<Mark>, x: nat, mark: Mark)
    requires MemoOk(nodes, alias, memo) && x < |memo| && !memo[x].Done?
    requires mark.Done? ==> DoneOk(nodes, alias, memo[x := mark], x, mark.access)
    ensures MemoOk(nodes, alias, memo[x := mark])
  {
    var after := memo[x := mark];
    forall n: nat | n < |after| && after[n].Done? ensures DoneOk(nodes, alias, after, n, after[n].access) {
      if n != x {
        assert DoneOk(nodes, alias, memo, n, memo[n].access);
        if Through(nodes, alias, n) {
          EndsDoneKept(nodes, alias, memo, x, mark, n, memo[n].access);
        }
      }
    }
  }

  lemma GroupValuesKept(nodes: Nodes, alias: Oracle, memo: seq<Mark>, x: nat, mark: Mark, gs: seq<Group>, i: nat)
    requires x < |memo| && !memo[x].Done? && i < |gs| && GroupOk(nodes, alias, gs[i])
    requires GroupValuesOk(nodes, alias, memo, gs, i)
    ensures GroupValuesOk(nodes, alias, memo[x := mark], gs, i)
  {
    if gs[i].PhiG? {
      forall j: nat | j < |gs[i].vals|
        ensures ValueOk(nodes, alias, memo[x := mark], gs[..i + 1], nodes[gs[i].p].inputs[j].1, gs[i].vals[j])
      {
        assert ValueOk(nodes, alias, memo, gs[..i + 1], nodes[gs[i].p].inputs[j].1, gs[i].vals[j]);
        if gs[i].vals[j].Access? {
          EndsDoneKept(nodes, alias, memo, x, mark, nodes[gs[i].p].inputs[j].1, gs[i].vals[j].access);
        }
      }
    }
  }

  /** How the mark of `x` may change without upsetting a finished phi. */
  ghost predicate Harmless(nodes: Nodes, alias: Oracle, memo: seq<Mark>, x: nat, mark: Mark, values: seq<Resolution>) {
    x < |memo| && !memo[x].Done? &&
    (Through(nodes, alias, x) || memo[x].New? || (mark.Done? && Access(mark.access) in values))
  }

  /** Disagreement survives from `before` to `after`, as far as finished accesses can tell. */
  ghost predicate PoisonKept(memo: seq<Mark>, before: seq<Resolution>, after: seq<Resolution>) {
    forall c: nat :: c < |memo| && memo[c] == Done(c) && Poisoned(before, c) ==> Poisoned(after, c)
  }

  lemma InputKept(nodes: Nodes, alias: Oracle, memo: seq<Mark>, before: seq<Resolution>, after: seq<Resolution>,
                  x: nat, mark: Mark, m: nat, c: nat)
    requires Harmless(nodes, alias, memo, x, mark, after)
    requires c < |memo| && memo[c] == Done(c) && (Poisoned(before, c) ==> Poisoned(after, c))
    requires InputOk(nodes, alias, memo, before, m, c)
    ensures InputOk(nodes, alias, memo[x := mark], after, m, c)
  {
    forall e: nat | Ends(nodes, alias, m, e) && e < |memo|
      ensures memo[x := mark][e] == Done(c) || memo[x := mark][e].Open? || Poisoned(after, c)
    {
      EndsUnique(nodes, alias, m, e, e);
      if e == x && memo[x].Open? {
        assert Access(mark.access) in after;
      }
    }
  }

  lemma PhiKept(nodes: Nodes, alias: Oracle, memo: seq<Mark>, before: seq<Resolution>, after: seq<Resolution>,
                x: nat, mark: Mark, n: nat, c: nat)
    requires Harmless(nodes, alias, memo, x, mark, after) && PoisonKept(memo, before, after)
    requires c < |memo| && memo[c] == Done(c) && PhiOk(nodes, alias, memo, before, n, c)
    ensures PhiOk(nodes, alias, memo[x := mark], after, n, c)
  {
    if n != c && !Mandatory(nodes, alias, n, c) {
      forall j | 0 <= j < |nodes[n].inputs|
        ensures InputOk(nodes, alias, memo[x := mark], after, nodes[n].inputs[j].1, c)
      {
        InputKept(nodes, alias, memo, before, after, x, mark, nodes[n].inputs[j].1, c);
      }
    }
  }

  lemma PhisKept(nodes: Nodes, alias: Oracle, memo: seq<Mark>, before: seq<Resolution>, after: seq<Resolution>,
                 x: nat, mark: Mark)
    requires MemoOk(nodes, alias, memo) && PhisOk(nodes, alias, memo, before)
    requires Harmless(nodes, alias, memo, x, mark, after) && PoisonKept(memo, before, after)
    requires mark.Done? && x < |nodes| && nodes[x].Phi? ==> PhiOk(nodes, alias, memo[x := mark], after, x, mark.access)
    ensures PhisOk(nodes, alias, memo[x := mark], after)
  {
    var marked := memo[x := mark];
    forall n: nat | n < |marked| && n < |nodes| && nodes[n].Phi? && marked[n].Done?
      ensures PhiOk(nodes, alias, marked, after, n, marked[n].access)
    {
      if n != x {
        assert DoneOk(nodes, alias, memo, n, memo[n].access);
        PhiKept(nodes, alias, memo, before, after, x, mark, n, memo[n].access);
      }
    }
  }

  // ------------------------------------------------------------ entering an access

  lemma InvMore(nodes: Nodes, alias: Oracle, start: nat, s: Walk, gs: seq<Group>, t: Walk)
    requires Inv(nodes, alias, start, s, gs) && t.memo == s.memo && exists v :: t.values == s.values + [v]
    ensures Inv(nodes, alias, start, t, gs)
  {
    var v :| t.values == s.values + [v];
    PoisonMore(s.memo, s.values, v);
    forall n: nat | n < |s.memo| && n < |nodes| && nodes[n].Phi? && s.memo[n].Done?
      ensures PhiOk(nodes, alias, s.memo, t.values, n, s.memo[n].access)
    {
      assert DoneOk(nodes, alias, s.memo, n, s.memo[n].access);
      assert PhiOk(nodes, alias, s.memo, s.values, n, s.memo[n].access);
    }
  }

  lemma PoisonMore(memo: seq<Mark>, values: seq<Resolution>, v: Resolution)
    ensures PoisonKept(memo, values, values + [v])
    ensures forall c: nat :: Poisoned(values, c) ==> Poisoned(values + [v], c)
  {
    forall c: nat | Poisoned(values, c) ensures Poisoned(values + [v], c) {
      var u :| u in values && u.Access? && u.access != c;
      assert u in values + [v];
    }
  }

  /** A passed definition still on the stack belongs to an unfinished phi, if its chain ends at all. */
  lemma {:induction false} ChainAbove(nodes: Nodes, alias: Oracle, start: nat, gs: seq<Group>, x: nat, i: nat, k: nat,
      e: nat)
    requires StackOk(nodes, alias, start, gs) && i <= |gs|
    requires gs != [] && Waiting(nodes, alias, gs[|gs| - 1]) && Wanted(nodes, alias, gs[|gs| - 1]) == x
    requires OnStack(gs, x)
    requires ChainEnd(nodes, alias, if i < |gs| then Who(gs[i]) else x, k) == Some(e)
    ensures OpenPhi(gs, e)
    decreases k, |gs| + 1 - i
  {
    if i == |gs| {
      var j :| 0 <= j < |gs| && Who(gs[j]) == x;
      if gs[j].DefG? {
        assert Linked(nodes, alias, gs, j);
        ChainAbove(nodes, alias, start, gs, x, j + 1, k - 1, e);
      }
    } else if gs[i].DefG? {
      assert Linked(nodes, alias, gs, i);
      ChainAbove(nodes, alias, start, gs, x, i + 1, k - 1, e);
    }
  }

  lemma OpenIsCycle(nodes: Nodes, alias: Oracle, start: nat, memo: seq<Mark>, gs: seq<Group>, x: nat)
    requires StackOk(nodes, alias, start, gs) && OnStack(gs, x)
    requires gs != [] && Waiting(nodes, alias, gs[|gs| - 1]) && Wanted(nodes, alias, gs[|gs| - 1]) == x
    ensures ValueOk(nodes, alias, memo, gs, x, Cycle)
  {
    forall e: nat | Ends(nodes, alias, x, e) ensures OpenPhi(gs, e) {
      var k: nat :| ChainEnd(nodes, alias, x, k) == Some(e);
      ChainAbove(nodes, alias, start, gs, x, |gs|, k, e);
    }
  }

  lemma EnterKnown(nodes: Nodes, alias: Oracle, start: nat, s: Walk, gs: seq<Group>)
    requires Entering(nodes, alias, start, s, gs) && CanStep(nodes, s)
    requires !s.memo[Target(nodes, alias, start, gs)].New?
    ensures Returned(nodes, alias, start, Step(nodes, alias, s), gs)
  {
    var x := Target(nodes, alias, start, gs);
    var t := Step(nodes, alias, s);
    InvMore(nodes, alias, start, s, gs, t);
    match s.memo[x]
    case Open =>
      assert OnStack(gs, x);
      OpenIsCycle(nodes, alias, start, s.memo, gs, x);
    case Done(c) =>
      assert DoneOk(nodes, alias, s.memo, x, c);
      if !Through(nodes, alias, x) {
        EndsHere(nodes, alias, x);
      }
  }

  lemma SelfLeads(nodes: Nodes, alias: Oracle, n: nat)
    requires n < |nodes|
    ensures LeadsTo(nodes, alias, n, n)
  {
    assert IsWalk(nodes, alias, [n]);
  }

  lemma EnterStop(nodes: Nodes, alias: Oracle, start: nat, s: Walk, gs: seq<Group>, x: nat, t: Walk)
    requires Inv(nodes, alias, start, s, gs) && x < |nodes| && s.memo[x].New? && Stop(nodes, alias, x)
    requires t.memo == s.memo[x := Done(x)] && t.values == s.values + [Access(x)]
    ensures Inv(nodes, alias, start, t, gs) && ValueOk(nodes, alias, t.memo, gs, x, Access(x))
  {
    SelfLeads(nodes, alias, x);
    MemoKept(nodes, alias, s.memo, x, Done(x));
    PoisonMore(s.memo, s.values, Access(x));
    PhisKept(nodes, alias, s.memo, s.values, t.values, x, Done(x));
    forall i: nat | i < |gs| ensures GroupValuesOk(nodes, alias, t.memo, gs, i) {
      GroupValuesKept(nodes, alias, s.memo, x, Done(x), gs, i);
    }
    EndsHere(nodes, alias, x);
  }

  /** Pushing a newly opened access on the stack. */
  lemma OpenInv(nodes: Nodes, alias: Oracle, start: nat, s: Walk, gs: seq<Group>, g: Group, t: Walk)
    requires Inv(nodes, alias, start, s, gs) && GroupOk(nodes, alias, g)
    requires gs != [] ==> Waiting(nodes, alias, gs[|gs| - 1])
    requires Who(g) == Target(nodes, alias, start, gs) && s.memo[Who(g)].New? && GroupValues(g) == []
    requires t.memo == s.memo[Who(g) := Open] && t.values == s.values
    ensures Inv(nodes, alias, start, t, gs + [g])
  {
    var x, gt := Who(g), gs + [g];
    MemoKept(nodes, alias, s.memo, x, Open);
    PhisKept(nodes, alias, s.memo, s.values, t.values, x, Open);
    OpenStack(nodes, alias, start, s.memo, gs, g);
    forall i: nat | i < |gt| ensures GroupValuesOk(nodes, alias, t.memo, gt, i) {
      if i < |gs| {
        GroupValuesKept(nodes, alias, s.memo, x, Open, gs, i);
        assert gt[..i + 1] == gs[..i + 1];
      }
    }
  }

  lemma OpenStack(nodes: Nodes, alias: Oracle, start: nat, memo: seq<Mark>, gs: seq<Group>, g: Group)
    requires StackOk(nodes, alias, start, gs) && OpenOk(memo, gs) && GroupOk(nodes, alias, g)
    requires gs != [] ==> Waiting(nodes, alias, gs[|gs| - 1])
    requires Who(g) == Target(nodes, alias, start, gs) && Who(g) < |memo| && memo[Who(g)].New?
    ensures StackOk(nodes, alias, start, gs + [g]) && OpenOk(memo[Who(g) := Open], gs + [g])
  {
    var gt := gs + [g];
    forall i: nat ensures Linked(nodes, alias, gt, i) {
      assert Linked(nodes, alias, gs, i);
    }
    var after := memo[Who(g) := Open];
    forall n: nat | n < |after| && after[n].Open? ensures OnStack(gt, n) {
      if n == Who(g) {
        assert Who(gt[|gs|]) == n;
      } else {
        assert OnStack(gs, n);
        var i :| 0 <= i < |gs| && Who(gs[i]) == n;
        assert Who(gt[i]) == n;
      }
    }
  }

  lemma DefinitionFrames(nodes: Nodes, gs: seq<Group>, d: nat)
    ensures FramesOf(nodes, gs + [DefG(d)]) == FramesOf(nodes, gs) + [FinishDefinition(d)]
    ensures ValuesOf(gs + [DefG(d)]) == ValuesOf(gs)
  {
    assert (gs + [DefG(d)])[..|gs|] == gs;
  }

  lemma PhiValues(gs: seq<Group>, p: nat)
    ensures ValuesOf(gs + [PhiG(p, [])]) == ValuesOf(gs)
  {
    assert (gs + [PhiG(p, [])])[..|gs|] == gs;
  }

  lemma PhiFrames(nodes: Nodes, gs: seq<Group>, p: nat)
    ensures
      var inputs := InputsOf(nodes, p);
      FramesOf(nodes, gs) + [FinishPhi(p, |inputs|)] + Enters(inputs, 0) ==
      FramesOf(nodes, gs + [PhiG(p, [])]) + if |inputs| > 0 then [Enter(inputs[0].1)] else []
  {
    var inputs := InputsOf(nodes, p);
    var f, left := FinishPhi(p, |inputs|), Enters(inputs, 1);
    var below := FramesOf(nodes, gs);
    assert (gs + [PhiG(p, [])])[..|gs|] == gs;
    assert FramesOf(nodes, gs + [PhiG(p, [])]) == below + ([f] + left);
    if |inputs| > 0 {
      Regroup(below, f, left, Enter(inputs[0].1));
      assert below + [f] + Enters(inputs, 0) == below + ([f] + (left + [Enter(inputs[0].1)]));
    } else {
      assert Enters(inputs, 0) == [] && left == [];
    }
  }

  // ------------------------------------------------------------ finishing an access

  lemma CloseStack(nodes: Nodes, alias: Oracle, start: nat, memo: seq<Mark>, gs: seq<Group>, mark: Mark)
    requires StackOk(nodes, alias, start, gs) && OpenOk(memo, gs) && gs != [] && !mark.Open?
    ensures Who(gs[|gs| - 1]) < |memo|
    ensures StackOk(nodes, alias, start, gs[..|gs| - 1])
    ensures OpenOk(memo[Who(gs[|gs| - 1]) := mark], gs[..|gs| - 1])
    ensures |gs| > 1 ==> Waiting(nodes, alias, gs[..|gs| - 1][|gs| - 2])
    ensures |gs| > 1 ==> Wanted(nodes, alias, gs[..|gs| - 1][|gs| - 2]) == Who(gs[|gs| - 1])
    ensures |gs| == 1 ==> Who(gs[|gs| - 1]) == start
  {
    var k := |gs| - 1;
    var gt := gs[..k];
    forall i: nat ensures Linked(nodes, alias, gt, i) {
      assert Linked(nodes, alias, gs, i);
    }
    if k > 0 {
      assert Linked(nodes, alias, gs, k - 1);
    }
    var after := memo[Who(gs[k]) := mark];
    forall n: nat | n < |after| && after[n].Open? ensures OnStack(gt, n) {
      assert OnStack(gs, n);
      var i :| 0 <= i < |gs| && Who(gs[i]) == n;
      assert Who(gt[i]) == n;
    }
  }

  lemma ExtendWalk(nodes: Nodes, alias: Oracle, n: nat, m: nat, c: nat)
    requires Back(nodes, alias, n, m) && LeadsTo(nodes, alias, m, c)
    ensures LeadsTo(nodes, alias, n, c)
  {
    var w :| IsWalk(nodes, alias, w) && w[0] == m && w[|w| - 1] == c;
    assert IsWalk(nodes, alias, [n] + w);
  }

  lemma DefinitionDone(nodes: Nodes, alias: Oracle, memo: seq<Mark>, d: nat, c: nat)
    requires NodesOk(nodes) && MemoOk(nodes, alias, memo) && Through(nodes, alias, d) && memo[d].Open?
    requires EndsDone(nodes, alias, memo, nodes[d].previous, c)
    ensures DoneOk(nodes, alias, memo[d := Done(c)], d, c)
  {
    var e: nat :| Ends(nodes, alias, nodes[d].previous, e) && e < |memo| && memo[e] == Done(c);
    assert DoneOk(nodes, alias, memo, e, c);
    EndsThrough(nodes, alias, d);
    EndsLeads(nodes, alias, d, e, c);
    assert memo[d := Done(c)][e] == Done(c);
  }

  lemma EndsLeads(nodes: Nodes, alias: Oracle, n: nat, e: nat, c: nat)
    requires NodesOk(nodes) && Ends(nodes, alias, n, e) && LeadsTo(nodes, alias, e, c)
    ensures LeadsTo(nodes, alias, n, c)
  {
    var k: nat :| ChainEnd(nodes, alias, n, k) == Some(e);
    ChainLeads(nodes, alias, n, k, e, c);
  }

  lemma {:induction false} ChainLeads(nodes: Nodes, alias: Oracle, n: nat, k: nat, e: nat, c: nat)
    requires NodesOk(nodes) && ChainEnd(nodes, alias, n, k) == Some(e) && LeadsTo(nodes, alias, e, c)
    ensures LeadsTo(nodes, alias, n, c)
    decreases k
  {
    if Through(nodes, alias, n) {
      ChainLeads(nodes, alias, nodes[n].previous, k - 1, e, c);
      assert Back(nodes, alias, n, nodes[n].previous);
      ExtendWalk(nodes, alias, n, nodes[n].previous, c);
    }
  }

  lemma CycleBelow(nodes: Nodes, alias: Oracle, memo: seq<Mark>, gs: seq<Group>, d: nat, v: Resolution,
      after: seq<Mark>)
    requires gs != [] && gs[|gs| - 1] == DefG(d) && Through(nodes, alias, d) && v.Cycle?
    requires ValueOk(nodes, alias, memo, gs, nodes[d].previous, v)
    ensures ValueOk(nodes, alias, after, gs[..|gs| - 1], d, v)
  {
    EndsThrough(nodes, alias, d);
    var gt := gs[..|gs| - 1];
    forall e: nat | Ends(nodes, alias, d, e) ensures OpenPhi(gt, e) {
      assert OpenPhi(gs, e);
      var i :| 0 <= i < |gs| && gs[i].PhiG? && gs[i].p == e;
      assert gt[i].PhiG?;
    }
  }

  lemma AccessBelow(nodes: Nodes, alias: Oracle, memo: seq<Mark>, gt: seq<Group>, d: nat, c: nat, mark: Mark)
    requires Through(nodes, alias, d) && d < |memo| && !memo[d].Done?
    requires EndsDone(nodes, alias, memo, nodes[d].previous, c)
    ensures ValueOk(nodes, alias, memo[d := mark], gt, d, Access(c))
  {
    EndsThrough(nodes, alias, d);
    EndsDoneKept(nodes, alias, memo, d, mark, nodes[d].previous, c);
    var e: nat :| Ends(nodes, alias, nodes[d].previous, e) && e < |memo| && memo[d := mark][e] == Done(c);
    assert Ends(nodes, alias, d, e);
  }

  function DefinitionMark(v: Resolution): Mark {
    if v.Cycle? then New else Done(v.access)
  }

  lemma FinishDef(nodes: Nodes, alias: Oracle, start: nat, s: Walk, gs: seq<Group>, d: nat, v: Resolution, t: Walk)
    requires Inv(nodes, alias, start, s, gs) && gs != [] && gs[|gs| - 1] == DefG(d)
    requires ValueOk(nodes, alias, s.memo, gs, nodes[d].previous, v)
    requires t.memo == s.memo[d := DefinitionMark(v)] && t.values == s.values
    ensures Inv(nodes, alias, start, t, gs[..|gs| - 1])
    ensures ValueOk(nodes, alias, t.memo, gs[..|gs| - 1], d, v)
  {
    var gt := gs[..|gs| - 1];
    var mark := DefinitionMark(v);
    CloseStack(nodes, alias, start, s.memo, gs, mark);
    if v.Access? {
      DefinitionDone(nodes, alias, s.memo, d, v.access);
      AccessBelow(nodes, alias, s.memo, gt, d, v.access, mark);
    } else {
      CycleBelow(nodes, alias, s.memo, gs, d, v, t.memo);
    }
    MemoKept(nodes, alias, s.memo, d, mark);
    PhisKept(nodes, alias, s.memo, s.values, t.values, d, mark);
    forall i: nat | i < |gt| ensures GroupValuesOk(nodes, alias, t.memo, gt, i) {
      GroupValuesKept(nodes, alias, s.memo, d, mark, gs, i);
      assert gt[..i + 1] == gs[..i + 1];
    }
  }

  // ------------------------------------------------------------ finishing a phi

  /** The merged result is one of the results or the phi itself, and agrees with every result if not. */
  lemma MergeAgrees(p: nat, vals: seq<Resolution>)
    ensures Merge(p, vals) != p ==> forall i :: 0 <= i < |vals| ==> vals[i].Cycle? || vals[i] == Access(Merge(p, vals))
    ensures Merge(p, vals) != p ==> Access(Merge(p, vals)) in vals
    ensures forall i :: 0 <= i < |vals| && vals[i].Access? ==> Merge(p, vals) == vals[i].access || Merge(p, vals) == p
  {
    if forall i :: 0 <= i < |vals| ==> vals[i].Cycle? {
    } else {
      var i :| 0 <= i < |vals| && vals[i].Access?;
    }
  }

  /** Disagreement with a finished access survives the merge. */
  lemma MergePoison(memo: seq<Mark>, below: seq<Resolution>, vals: seq<Resolution>, p: nat)
    requires p < |memo| && memo[p].Open?
    ensures PoisonKept(memo, below + vals, below + [Access(Merge(p, vals))])
  {
    var r := Merge(p, vals);
    MergeAgrees(p, vals);
    forall c: nat | c < |memo| && memo[c] == Done(c) && Poisoned(below + vals, c)
      ensures Poisoned(below + [Access(r)], c)
    {
      var v :| v in below + vals && v.Access? && v.access != c;
      if v in below {
        assert v in below + [Access(r)];
      } else {
        assert Access(r) in below + [Access(r)];
      }
    }
  }

  /** The merged phi itself: each input agrees, leads back to the phi, or waits for one below. */
  lemma MergedPhi(nodes: Nodes, alias: Oracle, memo: seq<Mark>, gs: seq<Group>, p: nat, vals: seq<Resolution>,
      after: seq<Resolution>)
    requires gs != [] && gs[|gs| - 1] == PhiG(p, vals) && GroupOk(nodes, alias, gs[|gs| - 1])
    requires |vals| == |nodes[p].inputs| && OpenOk(memo, gs)
    requires GroupValuesOk(nodes, alias, memo, gs, |gs| - 1)
    ensures p < |memo| && PhiOk(nodes, alias, memo[p := Done(Merge(p, vals))], after, p, Merge(p, vals))
  {
    var k, r := |gs| - 1, Merge(p, vals);
    assert Who(gs[k]) == p;
    var marked := memo[p := Done(r)];
    MergeAgrees(p, vals);
    if r != p {
      forall j | 0 <= j < |nodes[p].inputs| ensures InputOk(nodes, alias, marked, after, nodes[p].inputs[j].1, r) {
        var m := nodes[p].inputs[j].1;
        assert gs[..k + 1] == gs;
        assert ValueOk(nodes, alias, memo, gs, m, vals[j]);
        forall e: nat | Ends(nodes, alias, m, e) && e < |marked|
          ensures marked[e] == Done(r) || marked[e].Open? || Poisoned(after, r)
        {
          match vals[j]
          case Cycle =>
            assert OpenPhi(gs, e);
            var i :| 0 <= i < |gs| && gs[i].PhiG? && gs[i].p == e;
            assert Who(gs[i]) == e;
          case Access(c) =>
            var f: nat :| Ends(nodes, alias, m, f) && f < |memo| && memo[f] == Done(c);
            EndsUnique(nodes, alias, m, e, f);
        }
      }
    }
  }

  lemma MergedDone(nodes: Nodes, alias: Oracle, memo: seq<Mark>, gs: seq<Group>, p: nat, vals: seq<Resolution>)
    requires NodesOk(nodes) && MemoOk(nodes, alias, memo)
    requires gs != [] && gs[|gs| - 1] == PhiG(p, vals) && GroupOk(nodes, alias, gs[|gs| - 1])
    requires |vals| == |nodes[p].inputs| && memo[p].Open?
    requires GroupValuesOk(nodes, alias, memo, gs, |gs| - 1)
    ensures DoneOk(nodes, alias, memo[p := Done(Merge(p, vals))], p, Merge(p, vals))
  {
    var r := Merge(p, vals);
    MergeAgrees(p, vals);
    if r == p {
      SelfLeads(nodes, alias, p);
    } else {
      var j :| 0 <= j < |vals| && vals[j] == Access(r);
      var m := nodes[p].inputs[j].1;
      var e: nat :| Ends(nodes, alias, m, e) && e < |memo| && memo[e] == Done(r);
      assert DoneOk(nodes, alias, memo, e, r);
      EndsLeads(nodes, alias, m, e, r);
      assert Back(nodes, alias, p, m);
      ExtendWalk(nodes, alias, p, m, r);
    }
  }

  lemma FinishMerge(nodes: Nodes, alias: Oracle, start: nat, s: Walk, gs: seq<Group>, p: nat, vals: seq<Resolution>,
                    below: seq<Resolution>, t: Walk)
    requires Inv(nodes, alias, start, s, gs) && gs != [] && gs[|gs| - 1] == PhiG(p, vals)
    requires |vals| == |nodes[p].inputs| && s.values == below + vals
    requires t.memo == s.memo[p := Done(Merge(p, vals))] && t.values == below + [Access(Merge(p, vals))]
    ensures Inv(nodes, alias, start, t, gs[..|gs| - 1])
    ensures ValueOk(nodes, alias, t.memo, gs[..|gs| - 1], p, Access(Merge(p, vals)))
  {
    var gt, mark := gs[..|gs| - 1], Done(Merge(p, vals));
    assert Who(gs[|gs| - 1]) == p;
    CloseStack(nodes, alias, start, s.memo, gs, mark);
    MergedDone(nodes, alias, s.memo, gs, p, vals);
    MemoKept(nodes, alias, s.memo, p, mark);
    MergedPhi(nodes, alias, s.memo, gs, p, vals, t.values);
    MergePoison(s.memo, below, vals, p);
    assert Access(mark.access) in t.values;
    PhisKept(nodes, alias, s.memo, s.values, t.values, p, mark);
    forall i: nat | i < |gt| ensures GroupValuesOk(nodes, alias, t.memo, gt, i) {
      GroupValuesKept(nodes, alias, s.memo, p, mark, gs, i);
      assert gt[..i + 1] == gs[..i + 1];
    }
    EndsHere(nodes, alias, p);
  }
}
