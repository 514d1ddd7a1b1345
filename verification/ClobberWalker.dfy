/** The clobber walker: reusable scratch state, stamped with epochs, and the walk itself. */
module ClobberWalkers {
  import opened CfgErrors
  import opened ClobberSpec
  import opened ClobberInvariant
  import opened ClobberRun
  import opened ClobberSession
  import opened SharedMemo

  /** Epochs are 32-bit words. */
  const EPOCH_LIMIT: nat := 0x1_0000_0000

  datatype MemoryClobber = AccessIs(access: nat) | Indeterminate

  /** The mark an access has in the current session. */
  function MarkFrom(stamp: nat, state: nat, result: Option<Resolution>, epoch: nat): Mark {
    if stamp != epoch || state == 0 then New
    else if state == 1 || result.None? || result.value.Cycle? then Open
    else Done(result.value.access)
  }

  function MemoFrom(epochs: seq<nat>, states: seq<nat>, results: seq<Option<Resolution>>, epoch: nat): (m: seq<Mark>)
    requires |epochs| == |states| == |results|
    ensures |m| == |epochs|
    ensures forall a :: 0 <= a < |m| ==> m[a] == MarkFrom(epochs[a], states[a], results[a], epoch)
  {
    seq(|epochs|, a requires 0 <= a < |epochs| => MarkFrom(epochs[a], states[a], results[a], epoch))
  }

  class ClobberWalker {
    var epochs: seq<nat>
    var states: seq<nat>
    var results: seq<Option<Resolution>>
    var epoch: nat
    var frames: seq<Frame>
    var values: seq<Resolution>

    ghost predicate Valid()
      reads `epochs, `states, `results, `epoch
    {
      && |epochs| == |states| == |results| && epoch < EPOCH_LIMIT
      && (forall a :: 0 <= a < |epochs| ==> epochs[a] <= epoch && states[a] <= 2)
      && (forall a :: 0 <= a < |epochs| && epochs[a] == epoch && states[a] == 2 ==>
            results[a].Some? && results[a].value.Access?)
    }

    ghost function Memo(): (m: seq<Mark>)
      reads `epochs, `states, `results, `epoch
      requires Valid()
    {
      MemoFrom(epochs, states, results, epoch)
    }

    ghost function View(): Walk
      reads this
      requires Valid()
    {
      Walk(Memo(), frames, values)
    }

    constructor ()
      ensures Valid() && Memo() == []
    {
      epochs, states, results, epoch, frames, values := [], [], [], 0, [], [];
    }

    /** Starts a session over `n` accesses: every mark of earlier sessions is forgotten, wrap-around included. */
    method Query(n: nat)
      requires Valid()
      modifies this
      ensures Valid() && Memo() == seq(n, _ => New)
    {
      epochs := Resize(epochs, n, 0);
      states := Resize(states, n, 0);
      results := Resize(results, n, None);
      epoch := (epoch + 1) % EPOCH_LIMIT;
      if epoch == 0 {
        epochs := seq(n, _ => 0);
        epoch := 1;
      }
    }

    /** Marks access `a` in the current session. */
    method SetMark(a: nat, state: nat, result: Option<Resolution>)
      requires Valid() && a < |epochs| && state <= 2 && (state == 2 ==> result.Some? && result.value.Access?)
      modifies this`epochs, this`states, this`results
      ensures Valid()
      ensures Memo() ==
              old(Memo())[a := if state == 0 then New else if state == 1 then Open else Done(result.value.access)]
    {
      epochs := epochs[a := epoch];
      states := states[a := state];
      results := results[a := result];
    }

    /** The result of a phi from the results of its inputs. */
    static method MergeResults(access: nat, drained: seq<Resolution>) returns (result: nat)
      ensures result == Merge(access, drained)
    {
      var common: Option<Resolution> := None;
      var diverged := false;
      for i := 0 to |drained|
        invariant common.None? ==> forall j :: 0 <= j < i ==> drained[j].Cycle?
        invariant common.Some? ==> exists j :: 0 <= j < i && drained[j] == common.value && common.value.Access?
        invariant common.Some? && !diverged ==>
                    forall j :: 0 <= j < i ==> drained[j].Cycle? || drained[j] == common.value
        invariant diverged ==> exists j, k :: 0 <= j < i && 0 <= k < i && drained[j].Access? && drained[k].Access?
                                               && drained[j] != drained[k]
      {
        if drained[i].Access? {
          match common {
            case Some(previous) =>
              if previous != drained[i] {
                diverged := true;
              }
            case None =>
              common := Some(drained[i]);
          }
        }
      }
      result := if diverged || common.None? then access else common.value.access;
      MergeAgrees(access, drained);
    }

    /** Entering an access whose frame has just been taken. */
    method EnterAccess(nodes: Nodes, alias: Oracle, access: nat, ghost s: Walk)
      requires Valid() && CanStep(nodes, s) && s.frames[|s.frames| - 1] == Enter(access)
      requires View() == Walk(s.memo, s.frames[..|s.frames| - 1], s.values)
      modifies this
      ensures Valid() && View() == Step(nodes, alias, s)
    {
      if epochs[access] == epoch && states[access] != 0 {
        if states[access] == 1 {
          values := values + [Cycle];
        } else {
          values := values + [results[access].value];
        }
        return;
      }
      match nodes[access] {
        case LiveOnEntry =>
          SetMark(access, 2, Some(Access(access)));
          values := values + [Access(access)];
        case Definition(definition, previous) =>
          if alias(definition) {
            SetMark(access, 2, Some(Access(access)));
            values := values + [Access(access)];
          } else {
            SetMark(access, 1, None);
            frames := frames + [FinishDefinition(access), Enter(previous)];
          }
        case Phi(_, inputs) =>
          SetMark(access, 1, None);
          frames := frames + [FinishPhi(access, |inputs|)] + Enters(inputs, 0);
      }
    }

    /** Closes the definition popped last: its result is that of the definition before it. */
    method LeaveDefinition(nodes: Nodes, alias: Oracle, access: nat, ghost s: Walk)
      requires Valid() && CanStep(nodes, s) && s.frames[|s.frames| - 1] == FinishDefinition(access)
      requires View() == s.(frames := s.frames[..|s.frames| - 1])
      modifies this
      ensures Valid() && View() == Step(nodes, alias, s)
    {
      var result := values[|values| - 1];
      if result.Cycle? {
        SetMark(access, 0, None);
      } else {
        SetMark(access, 2, Some(result));
      }
    }

    /** Closes the phi popped last: its inputs' results are merged into one. */
    method LeavePhi(nodes: Nodes, alias: Oracle, access: nat, inputs: nat, ghost s: Walk)
      requires Valid() && CanStep(nodes, s) && s.frames[|s.frames| - 1] == FinishPhi(access, inputs)
      requires View() == s.(frames := s.frames[..|s.frames| - 1])
      modifies this
      ensures Valid() && View() == Step(nodes, alias, s)
    {
      var first := |values| - inputs;
      var result := MergeResults(access, values[first..]);
      values := values[..first];
      SetMark(access, 2, Some(Access(result)));
      values := values + [Access(result)];
    }

    /** One turn of the loop: takes the top frame and does what it asks. */
    method Advance(nodes: Nodes, alias: Oracle)
      requires Valid() && CanStep(nodes, View())
      modifies this
      ensures Valid() && View() == Step(nodes, alias, old(View()))
    {
      var frame := frames[|frames| - 1];
      ghost var before := View();
      frames := frames[..|frames| - 1];
      match frame {
        case Enter(access) =>
          EnterAccess(nodes, alias, access, before);
        case FinishDefinition(access) =>
          LeaveDefinition(nodes, alias, access, before);
        case FinishPhi(access, inputs) =>
          LeavePhi(nodes, alias, access, inputs, before);
      }
    }

    /**
      One clobber query. It ends on every graph; it is indeterminate exactly when the start runs into a
      circle of definitions that do not alias; otherwise every complete backward walk meets the answer.
     */
    method FindClobber(nodes: Nodes, start: nat, alias: Oracle) returns (r: MemoryClobber)
      requires Valid() && Ready(nodes, alias, Memo()) && start < |nodes|
      modifies this
      ensures Valid() && MemoOk(nodes, alias, Memo()) && NoneOpen(Memo())
      ensures r.Indeterminate? <==> Endless(nodes, alias, start)
      ensures r.AccessIs? ==> Answers(nodes, alias, start, Access(r.access))
      ensures NoMutualPhis(nodes, alias) ==> Ready(nodes, alias, Memo())
      ensures NoMutualPhis(nodes, alias) && AllStop(nodes, alias) && Sharp(nodes, alias, old(Memo())) ==>
                Sharp(nodes, alias, Memo()) && (r.AccessIs? ==> Final(nodes, alias, r.access))
      ensures exists k: nat :: Outcome(nodes, alias, old(Memo()), start, k, Memo(), r)
    {
      ghost var before := Memo();
      ghost var gs, k := Resolve(nodes, start, alias);
      WalkAnswers(nodes, alias, start, View(), gs);
      LastTurn(nodes, alias, start, before, View(), gs, k, Reported(values[0]));
      var resolution := values[|values| - 1];
      values := values[..|values| - 1];
      r := Reported(resolution);
    }

    /** The loop of a query: turns until no frame is left. */
    method Resolve(nodes: Nodes, start: nat, alias: Oracle) returns (ghost gs: seq<Group>, ghost k: nat)
      requires Valid() && Ready(nodes, alias, Memo()) && start < |nodes|
      modifies this
      ensures Valid() && frames == [] && TurnOk(nodes, alias, start, old(Memo()), View(), gs, k)
    {
      ghost var before := Memo();
      frames, values := [Enter(start)], [];
      gs, k := [], 0;
      StartTurn(nodes, alias, start, before);
      assert View() == Start(before, start);
      while frames != []
        invariant Valid() && TurnOk(nodes, alias, start, before, View(), gs, k)
        decreases |NewPhis(nodes, Memo())|, EnterCount(frames), Slack(View())
      {
        ghost var gt := NextTurn(nodes, alias, start, before, View(), gs, k);
        Advance(nodes, alias);
        gs := gt;
        k := k + 1;
      }
    }
  }

  /** What every turn of the walk's loop keeps. */
  ghost predicate TurnOk(nodes: Nodes, alias: Oracle, start: nat, before: seq<Mark>, s: Walk, gs: seq<Group>, k: nat) {
    && Head(nodes, alias, start, s, gs)
    && s == Run(nodes, alias, Start(before, start), k)
    && (NoMutualPhis(nodes, alias) ==> Sound(nodes, alias, s.memo))
    && (NoMutualPhis(nodes, alias) && AllStop(nodes, alias) && Sharp(nodes, alias, before) ==>
         Sharp(nodes, alias, s.memo))
  }

  lemma StartTurn(nodes: Nodes, alias: Oracle, start: nat, before: seq<Mark>)
    requires Ready(nodes, alias, before) && start < |nodes|
    ensures TurnOk(nodes, alias, start, before, Start(before, start), [], 0)
  {
    StartHead(nodes, alias, start, before);
  }

  lemma NextTurn(nodes: Nodes, alias: Oracle, start: nat, before: seq<Mark>, s: Walk, gs: seq<Group>, k: nat)
      returns (gt: seq<Group>)
    requires TurnOk(nodes, alias, start, before, s, gs, k) && s.frames != []
    ensures CanStep(nodes, s) && Smaller(nodes, Step(nodes, alias, s), s)
    ensures TurnOk(nodes, alias, start, before, Step(nodes, alias, s), gt, k + 1)
  {
    gt := StepKeeps(nodes, alias, start, s, gs);
    StepShrinks(nodes, alias, start, s, gs);
    RunMore(nodes, alias, Start(before, start), k);
    var x := s.frames[|s.frames| - 1].access;
    var mark := StepChanges(nodes, alias, s);
    if NoMutualPhis(nodes, alias) {
      SoundTop(nodes, alias, start, s, gs, mark);
      SoundMark(nodes, alias, s.memo, x, mark);
      if AllStop(nodes, alias) && Sharp(nodes, alias, before) {
        SharpTop(nodes, alias, start, s, gs, mark);
        SharpMark(nodes, alias, s.memo, x, mark);
      }
    }
  }

  function Reported(resolution: Resolution): MemoryClobber {
    if resolution.Cycle? then Indeterminate else AccessIs(resolution.access)
  }

  lemma LastTurn(nodes: Nodes, alias: Oracle, start: nat, before: seq<Mark>, s: Walk, gs: seq<Group>, k: nat,
      r: MemoryClobber)
    requires TurnOk(nodes, alias, start, before, s, gs, k) && s.frames == []
    requires |s.values| == 1 && r == Reported(s.values[0])
    ensures MemoOk(nodes, alias, s.memo) && NoneOpen(s.memo)
    ensures r.Indeterminate? <==> Endless(nodes, alias, start)
    ensures r.AccessIs? ==> Answers(nodes, alias, start, Access(r.access))
    ensures NoMutualPhis(nodes, alias) ==> Ready(nodes, alias, s.memo)
    ensures NoMutualPhis(nodes, alias) && AllStop(nodes, alias) && Sharp(nodes, alias, before) ==>
              Sharp(nodes, alias, s.memo) && (r.AccessIs? ==> Final(nodes, alias, r.access))
    ensures Outcome(nodes, alias, before, start, k, s.memo, r)
  {
    WalkAnswers(nodes, alias, start, s, gs);
    EmptyStack(nodes, gs);
    if r.AccessIs? {
      var e: nat :| Ends(nodes, alias, start, e) && e < |s.memo| && s.memo[e] == Done(r.access);
    }
  }

  /** The query is a finished run of the step machine. */
  ghost predicate Outcome(nodes: Nodes, alias: Oracle, before: seq<Mark>, start: nat, k: nat, after: seq<Mark>,
      r: MemoryClobber) {
    var s := Run(nodes, alias, Start(before, start), k);
    s == Walk(after, [], [if r.Indeterminate? then Cycle else Access(r.access)])
  }

  function Resize<T>(s: seq<T>, n: nat, fill: T): (r: seq<T>)
    ensures |r| == n && forall i :: 0 <= i < n ==> r[i] == if i < |s| then s[i] else fill
  {
    if n <= |s| then s[..n] else s + seq(n - |s|, _ => fill)
  }
}
