/** Second half of SSA construction: renaming over the dominator tree with an undo log. */
module SsaBuild {
  import opened Graph
  import opened Finite
  import opened CfgErrors
  import opened DomTree
  import opened Dominance
  import opened SsaSpec
  import opened SsaScan

  datatype Phi = Phi(variable: nat, block: nat, version: Version, inputs: seq<(nat, Version)>)

  datatype SparseSsa = SparseSsa(phis: seq<Phi>, phisByBlock: seq<seq<nat>>, uses: map<nat, Version>)

  datatype SsaResult = SsaOk(ssa: SparseSsa) | SsaErr(error: SsaError)

  // ------------------------------------------------------------ the list of phis

  predicate Before(a: (nat, nat), b: (nat, nat)) {
    a.0 < b.0 || (a.0 == b.0 && a.1 < b.1)
  }

  lemma {:induction false} LeastPair(s: Pairs) returns (z: (nat, nat))
    requires s != {}
    ensures z in s && forall y :: y in s ==> y == z || Before(z, y)
    decreases |s|
  {
    var x :| x in s;
    var rest := s - {x};
    if rest == {} {
      assert s == {x};
      z := x;
    } else {
      var y := LeastPair(rest);
      z := if Before(x, y) then x else y;
      assert s == rest + {x};
    }
  }

  predicate PhiIn(phis: seq<Phi>, b: nat, k: nat) {
    k < |phis| && phis[k].block == b
  }

  /** Indices of phis by block, each list ascending. */
  ghost predicate PhiIndex(phis: seq<Phi>, phisByBlock: seq<seq<nat>>) {
    && (forall b: nat, k: nat :: b < |phisByBlock| ==> (k in phisByBlock[b] <==> PhiIn(phis, b, k)))
    && forall b, i, j :: 0 <= b < |phisByBlock| && 0 <= i < j < |phisByBlock[b]| ==>
         phisByBlock[b][i] < phisByBlock[b][j]
  }

  /** Fresh phis in (block, variable) order, and their indices by block. */
  ghost predicate PhiTable(placed: Pairs, phis: seq<Phi>, phisByBlock: seq<seq<nat>>) {
    && (forall k :: 0 <= k < |phis| ==> (phis[k].block, phis[k].variable) in placed)
    && (forall k :: 0 <= k < |phis| ==>
         phis[k].block < |phisByBlock| && phis[k].version == PhiVersion(phis[k].variable, phis[k].block))
    && (forall i, j :: 0 <= i < j < |phis| ==>
         Before((phis[i].block, phis[i].variable), (phis[j].block, phis[j].variable)))
    && (forall z :: z in placed ==> exists k :: 0 <= k < |phis| && (phis[k].block, phis[k].variable) == z)
    && PhiIndex(phis, phisByBlock)
  }

  method ListPhis(placed: Pairs, blocks: nat) returns (phis: seq<Phi>, phisByBlock: seq<seq<nat>>)
    requires forall z: (nat, nat) :: z in placed ==> z.0 < blocks
    ensures |phisByBlock| == blocks && PhiTable(placed, phis, phisByBlock)
    ensures forall k :: 0 <= k < |phis| ==> phis[k].inputs == []
  {
    phis := [];
    phisByBlock := seq(blocks, _ => []);
    var rest := placed;
    while rest != {}
      invariant rest <= placed && |phisByBlock| == blocks && PhiTable(placed - rest, phis, phisByBlock)
      invariant forall k, z: (nat, nat) :: 0 <= k < |phis| && z in rest ==> Before((phis[k].block, phis[k].variable), z)
      invariant forall k :: 0 <= k < |phis| ==> phis[k].inputs == []
      decreases rest
    {
      ghost var least := LeastPair(rest);
      var pair: (nat, nat) :| pair in rest && forall y :: y in rest ==> y == pair || Before(pair, y);
      var (block, variable) := pair;
      ListNext(placed, rest, phis, phisByBlock, block, variable);
      var phi := |phis|;
      phis := phis + [Phi(variable, block, PhiVersion(variable, block), [])];
      phisByBlock := phisByBlock[block := phisByBlock[block] + [phi]];
      rest := rest - {pair};
    }
    assert placed - rest == placed;
  }

  /** Listing the least remaining pair keeps the table and its order. */
  lemma ListNext(placed: Pairs, rest: Pairs, phis: seq<Phi>, table: seq<seq<nat>>, block: nat, variable: nat)
    requires rest <= placed && (block, variable) in rest && block < |table| && PhiTable(placed - rest, phis, table)
    requires forall y :: y in rest ==> y == (block, variable) || Before((block, variable), y)
    requires forall k, z: (nat, nat) :: 0 <= k < |phis| && z in rest ==> Before((phis[k].block, phis[k].variable), z)
    ensures
      var more := phis + [Phi(variable, block, PhiVersion(variable, block), [])];
      var left := rest - {(block, variable)};
      && PhiTable(placed - left, more, table[block := table[block] + [|phis|]])
      && forall k, z: (nat, nat) :: 0 <= k < |more| && z in left ==> Before((more[k].block, more[k].variable), z)
  {
    var more := phis + [Phi(variable, block, PhiVersion(variable, block), [])];
    forall i | 0 <= i < |table[block]| ensures table[block][i] < |phis| {
      var k: nat := table[block][i];
      assert k in table[block];
    }
    ListStep(placed - rest, phis, table, variable, block, more, table[block := table[block] + [|phis|]]);
    assert placed - (rest - {(block, variable)}) == (placed - rest) + {(block, variable)};
  }

  lemma ListStep(done: Pairs, phis: seq<Phi>, table: seq<seq<nat>>, variable: nat, block: nat, phis': seq<Phi>,
      table': seq<seq<nat>>)
    requires PhiTable(done, phis, table) && block < |table|
    requires phis' == phis + [Phi(variable, block, PhiVersion(variable, block), [])]
    requires table' == table[block := table[block] + [|phis|]]
    requires forall k :: 0 <= k < |phis| ==> Before((phis[k].block, phis[k].variable), (block, variable))
    requires forall i :: 0 <= i < |table[block]| ==> table[block][i] < |phis|
    ensures PhiTable(done + {(block, variable)}, phis', table')
  {
    forall z | z in done + {(block, variable)}
      ensures exists k :: 0 <= k < |phis'| && (phis'[k].block, phis'[k].variable) == z
    {
      if z in done {
        var k :| 0 <= k < |phis| && (phis[k].block, phis[k].variable) == z;
        assert phis'[k] == phis[k];
      } else {
        assert phis'[|phis|].block == block;
      }
    }
    forall b: nat, k: nat | b < |table'| ensures k in table'[b] <==> PhiIn(phis', b, k) {
      assert b != block ==> table'[b] == table[b];
      assert k in table[b] <==> PhiIn(phis, b, k);
    }
  }

  // ------------------------------------------------------------ the undo log

  type Current = map<nat, Version>
  type Changes = seq<(nat, Option<Version>)>

  function Lookup(current: Current, v: nat): Version {
    if v in current then current[v] else EntryVersion(v)
  }

  function Find(current: Current, v: nat): Option<Version> {
    if v in current then Some(current[v]) else None
  }

  function Restore(current: Current, change: (nat, Option<Version>)): Current {
    match change.1
    case Some(previous) => current[change.0 := previous]
    case None => current - {change.0}
  }

  function Undo(current: Current, changes: Changes): Current
    decreases |changes|
  {
    if changes == [] then current else Undo(Restore(current, changes[|changes| - 1]), changes[..|changes| - 1])
  }

  lemma UndoLast(current: Current, changes: Changes, v: nat, x: Version)
    ensures Undo(current[v := x], changes + [(v, Find(current, v))]) == Undo(current, changes)
  {
    var log := changes + [(v, Find(current, v))];
    assert log[..|log| - 1] == changes;
    assert Restore(current[v := x], (v, Find(current, v))) == current;
  }

  /** The version of `v` inside a block entered with `current`, given the variables of its phis. */
  function Entering(current: Current, vars: seq<nat>, block: nat, v: nat): Version {
    if v in vars then PhiVersion(v, block) else Lookup(current, v)
  }

  method EnterPhis(current0: Current, vars: seq<nat>, block: nat) returns (current: Current, changes: Changes)
    ensures Undo(current, changes) == current0
    ensures forall v: nat :: Lookup(current, v) == Entering(current0, vars, block, v)
  {
    current, changes := current0, [];
    for i := 0 to |vars|
      invariant Undo(current, changes) == current0
      invariant forall v: nat :: Lookup(current, v) == Entering(current0, vars[..i], block, v)
    {
      var variable := vars[i];
      UndoLast(current, changes, variable, PhiVersion(variable, block));
      assert vars[..i + 1] == vars[..i] + [variable];
      ghost var before := current;
      changes := changes + [(variable, Find(current, variable))];
      current := current[variable := PhiVersion(variable, block)];
      forall v: nat ensures Lookup(current, v) == Entering(current0, vars[..i + 1], block, v) {
        assert Lookup(before, v) == Entering(current0, vars[..i], block, v);
      }
    }
    assert vars[..|vars|] == vars;
  }

  /** Every use among the first `n` events is recorded with the version current before it. */
  ghost predicate UsesRecorded(es: seq<Event>, n: nat, current: Current, uses0: Current, uses: Current) {
    && n <= |es|
    && uses.Keys == uses0.Keys + Usages(es[..n])
    && (forall u :: u in uses0 ==> uses[u] == uses0[u])
    && forall i :: 0 <= i < n && es[i].Use? ==>
         es[i].usage in uses && uses[es[i].usage] == After(es[..i], es[i].variable, Lookup(current, es[i].variable))
  }

  lemma RecordUse(es: seq<Event>, i: nat, current0: Current, uses0: Current, uses: Current)
    requires UsesRecorded(es, i, current0, uses0, uses) && i < |es| && es[i].Use? && es[i].usage !in uses
    ensures UsesRecorded(es, i + 1, current0, uses0,
              uses[es[i].usage := After(es[..i], es[i].variable, Lookup(current0, es[i].variable))])
  {
    PrefixStep(es, i);
    var u := es[i].usage;
    forall j | 0 <= j < i && es[j].Use? ensures es[j].usage != u {
      assert es[j].usage in uses;
    }
  }

  lemma RecordDefinition(es: seq<Event>, i: nat, current0: Current, uses0: Current, uses: Current)
    requires UsesRecorded(es, i, current0, uses0, uses) && i < |es| && es[i].Def?
    ensures UsesRecorded(es, i + 1, current0, uses0, uses)
  {
    PrefixStep(es, i);
  }

  /** `current` holds what the first `i` events make of `current0`. */
  ghost predicate Tracks(es: seq<Event>, i: nat, current0: Current, current: Current)
    requires i <= |es|
  {
    forall v: nat :: Lookup(current, v) == After(es[..i], v, Lookup(current0, v))
  }

  lemma AfterUseEvent(es: seq<Event>, i: nat, current0: Current, current: Current)
    requires i < |es| && es[i].Use? && Tracks(es, i, current0, current)
    ensures Tracks(es, i + 1, current0, current)
  {
    assert es[..i + 1] == es[..i] + [es[i]] && es[..i + 1][..i] == es[..i];
  }

  lemma AfterDefEvent(es: seq<Event>, i: nat, current0: Current, current: Current)
    requires i < |es| && es[i].Def? && Tracks(es, i, current0, current)
    ensures Tracks(es, i + 1, current0, current[es[i].variable := DefVersion(es[i].variable, es[i].definition)])
  {
    assert es[..i + 1] == es[..i] + [es[i]] && es[..i + 1][..i] == es[..i];
  }

  lemma UseIsNew(es: seq<Event>, i: nat, current0: Current, uses0: Current, uses: Current)
    requires DistinctIn(es) && uses0.Keys !! Usages(es) && i < |es| && es[i].Use?
    requires UsesRecorded(es, i, current0, uses0, uses)
    ensures es[i].usage !in uses
  {
    FreshUse(es, i);
    assert es[i].usage in Usages(es);
  }

  method RunEvents(es: seq<Event>, current0: Current, changes0: Changes, uses0: Current)
    returns (repeated: bool, current: Current, changes: Changes, uses: Current)
    requires DistinctIn(es) && uses0.Keys !! Usages(es)
    ensures !repeated
    ensures Undo(current, changes) == Undo(current0, changes0)
    ensures forall v: nat :: Lookup(current, v) == After(es, v, Lookup(current0, v))
    ensures UsesRecorded(es, |es|, current0, uses0, uses)
  {
    repeated, current, changes, uses := false, current0, changes0, uses0;
    for i := 0 to |es|
      invariant Undo(current, changes) == Undo(current0, changes0)
      invariant Tracks(es, i, current0, current) && UsesRecorded(es, i, current0, uses0, uses)
    {
      match es[i]
      case Use(variable, usage) =>
        UseIsNew(es, i, current0, uses0, uses);
        if usage in uses {
          assert false;
          repeated := true;
          return;
        }
        RecordUse(es, i, current0, uses0, uses);
        AfterUseEvent(es, i, current0, current);
        uses := uses[usage := Lookup(current, variable)];
      case Def(variable, definition) =>
        UndoLast(current, changes, variable, DefVersion(variable, definition));
        RecordDefinition(es, i, current0, uses0, uses);
        AfterDefEvent(es, i, current0, current);
        changes := changes + [(variable, Find(current, variable))];
        current := current[variable := DefVersion(variable, definition)];
    }
    assert es[..|es|] == es;
  }

  lemma FreshUse(es: seq<Event>, i: nat)
    requires DistinctIn(es) && i < |es|
    ensures es[i].Use? ==> es[i].usage !in Usages(es[..i])
  {
    SameInIds(es[i], es[..i]);
    forall f | f in es[..i] ensures !SameIdentity(f, es[i]) {
      var k :| 0 <= k < i && es[k] == f;
    }
  }

  // ------------------------------------------------------------ phi inputs

  /** Each phi of a successor gains one input from `block`. */
  ghost predicate InputsPushed(phis0: seq<Phi>, phis: seq<Phi>, targets: seq<nat>, block: nat, current: Current) {
    && |phis| == |phis0|
    && forall k :: 0 <= k < |phis| ==> phis[k] == if phis0[k].block in targets
         then phis0[k].(inputs := phis0[k].inputs + [(block, Lookup(current, phis0[k].variable))]) else phis0[k]
  }

  method PushInputs(phis0: seq<Phi>, phisByBlock: seq<seq<nat>>, targets: seq<nat>, block: nat, current: Current)
      returns (phis: seq<Phi>)
    requires forall i, j :: 0 <= i < j < |targets| ==> targets[i] != targets[j]
    requires forall s :: s in targets ==> s < |phisByBlock|
    requires PhiIndex(phis0, phisByBlock)
    ensures InputsPushed(phis0, phis, targets, block, current)
  {
    phis := phis0;
    for i := 0 to |targets|
      invariant InputsPushed(phis0, phis, targets[..i], block, current)
    {
      var successor := targets[i];
      assert successor in targets && successor !in targets[..i];
      assert targets[..i + 1] == targets[..i] + [successor];
      ghost var before := phis;
      var indices := phisByBlock[successor];
      for j := 0 to |indices|
        invariant |phis| == |phis0|
        invariant forall k :: 0 <= k < |phis| ==> phis[k] == if k in indices[..j]
          then before[k].(inputs := before[k].inputs + [(block, Lookup(current, before[k].variable))]) else before[k]
      {
        var phi := indices[j];
        assert phi in indices && phi !in indices[..j];
        assert indices[..j + 1] == indices[..j] + [phi];
        phis := phis[phi := phis[phi].(inputs := phis[phi].inputs + [(block, Lookup(current, phis[phi].variable))])];
      }
      assert indices[..|indices|] == indices;
    }
    assert targets[..|targets|] == targets;
  }

  // ------------------------------------------------------------ the walk over the tree

  datatype Action = Enter(block: nat) | Exit(changes: Changes)

  ghost predicate Awaits(actions: seq<Action>, b: nat) {
    exists i :: 0 <= i < |actions| && actions[i] == Enter(b)
  }

  /** Blocks awaiting entry are fresh, and every child of an entered block is entered or awaits. */
  ghost predicate WalkInv(idom: Links, root: nat, children: seq<seq<nat>>, entered: set<nat>, actions: seq<Action>) {
    && |children| == |idom|
    && (forall b: nat :: Awaits(actions, b) ==>
          b < |idom| && b !in entered && (b != root ==> idom[b].Some? && idom[b].value in entered))
    && (forall i, j :: 0 <= i < j < |actions| && actions[i].Enter? ==> actions[i] != actions[j])
    && (forall b :: b in entered ==> b < |idom| && (b != root ==> idom[b].Some? && idom[b].value in entered))
    && (forall b, c :: b in entered && c in children[b] ==> c in entered || Awaits(actions, c))
    && (root in entered || Awaits(actions, root))
  }

  function EnterAll(kids: seq<nat>): (r: seq<Action>)
    ensures |r| == |kids| && forall i :: 0 <= i < |kids| ==> r[i] == Enter(kids[|kids| - 1 - i])
  {
    seq(|kids|, i requires 0 <= i < |kids| => Enter(kids[|kids| - 1 - i]))
  }

  function Descend(actions: seq<Action>, changes: Changes, kids: seq<nat>): seq<Action>
    requires actions != []
  {
    actions[..|actions| - 1] + [Exit(changes)] + EnterAll(kids)
  }

  lemma DescendAwaits(actions: seq<Action>, changes: Changes, kids: seq<nat>, b: nat, c: nat)
    requires actions != [] && actions[|actions| - 1] == Enter(b)
    requires forall i, j :: 0 <= i < j < |actions| && actions[i].Enter? ==> actions[i] != actions[j]
    ensures Awaits(Descend(actions, changes, kids), c) <==> (Awaits(actions, c) && c != b) || c in kids
  {
    var top := |actions| - 1;
    var actions' := Descend(actions, changes, kids);
    if Awaits(actions, c) && c != b {
      var i :| 0 <= i < |actions| && actions[i] == Enter(c);
      assert actions'[i] == Enter(c);
    }
    if c in kids {
      var k :| 0 <= k < |kids| && kids[k] == c;
      assert actions'[top + |kids| - k] == EnterAll(kids)[|kids| - 1 - k];
    }
    if Awaits(actions', c) {
      var i :| 0 <= i < |actions'| && actions'[i] == Enter(c);
      if i > top {
        assert actions'[i] == EnterAll(kids)[i - top - 1];
      } else {
        assert actions[i] == Enter(c);
      }
    }
  }

  lemma DescendWalk(idom: Links, root: nat, children: seq<seq<nat>>, entered: set<nat>, actions: seq<Action>,
      changes: Changes, b: nat)
    requires WalkInv(idom, root, children, entered, actions) && ChildrenOf(idom, root, children)
    requires actions != [] && actions[|actions| - 1] == Enter(b)
    ensures b < |children| && b !in entered
    ensures WalkInv(idom, root, children, entered + {b}, Descend(actions, changes, children[b]))
  {
    var top := |actions| - 1;
    assert Awaits(actions, b);
    var kids := children[b];
    var actions' := Descend(actions, changes, kids);
    forall c | c in kids
      ensures c < |idom| && c !in entered && c != b && c != root && idom[c] == Some(b) && !Awaits(actions, c)
    {
      assert IsChild(idom, root, b, c);
    }
    forall c: nat ensures Awaits(actions', c) <==> (Awaits(actions, c) && c != b) || c in kids {
      DescendAwaits(actions, changes, kids, b, c);
    }
    forall i, j | 0 <= i < j < |actions'| && actions'[i].Enter? ensures actions'[i] != actions'[j] {
      if j > top {
        assert actions'[j] == EnterAll(kids)[j - top - 1];
        if i > top {
          assert actions'[i] == EnterAll(kids)[i - top - 1];
        } else {
          assert actions[i] == actions'[i];
          assert Awaits(actions, actions[i].block);
        }
      }
    }
  }

  // ------------------------------------------------------------ names

  /** `names(b, v)` is the version of `v` on entry to block `b`, its phis included. */
  type Names = (nat, nat) -> Version

  ghost predicate NamedAt(idom: Links, root: nat, events: Events, placed: Pairs, names: Names, b: nat) {
    && b < |events| == |idom|
    && (forall v: nat :: (b, v) in placed ==> names(b, v) == PhiVersion(v, b))
    && (b == root ==> forall v: nat :: (b, v) !in placed ==> names(b, v) == EntryVersion(v))
    && (b != root && idom[b].Some? ==> idom[b].value < |events|)
    && (b != root && idom[b].Some? ==>
         forall v: nat :: (b, v) !in placed ==> names(b, v) == After(events[idom[b].value], v, names(idom[b].value, v)))
  }

  ghost predicate NamesOk(idom: Links, root: nat, events: Events, placed: Pairs, names: Names) {
    forall b: nat {:trigger NamedAt(idom, root, events, placed, names, b)} ::
      b < |events| ==> NamedAt(idom, root, events, placed, names, b)
  }

  /** `current` supplies the names a block inherits. */
  ghost predicate Inherits(placed: Pairs, names: Names, b: nat, current: Current) {
    forall v: nat :: (b, v) !in placed ==> Lookup(current, v) == names(b, v)
  }

  /** Undoing the log down to any awaited entry leaves the names that block inherits. */
  ghost predicate LogOk(placed: Pairs, names: Names, actions: seq<Action>, current: Current)
    decreases |actions|
  {
    actions == [] ||
    (var rest := actions[..|actions| - 1];
     match actions[|actions| - 1]
     case Enter(b) => Inherits(placed, names, b, current) && LogOk(placed, names, rest, current)
     case Exit(changes) => LogOk(placed, names, rest, Undo(current, changes)))
  }

  lemma {:induction false} LogEnterAll(placed: Pairs, names: Names, actions: seq<Action>, current: Current,
      kids: seq<nat>)
    requires LogOk(placed, names, actions, current)
    requires forall c :: c in kids ==> Inherits(placed, names, c, current)
    ensures LogOk(placed, names, actions + EnterAll(kids), current)
    decreases |kids|
  {
    if kids == [] {
      assert actions + EnterAll(kids) == actions;
    } else {
      var rest := actions + EnterAll(kids[1..]);
      LogEnterAll(placed, names, actions, current, kids[1..]);
      assert EnterAll(kids) == EnterAll(kids[1..]) + [Enter(kids[0])];
      assert actions + EnterAll(kids) == rest + [Enter(kids[0])];
      assert (rest + [Enter(kids[0])])[..|rest|] == rest;
    }
  }

  lemma LogDescend(idom: Links, root: nat, children: seq<seq<nat>>, events: Events, placed: Pairs, names: Names,
                   actions: seq<Action>, current0: Current, current: Current, changes: Changes, b: nat)
    requires NamesOk(idom, root, events, placed, names) && ChildrenOf(idom, root, children) && |events| == |idom|
    requires actions != [] && LogOk(placed, names, actions, current0) && actions[|actions| - 1] == Enter(b)
    requires b < |events| && Undo(current, changes) == current0
    requires forall v: nat :: Lookup(current, v) == After(events[b], v, names(b, v))
    ensures LogOk(placed, names, Descend(actions, changes, children[b]), current)
  {
    var rest := actions[..|actions| - 1];
    var exited := rest + [Exit(changes)];
    assert exited[..|exited| - 1] == rest;
    forall c | c in children[b] ensures Inherits(placed, names, c, current) {
      assert IsChild(idom, root, b, c);
      assert NamedAt(idom, root, events, placed, names, c);
    }
    LogEnterAll(placed, names, exited, current, children[b]);
  }

  // ------------------------------------------------------------ what the walk has recorded

  ghost predicate BlockUses(es: seq<Event>, names: Names, b: nat, uses: Current) {
    forall i :: 0 <= i < |es| && es[i].Use? ==>
      es[i].usage in uses && uses[es[i].usage] == After(es[..i], es[i].variable, names(b, es[i].variable))
  }

  ghost predicate UsesDone(events: Events, names: Names, entered: set<nat>, uses: Current) {
    && (forall b :: b in entered ==> b < |events| && BlockUses(events[b], names, b, uses))
    && forall u: nat :: u in uses ==> exists b :: b in entered && b < |events| && u in Usages(events[b])
  }

  lemma UsesStep(events: Events, names: Names, entered: set<nat>, b: nat, current: Current, uses0: Current,
      uses: Current)
    requires UsesDone(events, names, entered, uses0) && b < |events|
    requires UsesRecorded(events[b], |events[b]|, current, uses0, uses)
    requires forall v: nat :: Lookup(current, v) == names(b, v)
    ensures UsesDone(events, names, entered + {b}, uses)
  {
    assert events[b][..|events[b]|] == events[b];
    forall x | x in entered + {b} ensures x < |events| && BlockUses(events[x], names, x, uses) {
      if x in entered {
        assert BlockUses(events[x], names, x, uses0);
      }
    }
    forall u: nat | u in uses ensures exists x :: x in entered + {b} && x < |events| && u in Usages(events[x]) {
      if u in uses0 {
        var x :| x in entered && x < |events| && u in Usages(events[x]);
        assert x in entered + {b};
      } else {
        assert b in entered + {b};
      }
    }
  }

  lemma UsesFresh(events: Events, names: Names, entered: set<nat>, b: nat, uses: Current)
    requires UsesDone(events, names, entered, uses) && Distinct(events) && b < |events| && b !in entered
    ensures uses.Keys !! Usages(events[b])
  {
    forall u: nat | u in uses && u in Usages(events[b]) ensures false {
      var x :| x in entered && x < |events| && u in Usages(events[x]);
      var e :| e in events[x] && e.Use? && e.usage == u;
      var f :| f in events[b] && f.Use? && f.usage == u;
      assert SameIdentity(e, f) && SameIdentity(f, e);
    }
  }

  /** The inputs of one phi: one for each entered predecessor, carrying the name that leaves it. */
  ghost predicate PhiInputsDone(g: Succs, events: Events, names: Names, entered: set<nat>, phi: Phi) {
    && (forall i :: 0 <= i < |phi.inputs| ==> phi.inputs[i].0 in entered && Edge(g, phi.inputs[i].0, phi.block))
    && (forall i :: 0 <= i < |phi.inputs| ==>
          phi.inputs[i].0 < |events|
            && phi.inputs[i].1 == After(events[phi.inputs[i].0], phi.variable, names(phi.inputs[i].0, phi.variable)))
    && (forall i, j :: 0 <= i < j < |phi.inputs| ==> phi.inputs[i].0 != phi.inputs[j].0)
    && forall u: nat :: u in entered && Edge(g, u, phi.block) ==> HasInput(phi, u)
  }

  ghost predicate HasInput(phi: Phi, u: nat) {
    exists i :: 0 <= i < |phi.inputs| && phi.inputs[i].0 == u
  }

  ghost predicate InputsDone(g: Succs, events: Events, names: Names, entered: set<nat>, phis: seq<Phi>) {
    forall k :: 0 <= k < |phis| ==> PhiInputsDone(g, events, names, entered, phis[k])
  }

  lemma PhiInputsStep(g: Succs, events: Events, names: Names, entered: set<nat>, phi: Phi, phi': Phi, b: nat,
      current: Current)
    requires PhiInputsDone(g, events, names, entered, phi) && b !in entered && b < |events| == |g|
    requires Wellformed(g) && forall v: nat :: Lookup(current, v) == After(events[b], v, names(b, v))
    requires phi' ==
             if phi.block in g[b] then phi.(inputs := phi.inputs + [(b, Lookup(current, phi.variable))]) else phi
    ensures PhiInputsDone(g, events, names, entered + {b}, phi')
  {
    forall u: nat | u in entered + {b} && Edge(g, u, phi.block) ensures HasInput(phi', u) {
      if u == b {
        assert phi'.inputs[|phi.inputs|].0 == b;
      } else {
        assert HasInput(phi, u);
        var i :| 0 <= i < |phi.inputs| && phi.inputs[i].0 == u;
        assert phi'.inputs[i].0 == u;
      }
    }
  }

  ghost predicate SamePhis(phis0: seq<Phi>, phis: seq<Phi>) {
    && |phis| == |phis0|
    && forall k :: 0 <= k < |phis| ==> phis[k] == phis0[k].(inputs := phis[k].inputs)
  }

  lemma InputsStep(g: Succs, events: Events, names: Names, entered: set<nat>, phis: seq<Phi>, phis': seq<Phi>, b: nat,
      current: Current)
    requires InputsDone(g, events, names, entered, phis) && b !in entered && b < |events| == |g|
    requires Wellformed(g) && forall v: nat :: Lookup(current, v) == After(events[b], v, names(b, v))
    requires InputsPushed(phis, phis', g[b], b, current)
    ensures InputsDone(g, events, names, entered + {b}, phis') && SamePhis(phis, phis')
  {
    forall k | 0 <= k < |phis'| ensures PhiInputsDone(g, events, names, entered + {b}, phis'[k]) {
      PhiInputsStep(g, events, names, entered, phis[k], phis'[k], b, current);
    }
  }

  lemma SameTable(placed: Pairs, phis: seq<Phi>, phis': seq<Phi>, phisByBlock: seq<seq<nat>>)
    requires PhiTable(placed, phis, phisByBlock) && SamePhis(phis, phis')
    ensures PhiTable(placed, phis', phisByBlock)
  {
    forall k | 0 <= k < |phis| ensures phis'[k].block == phis[k].block && phis'[k].variable == phis[k].variable
      && phis'[k].version == phis[k].version {
    }
    forall z | z in placed ensures exists k :: 0 <= k < |phis'| && (phis'[k].block, phis'[k].variable) == z {
      var k :| 0 <= k < |phis| && (phis[k].block, phis[k].variable) == z;
      assert phis'[k].block == phis[k].block;
    }
    forall b: nat, k: nat | b < |phisByBlock| ensures k in phisByBlock[b] <==> PhiIn(phis', b, k) {
      assert k in phisByBlock[b] <==> PhiIn(phis, b, k);
    }
  }

  /** The variables with a phi in block `b`. */
  method PhiVariables(placed: Pairs, phis: seq<Phi>, phisByBlock: seq<seq<nat>>, b: nat) returns (vars: seq<nat>)
    requires PhiTable(placed, phis, phisByBlock) && b < |phisByBlock|
    ensures forall v: nat :: v in vars <==> (b, v) in placed
  {
    vars := [];
    var indices := phisByBlock[b];
    for i := 0 to |indices|
      invariant forall v: nat :: v in vars <==> exists k :: k in indices[..i] && k < |phis| && phis[k].variable == v
    {
      var k := indices[i];
      assert k in indices && PhiIn(phis, b, k);
      assert indices[..i + 1] == indices[..i] + [k];
      vars := vars + [phis[k].variable];
    }
    assert indices[..|indices|] == indices;
    forall v: nat ensures v in vars <==> (b, v) in placed {
      if v in vars {
        var k :| k in indices && k < |phis| && phis[k].variable == v;
        assert PhiIn(phis, b, k);
      }
      if (b, v) in placed {
        var k: nat :| k < |phis| && (phis[k].block, phis[k].variable) == (b, v);
        assert PhiIn(phis, b, k);
      }
    }
  }

  ghost predicate RenameInv(g: Succs, idom: Links, root: nat, children: seq<seq<nat>>, events: Events, placed: Pairs,
      names: Names,
                            entered: set<nat>, actions: seq<Action>, current: Current, uses: Current, phis: seq<Phi>) {
    && WalkInv(idom, root, children, entered, actions) && LogOk(placed, names, actions, current)
    && UsesDone(events, names, entered, uses) && InputsDone(g, events, names, entered, phis)
  }

  /** Enter one block: its phis, its events, then the inputs of its successors' phis. */
  method EnterBlock(c: SsaCfg, events: Events, placed: Pairs, phisByBlock: seq<seq<nat>>, ghost names: Names,
      ghost entered: set<nat>,
                    actions: seq<Action>, current0: Current, uses0: Current, phis0: seq<Phi>, b: nat)
    returns (repeated: bool, actions': seq<Action>, current: Current, uses: Current, phis: seq<Phi>)
    requires NamesOk(c.tree.idom, c.root, events, placed, names) && ChildrenOf(c.tree.idom, c.root, c.tree.children)
    requires |events| == |c.succs| == |c.tree.idom| == |phisByBlock| && Wellformed(c.succs)
    requires NoParallelEdges(c.succs) && Distinct(events)
    requires RenameInv(c.succs, c.tree.idom, c.root, c.tree.children, events, placed, names, entered, actions,
               current0, uses0, phis0)
    requires PhiTable(placed, phis0, phisByBlock) && actions != [] && actions[|actions| - 1] == Enter(b)
    ensures !repeated && b < |events| && b !in entered
    ensures RenameInv(c.succs, c.tree.idom, c.root, c.tree.children, events, placed, names, entered + {b}, actions',
              current, uses, phis)
    ensures PhiTable(placed, phis, phisByBlock)
  {
    assert Awaits(actions, b);
    var vars := PhiVariables(placed, phis0, phisByBlock, b);
    var current1, changes1 := EnterPhis(current0, vars, b);
    assert Inherits(placed, names, b, current0);
    assert NamedAt(c.tree.idom, c.root, events, placed, names, b);
    assert forall v: nat :: Lookup(current1, v) == names(b, v);
    UsesFresh(events, names, entered, b, uses0);
    var changes;
    repeated, current, changes, uses := RunEvents(events[b], current1, changes1, uses0);
    UsesStep(events, names, entered, b, current1, uses0, uses);
    phis := PushInputs(phis0, phisByBlock, c.succs[b], b, current);
    InputsStep(c.succs, events, names, entered, phis0, phis, b, current);
    SameTable(placed, phis0, phis, phisByBlock);
    DescendWalk(c.tree.idom, c.root, c.tree.children, entered, actions, changes, b);
    LogDescend(c.tree.idom, c.root, c.tree.children, events, placed, names, actions, current0, current, changes, b);
    actions' := Descend(actions, changes, c.tree.children[b]);
  }

  lemma LeaveStep(idom: Links, root: nat, children: seq<seq<nat>>, placed: Pairs, names: Names, entered: set<nat>,
                  actions: seq<Action>, current: Current, changes: Changes)
    requires WalkInv(idom, root, children, entered, actions) && LogOk(placed, names, actions, current)
    requires actions != [] && actions[|actions| - 1] == Exit(changes)
    ensures WalkInv(idom, root, children, entered, actions[..|actions| - 1])
    ensures LogOk(placed, names, actions[..|actions| - 1], Undo(current, changes))
  {
    var rest := actions[..|actions| - 1];
    forall b: nat ensures Awaits(rest, b) <==> Awaits(actions, b) {
      if Awaits(actions, b) {
        var i :| 0 <= i < |actions| && actions[i] == Enter(b);
        assert rest[i] == Enter(b);
      }
    }
  }

  method Rename(c: SsaCfg, events: Events, placed: Pairs, phis0: seq<Phi>, phisByBlock: seq<seq<nat>>,
      ghost names: Names)
    returns (repeated: Option<nat>, phis: seq<Phi>, uses: Current, ghost entered: set<nat>)
    requires NamesOk(c.tree.idom, c.root, events, placed, names) && ChildrenOf(c.tree.idom, c.root, c.tree.children)
    requires c.root < |events|
    requires |events| == |c.succs| == |c.tree.idom| == |phisByBlock| && Wellformed(c.succs)
    requires NoParallelEdges(c.succs) && Distinct(events)
    requires PhiTable(placed, phis0, phisByBlock) && forall k :: 0 <= k < |phis0| ==> phis0[k].inputs == []
    ensures repeated.None? && PhiTable(placed, phis, phisByBlock)
    ensures WalkInv(c.tree.idom, c.root, c.tree.children, entered, [])
    ensures UsesDone(events, names, entered, uses) && InputsDone(c.succs, events, names, entered, phis)
  {
    var current: Current := map[];
    uses, phis, entered := map[], phis0, {};
    var actions: seq<Action> := [Enter(c.root)];
    RenameStart(c, events, placed, names, phis0);
    while actions != []
      invariant RenameInv(c.succs, c.tree.idom, c.root, c.tree.children, events, placed, names, entered, actions,
                  current, uses, phis)
      invariant PhiTable(placed, phis, phisByBlock)
      decreases Below(|events|) - entered, |actions|
    {
      match actions[|actions| - 1]
      case Exit(changes) =>
        LeaveStep(c.tree.idom, c.root, c.tree.children, placed, names, entered, actions, current, changes);
        current := Undo(current, changes);
        actions := actions[..|actions| - 1];
      case Enter(block) =>
        var again;
        again, actions, current, uses,
          phis := EnterBlock(c, events, placed, phisByBlock, names, entered, actions, current, uses, phis, block);
        assert block in Below(|events|) - entered;
        entered := entered + {block};
        if again {
          assert false;
          return Some(block), phis, uses, entered;
        }
    }
    repeated := None;
  }

  lemma RenameStart(c: SsaCfg, events: Events, placed: Pairs, names: Names, phis: seq<Phi>)
    requires NamesOk(c.tree.idom, c.root, events, placed, names)
    requires c.root < |events| == |c.tree.idom| == |c.tree.children|
    requires forall k :: 0 <= k < |phis| ==> phis[k].inputs == []
    ensures RenameInv(c.succs, c.tree.idom, c.root, c.tree.children, events, placed, names, {}, [Enter(c.root)],
              map[], map[], phis)
  {
    assert [Enter(c.root)][0] == Enter(c.root);
    assert NamedAt(c.tree.idom, c.root, events, placed, names, c.root);
    assert Inherits(placed, names, c.root, map[]);
    assert [Enter(c.root)][..0] == [];
    assert LogOk(placed, names, [], map[]);
  }

  // ------------------------------------------------------------ the finished record

  /** Inputs in ascending order of predecessor. */
  ghost predicate AscendingInputs(r: seq<(nat, Version)>) {
    forall a, b :: 0 <= a < b < |r| ==> r[a].0 < r[b].0
  }

  method SortInputs(inputs: seq<(nat, Version)>) returns (r: seq<(nat, Version)>)
    requires forall i, j :: 0 <= i < j < |inputs| ==> inputs[i].0 != inputs[j].0
    ensures AscendingInputs(r)
    ensures |r| == |inputs| && forall x :: x in r <==> x in inputs
  {
    r := [];
    for i := 0 to |inputs|
      invariant AscendingInputs(r) && |r| == i && forall x :: x in r <==> x in inputs[..i]
    {
      assert inputs[..i + 1] == inputs[..i] + [inputs[i]];
      forall a | 0 <= a < |r| ensures r[a].0 != inputs[i].0 {
        assert r[a] in r;
        var b :| 0 <= b < i && inputs[b] == r[a];
      }
      r := InsertInput(r, inputs[i]);
    }
    assert inputs[..|inputs|] == inputs;
  }

  method InsertInput(r0: seq<(nat, Version)>, input: (nat, Version)) returns (r: seq<(nat, Version)>)
    requires AscendingInputs(r0) && forall a :: 0 <= a < |r0| ==> r0[a].0 != input.0
    ensures AscendingInputs(r) && |r| == |r0| + 1 && forall x :: x in r <==> x == input || x in r0
  {
    var at := |r0|;
    while at > 0 && r0[at - 1].0 > input.0
      invariant 0 <= at <= |r0| && forall a :: at <= a < |r0| ==> r0[a].0 > input.0
    {
      at := at - 1;
    }
    InputInserted(r0, r0[..at], input, r0[at..]);
    r := r0[..at] + [input] + r0[at..];
  }

  lemma InputInserted(r: seq<(nat, Version)>, a: seq<(nat, Version)>, input: (nat, Version), b: seq<(nat, Version)>)
    requires r == a + b && AscendingInputs(r)
    requires (a != [] ==> a[|a| - 1].0 < input.0) && (b != [] ==> input.0 < b[0].0)
    ensures AscendingInputs(a + [input] + b) && forall x :: x in a + [input] + b <==> x == input || x in r
  {
    InputsAscend(r, a, input, b);
    forall x ensures x in a + [input] + b <==> x == input || x in r {
    }
  }

  lemma InputsAscend(r: seq<(nat, Version)>, a: seq<(nat, Version)>, input: (nat, Version), b: seq<(nat, Version)>)
    requires r == a + b && AscendingInputs(r)
    requires (a != [] ==> a[|a| - 1].0 < input.0) && (b != [] ==> input.0 < b[0].0)
    ensures AscendingInputs(a + [input] + b)
  {
    assert AscendingInputs(a) && AscendingInputs(b) by {
      assert a == r[..|a|] && b == r[|a|..];
    }
    InputsJoin(a, [input]);
    InputsJoin(a + [input], b);
  }

  lemma InputsJoin(a: seq<(nat, Version)>, b: seq<(nat, Version)>)
    requires AscendingInputs(a) && AscendingInputs(b) && (a != [] && b != [] ==> a[|a| - 1].0 < b[0].0)
    ensures AscendingInputs(a + b)
  {
    forall i, j | 0 <= i < |a| && 0 <= j < |b| ensures a[i].0 < b[j].0 {
      assert i < |a| - 1 ==> a[i].0 < a[|a| - 1].0;
      assert j > 0 ==> b[0].0 < b[j].0;
    }
  }

  lemma {:induction false} AscendingUnique(a: seq<nat>, b: seq<nat>)
    requires forall i, j :: 0 <= i < j < |a| ==> a[i] < a[j]
    requires forall i, j :: 0 <= i < j < |b| ==> b[i] < b[j]
    requires forall x: nat :: x in a <==> x in b
    ensures a == b
    decreases |a|
  {
    if a == [] {
      assert forall i :: 0 <= i < |b| ==> b[i] in b;
    } else {
      assert a[|a| - 1] in a && b != [];
      var m, n := |a| - 1, |b| - 1;
      assert b[n] in b;
      var i :| 0 <= i < |a| && a[i] == b[n];
      assert a[m] in b;
      var j :| 0 <= j < |b| && b[j] == a[m];
      assert a[m] == b[n];
      forall x: nat ensures x in a[..m] <==> x in b[..n] {
        assert x in a <==> x in a[..m] || x == a[m];
        assert x in b <==> x in b[..n] || x == b[n];
        assert a[m] !in a[..m] && b[n] !in b[..n];
      }
      AscendingUnique(a[..m], b[..n]);
      assert a == a[..m] + [a[m]] && b == b[..n] + [b[n]];
    }
  }

  /** Every predecessor, in order, with the version that leaves it. */
  ghost predicate InputsExact(c: SsaCfg, events: Events, placed: Places, phi: Phi)
    requires CfgOk(c) && |events| == |c.succs| && phi.block < |events|
  {
    && |phi.inputs| == |c.preds[phi.block]|
    && forall i :: 0 <= i < |phi.inputs| ==>
         c.preds[phi.block][i] < |events| &&
         phi.inputs[i] == (c.preds[phi.block][i], OutVersion(c, events, placed, c.preds[phi.block][i], phi.variable))
  }

  ghost predicate UsesExact(c: SsaCfg, events: Events, placed: Places, uses: map<nat, Version>)
    requires CfgOk(c) && |events| == |c.succs|
  {
    && (forall u :: u in uses <==> exists b :: 0 <= b < |events| && u in Usages(events[b]))
    && forall b, i :: 0 <= b < |events| && 0 <= i < |events[b]| && events[b][i].Use? ==>
         events[b][i].usage in uses
           && uses[events[b][i].usage] == UseVersion(c, events, placed, b, i, events[b][i].variable)
  }

  /** A finished record: forced phis only, exact inputs, exact uses. */
  ghost predicate IsSsa(c: SsaCfg, events: Events, placed: Places, ssa: SparseSsa) {
    && CfgOk(c) && |events| == |c.succs| == |ssa.phisByBlock| && Placed(c, events, placed)
    && PhiTable(placed, ssa.phis, ssa.phisByBlock)
    && (forall k :: 0 <= k < |ssa.phis| ==> InputsExact(c, events, placed, ssa.phis[k]))
    && UsesExact(c, events, placed, ssa.uses)
  }

  ghost predicate NamesAre(c: SsaCfg, events: Events, placed: Places, names: Names)
    requires CfgOk(c) && |events| == |c.succs|
  {
    forall b: nat, v: nat :: b < |events| ==> names(b, v) == InVersion(c, events, placed, b, v)
  }

  lemma NamesExist(c: SsaCfg, events: Events, placed: Places) returns (names: Names)
    requires CfgOk(c) && |events| == |c.succs|
    ensures NamesAre(c, events, placed, names) && NamesOk(c.tree.idom, c.root, events, placed, names)
  {
    names := (b: nat, v: nat) => if b < |events| then InVersion(c, events, placed, b, v) else EntryVersion(v);
    forall b: nat | b < |events| ensures NamedAt(c.tree.idom, c.root, events, placed, names, b) {
      if b != c.root {
        IdomHasFewer(c.succs, c.root, c.tree.idom[b].value, b);
      }
    }
  }

  lemma {:induction false} AllEntered(c: SsaCfg, entered: set<nat>, b: nat)
    requires CfgOk(c) && WalkInv(c.tree.idom, c.root, c.tree.children, entered, []) && b < |c.succs|
    ensures b in entered
    decreases |StrictDominators(c.succs, c.root, b)|
  {
    if b == c.root {
      assert !Awaits([], b);
    } else {
      var d := c.tree.idom[b].value;
      IdomHasFewer(c.succs, c.root, d, b);
      AllEntered(c, entered, d);
      assert IsChild(c.tree.idom, c.root, d, b) && !Awaits([], b);
    }
  }

  lemma FinishUses(c: SsaCfg, events: Events, placed: Places, names: Names, entered: set<nat>, uses: Current)
    requires CfgOk(c) && |events| == |c.succs| && NamesAre(c, events, placed, names)
    requires UsesDone(events, names, entered, uses) && forall b: nat :: b in entered <==> b < |events|
    ensures UsesExact(c, events, placed, uses)
  {
    forall b, i | 0 <= b < |events| && 0 <= i < |events[b]| && events[b][i].Use?
      ensures events[b][i].usage in uses
      ensures uses[events[b][i].usage] == UseVersion(c, events, placed, b, i, events[b][i].variable)
    {
      assert BlockUses(events[b], names, b, uses);
    }
    forall u | exists b :: 0 <= b < |events| && u in Usages(events[b]) ensures u in uses {
      var b :| 0 <= b < |events| && u in Usages(events[b]);
      assert BlockUses(events[b], names, b, uses);
    }
  }

  function Sources(inputs: seq<(nat, Version)>): (r: seq<nat>)
    ensures |r| == |inputs| && forall i :: 0 <= i < |r| ==> r[i] == inputs[i].0
  {
    seq(|inputs|, i requires 0 <= i < |inputs| => inputs[i].0)
  }

  lemma SourcesArePredecessors(g: Succs, preds: seq<seq<nat>>, events: Events, names: Names, entered: set<nat>,
      phi: Phi, inputs: seq<(nat, Version)>)
    requires PredecessorTable(g, preds) && phi.block < |g| == |events|
    requires PhiInputsDone(g, events, names, entered, phi) && forall b: nat :: b in entered <==> b < |events|
    requires forall i, j :: 0 <= i < j < |inputs| ==> inputs[i].0 < inputs[j].0
    requires forall x :: x in inputs <==> x in phi.inputs
    ensures Sources(inputs) == preds[phi.block]
  {
    var sources := Sources(inputs);
    forall u: nat ensures u in sources <==> u in preds[phi.block] {
      if u in sources {
        var i :| 0 <= i < |sources| && sources[i] == u;
        assert inputs[i] in inputs && inputs[i] in phi.inputs;
      }
      if u in preds[phi.block] {
        assert Edge(g, u, phi.block) && HasInput(phi, u);
        var j :| 0 <= j < |phi.inputs| && phi.inputs[j].0 == u;
        assert phi.inputs[j] in inputs;
        var i :| 0 <= i < |inputs| && inputs[i] == phi.inputs[j];
        assert sources[i] == u;
      }
    }
    AscendingUnique(sources, preds[phi.block]);
  }

  method FinishPhi(g: Succs, preds: seq<seq<nat>>, events: Events, ghost names: Names, ghost entered: set<nat>,
      phi: Phi)
    returns (bad: bool, r: Phi)
    requires PredecessorTable(g, preds) && phi.block < |g| == |events|
    requires PhiInputsDone(g, events, names, entered, phi) && forall b: nat :: b in entered <==> b < |events|
    ensures !bad && r == phi.(inputs := r.inputs) && |r.inputs| == |preds[phi.block]|
    ensures forall i :: 0 <= i < |r.inputs| ==> preds[phi.block][i] < |events|
    ensures forall i :: 0 <= i < |r.inputs| ==>
      r.inputs[i] == (preds[phi.block][i],
        After(events[preds[phi.block][i]], phi.variable, names(preds[phi.block][i], phi.variable)))
  {
    var inputs := SortInputs(phi.inputs);
    r := phi.(inputs := inputs);
    SourcesArePredecessors(g, preds, events, names, entered, phi, inputs);
    forall i | 0 <= i < |inputs|
      ensures inputs[i].0 == preds[phi.block][i] && inputs[i].0 < |events|
      ensures inputs[i].1 == After(events[inputs[i].0], phi.variable, names(inputs[i].0, phi.variable))
    {
      assert Sources(inputs)[i] == preds[phi.block][i];
      assert inputs[i] in inputs && inputs[i] in phi.inputs;
      var j :| 0 <= j < |phi.inputs| && phi.inputs[j] == inputs[i];
    }
    bad := |inputs| != |preds[phi.block]| || exists i :: 0 <= i < |inputs| && inputs[i].0 != preds[phi.block][i];
  }

  method FinishPhis(c: SsaCfg, events: Events, ghost placed: Places, ghost names: Names, ghost entered: set<nat>,
      phis: seq<Phi>)
    returns (bad: Option<nat>, done: seq<Phi>)
    requires CfgOk(c) && |events| == |c.succs| && NamesAre(c, events, placed, names)
    requires InputsDone(c.succs, events, names, entered, phis) && forall b: nat :: b in entered <==> b < |events|
    requires forall k :: 0 <= k < |phis| ==> phis[k].block < |events|
    ensures bad.None? && SamePhis(phis, done)
    ensures forall k :: 0 <= k < |done| ==> done[k].block < |events| && InputsExact(c, events, placed, done[k])
  {
    done := [];
    for k := 0 to |phis|
      invariant |done| == k && forall i :: 0 <= i < k ==> done[i] == phis[i].(inputs := done[i].inputs)
      invariant forall i :: 0 <= i < k ==> done[i].block < |events| && InputsExact(c, events, placed, done[i])
    {
      assert PhiInputsDone(c.succs, events, names, entered, phis[k]);
      var block := phis[k].block;
      var wrong, phi := FinishPhi(c.succs, c.preds, events, names, entered, phis[k]);
      if wrong {
        assert false;
        return Some(block), done;
      }
      assert InputsExact(c, events, placed, phi);
      done := done + [phi];
    }
    bad := None;
  }

  /** Liveness, placement and the empty phi list. */
  method PrepareSsa(c: SsaCfg, events: Events, scanned: Scanned)
      returns (places: Places, phis: seq<Phi>, phisByBlock: seq<seq<nat>>)
    requires CfgOk(c) && |events| == |c.succs| && ScanOk(events, |events|, scanned)
    ensures Placed(c, events, places) && |phisByBlock| == |events| && PhiTable(places, phis, phisByBlock)
    ensures forall k :: 0 <= k < |phis| ==> phis[k].inputs == []
  {
    var live := ComputeLive(c, events, scanned);
    places := PlacePhis(c, events, scanned, live);
    phis, phisByBlock := ListPhis(places, |events|);
  }

  method RenameAll(c: SsaCfg, events: Events, places: Places, phis0: seq<Phi>, phisByBlock: seq<seq<nat>>,
      usages: set<nat>)
    returns (result: SsaResult)
    requires CfgOk(c) && |events| == |c.succs| == |phisByBlock| && Distinct(events) && Placed(c, events, places)
    requires PhiTable(places, phis0, phisByBlock) && forall k :: 0 <= k < |phis0| ==> phis0[k].inputs == []
    requires forall u :: u in usages <==> exists a :: 0 <= a < |events| && u in Usages(events[a])
    ensures result.SsaOk? && IsSsa(c, events, places, result.ssa)
  {
    ghost var names := NamesExist(c, events, places);
    var repeated, phis, uses, entered := Rename(c, events, places, phis0, phisByBlock, names);
    match repeated {
      case Some(block) =>
        assert false;
        return SsaErr(UseRename(block));
      case None =>
    }
    forall b: nat ensures b in entered <==> b < |events| {
      if b < |events| {
        AllEntered(c, entered, b);
      }
    }
    FinishUses(c, events, places, names, entered, uses);
    assert uses.Keys == usages;
    if |uses.Keys| != |usages| {
      assert false;
      return SsaErr(UseCoverage);
    }
    var bad, done := FinishPhis(c, events, places, names, entered, phis);
    match bad {
      case Some(block) =>
        assert false;
        return SsaErr(PhiInputs(block));
      case None =>
    }
    SameTable(places, phis, done, phisByBlock);
    return SsaOk(SparseSsa(done, phisByBlock, uses));
  }

  /** Pruned SSA for events already ordered within each block. */
  method Build(c: SsaCfg, events: Events) returns (result: SsaResult, ghost placed: Places)
    requires CfgOk(c)
    ensures result.SsaOk? <==> |events| == |c.succs| && Distinct(events)
    ensures result.SsaOk? ==> IsSsa(c, events, placed, result.ssa)
    ensures result.SsaErr? ==> match result.error
      case ModelShape => |events| != |c.succs|
      case UseIdentity(b) => |events| == |c.succs| && Repeated(events, b, true)
      case DefinitionIdentity(b) => |events| == |c.succs| && Repeated(events, b, false)
      case _ => false
  {
    if |events| != |c.succs| || |c.preds| != |c.succs| || |c.tree.children| != |c.succs| || |c.frontier| != |c.succs| {
      return SsaErr(ModelShape), {};
    }
    var error, scanned := Scan(events);
    if error.Some? {
      return SsaErr(error.value), {};
    }
    var places, phis, phisByBlock := PrepareSsa(c, events, scanned);
    result := RenameAll(c, events, places, phis, phisByBlock, scanned.usages);
    placed := places;
  }

  // ------------------------------------------------------------ reading the record

  ghost predicate RecordedInput(ssa: SparseSsa, v: nat, b: nat, u: nat, x: Version) {
    exists k, i :: 0 <= k < |ssa.phis| && ssa.phis[k].variable == v && ssa.phis[k].block == b
      && 0 <= i < |ssa.phis[k].inputs| && ssa.phis[k].inputs[i] == (u, x)
  }

  /** The recorded input of the phi of `v` at `b` for the edge from `u`. */
  ghost function InputFrom(ssa: SparseSsa, v: nat, b: nat, u: nat): Option<Version> {
    if exists x :: RecordedInput(ssa, v, b, u, x) then
      var x :| RecordedInput(ssa, v, b, u, x);
      Some(x)
    else None
  }

  /** Evaluate a recorded version at the end of a path, using only the record. */
  ghost function EvaluateRecord(ssa: SparseSsa, p: seq<nat>, x: Version): Option<Version>
    decreases |p|
  {
    if !x.PhiVersion? then Some(x)
    else
      var i := LastVisit(p, x.block);
      if i <= 0 then None
      else
        var input := InputFrom(ssa, x.variable, x.block, p[i - 1]);
        if input.None? then None else EvaluateRecord(ssa, p[..i], input.value)
  }

  lemma InputIsOutVersion(c: SsaCfg, events: Events, placed: Places, ssa: SparseSsa, v: nat, b: nat, u: nat)
    requires IsSsa(c, events, placed, ssa) && (b, v) in placed && Edge(c.succs, u, b)
    ensures InputFrom(ssa, v, b, u) == Some(OutVersion(c, events, placed, u, v))
  {
    forall x | RecordedInput(ssa, v, b, u, x) ensures x == OutVersion(c, events, placed, u, v) {
      var k, i :| 0 <= k < |ssa.phis| && ssa.phis[k].variable == v && ssa.phis[k].block == b
        && 0 <= i < |ssa.phis[k].inputs| && ssa.phis[k].inputs[i] == (u, x);
      assert InputsExact(c, events, placed, ssa.phis[k]);
    }
    InputIsRecorded(c, events, placed, ssa, v, b, u);
  }

  lemma InputIsRecorded(c: SsaCfg, events: Events, placed: Places, ssa: SparseSsa, v: nat, b: nat, u: nat)
    requires IsSsa(c, events, placed, ssa) && (b, v) in placed && Edge(c.succs, u, b)
    ensures RecordedInput(ssa, v, b, u, OutVersion(c, events, placed, u, v))
  {
    var k: nat :| k < |ssa.phis| && (ssa.phis[k].block, ssa.phis[k].variable) == (b, v);
    assert InputsExact(c, events, placed, ssa.phis[k]);
    assert u in c.preds[b];
    var i :| 0 <= i < |c.preds[b]| && c.preds[b][i] == u;
    assert ssa.phis[k].inputs[i] == (u, OutVersion(c, events, placed, u, v));
  }

  lemma {:induction false} RecordAgrees(c: SsaCfg, events: Events, placed: Places, ssa: SparseSsa, p: seq<nat>,
      x: Version)
    requires IsSsa(c, events, placed, ssa) && IsPath(c.succs, p)
    requires x.PhiVersion? ==> (x.block, x.variable) in placed
    ensures EvaluateRecord(ssa, p, x) == Evaluate(c, events, placed, p, x)
    decreases |p|
  {
    if x.PhiVersion? {
      var i := LastVisit(p, x.block);
      if i > 0 {
        assert Edge(c.succs, p[i - 1], p[i]);
        PhiOfOut(c, events, placed, p[i - 1], x.variable);
        RecordAgrees(c, events, placed, ssa, p[..i], OutVersion(c, events, placed, p[i - 1], x.variable));
        RecordTurns(c, events, placed, ssa, p, x, i);
      }
    }
  }

  /** At a phi, the record continues with its input for the edge taken. */
  lemma RecordTurns(c: SsaCfg, events: Events, placed: Places, ssa: SparseSsa, p: seq<nat>, x: Version, i: nat)
    requires IsSsa(c, events, placed, ssa) && IsPath(c.succs, p)
    requires x.PhiVersion? && (x.block, x.variable) in placed && i == LastVisit(p, x.block) && i > 0
    ensures EvaluateRecord(ssa, p, x) ==
            EvaluateRecord(ssa, p[..i], OutVersion(c, events, placed, p[i - 1], x.variable))
  {
    assert Edge(c.succs, p[i - 1], p[i]);
    InputIsOutVersion(c, events, placed, ssa, x.variable, x.block, p[i - 1]);
  }

  /** The recorded use evaluates, along this path, to the last definition before it. */
  ghost predicate RecordReadsRight(events: Events, ssa: SparseSsa, p: seq<nat>, i: nat)
    requires p != [] && (forall k :: 0 <= k < |p| ==> p[k] < |events|) && i < |events[p[|p| - 1]]|
    requires events[p[|p| - 1]][i].Use?
  {
    var e := events[p[|p| - 1]][i];
    && e.usage in ssa.uses
    && EvaluateRecord(ssa, p, ssa.uses[e.usage]) ==
         Some(After(events[p[|p| - 1]][..i], e.variable, ReachIn(events, p, e.variable)))
  }

  /** The promise of SSA, for every path from the root and every use on it, holds of the
      built record exactly when no variable that may be read undefined from the root has a
      definition that flows back to the root. A root without predecessors always qualifies. */
  lemma BuiltRecordIsRight(c: SsaCfg, events: Events, placed: Places, ssa: SparseSsa)
    requires IsSsa(c, events, placed, ssa)
    ensures (forall p, i: nat :: UseOnPath(c, events, p, i) ==> RecordReadsRight(events, ssa, p, i)) <==>
            forall v: nat :: !(LiveIn(c, events, v, c.root) && DefinitionReturns(c, events, v, c.root))
  {
    forall p, i: nat | UseOnPath(c, events, p, i)
      ensures RecordReadsRight(events, ssa, p, i) <==> ReadsRight(c, events, placed, p, i)
    {
      var b := p[|p| - 1];
      var v := events[b][i].variable;
      PhiOfOut(c, events, placed, b, v);
      UsePhi(c, events, placed, b, i, v);
      RecordAgrees(c, events, placed, ssa, p, UseVersion(c, events, placed, b, i, v));
    }
    ReadsRightIff(c, events, placed);
  }

  lemma UsePhi(c: SsaCfg, events: Events, placed: Places, b: nat, i: nat, v: nat)
    requires CfgOk(c) && |events| == |c.succs| && b < |events| && i <= |events[b]|
    ensures var x := UseVersion(c, events, placed, b, i, v); x.PhiVersion? ==> (x.block, x.variable) in placed
  {
    PhiOfOut(c, events, placed, b, v);
    if Defines(events[b][..i], v) {
      AfterDef(events[b][..i], v, InVersion(c, events, placed, b, v), EntryVersion(v));
    } else {
      AfterNoDef(events[b][..i], v, InVersion(c, events, placed, b, v));
    }
  }

  lemma RootWithoutPredecessors(c: SsaCfg, events: Events, v: nat)
    requires CfgOk(c) && c.preds[c.root] == []
    ensures !DefinitionReturns(c, events, v, c.root)
  {
    forall p | ReturnPath(c, events, v, p) ensures p[|p| - 1] != c.root {
      var u, y := p[|p| - 2], p[|p| - 1];
      assert Edge(c.succs, u, y) && u in c.preds[y];
    }
  }
}
