/** First half of SSA construction: identities, liveness and phi placement. */
module SsaScan {
  import opened Graph
  import opened CfgErrors
  import opened Frontier
  import opened SsaSpec

  datatype SsaError =
    | ModelShape
    | UseIdentity(block: nat)
    | DefinitionIdentity(block: nat)
    | UseRename(block: nat)
    | UseCoverage
    | PhiInputs(block: nat)

  // ------------------------------------------------------------ identities

  function Usages(es: seq<Event>): set<nat> {
    set e | e in es && e.Use? :: e.usage
  }

  function DefinitionIds(es: seq<Event>): set<(nat, nat)> {
    set e | e in es && e.Def? :: (e.variable, e.definition)
  }

  ghost predicate SameIdentity(e: Event, f: Event) {
    (e.Use? && f.Use? && e.usage == f.usage) || (e.Def? && e == f)
  }

  ghost predicate DistinctIn(es: seq<Event>) {
    forall i, j :: 0 <= i < j < |es| ==> !SameIdentity(es[i], es[j])
  }

  /** No use identity and no definition of one variable occurs twice. */
  ghost predicate Distinct(events: Events) {
    && (forall b :: 0 <= b < |events| ==> DistinctIn(events[b]))
    && forall a, b, e, f :: 0 <= a < b < |events| && e in events[a] && f in events[b] ==> !SameIdentity(e, f)
  }

  /** The repeated identity an error reports: `events[b]` repeats a use (or definition)
      of its own or of an earlier block. */
  ghost predicate Repeated(events: Events, b: nat, use: bool) {
    && b < |events|
    && ((exists i, j ::
           0 <= i < j < |events[b]| && SameIdentity(events[b][i], events[b][j]) && events[b][i].Use? == use)
        || exists a, e, f :: 0 <= a < b && e in events[a] && f in events[b] && SameIdentity(e, f) && e.Use? == use)
  }

  ghost predicate Collected(events: Events, n: nat, usageIds: set<nat>, definitionIds: set<(nat, nat)>) {
    && n <= |events|
    && (forall u :: u in usageIds <==> exists a :: 0 <= a < n && u in Usages(events[a]))
    && forall d :: d in definitionIds <==> exists a :: 0 <= a < n && d in DefinitionIds(events[a])
  }

  lemma SameInIds(e: Event, es: seq<Event>)
    ensures e.Use? ==> (e.usage in Usages(es) <==> exists f :: f in es && SameIdentity(f, e))
    ensures e.Def? ==> ((e.variable, e.definition) in DefinitionIds(es) <==> exists f :: f in es && SameIdentity(f, e))
  {
    if e.Use? && exists f :: f in es && SameIdentity(f, e) {
      var f :| f in es && SameIdentity(f, e);
      assert f.usage in Usages(es);
    }
    if e.Def? && (e.variable, e.definition) in DefinitionIds(es) {
      assert e in es && SameIdentity(e, e);
    }
    if e.Use? && e.usage in Usages(es) {
      var f :| f in es && f.Use? && f.usage == e.usage;
      assert SameIdentity(f, e);
    }
  }

  method ScanBlock(es: seq<Event>, usages: set<nat>, definitions: set<(nat, nat)>)
    returns (fault: Option<Event>, usages': set<nat>, definitions': set<(nat, nat)>, defined: set<nat>,
      upward: set<nat>)
    ensures fault.None? ==> usages' == usages + Usages(es) && definitions' == definitions + DefinitionIds(es)
    ensures fault.None? ==> DistinctIn(es) && usages !! Usages(es) && definitions !! DefinitionIds(es)
    ensures fault.None? ==> forall v: nat :: (v in defined <==> Defines(es, v)) && (v in upward <==> UpwardUse(es, v))
    ensures fault.Some? ==> fault.value in es
    ensures fault.Some? ==>
      || (fault.value.Use? && fault.value.usage in usages)
      || (fault.value.Def? && (fault.value.variable, fault.value.definition) in definitions)
      || exists i, j :: 0 <= i < j < |es| && es[j] == fault.value && SameIdentity(es[i], es[j])
  {
    usages', definitions', defined, upward := usages, definitions, {}, {};
    for i := 0 to |es|
      invariant usages' == usages + Usages(es[..i]) && definitions' == definitions + DefinitionIds(es[..i])
      invariant DistinctIn(es[..i]) && usages !! Usages(es[..i]) && definitions !! DefinitionIds(es[..i])
      invariant forall v: nat :: v in defined <==> Defines(es[..i], v)
      invariant forall v: nat :: v in upward <==> UpwardUse(es[..i], v)
    {
      var e := es[i];
      SameInIds(e, es[..i]);
      PrefixStep(es, i);
      var repeated := match e
        case Use(_, u) => u in usages'
        case Def(v, d) => (v, d) in definitions';
      if repeated {
        if exists f :: f in es[..i] && SameIdentity(f, e) {
          var f :| f in es[..i] && SameIdentity(f, e);
          var k :| 0 <= k < i && es[k] == f;
          assert SameIdentity(es[k], es[i]);
        }
        return Some(e), usages', definitions', defined, upward;
      }
      assert DistinctIn(es[..i + 1]) by {
        forall a, b | 0 <= a < b < i + 1 ensures !SameIdentity(es[a], es[b]) {
          if b < i {
            assert es[..i][a] == es[a] && es[..i][b] == es[b];
          } else {
            assert es[a] in es[..i];
          }
        }
      }
      match e
      case Use(v, u) =>
        usages' := usages' + {u};
        if v !in defined {
          upward := upward + {v};
        }
      case Def(v, d) =>
        definitions' := definitions' + {(v, d)};
        defined := defined + {v};
    }
    assert es[..|es|] == es;
    fault := None;
  }

  /** How one more event changes what a prefix uses, defines and reads upward. */
  lemma PrefixStep(es: seq<Event>, i: nat)
    requires i < |es|
    ensures Usages(es[..i + 1]) == Usages(es[..i]) + if es[i].Use? then {es[i].usage} else {}
    ensures DefinitionIds(es[..i + 1]) ==
            DefinitionIds(es[..i]) + if es[i].Def? then {(es[i].variable, es[i].definition)} else {}
    ensures forall v: nat :: Defines(es[..i + 1], v) <==> Defines(es[..i], v) || (es[i].Def? && es[i].variable == v)
    ensures forall v: nat :: UpwardUse(es[..i + 1], v) <==>
      UpwardUse(es[..i], v) || (es[i].Use? && es[i].variable == v && !Defines(es[..i], v))
  {
    var p, q := es[..i], es[..i + 1];
    assert q == p + [es[i]];
    forall v: nat ensures Defines(q, v) <==> Defines(p, v) || (es[i].Def? && es[i].variable == v) {
      if Defines(p, v) {
        var k :| 0 <= k < |p| && p[k].Def? && p[k].variable == v;
        assert q[k] == p[k];
      }
      assert q[i] == es[i];
    }
    forall v: nat
      ensures UpwardUse(q, v) <==> UpwardUse(p, v) || (es[i].Use? && es[i].variable == v && !Defines(p, v))
    {
      assert q[i] == es[i] && q[..i] == p;
      if UpwardUse(p, v) {
        var k :| 0 <= k < |p| && p[k].Use? && p[k].variable == v && !Defines(p[..k], v);
        assert q[k] == p[k] && q[..k] == p[..k];
      }
      if UpwardUse(q, v) {
        var k :| 0 <= k < |q| && q[k].Use? && q[k].variable == v && !Defines(q[..k], v);
        if k < i {
          assert q[k] == p[k] && q[..k] == p[..k];
        }
      }
    }
  }

  datatype Scanned = Scanned(definitions: map<nat, set<nat>>, upward: set<(nat, nat)>, usages: set<nat>)

  predicate DefinedIn(definitions: map<nat, set<nat>>, v: nat, b: nat) {
    v in definitions && b in definitions[v]
  }

  ghost predicate ScanOk(events: Events, n: nat, s: Scanned) {
    && n <= |events|
    && (forall v: nat, b: nat :: DefinedIn(s.definitions, v, b) <==> b < n && Defines(events[b], v))
    && (forall v: nat, b: nat :: (v, b) in s.upward <==> b < n && UpwardUse(events[b], v))
  }

  function AddDefinitions(m: map<nat, set<nat>>, defined: set<nat>, b: nat): (r: map<nat, set<nat>>)
    ensures forall v: nat, c: nat :: DefinedIn(r, v, c) <==> DefinedIn(m, v, c) || (v in defined && c == b)
  {
    map v | v in m.Keys + defined :: (if v in m then m[v] else {}) + if v in defined then {b} else {}
  }

  lemma RepeatedIn(events: Events, b: nat, e: Event, usages: set<nat>, definitions: set<(nat, nat)>)
    requires Collected(events, b, usages, definitions) && b < |events| && e in events[b]
    requires
      || (e.Use? && e.usage in usages)
      || (e.Def? && (e.variable, e.definition) in definitions)
      || exists i, j :: 0 <= i < j < |events[b]| && events[b][j] == e && SameIdentity(events[b][i], events[b][j])
    ensures Repeated(events, b, e.Use?)
  {
    if i, j :| 0 <= i < j < |events[b]| && events[b][j] == e && SameIdentity(events[b][i], events[b][j]) {
    } else if e.Use? {
      var a :| 0 <= a < b && e.usage in Usages(events[a]);
      SameInIds(e, events[a]);
    } else {
      var a :| 0 <= a < b && (e.variable, e.definition) in DefinitionIds(events[a]);
      SameInIds(e, events[a]);
    }
  }

  lemma RepeatedNotDistinct(events: Events, b: nat, use: bool)
    requires Repeated(events, b, use)
    ensures !Distinct(events)
  {
  }

  lemma DistinctStep(events: Events, b: nat, usages: set<nat>, definitions: set<(nat, nat)>)
    requires Collected(events, b, usages, definitions) && b < |events| && Distinct(events[..b])
    requires DistinctIn(events[b]) && usages !! Usages(events[b]) && definitions !! DefinitionIds(events[b])
    ensures Distinct(events[..b + 1])
    ensures Collected(events, b + 1, usages + Usages(events[b]), definitions + DefinitionIds(events[b]))
  {
    forall a, e, f | 0 <= a < b && e in events[a] && f in events[b] ensures !SameIdentity(e, f) {
      SameInIds(f, events[a]);
      SameInIds(f, events[b]);
      assert SameIdentity(f, f);
    }
    var before, upTo := events[..b], events[..b + 1];
    forall a, c, e, f | 0 <= a < c < |upTo| && e in upTo[a] && f in upTo[c] ensures !SameIdentity(e, f) {
      assert upTo[a] == events[a] && upTo[c] == events[c];
      if c < b {
        assert e in before[a] && f in before[c];
      }
    }
    forall a | 0 <= a < |upTo| ensures DistinctIn(upTo[a]) {
      if a < b {
        assert DistinctIn(before[a]);
      }
    }
  }

  method Scan(events: Events) returns (error: Option<SsaError>, s: Scanned)
    ensures error.None? <==> Distinct(events)
    ensures error.Some? ==> match error.value
      case UseIdentity(b) => Repeated(events, b, true)
      case DefinitionIdentity(b) => Repeated(events, b, false)
      case _ => false
    ensures error.None? ==> ScanOk(events, |events|, s)
    ensures error.None? ==> forall u :: u in s.usages <==> exists a :: 0 <= a < |events| && u in Usages(events[a])
  {
    s := Scanned(map[], {}, {});
    var definitionIds: set<(nat, nat)> := {};
    for b := 0 to |events|
      invariant Collected(events, b, s.usages, definitionIds) && Distinct(events[..b]) && ScanOk(events, b, s)
    {
      var fault, usages, ids, defined, upward := ScanBlock(events[b], s.usages, definitionIds);
      if fault.Some? {
        RepeatedIn(events, b, fault.value, s.usages, definitionIds);
        RepeatedNotDistinct(events, b, fault.value.Use?);
        return Some(if fault.value.Use? then UseIdentity(b) else DefinitionIdentity(b)), s;
      }
      DistinctStep(events, b, s.usages, definitionIds);
      definitionIds := ids;
      s := Scanned(AddDefinitions(s.definitions, defined, b), s.upward + (set v | v in upward :: (v, b)), usages);
    }
    assert events[..|events|] == events;
    error := None;
  }

  // ------------------------------------------------------------ liveness

  type Pairs = set<(nat, nat)>

  /** Closed under predecessors that do not define the variable, except at queued pairs. */
  ghost predicate BackClosed(preds: seq<seq<nat>>, definitions: map<nat, set<nat>>, live: Pairs,
      work: seq<(nat, nat)>) {
    && (forall z: (nat, nat) :: z in live ==> z.1 < |preds|)
    && forall v: nat, b: nat, u: nat ::
         b < |preds| && (v, b) in live && (v, b) !in work && u in preds[b] && !DefinedIn(definitions, v, u) ==>
         (v, u) in live
  }

  /** Propagate one live pair to the predecessors that do not define the variable. */
  method Propagate(preds: seq<nat>, definitions: map<nat, set<nat>>, live0: Pairs, work0: seq<(nat, nat)>,
      variable: nat)
    returns (live: Pairs, work: seq<(nat, nat)>)
    ensures live0 <= live && (live == live0 ==> work == work0)
    ensures forall z: (nat, nat) :: z in work <==> z in work0 || (z in live && z !in live0)
    ensures forall z: (nat, nat) :: z in live && z !in live0 ==>
              z.0 == variable && z.1 in preds && !DefinedIn(definitions, variable, z.1)
    ensures forall u: nat :: u in preds && !DefinedIn(definitions, variable, u) ==> (variable, u) in live
  {
    live, work := live0, work0;
    for i := 0 to |preds|
      invariant live0 <= live && (live == live0 ==> work == work0)
      invariant forall z: (nat, nat) :: z in work <==> z in work0 || (z in live && z !in live0)
      invariant forall z: (nat, nat) :: z in live && z !in live0 ==>
                  z.0 == variable && z.1 in preds && !DefinedIn(definitions, variable, z.1)
      invariant forall u: nat :: u in preds[..i] && !DefinedIn(definitions, variable, u) ==> (variable, u) in live
    {
      var predecessor := preds[i];
      assert predecessor in preds;
      assert preds[..i + 1] == preds[..i] + [predecessor];
      var pair := (variable, predecessor);
      if !DefinedIn(definitions, variable, predecessor) && pair !in live {
        live := live + {pair};
        work := work + [pair];
      }
    }
    assert preds[..|preds|] == preds;
  }

  lemma PropagateStep(preds: seq<seq<nat>>, definitions: map<nat, set<nat>>, live0: Pairs, work0: seq<(nat, nat)>,
      live: Pairs, work: seq<(nat, nat)>)
    requires work0 != [] && BackClosed(preds, definitions, live0, work0) && live0 <= live
    requires work0[0].1 < |preds| && forall u :: u in preds[work0[0].1] ==> u < |preds|
    requires forall z: (nat, nat) :: z in work <==> z in work0[1..] || (z in live && z !in live0)
    requires forall z: (nat, nat) :: z in live && z !in live0 ==> z.1 in preds[work0[0].1]
    requires forall u: nat :: u in preds[work0[0].1] && !DefinedIn(definitions, work0[0].0, u) ==>
               (work0[0].0, u) in live
    ensures BackClosed(preds, definitions, live, work)
  {
    assert work0 == [work0[0]] + work0[1..];
    forall v: nat, b: nat, u: nat | b < |preds| && (v, b) in live && (v, b) !in work && u in preds[b]
         && !DefinedIn(definitions, v, u)
      ensures (v, u) in live
    {
      if (v, b) != work0[0] {
        assert (v, b) in live0 && (v, b) !in work0;
      }
    }
  }

  /** Close the upward-exposed uses backward. `allowed` is any set that is itself closed. */
  method CloseBackward(preds: seq<seq<nat>>, definitions: map<nat, set<nat>>, upward: Pairs, ghost allowed: Pairs)
      returns (live: Pairs)
    requires forall b, u :: 0 <= b < |preds| && u in preds[b] ==> u < |preds|
    requires upward <= allowed && BackClosed(preds, definitions, allowed, [])
    ensures upward <= live <= allowed && BackClosed(preds, definitions, live, [])
  {
    live := upward;
    var work := PairsOf(upward);
    while work != []
      invariant upward <= live <= allowed && BackClosed(preds, definitions, live, work)
      invariant forall z: (nat, nat) :: z in work ==> z in live
      decreases allowed - live, |work|
    {
      ghost var live0, work0 := live, work;
      var (variable, block) := work[0];
      assert work[0] in work && work[0] in allowed;
      assert forall z: (nat, nat) :: z in work[1..] ==> z in work;
      live, work := Propagate(preds[block], definitions, live, work[1..], variable);
      PropagateStep(preds, definitions, live0, work0, live, work);
      assert live <= allowed by {
        forall z: (nat, nat) | z in live && z !in live0 ensures z in allowed {
          assert z == (variable, z.1) && (variable, block) !in [];
        }
      }
      if live != live0 {
        SetGrows(allowed, live0, live);
      }
    }
  }

  lemma NewPair(before: Pairs, after: Pairs) returns (z: (nat, nat))
    requires before <= after && before != after
    ensures z in after && z !in before
  {
    z :| z in after && z !in before;
  }

  lemma SetGrows(allowed: Pairs, before: Pairs, after: Pairs)
    requires before < after <= allowed
    ensures allowed - after < allowed - before
  {
    var z :| z in after && z !in before;
    assert z in allowed - before && z !in allowed - after;
  }

  /** Every pair of a variable used somewhere and a block where it is live. */
  ghost function LivePairs(c: SsaCfg, events: Events, upward: Pairs): Pairs {
    set z, b: nat | z in upward && b < |c.succs| && LiveIn(c, events, z.0, b) :: (z.0, b)
  }

  lemma InLivePairs(c: SsaCfg, events: Events, s: Scanned, v: nat, b: nat)
    requires |events| == |c.succs| && ScanOk(events, |events|, s) && b < |events| && LiveIn(c, events, v, b)
    ensures (v, b) in LivePairs(c, events, s.upward)
  {
    var p :| LivePath(c, events, v, p) && p[0] == b;
    assert (v, p[|p| - 1]) in s.upward;
  }

  lemma {:induction false} LiveComplete(c: SsaCfg, events: Events, s: Scanned, live: Pairs, v: nat, p: seq<nat>)
    requires PredecessorTable(c.succs, c.preds) && |events| == |c.succs| && ScanOk(events, |events|, s)
    requires BackClosed(c.preds, s.definitions, live, []) && s.upward <= live && LivePath(c, events, v, p)
    ensures (v, p[0]) in live
    decreases |p|
  {
    if |p| == 1 {
      assert (v, p[0]) in s.upward;
    } else {
      assert Edge(c.succs, p[0], p[1]);
      LiveComplete(c, events, s, live, v, p[1..]);
      assert (v, p[1]) in live && p[0] in c.preds[p[1]];
    }
  }

  lemma LivePairsClosed(c: SsaCfg, events: Events, s: Scanned)
    requires PredecessorTable(c.succs, c.preds) && |events| == |c.succs| && ScanOk(events, |events|, s)
    ensures s.upward <= LivePairs(c, events, s.upward)
    ensures BackClosed(c.preds, s.definitions, LivePairs(c, events, s.upward), [])
  {
    forall z: (nat, nat) | z in s.upward ensures z in LivePairs(c, events, s.upward) {
      assert (z.0, z.1) in s.upward;
      assert LivePath(c, events, z.0, [z.1]);
    }
    var all := LivePairs(c, events, s.upward);
    forall v: nat, b: nat, u: nat | b < |c.preds| && (v, b) in all && u in c.preds[b] && !DefinedIn(s.definitions, v, u)
      ensures (v, u) in all
    {
      LiveAtPredecessor(c, events, s, v, b, u);
    }
  }

  lemma LiveAtPredecessor(c: SsaCfg, events: Events, s: Scanned, v: nat, b: nat, u: nat)
    requires PredecessorTable(c.succs, c.preds) && |events| == |c.succs| && ScanOk(events, |events|, s)
    requires b < |c.preds| && (v, b) in LivePairs(c, events, s.upward) && u in c.preds[b]
    requires !DefinedIn(s.definitions, v, u)
    ensures (v, u) in LivePairs(c, events, s.upward)
  {
    assert Edge(c.succs, u, b);
    assert ((v, b)).1 == b && LiveIn(c, events, v, b);
    LiveBack(c, events, v, u, b);
    InLivePairs(c, events, s, v, u);
  }

  ghost predicate LiveTable(c: SsaCfg, events: Events, live: Pairs) {
    |events| == |c.succs| && forall v: nat, b: nat :: (v, b) in live <==> b < |events| && LiveIn(c, events, v, b)
  }

  method ComputeLive(c: SsaCfg, events: Events, s: Scanned) returns (live: Pairs)
    requires PredecessorTable(c.succs, c.preds) && |events| == |c.succs| && ScanOk(events, |events|, s)
    ensures LiveTable(c, events, live)
  {
    LivePairsClosed(c, events, s);
    live := CloseBackward(c.preds, s.definitions, s.upward, LivePairs(c, events, s.upward));
    forall v: nat, b: nat | b < |events| && LiveIn(c, events, v, b) ensures (v, b) in live {
      var p :| LivePath(c, events, v, p) && p[0] == b;
      LiveComplete(c, events, s, live, v, p);
    }
  }

  method PairsOf(s: Pairs) returns (r: seq<(nat, nat)>)
    ensures forall z: (nat, nat) :: z in r <==> z in s
  {
    r := [];
    var rest := s;
    while rest != {}
      invariant forall z: (nat, nat) :: z in s <==> z in rest || z in r
      decreases rest
    {
      var z :| z in rest;
      r := r + [z];
      rest := rest - {z};
    }
  }

  method BlocksOf(s: set<nat>) returns (r: seq<nat>)
    ensures forall b: nat :: b in r <==> b in s
  {
    r := [];
    var rest := s;
    while rest != {}
      invariant forall b: nat :: b in s <==> b in rest || b in r
      decreases rest
    {
      var b :| b in rest;
      r := r + [b];
      rest := rest - {b};
    }
  }

  // ------------------------------------------------------------ placement

  ghost predicate Source(original: set<nat>, placed: Pairs, variable: nat, x: nat) {
    x in original || (x, variable) in placed
  }

  /** Placement is closed at every source of `variable` that is not queued. */
  ghost predicate ClosedAt(frontier: seq<set<nat>>, live: Pairs, original: set<nat>, placed: Pairs, variable: nat,
      work: seq<nat>) {
    forall x: nat, y: nat ::
      x < |frontier| && Source(original, placed, variable, x) && x !in work && y in frontier[x]
        && (variable, y) in live ==>
      (y, variable) in placed
  }

  ghost predicate Queue(frontier: seq<set<nat>>, original: set<nat>, placed: Pairs, variable: nat, work: seq<nat>,
      queued: set<nat>) {
    && (forall x: nat :: x in queued <==> Source(original, placed, variable, x))
    && (forall x :: x in work ==> x in queued) && forall x :: x in queued ==> x < |frontier|
  }

  /** Visit the frontier of one block that defines or merges `variable`. */
  method PlaceAt(frontier: seq<nat>, live: Pairs, original: set<nat>, variable: nat, placed0: Pairs, work0: seq<nat>,
      queued0: set<nat>)
    returns (placed: Pairs, work: seq<nat>, queued: set<nat>)
    requires forall x: nat :: x in queued0 <==> Source(original, placed0, variable, x)
    ensures forall x: nat :: x in queued <==> Source(original, placed, variable, x)
    ensures placed0 <= placed && (placed == placed0 ==> work == work0)
    ensures forall z: (nat, nat) :: z in placed && z !in placed0 ==>
              z.1 == variable && (variable, z.0) in live && z.0 in frontier
    ensures forall x: nat :: x in work <==> x in work0 || (x in queued && x !in queued0)
    ensures queued0 <= queued && forall y: nat :: y in frontier && (variable, y) in live ==> (y, variable) in placed
  {
    placed, work, queued := placed0, work0, queued0;
    for i := 0 to |frontier|
      invariant placed0 <= placed && queued0 <= queued && (placed == placed0 ==> work == work0)
      invariant forall x: nat :: x in queued <==> Source(original, placed, variable, x)
      invariant forall z: (nat, nat) :: z in placed && z !in placed0 ==>
                  z.1 == variable && (variable, z.0) in live && z.0 in frontier
      invariant forall x: nat :: x in work <==> x in work0 || (x in queued && x !in queued0)
      invariant forall y: nat :: y in frontier[..i] && (variable, y) in live ==> (y, variable) in placed
    {
      var y := frontier[i];
      assert y in frontier;
      assert frontier[..i + 1] == frontier[..i] + [y];
      if (variable, y) in live && (y, variable) !in placed {
        placed := placed + {(y, variable)};
        if y !in queued {
          queued := queued + {y};
          work := work + [y];
        }
      }
    }
    assert frontier[..|frontier|] == frontier;
  }

  lemma PlaceStep(frontier: seq<set<nat>>, live: Pairs, original: set<nat>, variable: nat, placed0: Pairs,
      work0: seq<nat>, queued0: set<nat>,
                  placed: Pairs, work: seq<nat>, queued: set<nat>)
    requires work0 != [] && work0[0] < |frontier| && placed0 <= placed && queued0 <= queued
    requires ClosedAt(frontier, live, original, placed0, variable, work0)
    requires forall x: nat :: x in queued0 <==> Source(original, placed0, variable, x)
    requires forall x: nat :: x in queued <==> Source(original, placed, variable, x)
    requires forall x: nat :: x in work <==> x in work0[1..] || (x in queued && x !in queued0)
    requires forall y: nat :: y in frontier[work0[0]] && (variable, y) in live ==> (y, variable) in placed
    ensures ClosedAt(frontier, live, original, placed, variable, work)
  {
    assert work0 == [work0[0]] + work0[1..];
    forall x: nat, y: nat | x < |frontier| && Source(original, placed, variable, x) && x !in work
         && y in frontier[x] && (variable, y) in live
      ensures (y, variable) in placed
    {
      if x != work0[0] {
        assert x in queued0 && x !in work0;
      }
    }
  }

  /** Place the phis of one variable. `allowed` is any set closed under forced placement. */
  method PlaceVariable(frontier: seq<set<nat>>, live: Pairs, variable: nat, original: set<nat>, placed0: Pairs,
      ghost allowed: Pairs)
    returns (placed: Pairs)
    requires (forall x :: x in original ==> x < |frontier|) && forall z: (nat, nat) :: z in placed0 ==> z.1 != variable
    requires (forall z: (nat, nat) :: z in allowed ==> z.0 < |frontier|)
    requires ClosedAt(frontier, live, original, allowed, variable, [])
    ensures placed0 <= placed && ClosedAt(frontier, live, original, placed, variable, [])
    ensures forall z: (nat, nat) :: z in placed && z !in placed0 ==> z.1 == variable && z in allowed
  {
    placed := placed0;
    var queued := original;
    var work := BlocksOf(original);
    while work != []
      invariant placed0 <= placed && ClosedAt(frontier, live, original, placed, variable, work)
      invariant Queue(frontier, original, placed, variable, work, queued)
      invariant forall z: (nat, nat) :: z in placed && z !in placed0 ==> z.1 == variable && z in allowed
      decreases allowed - (placed - placed0), |work|
    {
      ghost var before, work0, queued0 := placed, work, queued;
      var block := work[0];
      assert block in work && Source(original, allowed, variable, block) && block !in [];
      assert forall x :: x in work[1..] ==> x in work;
      var members := BlocksOf(frontier[block]);
      placed, work, queued := PlaceAt(members, live, original, variable, placed, work[1..], queued);
      PlaceStep(frontier, live, original, variable, before, work0, queued0, placed, work, queued);
      forall z: (nat, nat) | z in placed && z !in before ensures z in allowed {
        assert z == (z.0, variable);
      }
      if placed != before {
        var z := NewPair(before, placed);
        assert z in allowed - (before - placed0) && z !in allowed - (placed - placed0);
      }
    }
  }

  /** The forced phis among the live pairs. */
  ghost function NeededPairs(c: SsaCfg, events: Events, live: Pairs): Pairs {
    set z | z in live && NeededSometime(c, events, z.0, z.1) :: (z.1, z.0)
  }

  ghost predicate NeededSometime(c: SsaCfg, events: Events, v: nat, y: nat) {
    exists k: nat :: Needed(c, events, v, y, k)
  }

  lemma NeededClosed(c: SsaCfg, events: Events, live: Pairs, variable: nat, original: set<nat>)
    requires FrontierTable(c.succs, c.root, c.frontier) && LiveTable(c, events, live)
    requires forall b: nat :: b in original <==> b < |events| && Defines(events[b], variable)
    ensures ClosedAt(c.frontier, live, original, NeededPairs(c, events, live), variable, [])
  {
    forall x: nat, y: nat | x < |c.frontier| && Source(original, NeededPairs(c, events, live), variable, x)
                            && y in c.frontier[x] && (variable, y) in live
      ensures (y, variable) in NeededPairs(c, events, live)
    {
      if x in original {
        assert Needed(c, events, variable, y, 1);
      } else {
        assert NeededSometime(c, events, variable, x);
        var k: nat :| Needed(c, events, variable, x, k);
        assert Needed(c, events, variable, y, k + 1);
      }
      assert NeededSometime(c, events, variable, y);
      assert ((variable, y)).1 == y;
    }
  }

  method PlaceAll(frontier: seq<set<nat>>, definitions: map<nat, set<nat>>, live: Pairs, ghost allowed: Pairs)
      returns (placed: Pairs)
    requires forall v: nat, x: nat :: DefinedIn(definitions, v, x) ==> x < |frontier|
    requires forall z: (nat, nat) :: z in allowed ==> z.0 < |frontier|
    requires forall v :: v in definitions ==> ClosedAt(frontier, live, definitions[v], allowed, v, [])
    ensures placed <= allowed && forall z: (nat, nat) :: z in placed ==> z.1 in definitions
    ensures forall v :: v in definitions ==> ClosedAt(frontier, live, definitions[v], placed, v, [])
  {
    placed := {};
    var rest := definitions.Keys;
    while rest != {}
      invariant rest <= definitions.Keys && placed <= allowed
      invariant forall z: (nat, nat) :: z in placed ==> z.1 in definitions && z.1 !in rest
      invariant forall v :: v in definitions && v !in rest ==> ClosedAt(frontier, live, definitions[v], placed, v, [])
      decreases rest
    {
      var variable :| variable in rest;
      ghost var before := placed;
      forall x | x in definitions[variable] ensures x < |frontier| {
        assert DefinedIn(definitions, variable, x);
      }
      placed := PlaceVariable(frontier, live, variable, definitions[variable], placed, allowed);
      forall v | v in definitions && v !in rest ensures ClosedAt(frontier, live, definitions[v], placed, v, []) {
        OtherVariable(frontier, live, definitions[v], before, placed, v);
      }
      rest := rest - {variable};
    }
  }

  lemma OtherVariable(frontier: seq<set<nat>>, live: Pairs, original: set<nat>, before: Pairs, placed: Pairs, v: nat)
    requires ClosedAt(frontier, live, original, before, v, []) && before <= placed
    requires forall z: (nat, nat) :: z in placed && z !in before ==> z.1 != v
    ensures ClosedAt(frontier, live, original, placed, v, [])
  {
    forall x: nat, y: nat | x < |frontier| && Source(original, placed, v, x) && y in frontier[x] && (v, y) in live
      ensures (y, v) in placed
    {
      assert ((x, v)).1 == v;
      assert Source(original, before, v, x);
    }
  }

  /** Iterated dominance frontiers of every variable, restricted to live blocks. */
  method PlacePhis(c: SsaCfg, events: Events, s: Scanned, live: Pairs) returns (placed: Places)
    requires FrontierTable(c.succs, c.root, c.frontier) && LiveTable(c, events, live) && ScanOk(events, |events|, s)
    ensures Placed(c, events, placed)
    ensures forall z: (nat, nat) :: z in placed ==> z.0 < |events|
  {
    forall v | v in s.definitions
      ensures ClosedAt(c.frontier, live, s.definitions[v], NeededPairs(c, events, live), v, [])
    {
      forall b: nat ensures b in s.definitions[v] <==> b < |events| && Defines(events[b], v) {
        assert DefinedIn(s.definitions, v, b) <==> b in s.definitions[v];
      }
      NeededClosed(c, events, live, v, s.definitions[v]);
    }
    forall z: (nat, nat) | z in NeededPairs(c, events, live) ensures z.0 < |events| {
      assert ((z.1, z.0)).1 == z.0;
    }
    placed := PlaceAll(c.frontier, s.definitions, live, NeededPairs(c, events, live));
    PlacementDone(c, events, s, live, placed);
  }

  lemma PlacementDone(c: SsaCfg, events: Events, s: Scanned, live: Pairs, placed: Pairs)
    requires FrontierTable(c.succs, c.root, c.frontier) && LiveTable(c, events, live) && ScanOk(events, |events|, s)
    requires placed <= NeededPairs(c, events, live) && forall z: (nat, nat) :: z in placed ==> z.1 in s.definitions
    requires forall v :: v in s.definitions ==> ClosedAt(c.frontier, live, s.definitions[v], placed, v, [])
    ensures Placed(c, events, placed)
  {
    forall x: nat, y: nat, v: nat |
      DefOrPhi(events, placed, x, v) && InFrontier(c.succs, c.root, x, y) && LiveIn(c, events, v, y)
      ensures (y, v) in placed
    {
      FrontierMembersReachable(c.succs, c.root, x, y);
      assert (v, y) in live && y in c.frontier[x];
      if (x, v) in placed {
        assert ((x, v)).1 in s.definitions;
      }
      assert Source(s.definitions[v], placed, v, x);
    }
    forall z: (nat, nat) | z in placed ensures exists k: nat :: Needed(c, events, z.1, z.0, k) {
      assert NeededSometime(c, events, z.1, z.0);
    }
  }
}
