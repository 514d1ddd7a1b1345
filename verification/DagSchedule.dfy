/** Bottom-up scheduling: always the ready node that changes pressure least. */
module DagSchedule {
  import opened CfgErrors
  import opened Finite
  import opened DagSpec
  import opened DagQueue
  import opened DagCache

  datatype Outcome = Scheduled(order: seq<nat>) | Refused(fault: DagError)

  // ------------------------------------------------------------ the state between two selections

  /** The users of `d` that have not been scheduled. */
  ghost function Open(g: Dag, done: set<nat>, d: nat): set<nat> {
    set u | u in Below(|g.deps|) && u !in done && d in g.deps[u]
  }

  ghost predicate PresentIs(g: Dag, done: set<nat>, present: seq<bool>) {
    |present| == |g.deps| && forall v: nat :: v < |present| ==> (present[v] <==> Ready(g, done, v))
  }

  ghost predicate CountsAre(g: Dag, done: set<nat>, unscheduled: seq<nat>) {
    |unscheduled| == |g.deps| && forall d: nat :: d < |unscheduled| ==> unscheduled[d] == |Open(g, done, d)|
  }

  /** All arrays describe the scheduled set, and every cached priority is current. */
  ghost predicate Settled(p: Plan, done: set<nat>, s: Cache, unscheduled: seq<nat>) {
    && Cached(p, s) && UsersFirst(p.g, done)
    && LiveIs(p.g, done, s.live) && TokensAre(p.g, done, s.liveTokens, s.remaining)
    && PresentIs(p.g, done, s.present) && CountsAre(p.g, done, unscheduled)
  }

  lemma OpenNext(g: Dag, done: set<nat>, v: nat, d: nat)
    requires v < |g.deps| && v !in done
    ensures d in g.deps[v] ==> v in Open(g, done, d) && Open(g, done + {v}, d) == Open(g, done, d) - {v}
    ensures d in g.deps[v] ==> |Open(g, done, d)| > 0 && |Open(g, done + {v}, d)| == |Open(g, done, d)| - 1
    ensures d !in g.deps[v] ==> Open(g, done + {v}, d) == Open(g, done, d)
  {
  }

  lemma ReadyIs(g: Dag, done: set<nat>, d: nat)
    requires d < |g.deps| && d !in done
    ensures Ready(g, done, d) <==> |Open(g, done, d)| == 0
  {
    CardZero(Open(g, done, d));
    if Ready(g, done, d) {
      forall u | u in Below(|g.deps|) && u !in done ensures d !in g.deps[u] {
        assert Needs(g, u, d) ==> u in done;
      }
    }
    if Open(g, done, d) == {} {
      forall u: nat | Needs(g, u, d) ensures u in done {
        assert u in Below(|g.deps|);
        assert u !in Open(g, done, d);
      }
    }
  }

  // ------------------------------------------------------------ values

  method UpdateValues(p: Plan, s: Cache, ghost done: set<nat>, v: nat) returns (r: Cache)
    requires PlanOk(p) && Cached(p, s) && LiveIs(p.g, done, s.live)
    requires UsersFirst(p.g, done) && Ready(p.g, done, v)
    ensures Cached(p, r) && r == s.(live := r.live, deltas := r.deltas, ready := r.ready)
    ensures LiveIs(p.g, done + {v}, r.live)
  {
    r := s;
    if r.live[v] {
      r := SetLive(p, r, v, false);
    }
    var row := p.g.vals[v];
    assert RowOk(row, |p.g.deps|);
    for i := 0 to |row|
      invariant Cached(p, r) && r == s.(live := r.live, deltas := r.deltas, ready := r.ready)
      invariant forall d: nat :: d < |r.live| ==> (r.live[d] <==> (s.live[d] && d != v) || d in row[..i])
    {
      assert row[..i + 1] == row[..i] + [row[i]];
      if !r.live[row[i]] {
        r := SetLive(p, r, row[i], true);
      }
    }
    assert row[..|row|] == row;
    forall d: nat | d < |r.live| ensures r.live[d] <==> ValueLive(p.g, done + {v}, d) {
      ValueLiveNext(p.g, done, v, d);
    }
  }

  // ------------------------------------------------------------ tokens

  ghost predicate TokenAt(g: Dag, done: set<nat>, liveTokens: seq<bool>, remaining: seq<nat>, t: nat)
    requires t < |liveTokens| == |remaining|
  {
    (liveTokens[t] <==> TokenLive(g, done, t)) && remaining[t] == |Waiting(g, done, t)|
  }

  /** While the tokens of `v` are being used, those in `used` already count it as done. */
  ghost predicate TokensMid(g: Dag, done: set<nat>, v: nat, used: seq<nat>, liveTokens: seq<bool>,
      remaining: seq<nat>) {
    && |liveTokens| == |remaining| == |g.weights|
    && forall t: nat {:trigger TokenAt(g, Known(done, v, t in used), liveTokens, remaining, t)} :: t < |liveTokens| ==>
         TokenAt(g, Known(done, v, t in used), liveTokens, remaining, t)
  }

  lemma UseOne(g: Dag, done: set<nat>, v: nat, used: seq<nat>, liveTokens: seq<bool>, remaining: seq<nat>, t: nat)
    requires DagOk(g) && v < |g.deps| && v !in done && t in g.tokens[v] && t !in used && t < |g.weights|
    requires TokensMid(g, done, v, used, liveTokens, remaining)
    ensures remaining[t] > 0 && remaining[t] == |Waiting(g, done, t)| && v in Waiting(g, done, t)
    ensures TokensMid(g, done, v, used + [t], liveTokens[t := remaining[t] > 1], remaining[t := remaining[t] - 1])
  {
    assert TokenAt(g, Known(done, v, t in used), liveTokens, remaining, t);
    WaitingNext(g, done, v, t);
    TokenLiveNext(g, done, v, t);
    var live', remaining', more := liveTokens[t := remaining[t] > 1], remaining[t := remaining[t] - 1], used + [t];
    forall x: nat | x < |live'| ensures TokenAt(g, Known(done, v, x in more), live', remaining', x) {
      if x != t {
        assert x in more <==> x in used;
        assert TokenAt(g, Known(done, v, x in used), liveTokens, remaining, x);
      }
    }
  }

  lemma AllUsed(g: Dag, done: set<nat>, v: nat, liveTokens: seq<bool>, remaining: seq<nat>)
    requires DagOk(g) && v < |g.deps| && v !in done && TokensMid(g, done, v, g.tokens[v], liveTokens, remaining)
    ensures TokensAre(g, done + {v}, liveTokens, remaining)
  {
    forall t: nat | t < |liveTokens|
      ensures (liveTokens[t] <==> TokenLive(g, done + {v}, t)) && remaining[t] == |Waiting(g, done + {v}, t)|
    {
      assert TokenAt(g, Known(done, v, t in g.tokens[v]), liveTokens, remaining, t);
      TokenLiveNext(g, done, v, t);
      WaitingNext(g, done, v, t);
    }
  }

  lemma OnlyUser(g: Dag, done: set<nat>, v: nat, x: nat, t: nat)
    requires v in Waiting(g, done, t) && |Waiting(g, done, t)| == 1 && x != v && x !in done && x < |g.tokens|
    ensures t !in g.tokens[x]
  {
    if t in g.tokens[x] {
      SubsetCard({v, x}, Waiting(g, done, t));
    }
  }

  method UseTokens(p: Plan, s: Cache, ghost done: set<nat>, v: nat) returns (r: Cache)
    requires PlanOk(p) && Cached(p, s) && TokensAre(p.g, done, s.liveTokens, s.remaining) && v < |p.g.deps|
    requires v !in done
    requires forall x: nat :: x < |s.present| && s.present[x] ==> x !in done && x != v
    ensures Cached(p, r)
    ensures r == s.(liveTokens := r.liveTokens, remaining := r.remaining, deltas := r.deltas, ready := r.ready)
    ensures TokensAre(p.g, done + {v}, r.liveTokens, r.remaining)
  {
    r := s;
    var row := p.g.tokens[v];
    assert RowOk(row, |p.g.weights|);
    forall t: nat | t < |r.liveTokens|
      ensures TokenAt(p.g, Known(done, v, t in row[..0]), r.liveTokens, r.remaining, t)
    {
    }
    for i := 0 to |row|
      invariant Cached(p, r)
      invariant r == s.(liveTokens := r.liveTokens, remaining := r.remaining, deltas := r.deltas, ready := r.ready)
      invariant TokensMid(p.g, done, v, row[..i], r.liveTokens, r.remaining)
    {
      var t := row[i];
      assert row[..i + 1] == row[..i] + [t] && t !in row[..i];
      UseOne(p.g, done, v, row[..i], r.liveTokens, r.remaining, t);
      if r.remaining[t] == 1 {
        forall x: nat | x < |r.present| && r.present[x] ensures t !in p.g.tokens[x] {
          OnlyUser(p.g, done, v, x, t);
        }
      }
      r := UseToken(p, r, t);
    }
    assert row[..|row|] == row;
    AllUsed(p.g, done, v, r.liveTokens, r.remaining);
  }

  // ------------------------------------------------------------ newly ready nodes

  ghost predicate ReleasedAt(g: Dag, done: set<nat>, v: nat, released: bool, unscheduled: seq<nat>,
      present: seq<bool>, d: nat)
    requires d < |unscheduled| == |present|
  {
    && unscheduled[d] == |Open(g, Known(done, v, released), d)|
    && (present[d] <==> d != v && Ready(g, Known(done, v, released), d))
  }

  ghost predicate Released(g: Dag, done: set<nat>, v: nat, released: seq<nat>, unscheduled: seq<nat>,
      present: seq<bool>) {
    && |unscheduled| == |present| == |g.deps|
    && forall d: nat {:trigger ReleasedAt(g, done, v, d in released, unscheduled, present, d)} :: d < |unscheduled| ==>
         ReleasedAt(g, done, v, d in released, unscheduled, present, d)
  }

  lemma ReleasedHere(g: Dag, done: set<nat>, v: nat, released: seq<nat>, unscheduled: seq<nat>, present: seq<bool>,
      d: nat)
    requires Released(g, done, v, released, unscheduled, present) && d < |unscheduled|
    ensures ReleasedAt(g, done, v, d in released, unscheduled, present, d)
  {
  }

  lemma ReleaseOne(g: Dag, done: set<nat>, v: nat, released: seq<nat>, unscheduled: seq<nat>, present: seq<bool>,
      d: nat)
    requires DagOk(g) && UsersFirst(g, done) && Ready(g, done, v) && Needs(g, v, d) && d !in released && d < |g.deps|
    requires d != v
    requires Released(g, done, v, released, unscheduled, present)
    ensures unscheduled[d] > 0 && !present[d]
    ensures Released(g, done, v, released + [d], unscheduled[d := unscheduled[d] - 1],
              if unscheduled[d] == 1 then present[d := true] else present)
  {
    ReleasedHere(g, done, v, released, unscheduled, present, d);
    OpenNext(g, done, v, d);
    assert d !in done;
    ReadyIs(g, done, d);
    ReadyIs(g, done + {v}, d);
    var more, unscheduled' := released + [d], unscheduled[d := unscheduled[d] - 1];
    var present' := if unscheduled[d] == 1 then present[d := true] else present;
    forall x: nat | x < |unscheduled| ensures ReleasedAt(g, done, v, x in more, unscheduled', present', x) {
      if x != d {
        assert x in more <==> x in released;
        assert ReleasedAt(g, done, v, x in released, unscheduled, present, x);
      }
    }
  }

  lemma AllReleased(g: Dag, done: set<nat>, v: nat, unscheduled: seq<nat>, present: seq<bool>)
    requires DagOk(g) && UsersFirst(g, done) && Ready(g, done, v) && v !in g.deps[v]
    requires Released(g, done, v, g.deps[v], unscheduled, present)
    ensures PresentIs(g, done + {v}, present) && CountsAre(g, done + {v}, unscheduled)
  {
    forall d: nat | d < |unscheduled|
      ensures unscheduled[d] == |Open(g, done + {v}, d)| && (present[d] <==> Ready(g, done + {v}, d))
    {
      assert ReleasedAt(g, done, v, d in g.deps[v], unscheduled, present, d);
      OpenNext(g, done, v, d);
      if d != v && d !in done {
        ReadyIs(g, done, d);
        ReadyIs(g, done + {v}, d);
      }
    }
  }

  lemma NoneReleased(g: Dag, done: set<nat>, v: nat, unscheduled: seq<nat>, present: seq<bool>)
    requires CountsAre(g, done, unscheduled) && |present| == |g.deps|
    requires forall x: nat :: x < |present| ==> (present[x] <==> x != v && Ready(g, done, x))
    ensures Released(g, done, v, [], unscheduled, present)
  {
    forall d: nat | d < |unscheduled| ensures ReleasedAt(g, done, v, d in [], unscheduled, present, d) {
    }
  }

  method Release(p: Plan, s: Cache, ghost done: set<nat>, v: nat, unscheduled0: seq<nat>)
      returns (r: Cache, unscheduled: seq<nat>)
    requires PlanOk(p) && Cached(p, s) && UsersFirst(p.g, done) && Ready(p.g, done, v) && v !in p.g.deps[v]
    requires CountsAre(p.g, done, unscheduled0)
    requires forall x: nat :: x < |s.present| ==> (s.present[x] <==> x != v && Ready(p.g, done, x))
    ensures Cached(p, r) && r.live == s.live && r.liveTokens == s.liveTokens && r.remaining == s.remaining
    ensures PresentIs(p.g, done + {v}, r.present) && CountsAre(p.g, done + {v}, unscheduled)
  {
    r, unscheduled := s, unscheduled0;
    var row := p.g.deps[v];
    assert RowOk(row, |p.g.deps|);
    NoneReleased(p.g, done, v, unscheduled, r.present);
    assert row[..0] == [];
    for i := 0 to |row|
      invariant Cached(p, r) && r.live == s.live && r.liveTokens == s.liveTokens && r.remaining == s.remaining
      invariant Released(p.g, done, v, row[..i], unscheduled, r.present)
    {
      var d := row[i];
      assert row[..i + 1] == row[..i] + [d] && d !in row[..i] && d in row;
      ReleaseOne(p.g, done, v, row[..i], unscheduled, r.present, d);
      unscheduled := unscheduled[d := unscheduled[d] - 1];
      if unscheduled[d] == 0 {
        r := InsertReady(p, r, d);
      }
    }
    assert row[..|row|] == row;
    AllReleased(p.g, done, v, unscheduled, r.present);
  }

  // ------------------------------------------------------------ one selection

  lemma DoneGrows(g: Dag, done: set<nat>, v: nat)
    requires UsersFirst(g, done) && Ready(g, done, v)
    ensures UsersFirst(g, done + {v})
  {
  }

  /** One selection brings every array and every cached priority to the next scheduled set. */
  method Select(p: Plan, s: Cache, ghost done: set<nat>, v: nat, unscheduled0: seq<nat>)
      returns (r: Cache, unscheduled: seq<nat>)
    requires PlanOk(p) && Settled(p, done, s, unscheduled0) && v < |p.g.deps| && s.present[v] && v !in p.g.deps[v]
    ensures Settled(p, done + {v}, r, unscheduled)
  {
    DoneGrows(p.g, done, v);
    r := RemoveReady(p, s, v);
    r := UpdateValues(p, r, done, v);
    r := UseTokens(p, r, done, v);
    r, unscheduled := Release(p, r, done, v, unscheduled0);
  }

  // ------------------------------------------------------------ the first nodes

  method FirstReady(p: Plan, s: Cache, unscheduled: seq<nat>) returns (r: Cache)
    requires PlanOk(p) && Cached(p, s) && |unscheduled| == |p.g.deps|
    requires forall v: nat :: v < |s.present| ==> !s.present[v]
    ensures Cached(p, r) && r.live == s.live && r.liveTokens == s.liveTokens && r.remaining == s.remaining
    ensures forall v: nat :: v < |r.present| ==> (r.present[v] <==> unscheduled[v] == 0)
  {
    r := s;
    for v := 0 to |unscheduled|
      invariant Cached(p, r) && r.live == s.live && r.liveTokens == s.liveTokens && r.remaining == s.remaining
      invariant forall x: nat :: x < |r.present| ==> (r.present[x] <==> x < v && unscheduled[x] == 0)
    {
      if unscheduled[v] == 0 {
        r := InsertReady(p, r, v);
      }
    }
  }

  lemma StartCounts(g: Dag, users: Rows, unscheduled: seq<nat>)
    requires DagOk(g) && |users| == |unscheduled| == |g.deps| && Inverted(g.deps, |g.deps|, users)
    requires forall d :: 0 <= d < |users| ==> unscheduled[d] == |users[d]|
    ensures CountsAre(g, {}, unscheduled)
  {
    forall d: nat | d < |users| ensures |users[d]| == |Open(g, {}, d)| {
      UsersAre(g.deps, |g.deps|, users, d);
      RowCard(users[d], |g.deps|, Open(g, {}, d));
    }
  }

  lemma StartTokens(g: Dag, users: Rows, live: seq<bool>, remaining: seq<nat>)
    requires DagOk(g) && |users| == |remaining| == |live| == |g.weights| && Inverted(g.tokens, |g.deps|, users)
    requires forall t :: 0 <= t < |users| ==> remaining[t] == |users[t]| && !live[t]
    ensures TokensAre(g, {}, live, remaining)
  {
    forall t: nat | t < |users| ensures |users[t]| == |Waiting(g, {}, t)| {
      UsersAre(g.tokens, |g.deps|, users, t);
      RowCard(users[t], |g.deps|, Waiting(g, {}, t));
    }
  }

  method Start(p: Plan, users: Rows) returns (s: Cache, unscheduled: seq<nat>)
    requires PlanOk(p) && |users| == |p.g.deps| && Inverted(p.g.deps, |p.g.deps|, users)
    ensures Settled(p, {}, s, unscheduled)
  {
    var n, m := |p.g.deps|, |p.g.weights|;
    unscheduled := seq(n, d requires 0 <= d < n => |users[d]|);
    var remaining: seq<nat> := seq(m, t requires 0 <= t < m => |p.tokenUsers[t]|);
    s := Cache(seq(n, _ => false), seq(m, _ => false), remaining, seq(n, _ => 0), seq(n, _ => false), {});
    assert forall k :: !IsItem(p, s, k);
    StartCounts(p.g, users, unscheduled);
    StartTokens(p.g, p.tokenUsers, s.liveTokens, remaining);
    s := FirstReady(p, s, unscheduled);
    forall v: nat | v < n ensures s.present[v] <==> Ready(p.g, {}, v) {
      ReadyIs(p.g, {}, v);
    }
  }

  // ------------------------------------------------------------ the loop

  lemma SelectedIsGreedy(p: Plan, reverse: seq<nat>, s: Cache, unscheduled: seq<nat>, k: Key)
    requires PlanOk(p) && Settled(p, Before(reverse, |reverse|), s, unscheduled)
    requires k in s.ready && forall x :: x in s.ready && x != k ==> Less(k, x)
    ensures k.node < |p.g.deps| && s.present[k.node]
    ensures GreedyAt(p.g, p.exit, p.entry, reverse + [k.node], |reverse|)
  {
    var done := Before(reverse, |reverse|);
    BeforePush(reverse, k.node);
    assert IsItem(p, s, k);
    KeyIs(p, done, s, unscheduled, k.node);
    forall c: nat | Ready(p.g, done, c) && c != k.node
      ensures Better(p.g, done, p.exit, p.entry, k.node, c)
    {
      assert IsItem(p, s, Item(p, s, c));
      KeyIs(p, done, s, unscheduled, c);
    }
  }

  /** A queued key is the change of pressure its node would bring, with its depths. */
  lemma KeyIs(p: Plan, done: set<nat>, s: Cache, unscheduled: seq<nat>, v: nat)
    requires PlanOk(p) && Settled(p, done, s, unscheduled) && v < |p.g.deps| && s.present[v]
    ensures Item(p, s, v) == Key(Pressure(p.g, done + {v}) - Pressure(p.g, done), p.exit[v], p.entry[v], v)
  {
    assert CachedAt(p, s, v);
    DeltaIsChange(p.g, done, s.live, s.liveTokens, s.remaining, v);
  }

  lemma GreedyPush(p: Plan, reverse: seq<nat>, v: nat)
    requires Greedy(p.g, p.exit, p.entry, reverse) && GreedyAt(p.g, p.exit, p.entry, reverse + [v], |reverse|)
    ensures Greedy(p.g, p.exit, p.entry, reverse + [v])
  {
    BeforePush(reverse, v);
    var next := reverse + [v];
    forall k: nat | k < |next| ensures GreedyAt(p.g, p.exit, p.entry, next, k) {
      if k < |reverse| {
        assert GreedyAt(p.g, p.exit, p.entry, reverse, k);
        assert next[k] == reverse[k];
      }
    }
  }

  /** Greedy selections never repeat a node, so the loop ends. */
  lemma GreedyIsDistinct(g: Dag, exit: seq<nat>, entry: seq<nat>, reverse: seq<nat>)
    requires Greedy(g, exit, entry, reverse)
    ensures |reverse| <= |g.deps| && forall i, j :: 0 <= i < j < |reverse| ==> reverse[i] != reverse[j]
  {
    forall i, j | 0 <= i < j < |reverse| ensures reverse[i] != reverse[j] {
      assert GreedyAt(g, exit, entry, reverse, j);
      assert reverse[i] in Before(reverse, j);
    }
    forall i | 0 <= i < |reverse| ensures reverse[i] < |g.deps| {
      assert GreedyAt(g, exit, entry, reverse, i);
    }
    Pigeonhole(reverse, |g.deps|);
  }

  method SelectAll(p: Plan, users: Rows) returns (reverse: seq<nat>)
    requires PlanOk(p) && |users| == |p.g.deps| && Inverted(p.g.deps, |p.g.deps|, users)
    requires forall v: nat :: v < |p.g.deps| ==> v !in p.g.deps[v]
    ensures Greedy(p.g, p.exit, p.entry, reverse)
    ensures UsersFirst(p.g, Before(reverse, |reverse|))
    ensures forall v: nat :: !Ready(p.g, Before(reverse, |reverse|), v)
  {
    var s, unscheduled := Start(p, users);
    reverse := [];
    assert Before(reverse, 0) == {};
    while s.ready != {}
      invariant Settled(p, Before(reverse, |reverse|), s, unscheduled)
      invariant Greedy(p.g, p.exit, p.entry, reverse)
      decreases |p.g.deps| - |reverse|
    {
      var k := FirstKey(s.ready);
      SelectedIsGreedy(p, reverse, s, unscheduled, k);
      GreedyPush(p, reverse, k.node);
      GreedyIsDistinct(p.g, p.exit, p.entry, reverse + [k.node]);
      BeforePush(reverse, k.node);
      s, unscheduled := Select(p, s, Before(reverse, |reverse|), k.node, unscheduled);
      reverse := reverse + [k.node];
    }
    NothingReady(p, Before(reverse, |reverse|), s, unscheduled);
  }

  lemma NothingReady(p: Plan, done: set<nat>, s: Cache, unscheduled: seq<nat>)
    requires Settled(p, done, s, unscheduled) && s.ready == {}
    ensures forall v: nat :: !Ready(p.g, done, v)
  {
    forall v: nat ensures !Ready(p.g, done, v) {
      assert v < |p.g.deps| ==> (IsItem(p, s, Item(p, s, v)) <==> s.present[v]);
    }
  }

  // ------------------------------------------------------------ the whole schedule

  function Reversed(s: seq<nat>): (r: seq<nat>)
    ensures |r| == |s| && forall i :: 0 <= i < |s| ==> r[i] == s[|s| - 1 - i]
  {
    seq(|s|, i requires 0 <= i < |s| => s[|s| - 1 - i])
  }

  /** With a topological order, nothing ready means everything done: the last undone node would be ready. */
  lemma {:induction false} NoneLeft(g: Dag, order: seq<nat>, done: set<nat>, k: nat)
    requires IsPermutation(order, |g.deps|) && Topological(g, order) && k <= |order|
    requires forall v: nat :: !Ready(g, done, v)
    requires forall i :: k <= i < |order| ==> order[i] in done
    ensures forall i :: 0 <= i < |order| ==> order[i] in done
  {
    if k > 0 {
      var v := order[k - 1];
      assert v in order && v < |g.deps|;
      if v !in done {
        forall u: nat | Needs(g, u, v) ensures u in done {
          assert u in order;
          var j :| 0 <= j < |order| && order[j] == u;
          assert Needs(g, order[j], order[k - 1]);
        }
        assert Ready(g, done, v);
      }
      NoneLeft(g, order, done, k - 1);
    }
  }

  lemma GreedyIsComplete(p: Plan, order: seq<nat>, reverse: seq<nat>)
    requires IsPermutation(order, |p.g.deps|) && Topological(p.g, order)
    requires Greedy(p.g, p.exit, p.entry, reverse) && forall v: nat :: !Ready(p.g, Before(reverse, |reverse|), v)
    ensures |reverse| == |p.g.deps| && IsPermutation(Reversed(reverse), |p.g.deps|)
  {
    NoneLeft(p.g, order, Before(reverse, |reverse|), |order|);
    GreedyIsDistinct(p.g, p.exit, p.entry, reverse);
    GreedyInRange(p.g, p.exit, p.entry, reverse);
    BeforeIs(reverse);
    forall v: nat | v < |p.g.deps| ensures v in reverse {
      assert v in order;
      var i :| 0 <= i < |order| && order[i] == v;
    }
    FullCount(reverse, |p.g.deps|);
    ReversedMembers(reverse);
  }

  lemma GreedyInRange(g: Dag, exit: seq<nat>, entry: seq<nat>, reverse: seq<nat>)
    requires Greedy(g, exit, entry, reverse)
    ensures forall v: nat :: v in reverse ==> v < |g.deps|
  {
    forall i | 0 <= i < |reverse| ensures reverse[i] < |g.deps| {
      assert GreedyAt(g, exit, entry, reverse, i);
    }
  }

  lemma FullCount(s: seq<nat>, n: nat)
    requires Distinct(s) && forall v: nat :: v in s <==> v < n
    ensures |s| == n
  {
    var listed := set x: nat | x in s;
    DistinctCard(s);
    assert listed == Below(n);
  }

  lemma ReversedMembers(s: seq<nat>)
    ensures forall v: nat :: v in Reversed(s) <==> v in s
  {
    forall v: nat ensures v in Reversed(s) <==> v in s {
      if v in s {
        var i :| 0 <= i < |s| && s[i] == v;
        assert Reversed(s)[|s| - 1 - i] == v;
      }
    }
  }

  lemma GreedyIsTopological(g: Dag, exit: seq<nat>, entry: seq<nat>, reverse: seq<nat>)
    requires Greedy(g, exit, entry, reverse)
    ensures Topological(g, Reversed(reverse))
  {
    var order := Reversed(reverse);
    GreedyIsDistinct(g, exit, entry, reverse);
    forall i, j | 0 <= i < |order| && 0 <= j < |order| && Needs(g, order[j], order[i]) ensures i < j {
      var a, b := |reverse| - 1 - i, |reverse| - 1 - j;
      assert GreedyAt(g, exit, entry, reverse, a);
      assert reverse[b] in Before(reverse, a);
    }
  }

  lemma NoSelfNeed(g: Dag)
    requires DagOk(g) && !Cyclic(g)
    ensures forall v: nat :: v < |g.deps| ==> v !in g.deps[v] && v !in g.vals[v]
  {
    forall v: nat | v < |g.deps| ensures v !in g.deps[v] && v !in g.vals[v] {
      assert Subrow(g.vals[v], g.deps[v]);
      var p := [v, v];
      assert Needs(g, v, v) ==> IsChainOf(g, p);
    }
  }

  /** The way a schedule is judged: depths of the graph in both directions, and greedy choices bottom up. */
  ghost predicate IsGreedySchedule(g: Dag, exit: seq<nat>, entry: seq<nat>, users: Rows, order: seq<nat>) {
    && |users| == |g.deps| && Inverted(g.deps, |g.deps|, users)
    && Depths(g.deps, Below(|g.deps|), entry) && Depths(users, Below(|g.deps|), exit)
    && |exit| == |entry| == |g.deps|
    && Greedy(g, exit, entry, Reversed(order))
  }

  /** A well-formed graph gets a topological order of all its nodes, greedily bottom up, unless it has a cycle. */
  method Schedule(g: Dag) returns (r: Outcome, ghost users: Rows, ghost exit: seq<nat>, ghost entry: seq<nat>)
    ensures r.Scheduled? <==> DagOk(g) && !Cyclic(g)
    ensures r.Refused? ==> if DagOk(g) then r.fault == Cycle else Fault(g, r.fault)
    ensures r.Scheduled? ==> IsPermutation(r.order, |g.deps|) && Topological(g, r.order)
    ensures r.Scheduled? ==> IsGreedySchedule(g, exit, entry, users, r.order)
  {
    users, exit, entry := [], [], [];
    var fault := Validate(g);
    if fault.Some? {
      return Refused(fault.value), users, exit, entry;
    }
    var n := |g.deps|;
    var tokenUsers := Invert(g.tokens, |g.weights|);
    var successors := Invert(g.deps, n);
    var valueUsers := Invert(g.vals, n);
    var cyclic, topological, entryDepth := TopologicalOrder(g, successors);
    if cyclic {
      return Refused(Cycle), users, exit, entry;
    }
    var exitDepth := ExitDepths(g, successors, topological);
    NoSelfNeed(g);
    var p := Plan(g, valueUsers, tokenUsers, exitDepth, entryDepth);
    var reverse := SelectAll(p, successors);
    GreedyIsComplete(p, topological, reverse);
    GreedyIsTopological(g, exitDepth, entryDepth, reverse);
    users, exit, entry := successors, exitDepth, entryDepth;
    assert Reversed(Reversed(reverse)) == reverse;
    r := Scheduled(Reversed(reverse));
  }

  // ------------------------------------------------------------ what a greedy schedule is

  /** The depths and the greedy rule leave no freedom: two schedules of the same rule are the same. */
  lemma {:induction false} GreedyIsUnique(g: Dag, exit: seq<nat>, entry: seq<nat>, a: seq<nat>, b: seq<nat>, k: nat)
    requires Greedy(g, exit, entry, a) && Greedy(g, exit, entry, b) && k <= |a| && k <= |b|
    ensures a[..k] == b[..k]
  {
    if k > 0 {
      GreedyIsUnique(g, exit, entry, a, b, k - 1);
      SameBefore(a, b, k - 1);
      assert GreedyAt(g, exit, entry, a, k - 1) && GreedyAt(g, exit, entry, b, k - 1);
      var done := Before(a, k - 1);
      OneIsBetter(g, done, exit, entry, a[k - 1], b[k - 1]);
      assert a[..k] == a[..k - 1] + [a[k - 1]] && b[..k] == b[..k - 1] + [b[k - 1]];
    }
  }

  lemma OneIsBetter(g: Dag, done: set<nat>, exit: seq<nat>, entry: seq<nat>, v: nat, c: nat)
    requires v < |exit| == |entry| && c < |exit|
    ensures Better(g, done, exit, entry, v, c) && Better(g, done, exit, entry, c, v) ==> false
  {
  }

  lemma SameBefore(a: seq<nat>, b: seq<nat>, k: nat)
    requires k <= |a| && k <= |b| && a[..k] == b[..k]
    ensures Before(a, k) == Before(b, k)
  {
    assert forall i :: 0 <= i < k ==> a[i] == a[..k][i] == b[..k][i] == b[i];
  }

  /** The changes of pressure along an order. */
  ghost function Changes(g: Dag, reverse: seq<nat>, k: nat): int
    requires k <= |reverse|
  {
    if k == 0 then 0
    else Changes(g, reverse, k - 1) + Pressure(g, Before(reverse, k)) - Pressure(g, Before(reverse, k - 1))
  }

  lemma {:induction false} ChangesTelescope(g: Dag, reverse: seq<nat>, k: nat)
    requires k <= |reverse|
    ensures Changes(g, reverse, k) == Pressure(g, Before(reverse, k)) - Pressure(g, {})
  {
    if k == 0 {
      assert Before(reverse, 0) == {};
    } else {
      ChangesTelescope(g, reverse, k - 1);
    }
  }

  /** Over a complete schedule the selected priorities add up to zero. */
  lemma DeltasCancel(g: Dag, reverse: seq<nat>)
    requires DagOk(g) && IsPermutation(reverse, |g.deps|)
    ensures Changes(g, reverse, |reverse|) == 0
  {
    ChangesTelescope(g, reverse, |reverse|);
    BeforeIs(reverse);
    assert Before(reverse, |reverse|) == Below(|g.deps|);
    PressureAtEnds(g);
  }

  // ------------------------------------------------------------ depths are longest chains

  ghost predicate IsRowChain(rows: Rows, c: seq<nat>) {
    && c != [] && (forall i :: 0 <= i < |c| ==> c[i] < |rows|)
    && forall i, j :: 0 <= i && j == i + 1 && j < |c| ==> c[j] in rows[c[i]]
  }

  /** No chain down the rows is longer than the depth of its first node. */
  lemma {:induction false} DepthBounds(rows: Rows, depth: seq<nat>, c: seq<nat>)
    requires Depths(rows, Below(|rows|), depth) && IsRowChain(rows, c)
    ensures |c| <= depth[c[0]]
    decreases |c|
  {
    assert DepthAt(rows[c[0]], Below(|rows|), depth, c[0]);
    if |c| > 1 {
      var rest := c[1..];
      assert IsRowChain(rows, rest);
      assert c[1] in rows[c[0]];
      DepthBounds(rows, depth, rest);
    }
  }

  /** Some chain is exactly as long. */
  lemma {:induction false} DepthReached(rows: Rows, depth: seq<nat>, v: nat) returns (c: seq<nat>)
    requires Depths(rows, Below(|rows|), depth) && v < |rows|
    ensures IsRowChain(rows, c) && c[0] == v && |c| == depth[v]
    decreases depth[v]
  {
    assert DepthAt(rows[v], Below(|rows|), depth, v);
    c := [v];
    if depth[v] > 1 {
      var d :| d in rows[v] && d in Below(|rows|) && d < |depth| && depth[v] == depth[d] + 1;
      var rest := DepthReached(rows, depth, d);
      c := [v] + rest;
      assert forall i :: 1 <= i < |c| ==> c[i] == rest[i - 1];
    }
  }
}
