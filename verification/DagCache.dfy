/** The queue of ready nodes, whose cached priorities follow every change of what is live. */
module DagCache {
  import opened DagSpec
  import opened DagQueue

  /** What stays fixed while scheduling: the graph, its reversed rows and its depths. */
  datatype Plan = Plan(g: Dag, valueUsers: Rows, tokenUsers: Rows, exit: seq<nat>, entry: seq<nat>)

  /** The longer the way to the end and from the start, and the later the node, the sooner it is taken. */
  datatype Key = Key(delta: int, exit: nat, entry: nat, node: nat)

  predicate Less(a: Key, b: Key) {
    || a.delta < b.delta
    || (a.delta == b.delta
         && (a.exit > b.exit || (a.exit == b.exit && (a.entry > b.entry || (a.entry == b.entry && a.node > b.node)))))
  }

  datatype Cache = Cache(
    live: seq<bool>, liveTokens: seq<bool>, remaining: seq<nat>, deltas: seq<int>, present: seq<bool>, ready: set<Key>)

  ghost predicate PlanOk(p: Plan) {
    && DagOk(p.g)
    && |p.valueUsers| == |p.g.deps| && Inverted(p.g.vals, |p.g.deps|, p.valueUsers)
    && |p.tokenUsers| == |p.g.weights| && Inverted(p.g.tokens, |p.g.deps|, p.tokenUsers)
    && |p.exit| == |p.entry| == |p.g.deps|
    && forall v: nat :: v < |p.g.vals| ==> v !in p.g.vals[v]
  }

  predicate Shaped(p: Plan, s: Cache) {
    && |s.live| == |s.deltas| == |s.present| == |p.g.deps| == |p.exit| == |p.entry|
    && |s.liveTokens| == |s.remaining| == |p.g.weights|
  }

  predicate IsItem(p: Plan, s: Cache, k: Key)
    requires Shaped(p, s)
  {
    k.node < |s.present| && s.present[k.node] && k == Key(s.deltas[k.node], p.exit[k.node], p.entry[k.node], k.node)
  }

  function Item(p: Plan, s: Cache, v: nat): Key
    requires Shaped(p, s) && v < |s.deltas|
  {
    Key(s.deltas[v], p.exit[v], p.entry[v], v)
  }

  /** The queue holds exactly the present nodes, each under its cached priority. */
  ghost predicate Queued(p: Plan, s: Cache) {
    Shaped(p, s) && forall k :: k in s.ready <==> IsItem(p, s, k)
  }

  ghost function Priority(p: Plan, s: Cache, v: nat): int
    requires DagOk(p.g) && Shaped(p, s) && v < |p.g.deps|
  {
    Delta(p.g, s.live, Contributions(s.liveTokens, s.remaining, p.g.weights), v)
  }

  ghost predicate CachedAt(p: Plan, s: Cache, v: nat)
    requires DagOk(p.g) && Shaped(p, s) && v < |p.g.deps|
  {
    s.present[v] ==> s.deltas[v] == Priority(p, s, v)
  }

  /** Every cached priority equals the one recomputed from scratch. */
  ghost predicate Cached(p: Plan, s: Cache) {
    && DagOk(p.g) && Queued(p, s)
    && forall v: nat {:trigger CachedAt(p, s, v)} :: v < |p.g.deps| ==> CachedAt(p, s, v)
  }

  // ------------------------------------------------------------ inserting, removing, adjusting

  method MissingValues(row: seq<nat>, live: seq<bool>) returns (missing: int)
    requires RowOk(row, |live|)
    ensures missing == RowSum(row, Missing(live))
  {
    missing := 0;
    for i := 0 to |row|
      invariant missing == RowSum(row[..i], Missing(live))
    {
      assert row[..i + 1][..i] == row[..i];
      if !live[row[i]] {
        missing := missing + 1;
      }
    }
    assert row[..|row|] == row;
  }

  method TokenDelta(row: seq<nat>, s: Cache, weights: seq<nat>) returns (delta: int)
    requires |s.liveTokens| == |s.remaining| == |weights| && RowOk(row, |weights|)
    ensures delta == RowSum(row, Contributions(s.liveTokens, s.remaining, weights))
  {
    delta := 0;
    for i := 0 to |row|
      invariant delta == RowSum(row[..i], Contributions(s.liveTokens, s.remaining, weights))
    {
      var t := row[i];
      assert row[..i + 1][..i] == row[..i];
      if !s.liveTokens[t] && s.remaining[t] > 1 {
        delta := delta + weights[t];
      } else if s.liveTokens[t] && s.remaining[t] == 1 {
        delta := delta - weights[t];
      }
    }
    assert row[..|row|] == row;
  }

  method InsertReady(p: Plan, s: Cache, node: nat) returns (r: Cache)
    requires Cached(p, s) && node < |p.g.deps| && !s.present[node]
    ensures Cached(p, r) && r.present == s.present[node := true]
    ensures r.live == s.live && r.liveTokens == s.liveTokens && r.remaining == s.remaining
  {
    assert RowOk(p.g.vals[node], |p.g.deps|) && RowOk(p.g.tokens[node], |p.g.weights|);
    var missing := MissingValues(p.g.vals[node], s.live);
    var tokens := TokenDelta(p.g.tokens[node], s, p.g.weights);
    var delta := missing - (if s.live[node] then 1 else 0) + tokens;
    var key := Key(delta, p.exit[node], p.entry[node], node);
    r := s.(deltas := s.deltas[node := delta], present := s.present[node := true], ready := s.ready + {key});
    assert forall k :: IsItem(p, r, k) <==> k == key || IsItem(p, s, k);
    forall v: nat | v < |p.g.deps| ensures CachedAt(p, r, v) {
      assert CachedAt(p, s, v);
    }
  }

  method RemoveReady(p: Plan, s: Cache, node: nat) returns (r: Cache)
    requires Cached(p, s) && node < |p.g.deps| && s.present[node]
    ensures Cached(p, r) && r.present == s.present[node := false]
    ensures r.live == s.live && r.liveTokens == s.liveTokens && r.remaining == s.remaining
  {
    r := s.(present := s.present[node := false], ready := s.ready - {Item(p, s, node)});
    assert forall k :: IsItem(p, r, k) <==> k.node != node && IsItem(p, s, k);
    forall v: nat | v < |p.g.deps| ensures CachedAt(p, r, v) {
      assert CachedAt(p, s, v);
    }
  }

  /** Requeues one present candidate under its changed priority. */
  method AdjustOne(p: Plan, s: Cache, node: nat, adjustment: int) returns (r: Cache)
    requires Queued(p, s) && node < |s.deltas|
    ensures Queued(p, r) && r == s.(deltas := r.deltas, ready := r.ready)
    ensures r.deltas == if s.present[node] then s.deltas[node := s.deltas[node] + adjustment] else s.deltas
  {
    if !s.present[node] {
      return s;
    }
    var without := s.ready - {Item(p, s, node)};
    r := s.(deltas := s.deltas[node := s.deltas[node] + adjustment]);
    r := r.(ready := without + {Item(p, r, node)});
    assert forall k :: IsItem(p, r, k) <==> k == Item(p, r, node) || (k.node != node && IsItem(p, s, k));
  }

  predicate Distinct(row: seq<nat>) {
    forall i, j :: 0 <= i < j < |row| ==> row[i] != row[j]
  }

  method AdjustAll(p: Plan, s: Cache, candidates: seq<nat>, adjustment: int) returns (r: Cache)
    requires Queued(p, s) && Distinct(candidates) && forall i :: 0 <= i < |candidates| ==> candidates[i] < |s.deltas|
    ensures Queued(p, r) && r == s.(deltas := r.deltas, ready := r.ready)
    ensures forall v: nat :: v < |r.deltas| ==>
              r.deltas[v] == s.deltas[v] + if s.present[v] && v in candidates then adjustment else 0
  {
    r := s;
    for i := 0 to |candidates|
      invariant Queued(p, r) && r == s.(deltas := r.deltas, ready := r.ready)
      invariant forall v: nat :: v < |r.deltas| ==>
                  r.deltas[v] == s.deltas[v] + if s.present[v] && v in candidates[..i] then adjustment else 0
    {
      assert candidates[..i + 1] == candidates[..i] + [candidates[i]];
      assert candidates[i] !in candidates[..i];
      r := AdjustOne(p, r, candidates[i], adjustment);
    }
    assert candidates[..|candidates|] == candidates;
  }

  // ------------------------------------------------------------ a value becomes live or dies

  /** The value counts once for each of its users, and once for its own node. */
  lemma LiveFlip(g: Dag, live: seq<bool>, c: seq<int>, d: nat, b: bool, x: nat)
    requires DagOk(g) && |live| == |g.deps| && |c| == |g.weights| && d < |live| && x < |live|
    requires live[d] != b && d !in g.vals[d]
    ensures Delta(g, live[d := b], c, x) ==
            Delta(g, live, c, x) + if d in g.vals[x] || x == d then (if b then -1 else 1) else 0
  {
    assert RowOk(g.vals[x], |g.deps|);
    assert Missing(live[d := b]) == Missing(live)[d := if b then 0 else 1];
    RowSumUpdate(g.vals[x], Missing(live), d, if b then 0 else 1);
  }

  lemma UsersAre(rows: Rows, n: nat, users: Rows, d: nat)
    requires n <= |rows| && Inverted(rows, n, users) && d < |users|
    ensures RowOk(users[d], n)
    ensures forall u: nat :: u in users[d] <==> u < n && d in rows[u]
  {
    forall u: nat ensures u in users[d] <==> u < n && d in rows[u] {
      assert u in users[d] <==> Lists(rows, n, u, d);
    }
    forall i | 0 <= i < |users[d]| ensures users[d][i] < n {
      assert users[d][i] in users[d];
    }
  }

  lemma Candidates(p: Plan, d: nat)
    requires PlanOk(p) && d < |p.g.deps|
    ensures Distinct(p.valueUsers[d] + [d])
    ensures forall i :: 0 <= i < |p.valueUsers[d] + [d]| ==> (p.valueUsers[d] + [d])[i] < |p.g.deps|
    ensures forall u: nat :: u in p.valueUsers[d] + [d] <==> u == d || (u < |p.g.deps| && d in p.g.vals[u])
  {
    UsersAre(p.g.vals, |p.g.deps|, p.valueUsers, d);
    var users := p.valueUsers[d];
    assert d !in users;
    assert Ascending(users);
    assert forall i :: 0 <= i < |users| ==> users[i] in users;
    assert forall i :: 0 <= i < |users| ==> users[i] != d;
  }

  method SetLive(p: Plan, s: Cache, d: nat, b: bool) returns (r: Cache)
    requires PlanOk(p) && Cached(p, s) && d < |p.g.deps| && s.live[d] != b
    ensures Cached(p, r) && r == s.(live := s.live[d := b], deltas := r.deltas, ready := r.ready)
  {
    var adjustment := if b then -1 else 1;
    Candidates(p, d);
    r := s.(live := s.live[d := b]);
    assert forall k :: IsItem(p, r, k) <==> IsItem(p, s, k);
    r := AdjustAll(p, r, p.valueUsers[d] + [d], adjustment);
    forall v: nat | v < |p.g.deps| ensures CachedAt(p, r, v) {
      assert CachedAt(p, s, v);
      LiveFlip(p.g, s.live, Contributions(s.liveTokens, s.remaining, p.g.weights), d, b, v);
    }
  }

  // ------------------------------------------------------------ one user of a token is scheduled

  lemma TokenStep(g: Dag, live: seq<bool>, liveTokens: seq<bool>, remaining: seq<nat>, t: nat, b: bool, k: nat, x: nat)
    requires DagOk(g) && |live| == |g.deps| && x < |live| && |liveTokens| == |remaining| == |g.weights|
    requires t < |g.weights|
    ensures Delta(g, live, Contributions(liveTokens[t := b], remaining[t := k], g.weights), x) ==
            Delta(g, live, Contributions(liveTokens, remaining, g.weights), x) +
            if t !in g.tokens[x] then 0
            else Contribution(b, k, g.weights[t]) - Contribution(liveTokens[t], remaining[t], g.weights[t])
  {
    assert RowOk(g.tokens[x], |g.weights|);
    var c := Contributions(liveTokens, remaining, g.weights);
    assert Contributions(liveTokens[t := b], remaining[t := k], g.weights) == c[t := Contribution(b, k, g.weights[t])];
    RowSumUpdate(g.tokens[x], c, t, Contribution(b, k, g.weights[t]));
  }

  /** No present node uses a token whose last user has just been taken. */
  predicate LastUse(p: Plan, s: Cache, t: nat)
    requires Shaped(p, s) && |p.g.tokens| == |p.g.deps| && t < |s.remaining|
  {
    s.remaining[t] == 1 ==> forall v: nat :: v < |s.present| && s.present[v] ==> t !in p.g.tokens[v]
  }

  method UseToken(p: Plan, s: Cache, t: nat) returns (r: Cache)
    requires PlanOk(p) && Cached(p, s) && t < |p.g.weights| && s.remaining[t] > 0 && LastUse(p, s, t)
    ensures Cached(p, r)
    ensures r == s.(liveTokens := r.liveTokens, remaining := r.remaining, deltas := r.deltas, ready := r.ready)
    ensures r.remaining == s.remaining[t := s.remaining[t] - 1] && r.liveTokens == s.liveTokens[t := s.remaining[t] > 1]
  {
    var before := s.remaining[t];
    var weight: int := p.g.weights[t];
    UsersAre(p.g.tokens, |p.g.deps|, p.tokenUsers, t);
    r := s.(remaining := s.remaining[t := before - 1]);
    ghost var adjusted := 0;
    if !s.liveTokens[t] && before > 1 {
      r := r.(liveTokens := r.liveTokens[t := true]);
      var adjustment := if before == 2 then -2 * weight else -weight;
      assert forall k :: IsItem(p, r, k) <==> IsItem(p, s, k);
      r := AdjustAll(p, r, p.tokenUsers[t], adjustment);
      adjusted := adjustment;
    } else if s.liveTokens[t] && before == 2 {
      assert forall k :: IsItem(p, r, k) <==> IsItem(p, s, k);
      r := AdjustAll(p, r, p.tokenUsers[t], -weight);
      adjusted := -weight;
    } else {
      if s.liveTokens[t] && before == 1 {
        r := r.(liveTokens := r.liveTokens[t := false]);
      }
      assert forall k :: IsItem(p, r, k) <==> IsItem(p, s, k);
    }
    assert r.liveTokens == s.liveTokens[t := before > 1];
    TokenCached(p, s, r, t, adjusted);
  }

  lemma TokenCached(p: Plan, s: Cache, r: Cache, t: nat, adjusted: int)
    requires PlanOk(p) && Cached(p, s) && t < |p.g.weights| && s.remaining[t] > 0 && LastUse(p, s, t)
    requires Queued(p, r) && r.live == s.live && r.present == s.present
    requires r.remaining == s.remaining[t := s.remaining[t] - 1]
    requires r.liveTokens == s.liveTokens[t := s.remaining[t] > 1]
    requires s.remaining[t] > 1 ==>
               adjusted == Contribution(true, s.remaining[t] - 1, p.g.weights[t])
                           - Contribution(s.liveTokens[t], s.remaining[t], p.g.weights[t])
    requires forall v: nat :: v < |r.deltas| ==>
               r.deltas[v] == s.deltas[v] + if s.present[v] && t in p.g.tokens[v] then adjusted else 0
    ensures Cached(p, r)
  {
    forall v: nat | v < |p.g.deps| ensures CachedAt(p, r, v) {
      assert CachedAt(p, s, v);
      TokenStep(p.g, s.live, s.liveTokens, s.remaining, t, s.remaining[t] > 1, s.remaining[t] - 1, v);
    }
  }

  // ------------------------------------------------------------ the least key

  lemma LessOrder(a: Key, b: Key, c: Key)
    ensures a == b || Less(a, b) || Less(b, a)
    ensures Less(a, b) ==> !Less(b, a) && a != b
    ensures Less(a, b) && Less(b, c) ==> Less(a, c)
  {
  }

  method FirstKey(s: set<Key>) returns (k: Key)
    requires s != {}
    ensures k in s && forall x :: x in s && x != k ==> Less(k, x)
  {
    k :| k in s;
    var rest := s - {k};
    while rest != {}
      invariant k in s && rest <= s && forall x :: x in s && x !in rest && x != k ==> Less(k, x)
      decreases |rest|
    {
      var x :| x in rest;
      LessOrder(x, k, x);
      if Less(x, k) {
        forall y | y in s && y !in rest - {x} && y != x ensures Less(x, y) {
          LessOrder(x, k, y);
        }
        k := x;
      }
      rest := rest - {x};
    }
  }
}
