/** Dependency graphs, the pressure of a partly scheduled graph, and greedy bottom-up orders. */
module DagSpec {
  import opened Finite

  type Rows = seq<seq<nat>>

  /**
    A graph whose rows list, per node, what must come before it, which of these carry a value, and the tokens it uses.
   */
  datatype Dag = Dag(deps: Rows, vals: Rows, tokens: Rows, weights: seq<nat>) {
    function Size(): nat {
      |deps|
    }
  }

  // ------------------------------------------------------------ well-formed rows

  predicate Ascending(row: seq<nat>) {
    forall i, j :: 0 <= i < j < |row| ==> row[i] < row[j]
  }

  predicate RowOk(row: seq<nat>, n: nat) {
    Ascending(row) && forall i :: 0 <= i < |row| ==> row[i] < n
  }

  predicate RowsOk(rows: Rows, n: nat) {
    forall i :: 0 <= i < |rows| ==> RowOk(rows[i], n)
  }

  predicate Subrow(a: seq<nat>, b: seq<nat>) {
    forall x :: x in a ==> x in b
  }

  predicate DagOk(g: Dag) {
    && |g.vals| == |g.deps| && |g.tokens| == |g.deps|
    && RowsOk(g.deps, |g.deps|) && RowsOk(g.vals, |g.deps|) && RowsOk(g.tokens, |g.weights|)
    && forall u :: 0 <= u < |g.deps| ==> Subrow(g.vals[u], g.deps[u])
  }

  ghost predicate Needs(g: Dag, u: nat, d: nat) {
    u < |g.deps| && d in g.deps[u]
  }

  // ------------------------------------------------------------ cycles and orders

  ghost predicate IsChainOf(g: Dag, p: seq<nat>) {
    p != [] && forall i, j :: 0 <= i && j == i + 1 && j < |p| ==> Needs(g, p[i], p[j])
  }

  /** Some node needs itself, directly or through others. */
  ghost predicate Cyclic(g: Dag) {
    exists p :: IsChainOf(g, p) && |p| > 1 && p[0] == p[|p| - 1]
  }

  ghost predicate IsPermutation(order: seq<nat>, n: nat) {
    && |order| == n
    && (forall i, j :: 0 <= i < j < |order| ==> order[i] != order[j])
    && forall v: nat :: v in order <==> v < n
  }

  /** Every node comes after everything it needs. */
  ghost predicate Topological(g: Dag, order: seq<nat>) {
    forall i, j :: 0 <= i < |order| && 0 <= j < |order| && Needs(g, order[j], order[i]) ==> i < j
  }

  function IndexIn(order: seq<nat>, v: nat): (i: nat)
    requires v in order
    ensures i < |order| && order[i] == v
  {
    if order[0] == v then 0 else 1 + IndexIn(order[1..], v)
  }

  lemma {:induction false} ChainDescends(g: Dag, order: seq<nat>, p: seq<nat>)
    requires DagOk(g) && IsPermutation(order, |g.deps|) && Topological(g, order) && IsChainOf(g, p) && p[0] in order
    requires |p| > 1
    ensures p[|p| - 1] in order && IndexIn(order, p[|p| - 1]) < IndexIn(order, p[0])
    decreases |p|
  {
    assert Needs(g, p[0], p[1]);
    assert RowOk(g.deps[p[0]], |g.deps|);
    var k :| 0 <= k < |g.deps[p[0]]| && g.deps[p[0]][k] == p[1];
    assert p[1] in order;
    assert Needs(g, order[IndexIn(order, p[0])], order[IndexIn(order, p[1])]);
    if |p| > 2 {
      ChainDescends(g, order, p[1..]);
    }
  }

  /** A graph with a topological order has no cycle. */
  lemma OrderedIsAcyclic(g: Dag, order: seq<nat>)
    requires DagOk(g) && IsPermutation(order, |g.deps|) && Topological(g, order)
    ensures !Cyclic(g)
  {
    forall p | IsChainOf(g, p) && |p| > 1 ensures p[0] != p[|p| - 1] {
      assert Needs(g, p[0], p[1]);
      ChainDescends(g, order, p);
    }
  }

  /** The node needs some node of the set. */
  ghost predicate NeedsWithin(g: Dag, stuck: set<nat>, u: nat) {
    exists d :: d in stuck && Needs(g, u, d)
  }

  ghost predicate AllStuck(g: Dag, stuck: set<nat>) {
    forall u {:trigger NeedsWithin(g, stuck, u)} :: u in stuck ==> u < |g.deps| && NeedsWithin(g, stuck, u)
  }

  /** A walk through nodes that each need another one of them. */
  lemma {:induction false} WalkWithin(g: Dag, stuck: set<nat>, v: nat, k: nat) returns (p: seq<nat>)
    requires v in stuck && AllStuck(g, stuck)
    ensures IsChainOf(g, p) && |p| == k + 1 && p[0] == v && forall i :: 0 <= i < |p| ==> p[i] in stuck
    decreases k
  {
    if k == 0 {
      p := [v];
    } else {
      assert NeedsWithin(g, stuck, v);
      var d :| d in stuck && Needs(g, v, d);
      var q := WalkWithin(g, stuck, d, k - 1);
      p := [v] + q;
      forall i, j | 0 <= i && j == i + 1 && j < |p| ensures Needs(g, p[i], p[j]) {
        if i > 0 {
          assert p[i] == q[i - 1] && p[j] == q[j - 1];
        }
      }
    }
  }

  /** Nodes that all wait for each other contain a cycle. */
  lemma StuckIsCyclic(g: Dag, stuck: set<nat>, v: nat)
    requires v in stuck && AllStuck(g, stuck)
    ensures Cyclic(g)
  {
    var n := |g.deps|;
    var p := WalkWithin(g, stuck, v, n);
    forall i | 0 <= i < |p| ensures p[i] < n {
      assert p[i] in stuck && NeedsWithin(g, stuck, p[i]);
    }
    var i, j := Repeats(p, n);
    var q := p[i..j + 1];
    assert IsChainOf(g, q) && q[0] == q[|q| - 1];
  }

  /** More numbers than there are below the bound repeat. */
  lemma Repeats(p: seq<nat>, n: nat) returns (i: nat, j: nat)
    requires |p| > n && forall k :: 0 <= k < |p| ==> p[k] < n
    ensures i < j < |p| && p[i] == p[j]
  {
    if forall a, b :: 0 <= a < b < |p| ==> p[a] != p[b] {
      Pigeonhole(p, n);
    }
    i, j :| i < j < |p| && p[i] == p[j];
  }

  // ------------------------------------------------------------ sums

  function Sum(s: seq<int>): int {
    if s == [] then 0 else Sum(s[..|s| - 1]) + s[|s| - 1]
  }

  /** The entries of `f` a row names, added up. */
  function RowSum(row: seq<nat>, f: seq<int>): int
    requires forall i :: 0 <= i < |row| ==> row[i] < |f|
  {
    if row == [] then 0 else RowSum(row[..|row| - 1], f) + f[row[|row| - 1]]
  }

  function Pick(row: seq<nat>, f: seq<int>): (r: seq<int>)
    ensures |r| == |f| && forall i :: 0 <= i < |f| ==> r[i] == if i in row then f[i] else 0
  {
    seq(|f|, i requires 0 <= i < |f| => if i in row then f[i] else 0)
  }

  lemma {:induction false} SumZero(s: seq<int>)
    requires forall i :: 0 <= i < |s| ==> s[i] == 0
    ensures Sum(s) == 0
  {
    if s != [] {
      SumZero(s[..|s| - 1]);
    }
  }

  lemma {:induction false} SumUpdate(s: seq<int>, i: nat, x: int)
    requires i < |s|
    ensures Sum(s[i := x]) == Sum(s) - s[i] + x
  {
    var k := |s| - 1;
    if i == k {
      assert s[i := x][..k] == s[..k];
    } else {
      assert s[i := x][..k] == s[..k][i := x];
      SumUpdate(s[..k], i, x);
    }
  }

  lemma {:induction false} SumPointwise(a: seq<int>, b: seq<int>, c: seq<int>)
    requires |a| == |b| == |c| && forall i :: 0 <= i < |a| ==> c[i] == a[i] + b[i]
    ensures Sum(c) == Sum(a) + Sum(b)
  {
    if a != [] {
      var k := |a| - 1;
      SumPointwise(a[..k], b[..k], c[..k]);
    }
  }

  lemma PickSnoc(row: seq<nat>, x: nat, f: seq<int>)
    requires x < |f| && x !in row
    ensures Pick(row + [x], f) == Pick(row, f)[x := f[x]]
  {
  }

  /** Adding up the picked entries is adding up the row. */
  lemma {:induction false} PickSum(row: seq<nat>, f: seq<int>)
    requires RowOk(row, |f|)
    ensures Sum(Pick(row, f)) == RowSum(row, f)
  {
    if row == [] {
      SumZero(Pick(row, f));
    } else {
      var rest, x := row[..|row| - 1], row[|row| - 1];
      PickSum(rest, f);
      assert row == rest + [x] && x !in rest;
      PickSnoc(rest, x, f);
      SumUpdate(Pick(rest, f), x, f[x]);
    }
  }

  lemma {:induction false} RowSumUpdate(row: seq<nat>, f: seq<int>, i: nat, x: int)
    requires RowOk(row, |f|) && i < |f|
    ensures RowSum(row, f[i := x]) == RowSum(row, f) + if i in row then x - f[i] else 0
  {
    if row != [] {
      var k := |row| - 1;
      RowSumUpdate(row[..k], f, i, x);
      assert row == row[..k] + [row[k]];
      if row[k] == i {
        assert i !in row[..k];
      }
    }
  }

  // ------------------------------------------------------------ what is live when `done` has been scheduled

  /** Some scheduled node uses the value of `d`, which is not scheduled itself. */
  ghost predicate ValueLive(g: Dag, done: set<nat>, d: nat) {
    d !in done && exists u :: u in done && u < |g.vals| && d in g.vals[u]
  }

  ghost function Waiting(g: Dag, done: set<nat>, t: nat): set<nat> {
    set u | u in Below(|g.tokens|) && u !in done && t in g.tokens[u]
  }

  /** Some scheduled node uses the token and some other one still will. */
  ghost predicate TokenLive(g: Dag, done: set<nat>, t: nat) {
    Waiting(g, done, t) != {} && exists u :: u in done && u < |g.tokens| && t in g.tokens[u]
  }

  ghost function ValueCosts(g: Dag, done: set<nat>): (r: seq<int>)
    ensures |r| == |g.deps| && forall d :: 0 <= d < |r| ==> r[d] == if ValueLive(g, done, d) then 1 else 0
  {
    seq(|g.deps|, d requires 0 <= d < |g.deps| => if ValueLive(g, done, d) then 1 else 0)
  }

  ghost function TokenCosts(g: Dag, done: set<nat>): (r: seq<int>)
    ensures |r| == |g.weights| && forall t :: 0 <= t < |r| ==> r[t] == if TokenLive(g, done, t) then g.weights[t] else 0
  {
    seq(|g.weights|, t requires 0 <= t < |g.weights| => if TokenLive(g, done, t) then g.weights[t] else 0)
  }

  /** The number of live values and the weight of live tokens. */
  ghost function Pressure(g: Dag, done: set<nat>): int {
    Sum(ValueCosts(g, done)) + Sum(TokenCosts(g, done))
  }

  /** Everything that needs a scheduled node is scheduled. */
  ghost predicate UsersFirst(g: Dag, done: set<nat>) {
    && (forall v :: v in done ==> v < |g.deps|)
    && forall u: nat, d: nat :: d in done && Needs(g, u, d) ==> u in done
  }

  /** The node can be scheduled next, backward. */
  ghost predicate Ready(g: Dag, done: set<nat>, v: nat) {
    v < |g.deps| && v !in done && forall u: nat :: Needs(g, u, v) ==> u in done
  }

  // ------------------------------------------------------------ the priority of a node

  function Missing(live: seq<bool>): (r: seq<int>)
    ensures |r| == |live| && forall d :: 0 <= d < |r| ==> r[d] == if live[d] then 0 else 1
  {
    seq(|live|, d requires 0 <= d < |live| => if live[d] then 0 else 1)
  }

  function Contribution(live: bool, remaining: nat, weight: nat): int {
    var w: int := weight;
    if !live && remaining > 1 then w else if live && remaining == 1 then -w else 0
  }

  function Contributions(liveTokens: seq<bool>, remaining: seq<nat>, weights: seq<nat>): (r: seq<int>)
    requires |liveTokens| == |remaining| == |weights|
    ensures |r| == |weights|
    ensures forall t :: 0 <= t < |r| ==> r[t] == Contribution(liveTokens[t], remaining[t], weights[t])
  {
    seq(|weights|, t requires 0 <= t < |weights| => Contribution(liveTokens[t], remaining[t], weights[t]))
  }

  /** The priority: values that would become live, less its own, and what its tokens contribute. */
  function Delta(g: Dag, live: seq<bool>, contributions: seq<int>, v: nat): int
    requires DagOk(g) && |live| == |g.deps| && |contributions| == |g.weights| && v < |g.deps|
  {
    assert RowOk(g.vals[v], |g.deps|) && RowOk(g.tokens[v], |g.weights|);
    RowSum(g.vals[v], Missing(live)) - (if live[v] then 1 else 0) + RowSum(g.tokens[v], contributions)
  }

  /** The arrays the scheduler keeps agree with the scheduled set. */
  ghost predicate LiveIs(g: Dag, done: set<nat>, live: seq<bool>) {
    |live| == |g.deps| && forall d: nat :: d < |live| ==> (live[d] <==> ValueLive(g, done, d))
  }

  ghost predicate TokensAre(g: Dag, done: set<nat>, liveTokens: seq<bool>, remaining: seq<nat>) {
    && |liveTokens| == |remaining| == |g.weights|
    && forall t: nat :: t < |liveTokens| ==>
         (liveTokens[t] <==> TokenLive(g, done, t)) && remaining[t] == |Waiting(g, done, t)|
  }

  // ------------------------------------------------------------ the priority is the change of pressure

  lemma ValueLiveNext(g: Dag, done: set<nat>, v: nat, d: nat)
    requires DagOk(g) && UsersFirst(g, done) && Ready(g, done, v)
    ensures d in g.vals[v] ==> d != v && d !in done
    ensures ValueLive(g, done + {v}, d) <==> d != v && (ValueLive(g, done, d) || d in g.vals[v])
  {
    if d in g.vals[v] {
      assert Subrow(g.vals[v], g.deps[v]);
      assert Needs(g, v, d);
    }
    if ValueLive(g, done, d) {
      var u :| u in done && u < |g.vals| && d in g.vals[u];
      assert u in done + {v};
    }
    if d in g.vals[v] {
      assert v in done + {v};
    }
  }

  lemma ValueChange(g: Dag, done: set<nat>, live: seq<bool>, v: nat)
    requires DagOk(g) && UsersFirst(g, done) && Ready(g, done, v) && LiveIs(g, done, live)
    ensures RowOk(g.vals[v], |g.deps|)
    ensures Sum(ValueCosts(g, done + {v})) ==
            Sum(ValueCosts(g, done)) + RowSum(g.vals[v], Missing(live)) - if live[v] then 1 else 0
  {
    var old', next := ValueCosts(g, done), ValueCosts(g, done + {v});
    assert RowOk(g.vals[v], |g.deps|);
    var gained := Pick(g.vals[v], Missing(live));
    var middle := seq(|g.deps|, d requires 0 <= d < |g.deps| => old'[d] + gained[d]);
    forall d: nat | d < |g.deps| ensures next[d] == if d == v then 0 else middle[d] {
      ValueLiveNext(g, done, v, d);
    }
    ValueLiveNext(g, done, v, v);
    assert middle[v] == if live[v] then 1 else 0;
    assert next == middle[v := 0];
    SumUpdate(middle, v, 0);
    SumPointwise(old', gained, middle);
    PickSum(g.vals[v], Missing(live));
  }

  lemma WaitingNext(g: Dag, done: set<nat>, v: nat, t: nat)
    requires DagOk(g) && v < |g.deps| && v !in done
    ensures t in g.tokens[v] ==> v in Waiting(g, done, t) && Waiting(g, done + {v}, t) == Waiting(g, done, t) - {v}
    ensures t in g.tokens[v] ==> |Waiting(g, done, t)| > 0 && |Waiting(g, done + {v}, t)| == |Waiting(g, done, t)| - 1
    ensures t !in g.tokens[v] ==> Waiting(g, done + {v}, t) == Waiting(g, done, t)
  {
  }

  lemma TokenLiveNext(g: Dag, done: set<nat>, v: nat, t: nat)
    requires DagOk(g) && v < |g.deps| && v !in done
    ensures t in g.tokens[v] ==> (TokenLive(g, done + {v}, t) <==> |Waiting(g, done, t)| > 1)
    ensures t !in g.tokens[v] ==> (TokenLive(g, done + {v}, t) <==> TokenLive(g, done, t))
  {
    WaitingNext(g, done, v, t);
    if t in g.tokens[v] {
      assert v in done + {v};
      CardZero(Waiting(g, done + {v}, t));
    } else {
      if TokenLive(g, done, t) {
        var u :| u in done && u < |g.tokens| && t in g.tokens[u];
        assert u in done + {v};
      }
    }
  }

  lemma CardZero(s: set<nat>)
    ensures |s| == 0 <==> s == {}
  {
  }

  lemma TokenChange(g: Dag, done: set<nat>, liveTokens: seq<bool>, remaining: seq<nat>, v: nat)
    requires DagOk(g) && v < |g.deps| && v !in done && TokensAre(g, done, liveTokens, remaining)
    ensures RowOk(g.tokens[v], |g.weights|)
    ensures Sum(TokenCosts(g, done + {v})) ==
            Sum(TokenCosts(g, done)) + RowSum(g.tokens[v], Contributions(liveTokens, remaining, g.weights))
  {
    var old', next := TokenCosts(g, done), TokenCosts(g, done + {v});
    var c := Contributions(liveTokens, remaining, g.weights);
    assert RowOk(g.tokens[v], |g.weights|);
    forall t: nat | t < |g.weights| ensures next[t] == old'[t] + Pick(g.tokens[v], c)[t] {
      TokenLiveNext(g, done, v, t);
      WaitingNext(g, done, v, t);
    }
    SumPointwise(old', Pick(g.tokens[v], c), next);
    PickSum(g.tokens[v], c);
  }

  /** The cached formula is exactly the change of pressure the node's turn would bring. */
  lemma DeltaIsChange(g: Dag, done: set<nat>, live: seq<bool>, liveTokens: seq<bool>, remaining: seq<nat>, v: nat)
    requires DagOk(g) && UsersFirst(g, done) && Ready(g, done, v)
    requires LiveIs(g, done, live) && TokensAre(g, done, liveTokens, remaining)
    ensures Pressure(g, done + {v}) - Pressure(g, done) ==
            Delta(g, live, Contributions(liveTokens, remaining, g.weights), v)
  {
    ValueChange(g, done, live, v);
    TokenChange(g, done, liveTokens, remaining, v);
  }

  /** Nothing is live before the first and after the last node: the changes of a whole schedule add up to nothing. */
  lemma PressureAtEnds(g: Dag)
    requires DagOk(g)
    ensures Pressure(g, {}) == 0 && Pressure(g, Below(|g.deps|)) == 0
  {
    SumZero(ValueCosts(g, {}));
    SumZero(TokenCosts(g, {}));
    SumZero(ValueCosts(g, Below(|g.deps|)));
    forall t: nat | t < |g.weights| ensures !TokenLive(g, Below(|g.deps|), t) {
      assert Waiting(g, Below(|g.deps|), t) == {};
    }
    SumZero(TokenCosts(g, Below(|g.deps|)));
  }

  // ------------------------------------------------------------ greedy schedules

  function Before(reverse: seq<nat>, k: nat): (done: set<nat>)
    requires k <= |reverse|
  {
    set i | 0 <= i < k :: reverse[i]
  }

  /**
    Taking `v` next is better than taking `c`: it leaves no more pressure; for the same pressure it has the longer
    way to the end, then the longer way from the start, then the larger number.
   */
  ghost predicate Better(g: Dag, done: set<nat>, exit: seq<nat>, entry: seq<nat>, v: nat, c: nat)
    requires v < |exit| == |entry| && c < |exit|
  {
    var after, other := Pressure(g, done + {v}), Pressure(g, done + {c});
    && after <= other
    && (after == other ==> exit[v] >= exit[c])
    && (after == other && exit[v] == exit[c] ==> entry[v] >= entry[c])
    && (after == other && exit[v] == exit[c] && entry[v] == entry[c] ==> v > c)
  }

  /** Bottom up, each node is ready, and better than every other ready node. */
  ghost predicate GreedyAt(g: Dag, exit: seq<nat>, entry: seq<nat>, reverse: seq<nat>, k: nat)
    requires k < |reverse| && |exit| == |entry| == |g.deps|
  {
    var done := Before(reverse, k);
    && Ready(g, done, reverse[k])
    && forall c: nat :: Ready(g, done, c) && c != reverse[k] ==> Better(g, done, exit, entry, reverse[k], c)
  }

  ghost predicate Greedy(g: Dag, exit: seq<nat>, entry: seq<nat>, reverse: seq<nat>) {
    && |exit| == |entry| == |g.deps|
    && forall k: nat :: k < |reverse| ==> GreedyAt(g, exit, entry, reverse, k)
  }
}
