/** Input validation, reversed rows, topological depths, and the queue of ready nodes with cached priorities. */
module DagQueue {
  import opened CfgErrors
  import opened Finite
  import opened DagSpec

  datatype DagError =
    | Shape | InvalidNode | InvalidToken | DuplicateDependency | DuplicateToken | ValueIsNotDependency | Cycle

  // ------------------------------------------------------------ validation

  /** What is reported for a row: its first entry that is out of range, or not above the one before. */
  ghost predicate RowFault(row: seq<nat>, n: nat, invalid: DagError, duplicate: DagError, e: DagError) {
    exists i :: 0 <= i < |row| && RowOk(row[..i], n) && EntryFault(row, n, invalid, duplicate, e, i)
  }

  predicate EntryFault(row: seq<nat>, n: nat, invalid: DagError, duplicate: DagError, e: DagError, i: nat)
    requires i < |row|
  {
    if row[i] >= n then e == invalid else i > 0 && row[i - 1] >= row[i] && e == duplicate
  }

  /** The first faulty row decides. */
  ghost predicate RowsFault(rows: Rows, n: nat, invalid: DagError, duplicate: DagError, e: DagError) {
    exists u :: 0 <= u < |rows| && RowsOk(rows[..u], n) && RowFault(rows[u], n, invalid, duplicate, e)
  }

  /**
    Before user `u` all tokens are in order and all values are dependencies; its tokens, or else its values, are not.
   */
  ghost predicate UserFault(g: Dag, e: DagError, u: nat)
    requires |g.vals| == |g.tokens| == |g.deps| && u < |g.deps|
  {
    && RowsOk(g.tokens[..u], |g.weights|) && (forall x :: 0 <= x < u ==> Subrow(g.vals[x], g.deps[x]))
    && if RowOk(g.tokens[u], |g.weights|) then !Subrow(g.vals[u], g.deps[u]) && e == ValueIsNotDependency
       else RowFault(g.tokens[u], |g.weights|, InvalidToken, DuplicateToken, e)
  }

  /** Hard edges are checked first, then value edges, then the shape, then tokens and values user by user. */
  ghost predicate Fault(g: Dag, e: DagError) {
    if !RowsOk(g.deps, |g.deps|) then RowsFault(g.deps, |g.deps|, InvalidNode, DuplicateDependency, e)
    else if !RowsOk(g.vals, |g.vals|) then RowsFault(g.vals, |g.vals|, InvalidNode, DuplicateDependency, e)
    else if |g.vals| != |g.deps| || |g.tokens| != |g.deps| then e == Shape
    else exists u: nat :: u < |g.deps| && UserFault(g, e, u)
  }

  method ValidateRow(row: seq<nat>, n: nat, invalid: DagError, duplicate: DagError) returns (fault: Option<DagError>)
    ensures fault.None? <==> RowOk(row, n)
    ensures fault.Some? ==> RowFault(row, n, invalid, duplicate, fault.value)
  {
    for i := 0 to |row|
      invariant RowOk(row[..i], n)
    {
      if row[i] >= n {
        assert EntryFault(row, n, invalid, duplicate, invalid, i);
        return Some(invalid);
      }
      if i > 0 && row[i - 1] >= row[i] {
        assert EntryFault(row, n, invalid, duplicate, duplicate, i);
        return Some(duplicate);
      }
      assert row[..i + 1] == row[..i] + [row[i]];
    }
    assert row[..|row|] == row;
    return None;
  }

  method ValidateRows(rows: Rows, n: nat, invalid: DagError, duplicate: DagError) returns (fault: Option<DagError>)
    ensures fault.None? <==> RowsOk(rows, n)
    ensures fault.Some? ==> RowsFault(rows, n, invalid, duplicate, fault.value)
  {
    for i := 0 to |rows|
      invariant RowsOk(rows[..i], n)
    {
      fault := ValidateRow(rows[i], n, invalid, duplicate);
      if fault.Some? {
        return;
      }
      assert rows[..i + 1] == rows[..i] + [rows[i]];
    }
    assert rows[..|rows|] == rows;
    return None;
  }

  method Validate(g: Dag) returns (fault: Option<DagError>)
    ensures fault.None? <==> DagOk(g)
    ensures fault.Some? ==> Fault(g, fault.value)
  {
    fault := ValidateRows(g.deps, |g.deps|, InvalidNode, DuplicateDependency);
    if fault.Some? {
      return;
    }
    fault := ValidateRows(g.vals, |g.vals|, InvalidNode, DuplicateDependency);
    if fault.Some? {
      return;
    }
    if |g.vals| != |g.deps| || |g.tokens| != |g.deps| {
      return Some(Shape);
    }
    fault := ValidateUsers(g);
  }

  /** Tokens in range and in order, and values among the dependencies, user by user. */
  method ValidateUsers(g: Dag) returns (fault: Option<DagError>)
    requires |g.vals| == |g.tokens| == |g.deps|
    ensures fault.None? <==>
            RowsOk(g.tokens, |g.weights|) && forall u :: 0 <= u < |g.deps| ==> Subrow(g.vals[u], g.deps[u])
    ensures fault.Some? ==> exists u: nat :: u < |g.deps| && UserFault(g, fault.value, u)
  {
    for u := 0 to |g.deps|
      invariant RowsOk(g.tokens[..u], |g.weights|) && forall x :: 0 <= x < u ==> Subrow(g.vals[x], g.deps[x])
    {
      fault := ValidateRow(g.tokens[u], |g.weights|, InvalidToken, DuplicateToken);
      if fault.Some? {
        assert UserFault(g, fault.value, u);
        return;
      }
      if exists x :: x in g.vals[u] && x !in g.deps[u] {
        assert !Subrow(g.vals[u], g.deps[u]);
        assert UserFault(g, ValueIsNotDependency, u);
        return Some(ValueIsNotDependency);
      }
      assert g.tokens[..u + 1] == g.tokens[..u] + [g.tokens[u]];
    }
    assert g.tokens[..|g.deps|] == g.tokens;
    return None;
  }

  // ------------------------------------------------------------ reversed rows

  /** `users[d]` lists, in ascending order, the rows that contain `d`. */
  ghost predicate Inverted(rows: Rows, n: nat, users: Rows) {
    && n <= |rows|
    && (forall d: nat, u: nat :: d < |users| ==> (u in users[d] <==> Lists(rows, n, u, d)))
    && forall d :: 0 <= d < |users| ==> Ascending(users[d])
  }

  ghost predicate Lists(rows: Rows, n: nat, u: nat, d: nat)
    requires n <= |rows|
  {
    u < n && d in rows[u]
  }

  method AddUser(rows: Rows, u: nat, m: nat, users0: Rows) returns (users: Rows)
    requires u < |rows| && RowsOk(rows, m) && |users0| == m && Inverted(rows, u, users0)
    ensures |users| == m && Inverted(rows, u + 1, users)
  {
    users := users0;
    var row := rows[u];
    assert RowOk(row, m);
    for k := 0 to |row|
      invariant |users| == m
      invariant forall d: nat :: d < m ==> users[d] == users0[d] + if d in row[..k] then [u] else []
    {
      assert row[..k + 1] == row[..k] + [row[k]];
      assert row[k] !in row[..k];
      users := users[row[k] := users[row[k]] + [u]];
    }
    assert row[..|row|] == row;
    forall d: nat, x: nat | d < m ensures x in users[d] <==> Lists(rows, u + 1, x, d) {
      assert x in users0[d] <==> Lists(rows, u, x, d);
    }
    forall d: nat | d < m ensures Ascending(users[d]) {
      forall i: nat | i < |users0[d]| ensures users0[d][i] < u {
        assert users0[d][i] in users0[d];
        assert Lists(rows, u, users0[d][i], d);
      }
    }
  }

  method Invert(rows: Rows, m: nat) returns (users: Rows)
    requires RowsOk(rows, m)
    ensures |users| == m && Inverted(rows, |rows|, users)
  {
    users := seq(m, _ => []);
    for u := 0 to |rows|
      invariant |users| == m && Inverted(rows, u, users)
    {
      users := AddUser(rows, u, m, users);
    }
  }

  // ------------------------------------------------------------ topological order and depths

  /** One more than the deepest of the row, from 1 on; only `known` nodes of the row count. */
  ghost predicate DepthAt(row: seq<nat>, known: set<nat>, depth: seq<nat>, v: nat)
    requires v < |depth|
  {
    && depth[v] >= 1
    && (forall d :: d in row && d in known && d < |depth| ==> depth[v] >= depth[d] + 1)
    && (depth[v] == 1 || exists d :: d in row && d in known && d < |depth| && depth[v] == depth[d] + 1)
  }

  ghost predicate Depths(rows: Rows, known: set<nat>, depth: seq<nat>) {
    |depth| == |rows| && forall v: nat :: v < |depth| ==> DepthAt(rows[v], known, depth, v)
  }

  ghost function Pending(g: Dag, done: set<nat>, s: nat): set<nat>
    requires s < |g.deps|
  {
    set d | d in g.deps[s] && d !in done
  }

  /** A node's open dependencies, readiness and depth, when the nodes of `done` have been taken. */
  ghost predicate KahnAt(g: Dag, done: set<nat>, indegree: seq<nat>, ready: set<nat>, entry: seq<nat>, s: nat)
    requires s < |g.deps| && |indegree| == |entry| == |g.deps|
  {
    && indegree[s] == |Pending(g, done, s)|
    && (s in ready <==> s !in done && Pending(g, done, s) == {})
    && DepthAt(g.deps[s], done, entry, s)
  }

  ghost predicate Taken(g: Dag, order: seq<nat>, v: nat) {
    v < |g.deps| && Pending(g, Before(order, |order|), v) == {}
  }

  ghost predicate OrderOk(g: Dag, order: seq<nat>) {
    && (forall i, j :: 0 <= i < j < |order| ==> order[i] != order[j])
    && (forall v {:trigger Taken(g, order, v)} :: v in order ==> Taken(g, order, v))
    && Topological(g, order)
  }

  ghost predicate KahnInv(g: Dag, order: seq<nat>, indegree: seq<nat>, ready: set<nat>, entry: seq<nat>) {
    && |indegree| == |entry| == |g.deps| && OrderOk(g, order)
    && (forall s :: s in ready ==> s < |g.deps|)
    && forall s: nat {:trigger KahnAt(g, Before(order, |order|), indegree, ready, entry, s)} :: s < |g.deps| ==>
         KahnAt(g, Before(order, |order|), indegree, ready, entry, s)
  }

  lemma BeforeIs(order: seq<nat>)
    ensures forall v: nat :: v in Before(order, |order|) <==> v in order
  {
  }

  lemma BeforePush(order: seq<nat>, v: nat)
    ensures Before(order + [v], |order| + 1) == Before(order, |order|) + {v}
    ensures forall k :: 0 <= k <= |order| ==> Before(order + [v], k) == Before(order, k)
  {
    var next := order + [v];
    forall x: nat ensures x in Before(next, |order| + 1) <==> x in Before(order, |order|) + {v} {
      if x in Before(order, |order|) {
        var i :| 0 <= i < |order| && order[i] == x;
        assert next[i] == x;
      }
      if x == v {
        assert next[|order|] == x;
      }
    }
    forall k | 0 <= k <= |order| ensures Before(next, k) == Before(order, k) {
      forall x: nat ensures x in Before(next, k) <==> x in Before(order, k) {
        if x in Before(order, k) {
          var i :| 0 <= i < k && order[i] == x;
          assert next[i] == x;
        }
      }
    }
  }

  lemma PendingNext(g: Dag, done: set<nat>, v: nat, s: nat)
    requires s < |g.deps| && v !in done
    ensures v in g.deps[s] ==> v in Pending(g, done, s) && Pending(g, done + {v}, s) == Pending(g, done, s) - {v}
    ensures v in g.deps[s] ==> |Pending(g, done, s)| > 0 && |Pending(g, done + {v}, s)| == |Pending(g, done, s)| - 1
    ensures v !in g.deps[s] ==> Pending(g, done + {v}, s) == Pending(g, done, s)
  {
  }

  ghost function Known(done: set<nat>, node: nat, served: bool): set<nat> {
    if served then done + {node} else done
  }

  /** While the users of `node` are being served, a node counts it once it has been served. */
  ghost predicate AdvancedAt(g: Dag, done: set<nat>, node: nat, served: bool, indegree: seq<nat>, ready: set<nat>,
      entry: seq<nat>, s: nat)
    requires s < |g.deps| && |indegree| == |entry| == |g.deps|
  {
    && indegree[s] == |Pending(g, Known(done, node, served), s)|
    && (s in ready <==> s !in done && s != node && Pending(g, Known(done, node, served), s) == {})
    && DepthAt(g.deps[s], Known(done, node, served), entry, s)
  }

  ghost predicate Advanced(g: Dag, done: set<nat>, node: nat, served: seq<nat>, indegree: seq<nat>, ready: set<nat>,
      entry: seq<nat>) {
    && |indegree| == |entry| == |g.deps| && node < |g.deps|
    && (forall s :: s in ready ==> s < |g.deps|)
    && forall s: nat {:trigger AdvancedAt(g, done, node, s in served, indegree, ready, entry, s)} :: s < |g.deps| ==>
         AdvancedAt(g, done, node, s in served, indegree, ready, entry, s)
  }

  lemma DepthMore(row: seq<nat>, known: set<nat>, depth: seq<nat>, v: nat, node: nat, x: nat)
    requires v < |depth| && node < |depth| && node in row && node !in known && v != node && v !in known
    requires DepthAt(row, known, depth, v) && x == (if depth[node] + 1 > depth[v] then depth[node] + 1 else depth[v])
    ensures DepthAt(row, known + {node}, depth[v := x], v)
  {
    var next := depth[v := x];
    if x == depth[node] + 1 {
      assert node in row && node in known + {node} && next[v] == next[node] + 1;
    } else if depth[v] != 1 {
      var d :| d in row && d in known && d < |depth| && depth[v] == depth[d] + 1;
      assert d in known + {node} && next[v] == next[d] + 1;
    }
  }

  lemma DepthOther(row: seq<nat>, known: set<nat>, depth: seq<nat>, v: nat, s: nat, x: nat)
    requires v < |depth| && s < |depth| && s != v && DepthAt(row, known, depth, v) && (s !in known || s !in row)
    ensures DepthAt(row, known, depth[s := x], v)
  {
    var next := depth[s := x];
    if depth[v] != 1 {
      var d :| d in row && d in known && d < |depth| && depth[v] == depth[d] + 1;
      assert next[v] == next[d] + 1;
    }
  }

  function Deeper(entry: seq<nat>, node: nat, s: nat): nat
    requires node < |entry| && s < |entry|
  {
    if entry[node] + 1 > entry[s] then entry[node] + 1 else entry[s]
  }

  lemma ServeThis(g: Dag, done: set<nat>, node: nat, indegree: seq<nat>, ready: set<nat>, entry: seq<nat>, s: nat)
    requires |indegree| == |entry| == |g.deps| && node < |g.deps| && s < |g.deps|
    requires AdvancedAt(g, done, node, false, indegree, ready, entry, s)
    requires s != node && s !in done && node in g.deps[s] && node !in done
    ensures indegree[s] > 0
    ensures AdvancedAt(g, done, node, true, indegree[s := indegree[s] - 1],
                       if indegree[s] == 1 then ready + {s} else ready, entry[s := Deeper(entry, node, s)], s)
  {
    PendingNext(g, done, node, s);
    CardZero(Pending(g, done + {node}, s));
    DepthMore(g.deps[s], done, entry, s, node, Deeper(entry, node, s));
  }

  lemma ServeOther(g: Dag, done: set<nat>, node: nat, served: bool, indegree: seq<nat>, ready: set<nat>,
      entry: seq<nat>, s: nat, x: nat)
    requires |indegree| == |entry| == |g.deps| && node < |g.deps| && s < |g.deps| && x < |g.deps| && x != s
    requires AdvancedAt(g, done, node, served, indegree, ready, entry, x)
    requires s != node && s !in done && indegree[s] > 0
    ensures AdvancedAt(g, done, node, served, indegree[s := indegree[s] - 1],
                       if indegree[s] == 1 then ready + {s} else ready, entry[s := Deeper(entry, node, s)], x)
  {
    DepthOther(g.deps[x], Known(done, node, served), entry, x, s, Deeper(entry, node, s));
  }

  lemma ServeOne(g: Dag, done: set<nat>, node: nat, served: seq<nat>, indegree: seq<nat>, ready: set<nat>,
      entry: seq<nat>, s: nat)
    requires Advanced(g, done, node, served, indegree, ready, entry)
    requires s < |g.deps| && s !in served && s != node && s !in done && node in g.deps[s] && node !in done
    ensures indegree[s] > 0
    ensures Advanced(g, done, node, served + [s], indegree[s := indegree[s] - 1],
                     if indegree[s] == 1 then ready + {s} else ready, entry[s := Deeper(entry, node, s)])
  {
    var more, entry' := served + [s], entry[s := Deeper(entry, node, s)];
    assert AdvancedAt(g, done, node, s in served, indegree, ready, entry, s);
    ServeThis(g, done, node, indegree, ready, entry, s);
    var indegree', ready' := indegree[s := indegree[s] - 1], if indegree[s] == 1 then ready + {s} else ready;
    forall x: nat | x < |g.deps| ensures AdvancedAt(g, done, node, x in more, indegree', ready', entry', x) {
      if x != s {
        assert x in more <==> x in served;
        assert AdvancedAt(g, done, node, x in served, indegree, ready, entry, x);
        ServeOther(g, done, node, x in served, indegree, ready, entry, s, x);
      }
    }
  }

  /** The next user of `node` is open: it waits for `node` itself. */
  lemma UserIsOpen(g: Dag, users: Rows, order: seq<nat>, node: nat, k: nat)
    requires |users| == |g.deps| && Inverted(g.deps, |g.deps|, users) && OrderOk(g, order)
    requires node < |g.deps| && node !in order && Pending(g, Before(order, |order|), node) == {} && k < |users[node]|
    ensures var s := users[node][k];
            s < |g.deps| && s != node && s !in Before(order, |order|) && node in g.deps[s] && s !in users[node][..k]
    ensures node !in Before(order, |order|)
  {
    var s := users[node][k];
    BeforeIs(order);
    assert s in users[node];
    assert Lists(g.deps, |g.deps|, s, node);
    assert node in Pending(g, Before(order, |order|), s);
    assert s in order ==> Taken(g, order, s);
  }

  /** Serves every user of `node`: one dependency less, and a deeper entry. */
  method Serve(g: Dag, users: Rows, ghost order: seq<nat>, node: nat, indegree0: seq<nat>, ready0: set<nat>,
      entry0: seq<nat>)
    returns (indegree: seq<nat>, ready: set<nat>, entry: seq<nat>)
    requires |users| == |g.deps| && Inverted(g.deps, |g.deps|, users) && OrderOk(g, order)
    requires Advanced(g, Before(order, |order|), node, [], indegree0, ready0, entry0)
    requires node < |g.deps| && node !in order && Pending(g, Before(order, |order|), node) == {}
    ensures Advanced(g, Before(order, |order|), node, users[node], indegree, ready, entry)
  {
    indegree, ready, entry := indegree0, ready0, entry0;
    ghost var done := Before(order, |order|);
    var row := users[node];
    for k := 0 to |row|
      invariant Advanced(g, done, node, row[..k], indegree, ready, entry)
    {
      var s := row[k];
      UserIsOpen(g, users, order, node, k);
      ServeOne(g, done, node, row[..k], indegree, ready, entry, s);
      assert row[..k + 1] == row[..k] + [s];
      entry := entry[s := Deeper(entry, node, s)];
      indegree := indegree[s := indegree[s] - 1];
      if indegree[s] == 0 {
        ready := ready + {s};
      }
    }
    assert row[..|row|] == row;
  }

  lemma NewestNeeded(g: Dag, order: seq<nat>, node: nat, i: nat, j: nat)
    requires OrderOk(g, order) && i < |order| + 1 && j < |order| + 1
    requires Needs(g, (order + [node])[j], (order + [node])[i]) && node !in g.deps[(order + [node])[j]]
    ensures i < j
  {
  }

  /** Taking a node without open dependencies keeps the order topological. */
  lemma TakeKeepsOrder(g: Dag, order: seq<nat>, node: nat)
    requires OrderOk(g, order) && node < |g.deps| && node !in order && Pending(g, Before(order, |order|), node) == {}
    ensures OrderOk(g, order + [node])
  {
    var next := order + [node];
    BeforeIs(order);
    BeforePush(order, node);
    forall v | v in next ensures v < |g.deps| && node !in g.deps[v] {
      assert v in order ==> Taken(g, order, v);
      assert v < |g.deps|;
      PendingNext(g, Before(order, |order|), node, v);
    }
    forall i, j | 0 <= i < |next| && 0 <= j < |next| && Needs(g, next[j], next[i]) ensures i < j {
      assert next[j] in next;
      NewestNeeded(g, order, node, i, j);
    }
    forall v | v in next ensures Taken(g, next, v) {
      assert v in order ==> Taken(g, order, v);
      PendingNext(g, Before(order, |order|), node, v);
    }
  }

  lemma ServedAt(g: Dag, users: Rows, done: set<nat>, node: nat, indegree: seq<nat>, ready: set<nat>, entry: seq<nat>,
      s: nat)
    requires |users| == |g.deps| && Inverted(g.deps, |g.deps|, users) && node !in done
    requires |indegree| == |entry| == |g.deps| && node < |g.deps| && s < |g.deps|
    requires AdvancedAt(g, done, node, s in users[node], indegree, ready, entry, s)
    ensures KahnAt(g, done + {node}, indegree, ready, entry, s)
  {
    assert s in users[node] <==> Lists(g.deps, |g.deps|, s, node);
    PendingNext(g, done, node, s);
  }

  lemma KahnNext(g: Dag, users: Rows, order: seq<nat>, node: nat, indegree: seq<nat>, ready: set<nat>, entry: seq<nat>)
    requires |users| == |g.deps| && Inverted(g.deps, |g.deps|, users) && OrderOk(g, order)
    requires node < |g.deps| && node !in order && Pending(g, Before(order, |order|), node) == {}
    requires Advanced(g, Before(order, |order|), node, users[node], indegree, ready, entry)
    ensures KahnInv(g, order + [node], indegree, ready, entry)
  {
    var done := Before(order, |order|);
    BeforeIs(order);
    BeforePush(order, node);
    TakeKeepsOrder(g, order, node);
    forall s: nat | s < |g.deps| ensures KahnAt(g, done + {node}, indegree, ready, entry, s) {
      assert AdvancedAt(g, done, node, s in users[node], indegree, ready, entry, s);
      ServedAt(g, users, done, node, indegree, ready, entry, s);
    }
  }

  lemma RowCard(row: seq<nat>, n: nat, s: set<nat>)
    requires RowOk(row, n) && forall x: nat :: x in s <==> x in row
    ensures |s| == |row|
  {
    var listed := set x: nat | x in row;
    DistinctCard(row);
    assert s == listed;
  }

  /** With nothing ready, what is left waits for itself. */
  lemma LeftIsStuck(g: Dag, order: seq<nat>, indegree: seq<nat>, entry: seq<nat>, u: nat)
    requires DagOk(g) && KahnInv(g, order, indegree, {}, entry) && u < |g.deps| && u !in order
    ensures NeedsWithin(g, Below(|g.deps|) - Before(order, |order|), u)
  {
    var done := Before(order, |order|);
    BeforeIs(order);
    assert KahnAt(g, done, indegree, {}, entry, u);
    var d :| d in Pending(g, done, u);
    assert RowOk(g.deps[u], |g.deps|);
    var k :| 0 <= k < |g.deps[u]| && g.deps[u][k] == d;
    assert d in Below(|g.deps|) - done && Needs(g, u, d);
  }

  lemma LeftOver(g: Dag, order: seq<nat>, indegree: seq<nat>, entry: seq<nat>)
    requires DagOk(g) && KahnInv(g, order, indegree, {}, entry) && |order| != |g.deps|
    ensures Cyclic(g)
  {
    var stuck := Below(|g.deps|) - Before(order, |order|);
    BeforeIs(order);
    forall u | u in stuck ensures u < |g.deps| && NeedsWithin(g, stuck, u) {
      LeftIsStuck(g, order, indegree, entry, u);
    }
    NotAllTaken(g, order);
    var v :| v in stuck;
    StuckIsCyclic(g, stuck, v);
  }

  lemma NotAllTaken(g: Dag, order: seq<nat>)
    requires OrderOk(g, order) && |order| != |g.deps|
    ensures Below(|g.deps|) - Before(order, |order|) != {}
  {
    BeforeIs(order);
    var listed := set x: nat | x in order;
    DistinctCard(order);
    forall v: nat | v in listed ensures v in Below(|g.deps|) {
      assert Taken(g, order, v);
    }
    SubsetCard(listed, Below(|g.deps|));
    assert |listed| < |Below(|g.deps|)|;
    Outsider(listed, Below(|g.deps|));
    var u :| u in Below(|g.deps|) && u !in listed;
    assert u in Below(|g.deps|) - Before(order, |order|);
  }

  lemma Outsider(a: set<nat>, b: set<nat>)
    requires a <= b && |a| < |b|
    ensures exists u :: u in b && u !in a
  {
    assert b == a + (b - a);
    CardZero(b - a);
    var u :| u in b - a;
  }

  lemma AllTaken(g: Dag, order: seq<nat>)
    requires OrderOk(g, order) && |order| == |g.deps|
    ensures IsPermutation(order, |g.deps|) && Before(order, |order|) == Below(|g.deps|)
  {
    var listed := set x: nat | x in order;
    DistinctCard(order);
    forall v | v in listed ensures v in Below(|g.deps|) {
      assert Taken(g, order, v);
    }
    SubsetCard(listed, Below(|g.deps|));
    SameMembers(order, listed, |g.deps|);
    BeforeIs(order);
  }

  lemma SameMembers(order: seq<nat>, listed: set<nat>, n: nat)
    requires listed == Below(n) && listed == set x: nat | x in order
    ensures forall v: nat :: v in order <==> v < n
  {
    forall v: nat ensures v in order <==> v < n {
      assert v in listed <==> v in Below(n);
    }
  }

  lemma OrderComplete(g: Dag, order: seq<nat>, indegree: seq<nat>, entry: seq<nat>)
    requires DagOk(g) && KahnInv(g, order, indegree, {}, entry) && |order| == |g.deps|
    ensures IsPermutation(order, |g.deps|) && Depths(g.deps, Below(|g.deps|), entry)
  {
    AllTaken(g, order);
    forall v: nat | v < |g.deps| ensures DepthAt(g.deps[v], Below(|g.deps|), entry, v) {
      assert KahnAt(g, Before(order, |order|), indegree, {}, entry, v);
    }
  }

  /** The smallest element, as an ordered set pops it. */
  method PopFirst(s: set<nat>) returns (x: nat)
    requires s != {}
    ensures x in s && forall y :: y in s ==> x <= y
  {
    x :| x in s;
    var rest := s - {x};
    while rest != {}
      invariant x in s && rest <= s && forall y :: y in s && y !in rest ==> x <= y
      decreases |rest|
    {
      var y :| y in rest;
      if y < x {
        x := y;
      }
      rest := rest - {y};
    }
  }

  lemma KahnStart(g: Dag, indegree: seq<nat>, ready: set<nat>, entry: seq<nat>)
    requires DagOk(g) && |indegree| == |entry| == |g.deps|
    requires forall s :: 0 <= s < |g.deps| ==> indegree[s] == |g.deps[s]| && entry[s] == 1
    requires forall s: nat :: s in ready <==> s < |g.deps| && indegree[s] == 0
    ensures KahnInv(g, [], indegree, ready, entry)
  {
    assert Before([], 0) == {};
    forall s: nat | s < |g.deps| ensures KahnAt(g, {}, indegree, ready, entry, s) {
      assert RowOk(g.deps[s], |g.deps|);
      RowCard(g.deps[s], |g.deps|, Pending(g, {}, s));
      CardZero(Pending(g, {}, s));
    }
  }

  lemma KahnTake(g: Dag, order: seq<nat>, indegree: seq<nat>, ready: set<nat>, entry: seq<nat>, node: nat)
    requires KahnInv(g, order, indegree, ready, entry) && node in ready
    ensures Advanced(g, Before(order, |order|), node, [], indegree, ready - {node}, entry)
    ensures node !in order && node < |g.deps| && Pending(g, Before(order, |order|), node) == {}
  {
    var done := Before(order, |order|);
    BeforeIs(order);
    assert KahnAt(g, done, indegree, ready, entry, node);
    forall s: nat | s < |g.deps| ensures AdvancedAt(g, done, node, s in [], indegree, ready - {node}, entry, s) {
      assert KahnAt(g, done, indegree, ready, entry, s);
    }
  }

  /** A forward order with entry depths, or the finding that the graph has a cycle. */
  method TopologicalOrder(g: Dag, users: Rows) returns (cyclic: bool, order: seq<nat>, entry: seq<nat>)
    requires DagOk(g) && |users| == |g.deps| && Inverted(g.deps, |g.deps|, users)
    ensures cyclic <==> Cyclic(g)
    ensures !cyclic ==> IsPermutation(order, |g.deps|) && Topological(g, order)
    ensures !cyclic ==> Depths(g.deps, Below(|g.deps|), entry)
  {
    ghost var last;
    order, entry, last := Kahn(g, users);
    if |order| != |g.deps| {
      LeftOver(g, order, last, entry);
      return true, [], [];
    }
    OrderComplete(g, order, last, entry);
    OrderedIsAcyclic(g, order);
    cyclic := false;
  }

  /** The worklist: takes the least ready node until none is left. */
  method Kahn(g: Dag, users: Rows) returns (order: seq<nat>, entry: seq<nat>, ghost last: seq<nat>)
    requires DagOk(g) && |users| == |g.deps| && Inverted(g.deps, |g.deps|, users)
    ensures KahnInv(g, order, last, {}, entry)
  {
    var n := |g.deps|;
    order, entry := [], seq(n, _ => 1);
    var indegree: seq<nat> := seq(n, s requires 0 <= s < n => |g.deps[s]|);
    var ready := set s: nat | s < n && indegree[s] == 0;
    KahnStart(g, indegree, ready, entry);
    while ready != {}
      invariant KahnInv(g, order, indegree, ready, entry)
      decreases n - |order|
    {
      var node := PopFirst(ready);
      KahnTake(g, order, indegree, ready, entry, node);
      NotFull(g, order, node);
      indegree, ready, entry := Serve(g, users, order, node, indegree, ready - {node}, entry);
      KahnNext(g, users, order, node, indegree, ready, entry);
      order := order + [node];
    }
    last := indegree;
  }

  lemma NotFull(g: Dag, order: seq<nat>, node: nat)
    requires OrderOk(g, order) && node !in order && node < |g.deps|
    ensures |order| < |g.deps|
  {
    var more := order + [node];
    forall k | 0 <= k < |more| ensures more[k] < |g.deps| {
      if k < |order| {
        assert Taken(g, order, order[k]);
      }
    }
    Pigeonhole(more, |g.deps|);
  }

  // ------------------------------------------------------------ exit depths

  /** Depths counted from the end; the nodes of `order` from `k` on have been pushed to what they need. */
  method ExitDepths(g: Dag, users: Rows, order: seq<nat>) returns (exit: seq<nat>)
    requires DagOk(g) && |users| == |g.deps| && Inverted(g.deps, |g.deps|, users)
    requires IsPermutation(order, |g.deps|) && Topological(g, order)
    ensures Depths(users, Below(|g.deps|), exit)
  {
    var n := |g.deps|;
    exit := seq(n, _ => 1);
    var k := n;
    while k > 0
      invariant 0 <= k <= n && Depths(users, From(order, k), exit)
    {
      k := k - 1;
      exit := PushExit(g, users, order, k, exit);
    }
    AllFrom(order, n);
  }

  ghost function From(order: seq<nat>, k: nat): set<nat>
    requires k <= |order|
  {
    set i | k <= i < |order| :: order[i]
  }

  lemma AllFrom(order: seq<nat>, n: nat)
    requires IsPermutation(order, n)
    ensures From(order, 0) == Below(n)
  {
    forall v: nat ensures v in From(order, 0) <==> v in Below(n) {
      assert v in order <==> v < n;
      if v in order {
        var i :| 0 <= i < |order| && order[i] == v;
        assert order[i] in From(order, 0);
      }
    }
  }

  /** Exit depths while `node` is being pushed to what it needs; those in `pushed` count it. */
  ghost predicate ExitsAfter(users: Rows, known: set<nat>, node: nat, pushed: seq<nat>, exit: seq<nat>) {
    && |exit| == |users|
    && forall v: nat {:trigger ExitAt(users, known, node, v in pushed, exit, v)} :: v < |exit| ==>
         ExitAt(users, known, node, v in pushed, exit, v)
  }

  ghost predicate ExitAt(users: Rows, known: set<nat>, node: nat, pushed: bool, exit: seq<nat>, v: nat)
    requires v < |exit| == |users|
  {
    DepthAt(users[v], Known(known, node, pushed), exit, v)
  }

  lemma ExitMore(users: Rows, known: set<nat>, node: nat, pushed: seq<nat>, exit: seq<nat>, d: nat)
    requires ExitsAfter(users, known, node, pushed, exit) && d < |exit| && node < |exit|
    requires d !in pushed && d != node && d !in known && node !in known && node in users[d]
    ensures ExitsAfter(users, known, node, pushed + [d], exit[d := Deeper(exit, node, d)])
  {
    var more, next := pushed + [d], exit[d := Deeper(exit, node, d)];
    assert ExitAt(users, known, node, d in pushed, exit, d);
    DepthMore(users[d], known, exit, d, node, Deeper(exit, node, d));
    forall v: nat | v < |exit| ensures ExitAt(users, known, node, v in more, next, v) {
      if v != d {
        assert v in more <==> v in pushed;
        assert ExitAt(users, known, node, v in pushed, exit, v);
        DepthOther(users[v], Known(known, node, v in pushed), exit, v, d, Deeper(exit, node, d));
      }
    }
  }

  method PushExit(g: Dag, users: Rows, order: seq<nat>, k: nat, exit0: seq<nat>) returns (exit: seq<nat>)
    requires DagOk(g) && |users| == |g.deps| && Inverted(g.deps, |g.deps|, users)
    requires IsPermutation(order, |g.deps|) && Topological(g, order) && k < |order|
    requires Depths(users, From(order, k + 1), exit0)
    ensures Depths(users, From(order, k), exit)
  {
    var node := order[k];
    assert node in order;
    exit := exit0;
    ghost var known := From(order, k + 1);
    var row := g.deps[node];
    assert RowOk(row, |g.deps|);
    forall v: nat | v < |exit| ensures ExitAt(users, known, node, v in row[..0], exit, v) {
      assert DepthAt(users[v], known, exit, v);
    }
    for l := 0 to |row|
      invariant ExitsAfter(users, known, node, row[..l], exit)
    {
      var d := row[l];
      assert d in row && Needs(g, node, d) && d !in row[..l];
      BeforeInOrder(g, order, k, d);
      assert node in users[d] <==> Lists(g.deps, |g.deps|, node, d);
      ExitMore(users, known, node, row[..l], exit, d);
      assert row[..l + 1] == row[..l] + [d];
      exit := exit[d := Deeper(exit, node, d)];
    }
    assert row[..|row|] == row;
    assert From(order, k) == known + {node};
    forall v: nat | v < |exit| ensures DepthAt(users[v], known + {node}, exit, v) {
      assert ExitAt(users, known, node, v in row, exit, v);
      assert node in users[v] <==> Lists(g.deps, |g.deps|, node, v);
    }
  }

  /** What a node needs comes before it, so it is not among the nodes from there on. */
  lemma BeforeInOrder(g: Dag, order: seq<nat>, k: nat, d: nat)
    requires IsPermutation(order, |g.deps|) && Topological(g, order) && k < |order| && Needs(g, order[k], d)
    requires d < |g.deps|
    ensures d != order[k] && d !in From(order, k + 1) && order[k] !in From(order, k + 1)
  {
    assert d in order;
    var i :| 0 <= i < |order| && order[i] == d;
    assert i < k;
  }
}
