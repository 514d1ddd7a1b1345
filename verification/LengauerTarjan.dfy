/** Lengauer-Tarjan immediate dominators with a path-compressing forest. */
module LengauerTarjan {
  import opened Graph
  import opened DfsTheory
  import opened Numbering
  import opened CfgErrors

  // ------------------------------------------------------------ the link forest

  /** `ancestor` is a proper tree ancestor of `v`, everything between them is
      linked, and `best` has the least `semi` there. */
  ghost predicate LinkOk(t: Dfs, ancestor: nat, best: nat, semi: seq<nat>, linked: nat, v: nat) {
    && |semi| == |t.h| && 1 <= ancestor < v && Anc(t, ancestor, v)
    && Anc(t, best, v) && ancestor < best < |semi|
    && forall x: nat :: Anc(t, x, v) && ancestor < x ==> linked <= x < |semi| && semi[best] <= semi[x]
  }

  /** Exactly the numbers from `linked` up have been linked. */
  ghost predicate Forest(t: Dfs, ancestor: seq<nat>, labels: seq<nat>, semi: seq<nat>, linked: nat) {
    && |ancestor| == |labels| == |semi| == |t.h|
    && (forall v :: 0 <= v < |ancestor| && v < linked ==> ancestor[v] == 0 && labels[v] == v)
    && forall v {:trigger LinkOk(t, ancestor[v], labels[v], semi, linked, v)} :: 0 <= v < |ancestor| && linked <= v ==>
         LinkOk(t, ancestor[v], labels[v], semi, linked, v)
  }

  lemma Compress(t: Dfs, a: nat, l: nat, pa: nat, pl: nat, semi: seq<nat>, linked: nat, v: nat)
    requires ValidDfs(t) && LinkOk(t, a, l, semi, linked, v) && LinkOk(t, pa, pl, semi, linked, a)
    requires v < |t.h|
    ensures LinkOk(t, pa, if semi[pl] < semi[l] then pl else l, semi, linked, v)
  {
    AncTrans(t, pa, a, v);
    AncTrans(t, pl, a, v);
    AncBounds(t, l, v);
    forall x: nat | Anc(t, x, v) && pa < x
      ensures linked <= x < |semi| && (semi[pl] <= semi[x] || semi[l] <= semi[x])
    {
      if x <= a {
        assert Anc(t, x, a);
      }
    }
  }

  lemma CompressForest(t: Dfs, ancestor: seq<nat>, labels: seq<nat>, semi: seq<nat>, linked: nat, v: nat)
    requires ValidDfs(t) && Forest(t, ancestor, labels, semi, linked)
    requires linked <= v < |t.h| && linked <= ancestor[v] < |t.h|
    ensures labels[v] < |semi| && labels[ancestor[v]] < |semi|
    ensures Forest(t, ancestor[v := ancestor[ancestor[v]]],
                   labels[v := if semi[labels[ancestor[v]]] < semi[labels[v]] then labels[ancestor[v]] else labels[v]],
                   semi, linked)
  {
    var a := ancestor[v];
    assert LinkOk(t, ancestor[v], labels[v], semi, linked, v);
    assert LinkOk(t, ancestor[a], labels[a], semi, linked, a);
    Compress(t, a, labels[v], ancestor[a], labels[a], semi, linked, v);
  }

  /** What `Eval` answers: the value itself below `linked`, else the best of its linked ancestors. */
  ghost predicate IsBest(t: Dfs, semi: seq<nat>, linked: nat, value: nat, r: nat) {
    && r < |semi| && (value < linked ==> r == value)
    && (linked <= value ==> Anc(t, r, value) && linked <= r)
    && (linked <= value ==> forall x: nat :: Anc(t, x, value) && linked <= x < |semi| ==> semi[r] <= semi[x])
  }

  /** The vertices from `value` up to one just below the top of its linked forest path. */
  ghost predicate IsChain(ancestor: seq<nat>, linked: nat, chain: seq<nat>) {
    && (forall i :: 0 <= i < |chain| ==> linked <= chain[i] < |ancestor|)
    && forall i, j :: 0 <= i && j == i + 1 && j < |chain| ==> ancestor[chain[i]] == chain[j]
  }

  /** A link leads to a linked vertex exactly when the path goes on from there. */
  lemma TopIsLinked(t: Dfs, ancestor: seq<nat>, labels: seq<nat>, semi: seq<nat>, linked: nat, v: nat)
    requires ValidDfs(t) && 2 <= linked <= v < |t.h| && Forest(t, ancestor, labels, semi, linked)
    ensures 0 < ancestor[v] < |t.h| && (linked <= ancestor[v] <==> ancestor[ancestor[v]] != 0)
    ensures ancestor[v] < v
  {
    assert LinkOk(t, ancestor[v], labels[v], semi, linked, v);
    if linked <= ancestor[v] {
      assert LinkOk(t, ancestor[ancestor[v]], labels[ancestor[v]], semi, linked, ancestor[v]);
    }
  }

  /** The first loop of `Eval`: the path to compress, ending just below the top. */
  method CollectPath(value: nat, ancestor: array<nat>, labels: array<nat>, semi: seq<nat>, ghost t: Dfs,
      ghost linked: nat)
    returns (path: seq<nat>, ghost chain: seq<nat>)
    requires ValidDfs(t) && linked <= value < |t.h| && 2 <= linked
    requires Forest(t, ancestor[..], labels[..], semi, linked)
    ensures |chain| == |path| + 1 && path == chain[..|path|] && chain[0] == value
    ensures IsChain(ancestor[..], linked, chain)
    ensures LinkOk(t, ancestor[..][chain[|path|]], labels[..][chain[|path|]], semi, linked, chain[|path|])
    ensures ancestor[..][chain[|path|]] < linked
  {
    path := [];
    var current := value;
    chain := [value];
    assert LinkOk(t, ancestor[..][value], labels[..][value], semi, linked, value);
    TopIsLinked(t, ancestor[..], labels[..], semi, linked, value);
    while ancestor[current] != 0 && ancestor[ancestor[current]] != 0
      invariant linked <= current < |t.h| && chain == path + [current] && chain[0] == value
      invariant IsChain(ancestor[..], linked, chain)
      invariant LinkOk(t, ancestor[..][current], labels[..][current], semi, linked, current)
      invariant ancestor[..][current] < |t.h|
      invariant (linked <= ancestor[..][current] <==> ancestor[..][ancestor[..][current]] != 0)
      decreases current
    {
      var next := ancestor[current];
      assert LinkOk(t, ancestor[..][next], labels[..][next], semi, linked, next);
      TopIsLinked(t, ancestor[..], labels[..], semi, linked, next);
      path := path + [current];
      current := next;
      chain := chain + [next];
    }
  }

  /** One turn of the second loop of `Eval`. */
  method CompressOne(node: nat, ancestor: array<nat>, labels: array<nat>, semi: seq<nat>, ghost t: Dfs,
      ghost linked: nat)
    requires ValidDfs(t) && 2 <= linked <= node < |t.h| && ancestor != labels
    requires Forest(t, ancestor[..], labels[..], semi, linked)
    requires linked <= ancestor[..][node] < |t.h| == ancestor.Length
    modifies ancestor, labels
    ensures Forest(t, ancestor[..], labels[..], semi, linked)
    ensures ancestor.Length == |t.h| && ancestor[..] == old(ancestor[..])[node := old(ancestor[ancestor[node]])]
  {
    TopIsLinked(t, ancestor[..], labels[..], semi, linked, node);
    var parent := ancestor[node];
    CompressForest(t, ancestor[..], labels[..], semi, linked, node);
    ghost var ancestor0, labels0 := ancestor[..], labels[..];
    if semi[labels[parent]] < semi[labels[node]] {
      labels[node] := labels[parent];
    }
    ancestor[node] := ancestor[parent];
    assert ancestor[..] == ancestor0[node := ancestor0[parent]];
    assert labels[..] == labels0[node := labels[node]];
  }

  /** Find the vertex of least `semi` among the linked ancestors, compressing the path. */
  method Eval(value: nat, ancestor: array<nat>, labels: array<nat>, semi: seq<nat>,
              ghost t: Dfs, ghost linked: nat)
    returns (r: nat)
    requires ValidDfs(t) && 1 <= value < |t.h| && 2 <= linked && ancestor != labels
    requires Forest(t, ancestor[..], labels[..], semi, linked)
    modifies ancestor, labels
    ensures Forest(t, ancestor[..], labels[..], semi, linked)
    ensures IsBest(t, semi, linked, value, r)
  {
    if ancestor[value] == 0 {
      assert labels[..][value] == value || linked <= value;
      assert LinkOk(t, ancestor[..][value], labels[..][value], semi, linked, value) || value < linked;
      return labels[value];
    }
    assert linked <= value;
    ghost var chain;
    var path;
    path, chain := CollectPath(value, ancestor, labels, semi, t, linked);
    ChainDecreases(t, ancestor[..], labels[..], semi, linked, chain);
    var k := |path|;
    while k > 0
      invariant 0 <= k <= |path| && ancestor.Length == |t.h|
      invariant Forest(t, ancestor[..], labels[..], semi, linked)
      invariant forall i, j :: 0 <= i < k && j == i + 1 ==> ancestor[..][chain[i]] == chain[j]
      invariant ancestor[..][chain[k]] < linked
    {
      k := k - 1;
      assert ancestor[..][chain[k]] == chain[k + 1];
      CompressOne(path[k], ancestor, labels, semi, t, linked);
    }
    r := labels[value];
    assert LinkOk(t, ancestor[..][value], labels[..][value], semi, linked, value);
  }

  lemma {:induction false} ChainDecreases(t: Dfs, ancestor: seq<nat>, labels: seq<nat>, semi: seq<nat>, linked: nat,
      chain: seq<nat>)
    requires Forest(t, ancestor, labels, semi, linked)
    requires forall i :: 0 <= i < |chain| ==> linked <= chain[i] < |t.h|
    requires forall i, j :: 0 <= i && j == i + 1 && j < |chain| ==> ancestor[chain[i]] == chain[j]
    ensures forall i, j :: 0 <= i < j < |chain| ==> chain[j] < chain[i]
  {
    if |chain| > 1 {
      var n := |chain| - 1;
      ChainDecreases(t, ancestor, labels, semi, linked, chain[..n]);
      assert ancestor[chain[n - 1]] == chain[n];
      assert LinkOk(t, ancestor[chain[n - 1]], labels[chain[n - 1]], semi, linked, chain[n - 1]);
      forall i, j | 0 <= i < j < |chain| ensures chain[j] < chain[i] {
        if i < n - 1 {
          assert chain[..n][n - 1] < chain[..n][i];
        }
      }
    }
  }

  // ------------------------------------------------------------ semidominators

  ghost predicate PredecessorsOk(t: Dfs, preds: seq<seq<nat>>) {
    && |preds| == |t.h|
    && forall v: nat, w: nat :: w < |preds| ==> (v in preds[w] <==> Edge(t.h, v, w))
  }

  /** `semi` is final above `done` and still the identity up to it. */
  ghost predicate SemisAbove(t: Dfs, semi: seq<nat>, done: nat) {
    && |semi| == |t.h|
    && (forall w :: 0 <= w <= done && w < |semi| ==> semi[w] == w)
    && forall w: nat {:trigger IsSemi(t, semi[w], w)} :: done < w < |semi| ==> IsSemi(t, semi[w], w)
  }

  lemma SemiUnique(t: Dfs, s1: nat, s2: nat, w: nat)
    requires IsSemi(t, s1, w) && IsSemi(t, s2, w)
    ensures s1 == s2
  {
  }

  /** Nothing among the scanned predecessors of `w` beats `m`. */
  ghost predicate BestSoFar(t: Dfs, semi: seq<nat>, w: nat, m: nat, scanned: seq<nat>) {
    && |semi| == |t.h| && (m == w || Candidate(t, w, m))
    && forall v :: v in scanned && v < |semi| ==>
         (v < w ==> m <= v) && forall u: nat :: Anc(t, u, v) && w < u < |semi| ==> m <= semi[u]
  }

  /** One more scanned predecessor. */
  lemma BestStep(t: Dfs, semi: seq<nat>, block: nat, m: nat, scanned: seq<nat>, v: nat, representative: nat)
    requires ValidDfs(t) && 2 <= block < |t.h| && SemisAbove(t, semi, block) && Edge(t.h, v, block)
    requires BestSoFar(t, semi, block, m, scanned) && IsBest(t, semi, block + 1, v, representative)
    ensures
      var value := if representative == block then m else semi[representative];
      BestSoFar(t, semi, block, if value < m then value else m, scanned + [v])
  {
    AncBounds(t, 1, v);
    if representative > block {
      assert IsSemi(t, semi[representative], representative);
    }
    forall u: nat | Anc(t, u, v) ensures u <= v {
      AncBounds(t, u, v);
    }
  }

  method SemiOf(block: nat, preds: seq<nat>, ancestor: array<nat>, labels: array<nat>, semi: seq<nat>, ghost t: Dfs)
    returns (m: nat)
    requires ValidDfs(t) && 2 <= block < |t.h| && ancestor != labels
    requires SemisAbove(t, semi, block) && Forest(t, ancestor[..], labels[..], semi, block + 1)
    requires forall v: nat :: v in preds <==> Edge(t.h, v, block)
    modifies ancestor, labels
    ensures Forest(t, ancestor[..], labels[..], semi[block := m], block + 1)
    ensures IsSemi(t, m, block)
  {
    m := block;
    for i := 0 to |preds|
      invariant Forest(t, ancestor[..], labels[..], semi, block + 1)
      invariant BestSoFar(t, semi, block, m, preds[..i])
    {
      assert preds[i] in preds && Edge(t.h, preds[i], block);
      var representative := Eval(preds[i], ancestor, labels, semi, t, block + 1);
      var value := if representative == block then m else semi[representative];
      BestStep(t, semi, block, m, preds[..i], preds[i], representative);
      m := if value < m then value else m;
      assert preds[..i + 1] == preds[..i] + [preds[i]];
    }
    assert preds[..|preds|] == preds;
    SemiFromScan(t, semi, block, m, preds);
    ForestSemi(t, ancestor[..], labels[..], semi, block, m);
  }

  lemma SemiFromScan(t: Dfs, semi: seq<nat>, block: nat, m: nat, preds: seq<nat>)
    requires ValidDfs(t) && 2 <= block < |t.h| && SemisAbove(t, semi, block)
    requires forall v: nat :: v in preds <==> Edge(t.h, v, block)
    requires BestSoFar(t, semi, block, m, preds)
    ensures IsSemi(t, m, block)
  {
    assert Edge(t.h, t.par[block], block);
    assert t.par[block] in preds;
    forall c: nat | Candidate(t, block, c) ensures m <= c {
      if Edge(t.h, c, block) && c < block {
        assert c in preds;
      } else {
        var v: nat, u: nat :| Edge(t.h, v, block) && Anc(t, u, v) && block < u && IsSemi(t, c, u);
        assert v in preds;
        AncBounds(t, u, v);
        SemiUnique(t, c, semi[u], u);
      }
    }
    forall u: nat | block < u < |t.h| ensures HasSemi(t, u) {
      assert IsSemi(t, semi[u], u);
    }
    SemiRecurrence(t, block, m);
  }

  lemma ForestSemi(t: Dfs, ancestor: seq<nat>, labels: seq<nat>, semi: seq<nat>, block: nat, m: nat)
    requires ValidDfs(t) && Forest(t, ancestor, labels, semi, block + 1) && block < |semi|
    ensures Forest(t, ancestor, labels, semi[block := m], block + 1)
  {
    forall v | 0 <= v < |ancestor| && block + 1 <= v
      ensures LinkOk(t, ancestor[v], labels[v], semi[block := m], block + 1, v)
    {
      assert LinkOk(t, ancestor[v], labels[v], semi, block + 1, v);
    }
  }

  lemma Link(t: Dfs, ancestor: seq<nat>, labels: seq<nat>, semi: seq<nat>, block: nat)
    requires ValidDfs(t) && Forest(t, ancestor, labels, semi, block + 1) && 2 <= block < |semi|
    ensures Forest(t, ancestor[block := t.par[block]], labels, semi, block)
  {
    AncBounds(t, 1, block);
    AncBounds(t, 1, t.par[block]);
    forall x: nat | Anc(t, x, block) && t.par[block] < x ensures x == block {
      if x != block {
        AncBounds(t, x, t.par[block]);
      }
    }
    forall v | 0 <= v < |ancestor| && block < v
      ensures LinkOk(t, ancestor[v], labels[v], semi, block, v)
    {
      assert LinkOk(t, ancestor[v], labels[v], semi, block + 1, v);
    }
  }

  // ------------------------------------------------------------ buckets

  /** What draining a bucket records for `w`: the semidominator itself, or a
      vertex below it with a lower semidominator. */
  ghost predicate Relative(t: Dfs, semi: seq<nat>, w: nat, d: nat, done: nat) {
    && |semi| == |t.h| && w < |semi| && semi[w] < w
    && (forall x: nat :: Anc(t, x, w) && semi[w] < x ==> done < x)
    && if d == semi[w] then
         forall x: nat :: Anc(t, x, w) && semi[w] < x < |semi| ==> semi[w] <= semi[x]
       else
         && Anc(t, d, w) && semi[w] < d < |semi| && semi[d] < semi[w]
         && forall x: nat :: Anc(t, x, w) && semi[w] < x < |semi| ==> semi[d] <= semi[x]
  }

  /** The tree child of `semi[w]` above `w` has not been processed yet. */
  ghost predicate Waiting(t: Dfs, p: nat, w: nat, done: nat) {
    forall c: nat :: Anc(t, c, w) && c < |t.par| && t.par[c] == p && 2 <= c ==> c <= done
  }

  /** `w` sits in the bucket of its semidominator until it is drained. */
  ghost predicate Bucketed(t: Dfs, bucket: seq<seq<nat>>, semi: seq<nat>, p: nat, w: nat, done: nat) {
    done < w < |semi| && semi[w] == p && Waiting(t, p, w, done)
  }

  ghost predicate BucketMembers(t: Dfs, bucket: seq<seq<nat>>, semi: seq<nat>, done: nat) {
    forall p, w :: 0 <= p < |bucket| && w in bucket[p] ==> Bucketed(t, bucket, semi, p, w, done)
  }

  /** A processed number has been drained or is still in its bucket. */
  ghost predicate Resolved(t: Dfs, bucket: seq<seq<nat>>, semi: seq<nat>, d: nat, w: nat, done: nat) {
    && w < |semi| && semi[w] < |bucket|
    && if d == 0 then w in bucket[semi[w]] else Relative(t, semi, w, d, done)
  }

  ghost predicate Buckets(t: Dfs, bucket: seq<seq<nat>>, semi: seq<nat>, idom: seq<nat>, done: nat) {
    && |bucket| == |semi| == |idom| == |t.h| == |t.par|
    && BucketMembers(t, bucket, semi, done)
    && (forall w :: 0 <= w < |idom| && w <= done ==> idom[w] == 0)
    && forall w: nat {:trigger Resolved(t, bucket, semi, idom[w], w, done)} :: done < w < |idom| ==>
         Resolved(t, bucket, semi, idom[w], w, done)
  }

  lemma {:induction false} ChildToward(t: Dfs, p: nat, w: nat) returns (c: nat)
    requires ValidDfs(t) && Anc(t, p, w) && p < w && 1 <= w
    ensures 2 <= c <= w && c < |t.h| && t.par[c] == p && Anc(t, c, w)
  {
    AncBounds(t, p, w);
    if t.par[w] == p {
      c := w;
    } else {
      AncBounds(t, p, t.par[w]);
      c := ChildToward(t, p, t.par[w]);
    }
  }

  /** When its turn comes, everything strictly between `p` and a waiting vertex is linked. */
  lemma WaitingIsLinked(t: Dfs, p: nat, w: nat, block: nat, x: nat)
    requires ValidDfs(t) && 2 <= block <= w < |t.h| && t.par[block] == p
    requires Anc(t, p, w) && p < w && Waiting(t, p, w, block)
    requires Anc(t, x, w) && p < x
    ensures block <= x
  {
    var c := ChildToward(t, p, w);
    if c < block {
      assert Anc(t, c, block);
      AncBounds(t, c, p);
    } else if x < c {
      AncBounds(t, x, c);
      assert Anc(t, x, c);
      AncBounds(t, x, p);
    }
  }

  /** The best linked ancestor of a waiting vertex settles its relative dominator. */
  lemma RelativeStep(t: Dfs, semi: seq<nat>, block: nat, parent: nat, w: nat, r: nat)
    requires ValidDfs(t) && 2 <= block < |t.h| && parent == t.par[block] && SemisAbove(t, semi, block - 1)
    requires block <= w < |semi| && semi[w] == parent && Waiting(t, parent, w, block) && IsBest(t, semi, block, w, r)
    ensures var d := if semi[r] < semi[w] then r else parent; d != 0 && Relative(t, semi, w, d, block - 1)
  {
    SemiIsProperAncestor(t, parent, w);
    forall x: nat | Anc(t, x, w) && parent < x ensures block <= x {
      WaitingIsLinked(t, parent, w, block, x);
    }
    AncBounds(t, 1, w);
  }

  /** The listed vertices have their relative dominators, the others are untouched. */
  ghost predicate Settled(t: Dfs, semi: seq<nat>, idom: seq<nat>, r: seq<nat>, listed: seq<nat>, done: nat) {
    && |r| == |idom|
    && forall w: nat {:trigger SettledAt(t, semi, idom, r, listed, done, w)} ::
         w < |r| ==> SettledAt(t, semi, idom, r, listed, done, w)
  }

  ghost predicate SettledAt(t: Dfs, semi: seq<nat>, idom: seq<nat>, r: seq<nat>, listed: seq<nat>, done: nat, w: nat)
    requires |r| == |idom| && w < |r|
  {
    if w in listed then r[w] != 0 && Relative(t, semi, w, r[w], done) else r[w] == idom[w]
  }

  lemma SettleOne(t: Dfs, semi: seq<nat>, idom: seq<nat>, r: seq<nat>, listed: seq<nat>, done: nat, w: nat, d: nat)
    requires Settled(t, semi, idom, r, listed, done) && w < |r| && d != 0 && Relative(t, semi, w, d, done)
    ensures Settled(t, semi, idom, r[w := d], listed + [w], done)
  {
    var r', listed' := r[w := d], listed + [w];
    forall x: nat | x < |r| ensures SettledAt(t, semi, idom, r', listed', done, x) {
      assert SettledAt(t, semi, idom, r, listed, done, x);
    }
  }

  ghost predicate Due(t: Dfs, semi: seq<nat>, parent: nat, block: nat, w: nat) {
    block <= w < |semi| && semi[w] == parent && Waiting(t, parent, w, block)
  }

  /** One vertex of the bucket of `parent`. */
  method RelativeOf(candidate: nat, block: nat, parent: nat, ancestor: array<nat>, labels: array<nat>, semi: seq<nat>,
      ghost t: Dfs)
    returns (d: nat)
    requires ValidDfs(t) && 2 <= block < |t.h| && parent == t.par[block] && ancestor != labels
    requires SemisAbove(t, semi, block - 1) && Forest(t, ancestor[..], labels[..], semi, block)
    requires Due(t, semi, parent, block, candidate)
    modifies ancestor, labels
    ensures Forest(t, ancestor[..], labels[..], semi, block)
    ensures d != 0 && Relative(t, semi, candidate, d, block - 1)
  {
    var representative := Eval(candidate, ancestor, labels, semi, t, block);
    RelativeStep(t, semi, block, parent, candidate, representative);
    d := if semi[representative] < semi[candidate] then representative else parent;
  }

  method Drain(pending: seq<nat>, block: nat, parent: nat, ancestor: array<nat>, labels: array<nat>, semi: seq<nat>,
               idom: seq<nat>, ghost t: Dfs)
    returns (r: seq<nat>)
    requires ValidDfs(t) && 2 <= block < |t.h| && parent == t.par[block] && ancestor != labels && |idom| == |t.h|
    requires SemisAbove(t, semi, block - 1) && Forest(t, ancestor[..], labels[..], semi, block)
    requires forall w: nat :: w in pending ==> Due(t, semi, parent, block, w)
    modifies ancestor, labels
    ensures Forest(t, ancestor[..], labels[..], semi, block)
    ensures Settled(t, semi, idom, r, pending, block - 1)
  {
    r := idom;
    for i := 0 to |pending|
      invariant Forest(t, ancestor[..], labels[..], semi, block)
      invariant Settled(t, semi, idom, r, pending[..i], block - 1)
    {
      var candidate := pending[i];
      assert candidate in pending;
      var d := RelativeOf(candidate, block, parent, ancestor, labels, semi, t);
      SettleOne(t, semi, idom, r, pending[..i], block - 1, candidate, d);
      r := r[candidate := d];
      assert pending[..i + 1] == pending[..i] + [candidate];
    }
    assert pending[..|pending|] == pending;
  }

  // ------------------------------------------------------------ the whole computation

  /** Pushing `block` keeps every bucket right for the turn of `block`. */
  lemma PushBucket(t: Dfs, bucket: seq<seq<nat>>, pushed: seq<seq<nat>>, semi: seq<nat>, idom: seq<nat>, block: nat,
      m: nat)
    requires ValidDfs(t) && 2 <= block < |t.h| && Buckets(t, bucket, semi, idom, block)
    requires IsSemi(t, m, block) && m < |bucket| && pushed == bucket[m := bucket[m] + [block]]
    ensures forall q, w :: 0 <= q < |pushed| && w in pushed[q] ==>
      block <= w < |semi| && semi[block := m][w] == q && Waiting(t, q, w, block)
  {
    forall q, w | 0 <= q < |pushed| && w in pushed[q]
      ensures block <= w < |semi| && semi[block := m][w] == q && Waiting(t, q, w, block)
    {
      if q == m && w == block {
        forall c: nat | Anc(t, c, block) ensures c <= block {
          AncBounds(t, c, block);
        }
      } else {
        assert w in bucket[q];
        assert Bucketed(t, bucket, semi, q, w, block);
      }
    }
  }

  lemma DrainedMembers(t: Dfs, pushed: seq<seq<nat>>, semi: seq<nat>, block: nat)
    requires Tree(t) && 2 <= block < |t.h| && t.par[block] < |pushed|
    requires forall q, w :: 0 <= q < |pushed| && w in pushed[q] ==>
      block <= w < |semi| && semi[w] == q && Waiting(t, q, w, block)
    ensures BucketMembers(t, pushed[t.par[block] := []], semi, block - 1)
  {
    var drained := pushed[t.par[block] := []];
    forall q, w | 0 <= q < |drained| && w in drained[q] ensures Bucketed(t, drained, semi, q, w, block - 1) {
      assert w in pushed[q] && Waiting(t, q, w, block);
    }
  }

  lemma DrainedAt(t: Dfs, bucket: seq<seq<nat>>, pushed: seq<seq<nat>>, semi: seq<nat>, idom: seq<nat>,
                  block: nat, m: nat, p: nat, r: seq<nat>, w: nat)
    requires ValidDfs(t) && 2 <= block < w < |t.h| && |idom| == |r| == |t.h| && |bucket| == |t.h|
    requires SemisAbove(t, semi, block) && IsSemi(t, m, block) && m < |bucket| && p < |bucket|
    requires pushed == bucket[m := bucket[m] + [block]]
    requires Resolved(t, bucket, semi, idom[w], w, block)
    requires SettledAt(t, semi[block := m], idom, r, pushed[p], block - 1, w)
    ensures Resolved(t, pushed[p := []], semi[block := m], r[w], w, block - 1)
  {
    SemiIsProperAncestor(t, m, block);
    SemiIsProperAncestor(t, semi[w], w);
    if idom[w] != 0 {
      RelativeKept(t, semi, block, m, w, idom[w]);
    }
  }

  lemma DrainedBlock(t: Dfs, bucket: seq<seq<nat>>, pushed: seq<seq<nat>>, semi: seq<nat>, idom: seq<nat>,
                     block: nat, m: nat, p: nat, r: seq<nat>)
    requires 2 <= block < |t.h| && |semi| == |idom| == |r| == |t.h| && |bucket| == |t.h| && idom[block] == 0
    requires m < |bucket| && p < |bucket| && pushed == bucket[m := bucket[m] + [block]]
    requires SettledAt(t, semi[block := m], idom, r, pushed[p], block - 1, block)
    ensures Resolved(t, pushed[p := []], semi[block := m], r[block], block, block - 1)
  {
    assert block in pushed[m];
  }

  /** Draining the parent's bucket re-establishes the invariant one block lower. */
  lemma DrainBucket(t: Dfs, bucket: seq<seq<nat>>, pushed: seq<seq<nat>>, semi: seq<nat>, idom: seq<nat>,
                    block: nat, m: nat, p: nat, r: seq<nat>)
    requires ValidDfs(t) && 2 <= block < |t.h| && Buckets(t, bucket, semi, idom, block)
    requires SemisAbove(t, semi, block) && IsSemi(t, m, block)
    requires m < |bucket| && pushed == bucket[m := bucket[m] + [block]]
    requires |r| == |idom| && p < |pushed|
    requires BucketMembers(t, pushed[p := []], semi[block := m], block - 1)
    requires Settled(t, semi[block := m], idom, r, pushed[p], block - 1) && forall w :: w in pushed[p] ==> block <= w
    ensures Buckets(t, pushed[p := []], semi[block := m], r, block - 1)
  {
    SemiIsProperAncestor(t, m, block);
    var semi', drained := semi[block := m], pushed[p := []];
    forall w: nat | w <= block - 1 && w < |r| ensures r[w] == 0 {
      assert SettledAt(t, semi', idom, r, pushed[p], block - 1, w);
    }
    forall w: nat | block - 1 < w < |r| ensures Resolved(t, drained, semi', r[w], w, block - 1) {
      assert SettledAt(t, semi', idom, r, pushed[p], block - 1, w);
      if w > block {
        assert Resolved(t, bucket, semi, idom[w], w, block);
        DrainedAt(t, bucket, pushed, semi, idom, block, m, p, r, w);
      } else {
        DrainedBlock(t, bucket, pushed, semi, idom, block, m, p, r);
      }
    }
  }

  lemma RelativeKept(t: Dfs, semi: seq<nat>, block: nat, m: nat, w: nat, d: nat)
    requires ValidDfs(t) && 2 <= block < w < |t.h| && SemisAbove(t, semi, block) && IsSemi(t, m, block)
    requires Relative(t, semi, w, d, block)
    ensures Relative(t, semi[block := m], w, d, block - 1)
  {
    SemiIsProperAncestor(t, m, block);
    SemiIsProperAncestor(t, semi[w], w);
  }

  /** Once every block is processed nothing waits, and every number has its relative dominator. */
  lemma AllDrained(t: Dfs, bucket: seq<seq<nat>>, semi: seq<nat>, idom: seq<nat>)
    requires ValidDfs(t) && SemisAbove(t, semi, 1) && Buckets(t, bucket, semi, idom, 1)
    ensures forall w :: 2 <= w < |t.h| ==> idom[w] != 0 && Relative(t, semi, w, idom[w], 1)
  {
    forall w: nat | 2 <= w < |t.h| ensures idom[w] != 0 && Relative(t, semi, w, idom[w], 1) {
      assert Resolved(t, bucket, semi, idom[w], w, 1);
      SemiIsProperAncestor(t, semi[w], w);
      if idom[w] == 0 {
        assert w in bucket[semi[w]] && Waiting(t, semi[w], w, 1);
        var c := ChildToward(t, semi[w], w);
      }
    }
  }

  /** Resolve one relative dominator from the final dominators of lower numbers. */
  lemma Correct(t: Dfs, semi: seq<nat>, w: nat, u: nat, d: nat)
    requires ValidDfs(t) && SemisAbove(t, semi, 1) && 2 <= w < |t.h| && Relative(t, semi, w, u, 1)
    requires if u == semi[w] then d == u else IsIdom(t.h, 1, d, u)
    ensures IsIdom(t.h, 1, d, w)
  {
    forall v: nat | 2 <= v < |t.h| ensures HasSemi(t, v) {
      assert IsSemi(t, semi[v], v);
    }
    SemiIsProperAncestor(t, semi[w], w);
    var b := if u == semi[w] then semi[w] else semi[u];
    forall y: nat, sy: nat | Anc(t, y, w) && semi[w] < y && IsSemi(t, sy, y) ensures b <= sy {
      AncBounds(t, y, w);
      SemiUnique(t, sy, semi[y], y);
    }
    if u == semi[w] {
      SemiIsIdom(t, semi[w], w);
    } else {
      AncBounds(t, u, w);
      assert IsSemi(t, semi[u], u) && u != w;
      RelativeIdom(t, semi[w], w, u, semi[u], d);
    }
  }

  /** Adds a predecessor to every numbered target of a row. */
  method AddTargets(row: seq<nat>, number: nat, ghost g: Succs, ghost root: nat, dfs: seq<nat>,
      ghost vertex: seq<nat>, preds0: seq<seq<nat>>)
    returns (preds: seq<seq<nat>>)
    requires Numbered(g, root, dfs, vertex) && |preds0| == |vertex| && forall i :: 0 <= i < |row| ==> row[i] < |dfs|
    ensures |preds| == |vertex|
    ensures forall v: nat, w: nat :: w < |preds| ==>
      (v in preds[w] <==> v in preds0[w] || (v == number && 1 <= w && vertex[w] in row))
  {
    preds := preds0;
    for i := 0 to |row|
      invariant |preds| == |vertex|
      invariant forall v: nat, w: nat :: w < |preds| ==>
        (v in preds[w] <==> v in preds0[w] || (v == number && 1 <= w && vertex[w] in row[..i]))
    {
      assert row[..i + 1] == row[..i] + [row[i]];
      var w := dfs[row[i]];
      if w != 0 {
        preds := preds[w := preds[w] + [number]];
      }
    }
    assert row[..|row|] == row;
  }

  method NumberedPredecessors(g: Succs, root: nat, dfs: seq<nat>, vertex: seq<nat>, ghost t: Dfs)
    returns (preds: seq<seq<nat>>)
    requires Renumbered(g, root, dfs, vertex, t)
    ensures PredecessorsOk(t, preds)
  {
    preds := seq(|vertex|, _ => []);
    EdgeClosed(g, dfs);
    for source := 0 to |g|
      invariant |preds| == |vertex|
      invariant forall v: nat, w: nat :: w < |preds| ==>
        (v in preds[w] <==> Edge(t.h, v, w) && vertex[v] < source)
    {
      var number := dfs[source];
      ghost var before := preds;
      if number != 0 {
        forall i | 0 <= i < |g[source]| ensures g[source][i] < |g| {
          assert g[source][i] in g[source];
        }
        preds := AddTargets(g[source], number, g, root, dfs, vertex, preds);
      }
      forall v: nat, w: nat | w < |preds|
        ensures v in preds[w] <==> Edge(t.h, v, w) && vertex[v] < source + 1
      {
        RenumberEdge(g, root, dfs, vertex, v, w);
      }
    }
  }

  /** Nothing is linked yet. */
  lemma InitialForest(t: Dfs, ancestor: seq<nat>, labels: seq<nat>, semi: seq<nat>, n: nat)
    requires ValidDfs(t) && n == |t.h| && |ancestor| == |labels| == |semi| == n
    requires forall v :: 0 <= v < n ==> ancestor[v] == 0 && labels[v] == v && semi[v] == v
    ensures Forest(t, ancestor, labels, semi, n) && SemisAbove(t, semi, n - 1)
  {
  }

  /** The main loop: numbers downwards, semidominators first, then the bucket of the parent. */
  method ProcessBlocks(preds: seq<seq<nat>>, parent: seq<nat>, ancestor: array<nat>, labels: array<nat>,
                       semi0: seq<nat>, bucket0: seq<seq<nat>>, idom0: seq<nat>, ghost t: Dfs)
    returns (semi: seq<nat>, bucket: seq<seq<nat>>, idom: seq<nat>)
    requires ValidDfs(t) && PredecessorsOk(t, preds) && ancestor != labels
    requires |parent| >= |t.h| && parent[..|t.h|] == t.par
    requires Forest(t, ancestor[..], labels[..], semi0, |t.h|) && SemisAbove(t, semi0, |t.h| - 1)
    requires Buckets(t, bucket0, semi0, idom0, |t.h| - 1)
    modifies ancestor, labels
    ensures SemisAbove(t, semi, 1) && Buckets(t, bucket, semi, idom, 1)
  {
    semi, bucket, idom := semi0, bucket0, idom0;
    var block := |preds| - 1;
    while block >= 2
      invariant 1 <= block < |preds|
      invariant Forest(t, ancestor[..], labels[..], semi, block + 1)
      invariant SemisAbove(t, semi, block)
      invariant Buckets(t, bucket, semi, idom, block)
    {
      assert parent[block] == parent[..|t.h|][block] == t.par[block];
      semi, bucket, idom := ProcessBlock(block, preds[block], parent[block], ancestor, labels, semi, bucket, idom, t);
      block := block - 1;
    }
  }

  /** Process the numbers downwards: semidominators, then relative dominators. */
  method RelativeIdoms(preds: seq<seq<nat>>, parent: seq<nat>, ghost t: Dfs)
    returns (semi: seq<nat>, idom: seq<nat>)
    requires ValidDfs(t) && PredecessorsOk(t, preds)
    requires |parent| >= |t.h| && parent[..|t.h|] == t.par
    ensures |idom| == |t.h| && SemisAbove(t, semi, 1)
    ensures forall w :: 2 <= w < |t.h| ==> Relative(t, semi, w, idom[w], 1)
  {
    var n := |preds|;
    var ancestor := new nat[n](_ => 0);
    var labels := new nat[n](i => i);
    semi := seq(n, i => i);
    InitialForest(t, ancestor[..], labels[..], semi, n);
    var bucket;
    semi, bucket, idom := ProcessBlocks(preds, parent, ancestor, labels, semi, seq(n, _ => []), seq(n, _ => 0), t);
    AllDrained(t, bucket, semi, idom);
  }

  method ProcessBlock(block: nat, preds: seq<nat>, parent: nat, ancestor: array<nat>, labels: array<nat>,
                      semi: seq<nat>, bucket: seq<seq<nat>>, idom: seq<nat>, ghost t: Dfs)
    returns (semi': seq<nat>, bucket': seq<seq<nat>>, idom': seq<nat>)
    requires ValidDfs(t) && 2 <= block < |t.h| && parent == t.par[block] && ancestor != labels
    requires forall v: nat :: v in preds <==> Edge(t.h, v, block)
    requires Forest(t, ancestor[..], labels[..], semi, block + 1)
    requires SemisAbove(t, semi, block) && Buckets(t, bucket, semi, idom, block)
    modifies ancestor, labels
    ensures Forest(t, ancestor[..], labels[..], semi', block)
    ensures SemisAbove(t, semi', block - 1) && Buckets(t, bucket', semi', idom', block - 1)
  {
    var m := SemiOf(block, preds, ancestor, labels, semi, t);
    SemiIsProperAncestor(t, m, block);
    semi' := semi[block := m];
    var pushed := bucket[m := bucket[m] + [block]];
    PushBucket(t, bucket, pushed, semi, idom, block, m);
    Link(t, ancestor[..], labels[..], semi', block);
    ghost var ancestor0 := ancestor[..];
    ancestor[block] := parent;
    assert ancestor[..] == ancestor0[block := parent];
    idom' := Drain(pushed[parent], block, parent, ancestor, labels, semi', idom, t);
    DrainedMembers(t, pushed, semi', block);
    DrainBucket(t, bucket, pushed, semi, idom, block, m, parent, idom');
    bucket' := pushed[parent := []];
  }

  /** Immediate dominators of the numbered graph. */
  method NumberedIdoms(preds: seq<seq<nat>>, parent: seq<nat>, ghost t: Dfs)
    returns (idom: seq<nat>)
    requires ValidDfs(t) && PredecessorsOk(t, preds)
    requires |parent| >= |t.h| && parent[..|t.h|] == t.par
    ensures |idom| == |t.h| && forall w :: 2 <= w < |t.h| ==> IsIdom(t.h, 1, idom[w], w)
  {
    var semi;
    semi, idom := RelativeIdoms(preds, parent, t);
    var n := |preds|;
    for w := 2 to n
      invariant |idom| == n
      invariant forall v :: 2 <= v < w ==> IsIdom(t.h, 1, idom[v], v)
      invariant forall v :: w <= v < n ==> Relative(t, semi, v, idom[v], 1)
    {
      ghost var u := idom[w];
      AncBounds(t, u, w);
      if idom[w] != semi[w] {
        idom := idom[w := idom[idom[w]]];
      }
      Correct(t, semi, w, u, idom[w]);
    }
  }

  /** Each reachable block but the root has its immediate dominator recorded, and no other block has one. */
  ghost predicate IdomTable(g: Succs, root: nat, idom: seq<Option<nat>>) {
    && |idom| == |g|
    && forall b :: 0 <= b < |g| ==>
         if b == root || !Reach(g, root, b) then idom[b] == None
         else idom[b].Some? && IsIdom(g, root, idom[b].value, b)
  }

  method ImmediateDominators(g: Succs, root: nat) returns (result: Result<seq<Option<nat>>>)
    ensures result.Err? <==> ValidateEdges(g, root).Some?
    ensures result.Err? ==> Some(result.error) == ValidateEdges(g, root)
    ensures result.Ok? ==> IdomTable(g, root, result.value)
  {
    var invalid := ValidateEdges(g, root);
    if invalid.Some? {
      return Err(invalid.value);
    }
    var dfs, vertex, parent, t := NumberBlocks(g, root);
    var preds := NumberedPredecessors(g, root, dfs, vertex, t);
    var number := NumberedIdoms(preds, parent, t);
    var idom: seq<Option<nat>> := seq(|g|, _ => None);
    for w := 2 to |vertex|
      invariant |idom| == |g|
      invariant forall b :: 0 <= b < |g| ==>
        if 2 <= dfs[b] < w then idom[b].Some? && IsIdom(g, root, idom[b].value, b) else idom[b] == None
    {
      StrictDominatorNumbered(t, number[w], w);
      IdomTransfer(g, root, dfs, vertex, t, number[w], w);
      idom := idom[vertex[w] := Some(vertex[number[w]])];
    }
    forall b: nat | b < |g| ensures dfs[b] > 0 <==> Reach(g, root, b) {
      NumberedIffReachable(g, root, dfs, vertex, t, b);
    }
    assert dfs[vertex[1]] == 1;
    return Ok(idom);
  }

  lemma StrictDominatorNumbered(t: Dfs, d: nat, w: nat)
    requires ValidDfs(t) && 2 <= w < |t.h| && IsIdom(t.h, 1, d, w)
    ensures 1 <= d < |t.h|
  {
    AncBounds(t, 1, w);
    var p := TreePath(t, 1, w);
    assert d in p;
  }
}
