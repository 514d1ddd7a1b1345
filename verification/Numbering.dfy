/** Depth-first numbering of a control-flow graph with an explicit stack. */
module Numbering {
  import opened Graph
  import opened DfsTheory
  import opened Finite

  /** `vertex[1..]` lists the discovered blocks; `dfs` is its inverse, 0 meaning undiscovered. */
  ghost predicate Numbered(g: Succs, root: nat, dfs: seq<nat>, vertex: seq<nat>) {
    && |dfs| == |g| && 2 <= |vertex| && root < |g| && vertex[1] == root
    && (forall k :: 1 <= k < |vertex| ==> vertex[k] < |g| && dfs[vertex[k]] == k)
    && forall b :: 0 <= b < |g| && dfs[b] > 0 ==> dfs[b] < |vertex| && vertex[dfs[b]] == b
  }

  ghost predicate TreeSoFar(g: Succs, vertex: seq<nat>, parent: seq<nat>, anc: seq<set<nat>>) {
    && |anc| == |vertex| <= |parent| && 2 <= |vertex|
    && anc[0] == {} && anc[1] == {1}
    && (forall k :: 2 <= k < |vertex| ==> 1 <= parent[k] < k && Edge(g, vertex[parent[k]], vertex[k]))
    && forall k :: 2 <= k < |vertex| ==> anc[k] == anc[parent[k]] + {k}
  }

  ghost predicate AncClosed(anc: seq<set<nat>>) {
    && (forall y, a :: 1 <= y < |anc| && a in anc[y] ==> 1 <= a <= y)
    && (forall y :: 1 <= y < |anc| ==> y in anc[y])
    && (forall a, b, y :: 0 <= b < |anc| && 0 <= y < |anc| && a in anc[b] && b in anc[y] ==> a in anc[y])
    && forall a, y, x :: 0 <= a <= y <= x < |anc| && a in anc[x] ==> a in anc[y]
  }

  type Frames = seq<(nat, nat)>

  ghost predicate OnStack(stack: Frames, b: nat) {
    exists i :: 0 <= i < |stack| && stack[i].0 == b
  }

  ghost predicate StackOk(g: Succs, dfs: seq<nat>, stack: Frames) {
    && |dfs| == |g|
    && (forall i :: 0 <= i < |stack| ==> stack[i].0 < |g| && dfs[stack[i].0] > 0 && stack[i].1 <= |g[stack[i].0]|)
    && forall i, j :: 0 <= i < j < |stack| ==> dfs[stack[i].0] < dfs[stack[j].0]
  }

  ghost predicate StackAnc(dfs: seq<nat>, anc: seq<set<nat>>, stack: Frames) {
    && (forall i :: 0 <= i < |stack| ==> stack[i].0 < |dfs|)
    && forall i, y :: 0 <= i < |stack| && dfs[stack[i].0] <= y < |anc| ==> dfs[stack[i].0] in anc[y]
  }

  /** The first `k` successors of `b` are numbered. */
  ghost predicate Scanned(g: Succs, dfs: seq<nat>, b: nat, k: nat) {
    && b < |g| && k <= |g[b]|
    && forall i :: 0 <= i < k ==> g[b][i] < |dfs| && dfs[g[b][i]] > 0
  }

  /** Successors already scanned are numbered, and finished blocks have scanned all of theirs. */
  ghost predicate Explored(g: Succs, dfs: seq<nat>, stack: Frames) {
    && Wellformed(g) && StackOk(g, dfs, stack)
    && (forall i :: 0 <= i < |stack| ==> Scanned(g, dfs, stack[i].0, stack[i].1))
    && forall u: nat, v: nat :: Edge(g, u, v) && dfs[u] > 0 && !OnStack(stack, u) ==> dfs[v] > 0
  }

  /** A finished block is a tree ancestor of every higher successor. */
  ghost predicate Forward(g: Succs, dfs: seq<nat>, anc: seq<set<nat>>, stack: Frames) {
    && |dfs| == |g| && (forall b :: 0 <= b < |g| ==> dfs[b] < |anc|)
    && forall u: nat, v: nat :: Edge(g, u, v) && 0 < dfs[u] < dfs[v] && !OnStack(stack, u) ==> dfs[u] in anc[dfs[v]]
  }

  lemma CountBound(g: Succs, root: nat, dfs: seq<nat>, vertex: seq<nat>, b: nat)
    requires Numbered(g, root, dfs, vertex) && b < |g| && dfs[b] == 0
    ensures |vertex| <= |g|
  {
    var s := vertex[1..] + [b];
    forall i, j | 0 <= i < j < |s| ensures s[i] != s[j] {
      assert s[i] == vertex[i + 1] && dfs[s[i]] == i + 1;
      if j < |s| - 1 {
        assert s[j] == vertex[j + 1] && dfs[s[j]] == j + 1;
      }
    }
    Pigeonhole(s, |g|);
  }

  ghost predicate Inv(g: Succs, root: nat, dfs: seq<nat>, vertex: seq<nat>, parent: seq<nat>,
                      anc: seq<set<nat>>, stack: Frames) {
    && Numbered(g, root, dfs, vertex) && |parent| == |g| + 1
    && TreeSoFar(g, vertex, parent, anc) && AncClosed(anc)
    && StackOk(g, dfs, stack) && StackAnc(dfs, anc, stack)
    && Explored(g, dfs, stack) && Forward(g, dfs, anc, stack)
  }

  lemma PushNumbered(g: Succs, root: nat, dfs: seq<nat>, vertex: seq<nat>, s: nat)
    requires Numbered(g, root, dfs, vertex) && s < |g| && dfs[s] == 0
    ensures Numbered(g, root, dfs[s := |vertex|], vertex + [s])
  {
  }

  lemma PushTree(g: Succs, root: nat, dfs: seq<nat>, vertex: seq<nat>, parent: seq<nat>, anc: seq<set<nat>>, b: nat,
      s: nat)
    requires Numbered(g, root, dfs, vertex) && TreeSoFar(g, vertex, parent, anc)
    requires |vertex| < |parent| && b < |g| && dfs[b] > 0 && Edge(g, b, s)
    ensures TreeSoFar(g, vertex + [s], parent[|vertex| := dfs[b]], anc + [anc[dfs[b]] + {|vertex|}])
  {
  }

  lemma PushAnc(anc: seq<set<nat>>, b: nat)
    requires AncClosed(anc) && 1 <= b < |anc| && StackTop(anc, b)
    ensures AncClosed(anc + [anc[b] + {|anc|}])
  {
    var n := |anc|;
    var anc' := anc + [anc[b] + {n}];
    forall a, c, y | 0 <= c < |anc'| && 0 <= y < |anc'| && a in anc'[c] && c in anc'[y] ensures a in anc'[y] {
      if y == n && c != n {
        assert c in anc[b] && a in anc[c];
      } else if y < n {
        assert y == 0 || c <= y;
      }
    }
    forall a, y, x | 0 <= a <= y <= x < |anc'| && a in anc'[x] ensures a in anc'[y] {
      if x == n && y < n {
        assert a in anc[b];
        if b <= y {
          assert b in anc[y];
        }
      }
    }
  }

  /** Everything numbered since the top of the stack descends from it. */
  ghost predicate StackTop(anc: seq<set<nat>>, b: nat) {
    && (0 < |anc| ==> anc[0] == {})
    && forall y :: b <= y < |anc| ==> b in anc[y]
  }

  lemma PushStackAnc(dfs: seq<nat>, anc: seq<set<nat>>, stack: Frames, b: nat, k: nat, s: nat)
    requires StackAnc(dfs, anc, stack) && stack != [] && stack[|stack| - 1].0 == b
    requires forall i, j :: 0 <= i < j < |stack| ==> dfs[stack[i].0] < dfs[stack[j].0]
    requires s < |dfs| && dfs[s] == 0 && dfs[b] < |anc| && b != s
    requires forall i :: 0 <= i < |stack| ==> dfs[stack[i].0] > 0
    ensures StackAnc(dfs[s := |anc|], anc + [anc[dfs[b]] + {|anc|}], stack[|stack| - 1 := (b, k)] + [(s, 0)])
  {
    var dfs', anc' := dfs[s := |anc|], anc + [anc[dfs[b]] + {|anc|}];
    var stack' := stack[|stack| - 1 := (b, k)] + [(s, 0)];
    forall i, y | 0 <= i < |stack'| && dfs'[stack'[i].0] <= y < |anc'| ensures dfs'[stack'[i].0] in anc'[y] {
      if i < |stack| {
        assert stack'[i].0 == stack[i].0;
        assert dfs[stack[i].0] <= dfs[b];
        assert dfs[stack[i].0] in anc[dfs[b]];
      }
    }
  }

  lemma OnStackPush(stack: Frames, b: nat, k: nat, s: nat, u: nat)
    requires stack != [] && stack[|stack| - 1].0 == b
    ensures OnStack(stack[|stack| - 1 := (b, k)], u) <==> OnStack(stack, u)
    ensures OnStack(stack[|stack| - 1 := (b, k)] + [(s, 0)], u) <==> OnStack(stack, u) || u == s
  {
    var s1 := stack[|stack| - 1 := (b, k)];
    var s2 := s1 + [(s, 0)];
    if OnStack(stack, u) {
      var i :| 0 <= i < |stack| && stack[i].0 == u;
      assert s1[i].0 == u && s2[i].0 == u;
    }
    assert s2[|s1|].0 == s;
    if OnStack(s1, u) {
      var i :| 0 <= i < |s1| && s1[i].0 == u;
      assert stack[i].0 == u;
    }
    if OnStack(s2, u) && u != s {
      var i :| 0 <= i < |s2| && s2[i].0 == u;
      assert stack[i].0 == u;
    }
  }

  lemma PushExplored(g: Succs, dfs: seq<nat>, stack: Frames, b: nat, k: nat, s: nat, n: nat)
    requires Explored(g, dfs, stack) && stack != [] && stack[|stack| - 1] == (b, k)
    requires b < |g| && k < |g[b]| && g[b][k] == s && s < |g| && dfs[s] == 0
    requires forall x :: 0 <= x < |g| ==> dfs[x] < n
    ensures Explored(g, dfs[s := n], stack[|stack| - 1 := (b, k + 1)] + [(s, 0)])
  {
    var dfs', stack' := dfs[s := n], stack[|stack| - 1 := (b, k + 1)] + [(s, 0)];
    forall u: nat ensures OnStack(stack', u) <==> OnStack(stack, u) || u == s {
      OnStackPush(stack, b, k + 1, s, u);
    }
    assert StackOk(g, dfs', stack');
    forall i | 0 <= i < |stack'| ensures Scanned(g, dfs', stack'[i].0, stack'[i].1) {
      if i < |stack| {
        assert Scanned(g, dfs, stack[i].0, stack[i].1);
      }
    }
  }

  lemma PushForward(g: Succs, dfs: seq<nat>, anc: seq<set<nat>>, stack: Frames, b: nat, k: nat, s: nat)
    requires Forward(g, dfs, anc, stack) && Explored(g, dfs, stack)
    requires stack != [] && stack[|stack| - 1].0 == b
    requires b < |g| && s < |g| && dfs[s] == 0
    ensures Forward(g, dfs[s := |anc|], anc + [anc[dfs[b]] + {|anc|}], stack[|stack| - 1 := (b, k)] + [(s, 0)])
  {
    var stack' := stack[|stack| - 1 := (b, k)] + [(s, 0)];
    forall u: nat ensures OnStack(stack', u) <==> OnStack(stack, u) || u == s {
      OnStackPush(stack, b, k, s, u);
    }
  }

  lemma PushStep(g: Succs, root: nat, dfs: seq<nat>, vertex: seq<nat>, parent: seq<nat>,
                 anc: seq<set<nat>>, stack: Frames, b: nat, k: nat, s: nat)
    requires Inv(g, root, dfs, vertex, parent, anc, stack) && stack != [] && stack[|stack| - 1] == (b, k)
    requires b < |g| && k < |g[b]| && g[b][k] == s && s < |g| && dfs[s] == 0
    ensures |vertex| <= |g|
    ensures Inv(g, root, dfs[s := |vertex|], vertex + [s], parent[|vertex| := dfs[b]],
                anc + [anc[dfs[b]] + {|vertex|}], stack[|stack| - 1 := (b, k + 1)] + [(s, 0)])
  {
    CountBound(g, root, dfs, vertex, s);
    assert stack[|stack| - 1].0 == b;
    PushNumbered(g, root, dfs, vertex, s);
    PushTree(g, root, dfs, vertex, parent, anc, b, s);
    PushAnc(anc, dfs[b]);
    PushStackAnc(dfs, anc, stack, b, k + 1, s);
    PushExplored(g, dfs, stack, b, k, s, |vertex|);
    PushForward(g, dfs, anc, stack, b, k + 1, s);
  }

  lemma AdvanceStep(g: Succs, dfs: seq<nat>, anc: seq<set<nat>>, stack: Frames, b: nat, k: nat)
    requires StackAnc(dfs, anc, stack) && Explored(g, dfs, stack) && Forward(g, dfs, anc, stack)
    requires stack != [] && stack[|stack| - 1] == (b, k)
    requires b < |g| && k < |g[b]| && g[b][k] < |g| && dfs[g[b][k]] > 0
    ensures StackAnc(dfs, anc, stack[|stack| - 1 := (b, k + 1)])
    ensures Explored(g, dfs, stack[|stack| - 1 := (b, k + 1)])
    ensures Forward(g, dfs, anc, stack[|stack| - 1 := (b, k + 1)])
  {
    var stack' := stack[|stack| - 1 := (b, k + 1)];
    assert forall i :: 0 <= i < |stack| ==> stack'[i].0 == stack[i].0;
    forall u: nat ensures OnStack(stack', u) <==> OnStack(stack, u) {
      OnStackPush(stack, b, k + 1, 0, u);
    }
    assert Scanned(g, dfs, stack[|stack| - 1].0, stack[|stack| - 1].1);
  }

  lemma PopStep(g: Succs, dfs: seq<nat>, anc: seq<set<nat>>, stack: Frames, b: nat)
    requires StackAnc(dfs, anc, stack) && Explored(g, dfs, stack) && Forward(g, dfs, anc, stack)
    requires stack != [] && b < |g| && stack[|stack| - 1] == (b, |g[b]|)
    ensures StackAnc(dfs, anc, stack[..|stack| - 1])
    ensures Explored(g, dfs, stack[..|stack| - 1])
    ensures Forward(g, dfs, anc, stack[..|stack| - 1])
  {
    var top := |stack| - 1;
    var stack' := stack[..top];
    forall u: nat | OnStack(stack, u) && u != b ensures OnStack(stack', u) {
      var i :| 0 <= i < |stack| && stack[i].0 == u;
      assert stack'[i].0 == u;
    }
    assert Scanned(g, dfs, stack[top].0, stack[top].1);
    forall v: nat | Edge(g, b, v) ensures dfs[v] > 0 && (dfs[b] < dfs[v] ==> dfs[b] in anc[dfs[v]]) {
      assert dfs[stack[top].0] == dfs[b];
    }
  }

  /** The renumbered graph: the successors of number `k`, as numbers. */
  function Renumber(g: Succs, dfs: seq<nat>, vertex: seq<nat>): (h: Succs)
    requires Wellformed(g) && |dfs| == |g|
    requires forall k :: 1 <= k < |vertex| ==> vertex[k] < |g|
    ensures |h| == |vertex|
  {
    seq(|vertex|, k requires 0 <= k < |vertex| =>
      if k == 0 then [] else var out := g[vertex[k]];
        assert forall i :: 0 <= i < |out| ==> out[i] in out;
        seq(|out|, i requires 0 <= i < |out| => dfs[out[i]]))
  }

  lemma RenumberEdge(g: Succs, root: nat, dfs: seq<nat>, vertex: seq<nat>, u: nat, v: nat)
    requires Wellformed(g) && Numbered(g, root, dfs, vertex)
    requires forall x: nat, y: nat :: Edge(g, x, y) && dfs[x] > 0 ==> dfs[y] > 0
    ensures Edge(Renumber(g, dfs, vertex), u, v) <==>
            1 <= u < |vertex| && 1 <= v < |vertex| && Edge(g, vertex[u], vertex[v])
  {
    var h := Renumber(g, dfs, vertex);
    if 1 <= u < |vertex| {
      var out := g[vertex[u]];
      assert forall i :: 0 <= i < |out| ==> out[i] in out && h[u][i] == dfs[out[i]];
      if v in h[u] {
        var i :| 0 <= i < |h[u]| && h[u][i] == v;
        assert Edge(g, vertex[u], out[i]);
      }
      if 1 <= v < |vertex| && vertex[v] in out {
        var i :| 0 <= i < |out| && out[i] == vertex[v];
        assert h[u][i] == v;
      }
    }
  }

  /** Number the blocks reachable from the root in discovery order. */
  method NumberBlocks(g: Succs, root: nat)
    returns (dfs: seq<nat>, vertex: seq<nat>, parent: seq<nat>, ghost t: Dfs)
    requires Wellformed(g) && root < |g|
    ensures Numbered(g, root, dfs, vertex) && Explored(g, dfs, [])
    ensures |parent| == |g| + 1 && |vertex| <= |parent| && parent[1] == 0
    ensures t == Dfs(Renumber(g, dfs, vertex), parent[..|vertex|], t.anc) && ValidDfs(t)
  {
    dfs := seq(|g|, _ => 0)[root := 1];
    vertex := [|g|, root];
    parent := seq(|g| + 1, _ => 0);
    var stack := [(root, 0)];
    ghost var anc: seq<set<nat>> := [{}, {1}];
    InitStep(g, root);
    while stack != []
      invariant Inv(g, root, dfs, vertex, parent, anc, stack) && parent[1] == 0
      decreases Undiscovered(dfs), |stack|,
        if stack == [] then 0 else |g[stack[|stack| - 1].0]| - stack[|stack| - 1].1
    {
      var (block, next) := stack[|stack| - 1];
      if next == |g[block]| {
        PopStep(g, dfs, anc, stack, block);
        stack := stack[..|stack| - 1];
      } else {
        var successor := g[block][next];
        assert successor in g[block];
        if dfs[successor] == 0 {
          PushStep(g, root, dfs, vertex, parent, anc, stack, block, next, successor);
          stack := stack[|stack| - 1 := (block, next + 1)];
          var number := |vertex|;
          DiscoveredLess(dfs, successor, number);
          anc := anc + [anc[dfs[block]] + {number}];
          parent := parent[number := dfs[block]];
          dfs := dfs[successor := number];
          vertex := vertex + [successor];
          stack := stack + [(successor, 0)];
        } else {
          AdvanceStep(g, dfs, anc, stack, block, next);
          stack := stack[|stack| - 1 := (block, next + 1)];
        }
      }
    }
    t := Dfs(Renumber(g, dfs, vertex), parent[..|vertex|], anc);
    NumberingIsDfs(g, root, dfs, vertex, parent, anc);
  }

  ghost function Undiscovered(dfs: seq<nat>): set<nat> {
    set b: nat | b < |dfs| && dfs[b] == 0
  }

  lemma DiscoveredLess(dfs: seq<nat>, b: nat, n: nat)
    requires b < |dfs| && dfs[b] == 0 && n > 0
    ensures Undiscovered(dfs[b := n]) < Undiscovered(dfs)
  {
    assert b in Undiscovered(dfs) && b !in Undiscovered(dfs[b := n]);
  }

  lemma InitStep(g: Succs, root: nat)
    requires Wellformed(g) && root < |g|
    ensures Inv(g, root, seq(|g|, _ => 0)[root := 1], [|g|, root], seq(|g| + 1, _ => 0), [{}, {1}], [(root, 0)])
  {
    assert [(root, 0 as nat)][0].0 == root;
    assert OnStack([(root, 0)], root);
  }

  lemma NumberingIsDfs(g: Succs, root: nat, dfs: seq<nat>, vertex: seq<nat>, parent: seq<nat>, anc: seq<set<nat>>)
    requires Wellformed(g) && Inv(g, root, dfs, vertex, parent, anc, [])
    ensures ValidDfs(Dfs(Renumber(g, dfs, vertex), parent[..|vertex|], anc))
  {
    var t := Dfs(Renumber(g, dfs, vertex), parent[..|vertex|], anc);
    forall u: nat, v: nat ensures Edge(t.h, u, v) <==>
            1 <= u < |vertex| && 1 <= v < |vertex| && Edge(g, vertex[u], vertex[v]) {
      RenumberEdge(g, root, dfs, vertex, u, v);
    }
    forall u: nat, v: nat | Edge(t.h, u, v) && u < v ensures Anc(t, u, v) {
      assert Edge(g, vertex[u], vertex[v]) && dfs[vertex[u]] == u && dfs[vertex[v]] == v;
    }
  }

  // ------------------------------------------------------------ blocks and numbers

  ghost predicate Renumbered(g: Succs, root: nat, dfs: seq<nat>, vertex: seq<nat>, t: Dfs) {
    && Wellformed(g) && Numbered(g, root, dfs, vertex) && Explored(g, dfs, [])
    && t.h == Renumber(g, dfs, vertex) && ValidDfs(t)
  }

  function Mapped(p: seq<nat>, table: seq<nat>): (q: seq<nat>)
    ensures |q| == |p|
    ensures forall i :: 0 <= i < |p| && p[i] < |table| ==> q[i] == table[p[i]]
  {
    seq(|p|, i requires 0 <= i < |p| => if p[i] < |table| then table[p[i]] else 0)
  }

  lemma {:induction false} BlockPath(g: Succs, root: nat, dfs: seq<nat>, vertex: seq<nat>, t: Dfs, p: seq<nat>, b: nat)
    requires Renumbered(g, root, dfs, vertex, t) && PathFromTo(g, p, root, b)
    ensures forall i :: 0 <= i < |p| ==> dfs[p[i]] > 0
    ensures PathFromTo(t.h, Mapped(p, dfs), 1, dfs[b])
  {
    assert dfs[vertex[1]] == 1;
    var k := 1;
    while k < |p|
      invariant 1 <= k <= |p| && forall i :: 0 <= i < k ==> dfs[p[i]] > 0
    {
      assert Edge(g, p[k - 1], p[k]) && !OnStack([], p[k - 1]);
      k := k + 1;
    }
    var q := Mapped(p, dfs);
    forall i, j | 0 <= i && j == i + 1 && j < |q| ensures Edge(t.h, q[i], q[j]) {
      EdgeClosed(g, dfs);
      RenumberEdge(g, root, dfs, vertex, dfs[p[i]], dfs[p[j]]);
      assert Edge(g, p[i], p[j]);
    }
  }

  lemma EdgeClosed(g: Succs, dfs: seq<nat>)
    requires Explored(g, dfs, [])
    ensures forall x: nat, y: nat :: Edge(g, x, y) && dfs[x] > 0 ==> dfs[y] > 0
  {
    forall x: nat, y: nat | Edge(g, x, y) && dfs[x] > 0 ensures dfs[y] > 0 {
      assert !OnStack([], x);
    }
  }

  lemma NumberPath(g: Succs, root: nat, dfs: seq<nat>, vertex: seq<nat>, t: Dfs, q: seq<nat>, w: nat)
    requires Renumbered(g, root, dfs, vertex, t) && PathFromTo(t.h, q, 1, w)
    ensures 1 <= w < |vertex| && forall i :: 0 <= i < |q| ==> 1 <= q[i] < |vertex|
    ensures PathFromTo(g, Mapped(q, vertex), root, vertex[w])
  {
    var p := Mapped(q, vertex);
    EdgeClosed(g, dfs);
    forall i | 0 <= i < |q| ensures 1 <= q[i] < |vertex| {
      PositivePath(t, q, 0, i);
    }
    forall i, j | 0 <= i && j == i + 1 && j < |p| ensures Edge(g, p[i], p[j]) {
      RenumberEdge(g, root, dfs, vertex, q[i], q[j]);
      assert Edge(t.h, q[i], q[j]);
    }
  }

  /** A block is numbered exactly when it is reachable. */
  lemma NumberedIffReachable(g: Succs, root: nat, dfs: seq<nat>, vertex: seq<nat>, t: Dfs, b: nat)
    requires Renumbered(g, root, dfs, vertex, t) && b < |g|
    ensures dfs[b] > 0 <==> Reach(g, root, b)
  {
    if dfs[b] > 0 {
      AncBounds(t, 1, dfs[b]);
      var q := TreePath(t, 1, dfs[b]);
      NumberPath(g, root, dfs, vertex, t, q, dfs[b]);
    }
    if p :| PathFromTo(g, p, root, b) {
      BlockPath(g, root, dfs, vertex, t, p, b);
    }
  }

  lemma DominatesTransfer(g: Succs, root: nat, dfs: seq<nat>, vertex: seq<nat>, t: Dfs, a: nat, b: nat)
    requires Renumbered(g, root, dfs, vertex, t) && 1 <= a < |vertex| && 1 <= b < |vertex|
    ensures Dominates(t.h, 1, a, b) <==> Dominates(g, root, vertex[a], vertex[b])
  {
    NumberedIffReachable(g, root, dfs, vertex, t, vertex[b]);
    AncBounds(t, 1, b);
    var q0 := TreePath(t, 1, b);
    if Dominates(t.h, 1, a, b) {
      forall p | PathFromTo(g, p, root, vertex[b]) ensures vertex[a] in p {
        BlockPath(g, root, dfs, vertex, t, p, vertex[b]);
        var i :| 0 <= i < |p| && Mapped(p, dfs)[i] == a;
        assert p[i] == vertex[a];
      }
    }
    if Dominates(g, root, vertex[a], vertex[b]) {
      forall q | PathFromTo(t.h, q, 1, b) ensures a in q {
        NumberPath(g, root, dfs, vertex, t, q, b);
        var i :| 0 <= i < |q| && Mapped(q, vertex)[i] == vertex[a];
        assert dfs[vertex[q[i]]] == q[i];
      }
    }
  }

  /** Immediate dominance among numbers is immediate dominance among blocks. */
  lemma IdomTransfer(g: Succs, root: nat, dfs: seq<nat>, vertex: seq<nat>, t: Dfs, d: nat, w: nat)
    requires Renumbered(g, root, dfs, vertex, t) && 1 <= d < |vertex| && 1 <= w < |vertex|
    requires IsIdom(t.h, 1, d, w)
    ensures IsIdom(g, root, vertex[d], vertex[w])
  {
    DominatesTransfer(g, root, dfs, vertex, t, d, w);
    assert dfs[vertex[d]] == d && dfs[vertex[w]] == w;
    forall z: nat | StrictlyDominates(g, root, z, vertex[w]) ensures Dominates(g, root, z, vertex[d]) {
      DominatorReachable(g, root, z, vertex[w]);
      NumberedIffReachable(g, root, dfs, vertex, t, z);
      DominatesTransfer(g, root, dfs, vertex, t, dfs[z], w);
      DominatesTransfer(g, root, dfs, vertex, t, dfs[z], d);
    }
  }
}
