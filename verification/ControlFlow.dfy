/** The forward analysis of one control-flow graph. */
module ControlFlow {
  import opened Graph
  import opened Finite
  import opened FinishingOrder
  import opened SortedLists
  import opened CfgErrors
  import opened LengauerTarjan
  import opened DomTree
  import opened Dominance
  import opened Frontier
  import opened SsaSpec
  import opened Loops

  datatype ForwardCfg = ForwardCfg(cfg: SsaCfg, loops: seq<NaturalLoop>)

  // ------------------------------------------------------------ parallel edges

  /** `r` lists what `s` lists, once each and in the order of first occurrence. */
  ghost predicate FirstOccurrences(s: seq<nat>, r: seq<nat>) {
    && (forall x: nat :: x in r <==> x in s)
    && (forall i, j :: 0 <= i < j < |r| ==> r[i] != r[j])
    && forall i, j :: 0 <= i < j < |r| ==> FirstBefore(s, r[i], r[j])
  }

  ghost predicate FirstBefore(s: seq<nat>, a: nat, b: nat) {
    exists k :: 0 <= k < |s| && s[k] == a && b !in s[..k]
  }

  lemma FirstBeforeGrows(s: seq<nat>, x: nat, a: nat, b: nat)
    requires FirstBefore(s, a, b)
    ensures FirstBefore(s + [x], a, b)
  {
    var k :| 0 <= k < |s| && s[k] == a && b !in s[..k];
    assert (s + [x])[..k] == s[..k] && (s + [x])[k] == a;
  }

  lemma NewIsLast(s: seq<nat>, a: nat, x: nat)
    requires a in s && x !in s
    ensures FirstBefore(s + [x], a, x)
  {
    var k :| 0 <= k < |s| && s[k] == a;
    assert (s + [x])[..k] == s[..k] && (s + [x])[k] == a;
  }

  method DedupTargets(outgoing: seq<nat>) returns (r: seq<nat>)
    ensures FirstOccurrences(outgoing, r)
  {
    r := [];
    for i := 0 to |outgoing|
      invariant FirstOccurrences(outgoing[..i], r)
    {
      assert outgoing[..i + 1] == outgoing[..i] + [outgoing[i]];
      forall a, b | 0 <= a < b < |r| ensures FirstBefore(outgoing[..i + 1], r[a], r[b]) {
        FirstBeforeGrows(outgoing[..i], outgoing[i], r[a], r[b]);
      }
      if outgoing[i] !in r {
        forall a | 0 <= a < |r| ensures FirstBefore(outgoing[..i + 1], r[a], outgoing[i]) {
          assert r[a] in r;
          NewIsLast(outgoing[..i], r[a], outgoing[i]);
        }
        r := r + [outgoing[i]];
      }
    }
    assert outgoing[..|outgoing|] == outgoing;
  }

  /** A row determines its list of first occurrences. */
  lemma OneFirstOccurrences(s: seq<nat>, r: seq<nat>, t: seq<nat>)
    requires FirstOccurrences(s, r) && FirstOccurrences(s, t)
    ensures r == t
  {
    forall a: nat, b: nat | a != b && FirstBefore(s, a, b) ensures !FirstBefore(s, b, a) {
      NotBothFirst(s, a, b);
    }
    SameSorted(r, t, (a: nat, b: nat) => a != b && FirstBefore(s, a, b));
  }

  lemma NotBothFirst(s: seq<nat>, a: nat, b: nat)
    requires a != b && FirstBefore(s, a, b)
    ensures !FirstBefore(s, b, a)
  {
    var i :| 0 <= i < |s| && s[i] == a && b !in s[..i];
    forall j | 0 <= j < i ensures s[j] != b {
      assert s[j] in s[..i];
    }
    forall j | 0 <= j < |s| && s[j] == b ensures a in s[..j] {
      assert s[..j][i] == a;
    }
  }

  ghost predicate SameEdges(g: Succs, h: Succs) {
    |g| == |h| && forall u: nat, v: nat :: Edge(g, u, v) <==> Edge(h, u, v)
  }

  /** Parallel edges are dropped; every row keeps the order of its targets. */
  ghost predicate SimpleRows(g: Succs, h: Succs) {
    |g| == |h| && forall u: nat :: u < |g| ==> FirstOccurrences(g[u], h[u])
  }

  method DedupEdges(g: Succs) returns (r: Succs)
    requires Wellformed(g)
    ensures SimpleRows(g, r) && SameEdges(g, r) && Wellformed(r) && NoParallelEdges(r)
  {
    r := [];
    for u := 0 to |g|
      invariant |r| == u && forall a: nat :: a < u ==> FirstOccurrences(g[a], r[a])
    {
      var targets := DedupTargets(g[u]);
      r := r + [targets];
    }
    forall u: nat, v: nat ensures Edge(g, u, v) <==> Edge(r, u, v) {
      if u < |g| {
        assert FirstOccurrences(g[u], r[u]);
      }
    }
  }

  // ------------------------------------------------------------ reachability

  ghost predicate Framed(stack: OpenRows, b: nat) {
    exists i :: 0 <= i < |stack| && stack[i].0 == b
  }

  ghost predicate FrameOk(g: Succs, visited: set<nat>, f: (nat, nat)) {
    && f.0 < |g| && f.0 in visited && f.1 <= |g[f.0]|
    && forall k :: 0 <= k < f.1 ==> g[f.0][k] in visited
  }

  ghost predicate SearchInv(g: Succs, root: nat, visited: set<nat>, post: seq<nat>, stack: OpenRows) {
    && root in visited
    && (forall b: nat :: b in visited ==> b < |g| && Reach(g, root, b))
    && (forall i :: 0 <= i < |stack| ==> FrameOk(g, visited, stack[i]))
    && (forall i, j :: 0 <= i < j < |stack| ==> stack[i].0 != stack[j].0)
    && (forall i, j :: 0 <= i < j < |post| ==> post[i] != post[j])
    && (forall b: nat :: b in post ==>
         b in visited && !Framed(stack, b) && forall v: nat :: Edge(g, b, v) ==> v in visited)
    && forall b: nat :: b in visited ==> b in post || Framed(stack, b)
  }

  lemma SearchPop(g: Succs, root: nat, visited: set<nat>, post: seq<nat>, stack: OpenRows)
    requires SearchInv(g, root, visited, post, stack) && stack != []
    requires stack[|stack| - 1].0 < |g| && stack[|stack| - 1].1 == |g[stack[|stack| - 1].0]|
    ensures SearchInv(g, root, visited, post + [stack[|stack| - 1].0], stack[..|stack| - 1])
  {
    var top := |stack| - 1;
    var b := stack[top].0;
    var stack' := stack[..top];
    forall x: nat ensures Framed(stack', x) <==> Framed(stack, x) && x != b {
      if Framed(stack, x) && x != b {
        var i :| 0 <= i < |stack| && stack[i].0 == x;
        assert stack'[i].0 == x;
      }
      if Framed(stack', x) {
        var i :| 0 <= i < |stack'| && stack'[i].0 == x;
        assert stack[i].0 == x;
      }
    }
    assert stack[top].0 == b && FrameOk(g, visited, stack[top]);
    forall v: nat | Edge(g, b, v) ensures v in visited {
      var k :| 0 <= k < |g[b]| && g[b][k] == v;
    }
  }

  lemma SearchAdvance(g: Succs, root: nat, visited: set<nat>, post: seq<nat>, stack: OpenRows, b: nat, k: nat)
    requires SearchInv(g, root, visited, post, stack) && stack != [] && stack[|stack| - 1] == (b, k)
    requires b < |g| && k < |g[b]| && g[b][k] in visited
    ensures SearchInv(g, root, visited, post, stack[|stack| - 1 := (b, k + 1)])
  {
    var stack' := stack[|stack| - 1 := (b, k + 1)];
    assert FrameOk(g, visited, stack[|stack| - 1]);
    assert forall i :: 0 <= i < |stack| ==> stack'[i].0 == stack[i].0;
    forall x: nat ensures Framed(stack', x) <==> Framed(stack, x) {
      if Framed(stack, x) {
        var i :| 0 <= i < |stack| && stack[i].0 == x;
        assert stack'[i].0 == x;
      }
    }
  }

  lemma SearchPush(g: Succs, root: nat, visited: set<nat>, post: seq<nat>, stack: OpenRows, s: nat)
    requires SearchInv(g, root, visited, post, stack) && stack != []
    requires Edge(g, stack[|stack| - 1].0, s) && s !in visited
    ensures SearchInv(g, root, visited + {s}, post, stack + [(s, 0)])
  {
    var stack' := stack + [(s, 0)];
    var b := stack[|stack| - 1].0;
    assert FrameOk(g, visited, stack[|stack| - 1]);
    ReachEdge(g, root, b, s);
    forall x: nat ensures Framed(stack', x) <==> Framed(stack, x) || x == s {
      if Framed(stack, x) {
        var i :| 0 <= i < |stack| && stack[i].0 == x;
        assert stack'[i].0 == x;
      }
      assert stack'[|stack|].0 == s;
      if Framed(stack', x) && x != s {
        var i :| 0 <= i < |stack'| && stack'[i].0 == x;
        assert stack[i].0 == x;
      }
    }
    forall i | 0 <= i < |stack'| ensures FrameOk(g, visited + {s}, stack'[i]) {
      if i < |stack| {
        assert FrameOk(g, visited, stack[i]);
      }
    }
  }

  lemma {:induction false} SearchComplete(g: Succs, root: nat, visited: set<nat>, post: seq<nat>, p: seq<nat>)
    requires SearchInv(g, root, visited, post, []) && IsPath(g, p) && p[0] == root
    ensures p[|p| - 1] in post
    decreases |p|
  {
    assert !Framed([], root);
    if |p| > 1 {
      var q := p[..|p| - 1];
      SearchComplete(g, root, visited, post, q);
      assert Edge(g, q[|q| - 1], p[|p| - 1]);
      assert !Framed([], p[|p| - 1]);
    }
  }

  // ------------------------------------------------------------ the order

  /** A finished block's targets finished before it, or lead back to it. */
  ghost predicate EdgesForward(g: Succs, post: seq<nat>) {
    forall i: nat, v: nat :: i < |post| && Edge(g, post[i], v) ==> v in post[..i] || Reach(g, v, post[i])
  }

  /** What finished and what the stack still has to finish make up the whole search. */
  ghost predicate OnSearch(g: Succs, root: nat, visited: set<nat>, post: seq<nat>, stack: OpenRows) {
    && Wellformed(g) && root < |g| && FramesIn(g, stack)
    && var rest := Rest(g, visited, stack);
       Finished(g, {}, [root]) == Finishing(rest.seen, post + rest.post)
  }

  /** Blocks on the stack lead to the blocks above them; the root is the lowest, and the last to finish. */
  ghost predicate Nested(g: Succs, root: nat, post: seq<nat>, stack: OpenRows) {
    && (forall i, j :: 0 <= i < j < |stack| ==> Reach(g, stack[i].0, stack[j].0))
    && if stack == [] then post != [] && post[|post| - 1] == root else stack[0].0 == root
  }

  ghost predicate InOrder(g: Succs, root: nat, visited: set<nat>, post: seq<nat>, stack: OpenRows) {
    OnSearch(g, root, visited, post, stack) && Nested(g, root, post, stack) && EdgesForward(g, post)
  }

  ghost predicate Searching(g: Succs, root: nat, visited: set<nat>, post: seq<nat>, stack: OpenRows) {
    SearchInv(g, root, visited, post, stack) && InOrder(g, root, visited, post, stack)
  }

  lemma StartTurn(g: Succs, root: nat)
    requires Wellformed(g) && root < |g|
    ensures Searching(g, root, {root}, [], [(root, 0)])
  {
    ReachRefl(g, root);
    assert [(root, 0)][0].0 == root && Framed([(root, 0)], root);
    assert FramesIn(g, [(root, 0)]) && InGraph(g, [root]);
    RestStart(g, root);
    var rest := Rest(g, {root}, [(root, 0)]);
    assert [] + rest.post == rest.post;
  }

  lemma PopSearch(g: Succs, root: nat, visited: set<nat>, post: seq<nat>, stack: OpenRows, b: nat)
    requires OnSearch(g, root, visited, post, stack)
    requires stack != [] && b < |g| && stack[|stack| - 1] == (b, |g[b]|)
    ensures OnSearch(g, root, visited, post + [b], stack[..|stack| - 1])
  {
    var below := stack[..|stack| - 1];
    assert stack == below + [(b, |g[b]|)];
    RestPop(g, visited, below, b);
    var rest := Rest(g, visited, below);
    assert post + ([b] + rest.post) == post + [b] + rest.post;
  }

  lemma PopEdges(g: Succs, root: nat, visited: set<nat>, post: seq<nat>, stack: OpenRows, b: nat)
    requires SearchInv(g, root, visited, post, stack) && Nested(g, root, post, stack) && EdgesForward(g, post)
    requires stack != [] && b < |g| && stack[|stack| - 1] == (b, |g[b]|)
    ensures EdgesForward(g, post + [b])
  {
    forall i: nat, v: nat | i < |post| + 1 && Edge(g, (post + [b])[i], v)
      ensures v in (post + [b])[..i] || Reach(g, v, (post + [b])[i])
    {
      assert (post + [b])[..i] == post[..i];
      if i == |post| {
        FinishedLast(g, root, visited, post, stack, b, v);
        assert post[..|post|] == post;
      } else {
        assert Edge(g, post[i], v);
      }
    }
  }

  lemma FinishedLast(g: Succs, root: nat, visited: set<nat>, post: seq<nat>, stack: OpenRows, b: nat, v: nat)
    requires SearchInv(g, root, visited, post, stack) && Nested(g, root, post, stack) && Edge(g, b, v)
    requires stack != [] && stack[|stack| - 1] == (b, |g[b]|)
    ensures v in post || Reach(g, v, b)
  {
    var n := |stack| - 1;
    assert FrameOk(g, visited, stack[n]);
    var k :| 0 <= k < |g[b]| && g[b][k] == v;
    if v !in post {
      assert Framed(stack, v);
      var i :| 0 <= i < |stack| && stack[i].0 == v;
      if i == n {
        ReachRefl(g, b);
      } else {
        assert Reach(g, stack[i].0, stack[n].0);
      }
    }
  }

  lemma SkipSearch(g: Succs, root: nat, visited: set<nat>, post: seq<nat>, stack: OpenRows, b: nat, k: nat)
    requires OnSearch(g, root, visited, post, stack) && stack != [] && stack[|stack| - 1] == (b, k)
    requires b < |g| && k < |g[b]| && g[b][k] in visited
    ensures OnSearch(g, root, visited, post, stack[|stack| - 1 := (b, k + 1)])
  {
    var below := stack[..|stack| - 1];
    assert stack == below + [(b, k)] && stack[|stack| - 1 := (b, k + 1)] == below + [(b, k + 1)];
    RestSkip(g, visited, below, b, k);
  }

  lemma PushSearch(g: Succs, root: nat, visited: set<nat>, post: seq<nat>, stack: OpenRows, b: nat, k: nat, s: nat)
    requires OnSearch(g, root, visited, post, stack) && stack != [] && stack[|stack| - 1] == (b, k)
    requires b < |g| && k < |g[b]| && g[b][k] == s && s !in visited && s < |g|
    ensures OnSearch(g, root, visited + {s}, post, stack[|stack| - 1 := (b, k + 1)] + [(s, 0)])
  {
    var below, after := stack[..|stack| - 1], stack[|stack| - 1 := (b, k + 1)] + [(s, 0)];
    assert stack == below + [(b, k)] && after == below + [(b, k + 1)] + [(s, 0)];
    RestPush(g, visited, below, b, k, s);
  }

  lemma PushNested(g: Succs, root: nat, post: seq<nat>, stack: OpenRows, b: nat, k: nat, s: nat)
    requires Nested(g, root, post, stack) && stack != [] && stack[|stack| - 1] == (b, k)
    requires b < |g| && Edge(g, b, s)
    ensures Nested(g, root, post, stack[|stack| - 1 := (b, k + 1)] + [(s, 0)])
  {
    forall i | 0 <= i < |stack| ensures Reach(g, stack[i].0, s) {
      if i == |stack| - 1 {
        ReachRefl(g, b);
      } else {
        assert Reach(g, stack[i].0, stack[|stack| - 1].0);
      }
      ReachEdge(g, stack[i].0, b, s);
    }
  }

  lemma PopTurn(g: Succs, root: nat, visited: set<nat>, post: seq<nat>, stack: OpenRows, b: nat)
    requires Searching(g, root, visited, post, stack)
    requires stack != [] && b < |g| && stack[|stack| - 1] == (b, |g[b]|)
    ensures Searching(g, root, visited, post + [b], stack[..|stack| - 1])
  {
    SearchPop(g, root, visited, post, stack);
    PopSearch(g, root, visited, post, stack, b);
    PopEdges(g, root, visited, post, stack, b);
    PopNested(g, root, post, stack, b);
  }

  lemma PopNested(g: Succs, root: nat, post: seq<nat>, stack: OpenRows, b: nat)
    requires Nested(g, root, post, stack) && stack != [] && stack[|stack| - 1].0 == b
    ensures Nested(g, root, post + [b], stack[..|stack| - 1])
  {
  }

  lemma SkipTurn(g: Succs, root: nat, visited: set<nat>, post: seq<nat>, stack: OpenRows, b: nat, k: nat)
    requires Searching(g, root, visited, post, stack) && stack != [] && stack[|stack| - 1] == (b, k)
    requires b < |g| && k < |g[b]| && g[b][k] in visited
    ensures Searching(g, root, visited, post, stack[|stack| - 1 := (b, k + 1)])
  {
    SearchAdvance(g, root, visited, post, stack, b, k);
    SkipSearch(g, root, visited, post, stack, b, k);
    SkipNested(g, root, post, stack, b, k);
  }

  lemma SkipNested(g: Succs, root: nat, post: seq<nat>, stack: OpenRows, b: nat, k: nat)
    requires Nested(g, root, post, stack) && stack != [] && stack[|stack| - 1].0 == b
    ensures Nested(g, root, post, stack[|stack| - 1 := (b, k + 1)])
  {
  }

  lemma PushTurn(g: Succs, root: nat, visited: set<nat>, post: seq<nat>, stack: OpenRows, b: nat, k: nat, s: nat)
    requires Searching(g, root, visited, post, stack) && stack != [] && stack[|stack| - 1] == (b, k)
    requires b < |g| && k < |g[b]| && g[b][k] == s && s !in visited && Edge(g, b, s)
    ensures Searching(g, root, visited + {s}, post, stack[|stack| - 1 := (b, k + 1)] + [(s, 0)])
  {
    SearchPush(g, root, visited, post, stack, s);
    SearchAdvanceBelow(g, root, visited + {s}, post, stack, b, k, s);
    PushSearch(g, root, visited, post, stack, b, k, s);
    PushNested(g, root, post, stack, b, k, s);
  }

  ghost function Reverse(s: seq<nat>): (r: seq<nat>)
    ensures |r| == |s| && forall i :: 0 <= i < |s| ==> r[i] == s[|s| - 1 - i]
  {
    seq<nat>(|s|, i requires 0 <= i < |s| => s[|s| - 1 - i])
  }

  lemma ReversedEdges(g: Succs, post: seq<nat>, i: nat, v: nat)
    requires EdgesForward(g, post) && i < |post| && Edge(g, Reverse(post)[i], v)
    ensures v in Reverse(post)[i + 1..] || Reach(g, v, Reverse(post)[i])
  {
    var k := |post| - 1 - i;
    assert Edge(g, post[k], v);
    if v in post[..k] {
      var j :| 0 <= j < k && post[j] == v;
      var n := |post| - 1 - j;
      assert Reverse(post)[n] == v && n > i;
      assert Reverse(post)[i + 1..][n - i - 1] == v;
    }
  }

  /** The blocks reachable from the root, each once, the last to finish first: the root leads, and a block's targets
      come after it unless they lead back to it. */
  method ReversePostorder(g: Succs, root: nat) returns (order: seq<nat>)
    requires Wellformed(g) && root < |g|
    ensures forall i, j :: 0 <= i < j < |order| ==> order[i] != order[j]
    ensures forall b: nat :: b in order <==> b < |g| && Reach(g, root, b)
    ensures order == Reverse(Finished(g, {}, [root]).post) && order != [] && order[0] == root
    ensures forall i: nat, v: nat :: i < |order| && Edge(g, order[i], v) ==>
              v in order[i + 1..] || Reach(g, v, order[i])
  {
    var visited := {root};
    var post: seq<nat> := [];
    var stack: OpenRows := [(root, 0)];
    StartTurn(g, root);
    while stack != []
      invariant Searching(g, root, visited, post, stack)
      decreases Below(|g|) - visited, |stack|,
        if stack == [] || stack[|stack| - 1].0 >= |g| then 0 else |g[stack[|stack| - 1].0]| - stack[|stack| - 1].1
    {
      var (block, next) := stack[|stack| - 1];
      assert FrameOk(g, visited, stack[|stack| - 1]);
      if next == |g[block]| {
        PopTurn(g, root, visited, post, stack, block);
        post := post + [block];
        stack := stack[..|stack| - 1];
      } else {
        var successor := g[block][next];
        assert successor in g[block] && Edge(g, block, successor);
        if successor !in visited {
          PushTurn(g, root, visited, post, stack, block, next, successor);
          assert successor in Below(|g|) - visited;
          visited := visited + {successor};
          stack := stack[|stack| - 1 := (block, next + 1)] + [(successor, 0)];
        } else {
          SkipTurn(g, root, visited, post, stack, block, next);
          stack := stack[|stack| - 1 := (block, next + 1)];
        }
      }
    }
    forall b: nat | b < |g| && Reach(g, root, b) ensures b in post {
      var p :| PathFromTo(g, p, root, b);
      SearchComplete(g, root, visited, post, p);
    }
    order := seq(|post|, i requires 0 <= i < |post| => post[|post| - 1 - i]);
    SearchEnds(g, root, visited, post, order);
  }

  lemma SearchEnds(g: Succs, root: nat, visited: set<nat>, post: seq<nat>, order: seq<nat>)
    requires InOrder(g, root, visited, post, []) && |order| == |post|
    requires forall i :: 0 <= i < |post| ==> order[i] == post[|post| - 1 - i]
    ensures order == Reverse(Finished(g, {}, [root]).post) && order != [] && order[0] == root
    ensures forall b: nat :: b in order <==> b in post
    ensures forall i: nat, v: nat :: i < |order| && Edge(g, order[i], v) ==>
              v in order[i + 1..] || Reach(g, v, order[i])
  {
    assert post + Rest(g, visited, []).post == post;
    assert order == Reverse(post);
    forall b: nat ensures b in order <==> b in post {
      if b in post {
        var i :| 0 <= i < |post| && post[i] == b;
        assert order[|post| - 1 - i] == b;
      }
    }
    forall i: nat, v: nat | i < |order| && Edge(g, order[i], v) ensures v in order[i + 1..] || Reach(g, v, order[i]) {
      ReversedEdges(g, post, i, v);
    }
  }

  lemma SearchAdvanceBelow(g: Succs, root: nat, visited: set<nat>, post: seq<nat>, stack: OpenRows, b: nat, k: nat,
      s: nat)
    requires stack != [] && stack[|stack| - 1] == (b, k) && b < |g| && k < |g[b]| && g[b][k] == s && s in visited
    requires SearchInv(g, root, visited, post, stack + [(s, 0)])
    ensures SearchInv(g, root, visited, post, stack[|stack| - 1 := (b, k + 1)] + [(s, 0)])
  {
    var before := stack + [(s, 0)];
    var after := stack[|stack| - 1 := (b, k + 1)] + [(s, 0)];
    assert forall i :: 0 <= i < |after| ==> after[i].0 == before[i].0;
    assert FrameOk(g, visited, before[|stack| - 1]);
    forall i | 0 <= i < |after| ensures FrameOk(g, visited, after[i]) {
      assert FrameOk(g, visited, before[i]);
    }
    forall x: nat ensures Framed(after, x) <==> Framed(before, x) {
      if Framed(before, x) {
        var i :| 0 <= i < |before| && before[i].0 == x;
        assert after[i].0 == x;
      }
    }
  }

  // ------------------------------------------------------------ predecessors

  ghost predicate PredecessorsUpTo(g: Succs, preds: seq<seq<nat>>, n: nat) {
    && |preds| == |g|
    && (forall u: nat, v: nat :: v < |preds| ==> (u in preds[v] <==> u < n && Edge(g, u, v)))
    && forall v, i, j :: 0 <= v < |preds| && 0 <= i < j < |preds[v]| ==> preds[v][i] < preds[v][j]
  }

  method AddOutgoing(g: Succs, preds0: seq<seq<nat>>, block: nat) returns (preds: seq<seq<nat>>)
    requires Wellformed(g) && NoParallelEdges(g) && block < |g| && PredecessorsUpTo(g, preds0, block)
    ensures PredecessorsUpTo(g, preds, block + 1)
  {
    preds := preds0;
    var outgoing := g[block];
    for i := 0 to |outgoing|
      invariant |preds| == |g|
      invariant forall v :: 0 <= v < |preds| ==> preds[v] == preds0[v] + if v in outgoing[..i] then [block] else []
    {
      var successor := outgoing[i];
      assert successor in outgoing && outgoing[..i + 1] == outgoing[..i] + [successor];
      assert successor !in outgoing[..i];
      preds := preds[successor := preds[successor] + [block]];
    }
    assert outgoing[..|outgoing|] == outgoing;
    forall v, i, j | 0 <= v < |preds| && 0 <= i < j < |preds[v]| ensures preds[v][i] < preds[v][j] {
      var u: nat := preds0[v][i];
      assert u in preds0[v];
      assert u < block;
    }
  }

  method Predecessors(g: Succs) returns (preds: seq<seq<nat>>)
    requires Wellformed(g) && NoParallelEdges(g)
    ensures PredecessorTable(g, preds)
  {
    preds := seq(|g|, _ => []);
    for block := 0 to |g|
      invariant PredecessorsUpTo(g, preds, block)
    {
      preds := AddOutgoing(g, preds, block);
    }
  }

  // ------------------------------------------------------------ the analysis

  lemma SameEdgesReach(g: Succs, h: Succs, root: nat, b: nat)
    requires SameEdges(g, h) && Reach(g, root, b)
    ensures Reach(h, root, b)
  {
    var p :| PathFromTo(g, p, root, b);
    assert PathFromTo(h, p, root, b);
  }

  /** The blocks outside `order`, ascending. */
  method Missing(order: seq<nat>, n: nat) returns (r: seq<nat>)
    ensures forall b: nat :: b in r <==> b < n && b !in order
    ensures forall i, j :: 0 <= i < j < |r| ==> r[i] < r[j]
  {
    r := [];
    for b := 0 to n
      invariant forall x: nat :: x in r <==> x < b && x !in order
      invariant forall i, j :: 0 <= i < j < |r| ==> r[i] < r[j]
    {
      if b !in order {
        forall i | 0 <= i < |r| ensures r[i] < b {
          var x: nat := r[i];
          assert x in r;
        }
        r := r + [b];
      }
    }
  }

  /** What a successful analysis returns for the graph `g`. */
  ghost predicate AnalysisOf(g: Succs, root: nat, a: ForwardCfg) {
    a.cfg.root == root && SimpleRows(g, a.cfg.succs) && SameEdges(g, a.cfg.succs) && CfgOk(a.cfg)
      && LoopForest(a.cfg.succs, root, a.loops)
  }

  /** The unreachable blocks, and nothing else. */
  ghost predicate IsMissing(g: Succs, root: nat, missing: seq<nat>) {
    forall b: nat :: b in missing <==> b < |g| && !Reach(g, root, b)
  }

  method Analyze(successors: Succs, root: nat) returns (result: Result<ForwardCfg>)
    ensures result.Ok? <==> root < |successors| && Wellformed(successors) && AllReachable(successors, root)
    ensures result.Ok? ==> AnalysisOf(successors, root, result.value)
    ensures result.Err? && ValidateEdges(successors, root).Some? ==>
              Some(result.error) == ValidateEdges(successors, root)
    ensures result.Err? && ValidateEdges(successors, root).None? ==> result.error.Unreachable?
    ensures result.Err? && ValidateEdges(successors, root).None? ==> IsMissing(successors, root, result.error.missing)
  {
    var invalid := ValidateEdges(successors, root);
    if invalid.Some? {
      return Err(invalid.value);
    }
    var g := DedupEdges(successors);
    forall b: nat ensures Reach(g, root, b) <==> Reach(successors, root, b) {
      if Reach(g, root, b) {
        SameEdgesReach(g, successors, root, b);
      }
      if Reach(successors, root, b) {
        SameEdgesReach(successors, g, root, b);
      }
    }
    var order := ReversePostorder(g, root);
    var missing := Missing(order, |g|);
    if |order| != |g| {
      if missing == [] {
        AllListed(order, |g|);
      }
      assert missing[0] in missing;
      return Err(Unreachable(missing));
    }
    AllListed(order, |g|);
    var preds := Predecessors(g);
    result := Dominated(g, root, preds, successors);
  }

  /** A duplicate-free list of blocks covers them all exactly when it is long enough. */
  lemma AllListed(order: seq<nat>, n: nat)
    requires forall i, j :: 0 <= i < j < |order| ==> order[i] != order[j]
    requires forall b: nat :: b in order ==> b < n
    ensures |order| == n <==> forall b: nat :: b < n ==> b in order
  {
    DistinctCard(order);
    var listed := set b | b in order;
    SubsetCard(listed, Below(n));
    if forall b: nat :: b < n ==> b in order {
      assert listed == Below(n);
    }
    if |order| == n {
      assert listed == Below(n);
      forall b: nat | b < n ensures b in order {
        assert b in Below(n);
      }
    }
  }

  method Dominated(g: Succs, root: nat, preds: seq<seq<nat>>, ghost original: Succs)
      returns (result: Result<ForwardCfg>)
    requires root < |g| && Wellformed(g) && NoParallelEdges(g) && AllReachable(g, root)
    requires PredecessorTable(g, preds) && SimpleRows(original, g) && SameEdges(original, g)
    ensures result.Ok? && AnalysisOf(original, root, result.value)
  {
    var idom := ImmediateDominators(g, root);
    if idom.Err? {
      return Err(InvalidGraph(""));
    }
    IdomTableIsTree(g, root, idom.value);
    var tree := FromIdom(idom.value, root);
    if exists b :: 0 <= b < |g| && b != root && idom.value[b].None? {
      return Err(InvalidGraph("reachable block has no immediate dominator"));
    }
    var frontier := DominanceFrontiers(g, tree.value, root);
    var loops := NaturalLoops(g, root, preds, tree.value);
    return Ok(ForwardCfg(SsaCfg(root, g, preds, tree.value, frontier), loops.value));
  }
}
