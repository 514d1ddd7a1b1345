/** Dominance frontiers, computed bottom-up over the dominator tree. */
module Frontier {
  import opened Graph
  import opened Finite
  import opened CfgErrors
  import opened LengauerTarjan
  import opened DomTree
  import opened Dominance

  /** The textbook frontier: `x` dominates a predecessor of `y` but not strictly `y`. */
  ghost predicate InFrontier(g: Succs, root: nat, x: nat, y: nat) {
    exists u :: Edge(g, u, y) && Dominates(g, root, x, u) && !StrictlyDominates(g, root, x, y)
  }

  ghost predicate Analyzed(g: Succs, root: nat, tree: DominatorTree) {
    root < |g| && Wellformed(g) && IdomTable(g, root, tree.idom) && ValidTree(tree, root)
  }

  lemma IdomStrictly(g: Succs, root: nat, tree: DominatorTree, x: nat, u: nat, y: nat)
    requires Analyzed(g, root, tree) && Edge(g, u, y) && Dominates(g, root, x, u)
    requires StrictlyDominates(g, root, x, y)
    ensures y != root && tree.idom[y].Some?
    ensures IsIdom(g, root, tree.idom[y].value, y)
    ensures Dominates(g, root, x, tree.idom[y].value) && Dominates(g, root, tree.idom[y].value, u)
  {
    ReachEdge(g, root, u, y);
    if y == root {
      RootHasNoIdom(g, root, x);
    }
    DominatesPredecessor(g, root, tree.idom[y].value, u, y);
  }

  lemma FrontierFromEdge(g: Succs, root: nat, tree: DominatorTree, x: nat, y: nat)
    requires Analyzed(g, root, tree) && Reach(g, root, x) && Edge(g, x, y) && tree.idom[y] != Some(x)
    ensures InFrontier(g, root, x, y)
  {
    DominatesRefl(g, root, x);
    if StrictlyDominates(g, root, x, y) {
      IdomStrictly(g, root, tree, x, x, y);
      DominatesAntisym(g, root, x, tree.idom[y].value);
    }
  }

  lemma FrontierFromChild(g: Succs, root: nat, tree: DominatorTree, x: nat, c: nat, y: nat)
    requires Analyzed(g, root, tree) && c < |g| && c != root && tree.idom[c] == Some(x)
    requires InFrontier(g, root, c, y) && tree.idom[y] != Some(x)
    ensures InFrontier(g, root, x, y)
  {
    var u :| Edge(g, u, y) && Dominates(g, root, c, u) && !StrictlyDominates(g, root, c, y);
    DominatesTrans(g, root, x, c, u);
    if StrictlyDominates(g, root, x, y) {
      IdomStrictly(g, root, tree, x, u, y);
      var d := tree.idom[y].value;
      DominatorReachable(g, root, d, y);
      var c' := ChildAbove(g, root, tree.idom, x, d);
      DominatesTrans(g, root, c', d, u);
      Comparable(g, root, tree.idom, c, c', u);
      SiblingsAgree(g, root, x, c, c');
      SiblingsAgree(g, root, x, c', c);
      DominatesTrans(g, root, c, d, y);
      if c == y {
        DominatesAntisym(g, root, y, d);
      }
    }
  }

  /** A child of `x` that dominates another child of `x` is that child. */
  lemma SiblingsAgree(g: Succs, root: nat, x: nat, c: nat, c': nat)
    requires IsIdom(g, root, x, c) && IsIdom(g, root, x, c')
    ensures Dominates(g, root, c, c') ==> c == c'
  {
    if Dominates(g, root, c, c') && c != c' {
      DominatesAntisym(g, root, c, x);
    }
  }

  lemma FrontierStep(g: Succs, root: nat, tree: DominatorTree, x: nat, y: nat)
    requires Analyzed(g, root, tree) && InFrontier(g, root, x, y)
    ensures tree.idom[y] != Some(x)
    ensures Edge(g, x, y) || exists c :: c in tree.children[x] && InFrontier(g, root, c, y)
  {
    var u :| Edge(g, u, y) && Dominates(g, root, x, u) && !StrictlyDominates(g, root, x, y);
    if x != u {
      var c := ChildAbove(g, root, tree.idom, x, u);
      DominatorReachable(g, root, x, u);
      assert IsChild(tree.idom, root, x, c) && c in tree.children[x];
      if StrictlyDominates(g, root, c, y) {
        DominatesTrans(g, root, x, c, y);
        if x == y {
          DominatesAntisym(g, root, x, c);
        }
      }
      assert InFrontier(g, root, c, y);
    }
    if tree.idom[y] == Some(x) {
      ReachEdge(g, root, u, y);
    }
  }

  lemma FrontierMembersReachable(g: Succs, root: nat, x: nat, y: nat)
    requires InFrontier(g, root, x, y)
    ensures Reach(g, root, x) && x < |g| && y < |g|
  {
    var u :| Edge(g, u, y) && Dominates(g, root, x, u);
    DominatorReachable(g, root, x, u);
  }

  // ------------------------------------------------------------ tree postorder

  type Frames = seq<(nat, bool)>

  ghost predicate OnStack(stack: Frames, c: nat, above: int) {
    exists j :: above < j < |stack| && 0 <= j && stack[j].0 == c
  }

  ghost predicate PostStack(idom: Links, root: nat, children: seq<seq<nat>>, expanded: set<nat>, post: seq<nat>,
      stack: Frames) {
    && |children| == |idom|
    && (forall i :: 0 <= i < |stack| ==> stack[i].0 < |idom| && (stack[i].1 <==> stack[i].0 in expanded))
    && (forall i, j :: 0 <= i < j < |stack| ==> stack[i].0 != stack[j].0)
    && (forall i :: 0 <= i < |stack| && !stack[i].1 && stack[i].0 != root ==>
          idom[stack[i].0].Some? && idom[stack[i].0].value in expanded)
    && forall i, c :: 0 <= i < |stack| && stack[i].1 && c in children[stack[i].0] ==> c in post || OnStack(stack, c, i)
  }

  ghost predicate Expanded(idom: Links, root: nat, expanded: set<nat>, post: seq<nat>, stack: Frames) {
    forall b :: b in expanded ==>
      && b < |idom| && (b in post || OnStack(stack, b, -1))
      && (b != root ==> idom[b].Some? && idom[b].value in expanded)
  }

  /** Children come before their parents and nothing is listed twice. */
  ghost predicate ChildrenFirst(children: seq<seq<nat>>, post: seq<nat>) {
    && (forall i :: 0 <= i < |post| ==> post[i] < |children|)
    && (forall i, j :: 0 <= i < j < |post| ==> post[i] != post[j])
    && forall i, c :: 0 <= i < |post| && c in children[post[i]] ==> c in post[..i]
  }

  ghost predicate PostInv(idom: Links, root: nat, children: seq<seq<nat>>, expanded: set<nat>, post: seq<nat>,
      stack: Frames) {
    && PostStack(idom, root, children, expanded, post, stack) && Expanded(idom, root, expanded, post, stack)
    && ChildrenFirst(children, post)
    && (forall b :: b in post ==> b in expanded && !OnStack(stack, b, -1))
  }

  lemma FinishStep(idom: Links, root: nat, children: seq<seq<nat>>, expanded: set<nat>, post: seq<nat>, stack: Frames)
    requires PostInv(idom, root, children, expanded, post, stack)
    requires stack != [] && stack[|stack| - 1].1
    ensures PostInv(idom, root, children, expanded, post + [stack[|stack| - 1].0], stack[..|stack| - 1])
  {
    var top := |stack| - 1;
    var b := stack[top].0;
    var stack', post' := stack[..top], post + [b];
    assert OnStack(stack, b, -1);
    assert b in post';
    forall c, i | i < top && OnStack(stack, c, i) && c != b ensures OnStack(stack', c, i) {
      var j :| i < j < |stack| && 0 <= j && stack[j].0 == c;
      assert stack'[j].0 == c;
    }
    forall c, i | OnStack(stack', c, i) ensures OnStack(stack, c, i) && c != b {
      var j :| i < j < |stack'| && 0 <= j && stack'[j].0 == c;
      assert stack[j].0 == c;
    }
    forall c | c in children[b] ensures c in post {
      assert c in post || OnStack(stack, c, top);
    }
    forall i, c | 0 <= i < |post'| && c in children[post'[i]] ensures c in post'[..i] {
      if i < |post| {
        assert post'[..i] == post[..i];
      } else {
        assert post'[..i] == post;
      }
    }
    forall i, c | 0 <= i < |stack'| && stack'[i].1 && c in children[stack'[i].0]
      ensures c in post' || OnStack(stack', c, i)
    {
      assert c in post || OnStack(stack, c, i);
    }
  }

  function Unfinished(kids: seq<nat>): (r: Frames)
    ensures |r| == |kids| && forall i :: 0 <= i < |kids| ==> r[i] == (kids[|kids| - 1 - i], false)
  {
    seq(|kids|, i requires 0 <= i < |kids| => (kids[|kids| - 1 - i], false))
  }

  /** The stack after replacing the unexpanded top `b` by its expansion. */
  function Expand(stack: Frames, kids: seq<nat>, b: nat): Frames
    requires stack != []
  {
    stack[..|stack| - 1] + [(b, true)] + Unfinished(kids)
  }

  lemma ExpandShape(stack: Frames, kids: seq<nat>, b: nat, i: nat)
    requires stack != [] && i < |Expand(stack, kids, b)|
    ensures i < |stack| - 1 ==> Expand(stack, kids, b)[i] == stack[i]
    ensures i == |stack| - 1 ==> Expand(stack, kids, b)[i] == (b, true)
    ensures i >= |stack| ==>
              |kids| - 1 - (i - |stack|) >= 0 && Expand(stack, kids, b)[i] == (kids[|kids| - 1 - (i - |stack|)], false)
    ensures i >= |stack| ==> Expand(stack, kids, b)[i].0 in kids
  {
    if i >= |stack| {
      assert Expand(stack, kids, b)[i] == Unfinished(kids)[i - |stack|];
    }
  }

  lemma ExpandOnStack(stack: Frames, kids: seq<nat>, b: nat, c: nat, i: int)
    requires stack != [] && stack[|stack| - 1].0 == b && -1 <= i < |stack|
    ensures OnStack(Expand(stack, kids, b), c, i) <==> OnStack(stack, c, i) || c in kids
  {
    var stack' := Expand(stack, kids, b);
    if OnStack(stack, c, i) {
      var j :| i < j < |stack| && 0 <= j && stack[j].0 == c;
      ExpandShape(stack, kids, b, j);
      assert stack'[j].0 == c;
    }
    if c in kids {
      var k :| 0 <= k < |kids| && kids[k] == c;
      ExpandShape(stack, kids, b, |stack| + |kids| - 1 - k);
      assert stack'[|stack| + |kids| - 1 - k].0 == c;
    }
    if OnStack(stack', c, i) {
      var j :| i < j < |stack'| && 0 <= j && stack'[j].0 == c;
      ExpandShape(stack, kids, b, j);
      if j < |stack| {
        assert stack[j].0 == c;
      }
    }
  }

  lemma FreshKids(idom: Links, root: nat, children: seq<seq<nat>>, expanded: set<nat>, post: seq<nat>, stack: Frames,
      b: nat)
    requires PostInv(idom, root, children, expanded, post, stack) && ChildrenOf(idom, root, children)
    requires stack != [] && stack[|stack| - 1] == (b, false)
    ensures b < |children| && b !in expanded
    ensures forall c :: c in children[b] ==> c < |idom| && c !in expanded && c != root && c != b && idom[c] == Some(b)
    ensures forall c, i :: c in children[b] && 0 <= i < |stack| ==> stack[i].0 != c
  {
    forall c | c in children[b] ensures c < |idom| && c !in expanded && c != root && idom[c] == Some(b) {
      assert IsChild(idom, root, b, c);
    }
  }

  lemma ExpandStack(idom: Links, root: nat, children: seq<seq<nat>>, expanded: set<nat>, post: seq<nat>,
      stack: Frames, b: nat)
    requires PostStack(idom, root, children, expanded, post, stack) && b < |children| && b !in expanded
    requires stack != [] && stack[|stack| - 1] == (b, false)
    requires forall i, j :: 0 <= i < j < |children[b]| ==> children[b][i] < children[b][j]
    requires forall c :: c in children[b] ==> c < |idom| && c !in expanded && c != root && c != b && idom[c] == Some(b)
    requires forall c, i :: c in children[b] && 0 <= i < |stack| ==> stack[i].0 != c
    ensures PostStack(idom, root, children, expanded + {b}, post, Expand(stack, children[b], b))
  {
    var stack' := Expand(stack, children[b], b);
    forall i | 0 <= i < |stack'|
      ensures stack'[i].0 < |idom| && (stack'[i].1 <==> stack'[i].0 in expanded + {b})
      ensures !stack'[i].1 && stack'[i].0 != root ==>
                idom[stack'[i].0].Some? && idom[stack'[i].0].value in expanded + {b}
    {
      ExpandShape(stack, children[b], b, i);
    }
    forall i, j | 0 <= i < j < |stack'| ensures stack'[i].0 != stack'[j].0 {
      ExpandShape(stack, children[b], b, i);
      ExpandShape(stack, children[b], b, j);
    }
    forall i, c | 0 <= i < |stack'| && stack'[i].1 && c in children[stack'[i].0]
      ensures c in post || OnStack(stack', c, i)
    {
      ExpandShape(stack, children[b], b, i);
      ExpandOnStack(stack, children[b], b, c, i);
      if i < |stack| - 1 {
        assert c in post || OnStack(stack, c, i);
      }
    }
  }

  lemma ExpandStep(idom: Links, root: nat, children: seq<seq<nat>>, expanded: set<nat>, post: seq<nat>, stack: Frames,
      b: nat)
    requires PostInv(idom, root, children, expanded, post, stack) && ChildrenOf(idom, root, children)
    requires stack != [] && stack[|stack| - 1] == (b, false)
    ensures b < |children| && b !in expanded
    ensures PostInv(idom, root, children, expanded + {b}, post, Expand(stack, children[b], b))
  {
    FreshKids(idom, root, children, expanded, post, stack, b);
    ExpandStack(idom, root, children, expanded, post, stack, b);
    assert OnStack(stack, b, -1) by {
      assert stack[|stack| - 1].0 == b;
    }
    forall c: nat ensures OnStack(Expand(stack, children[b], b), c, -1) <==> OnStack(stack, c, -1) || c in children[b] {
      ExpandOnStack(stack, children[b], b, c, -1);
    }
  }

  /** Blocks of the dominator tree, children before parents. */
  method TreePostorder(g: Succs, root: nat, tree: DominatorTree) returns (post: seq<nat>)
    requires Analyzed(g, root, tree)
    ensures ChildrenFirst(tree.children, post)
    ensures forall b: nat :: b in post <==> b < |g| && Reach(g, root, b)
  {
    post := [];
    var stack: Frames := [(root, false)];
    ghost var expanded: set<nat> := {};
    while stack != []
      invariant PostInv(tree.idom, root, tree.children, expanded, post, stack)
      invariant root in expanded || stack == [(root, false)]
      decreases Below(|g|) - expanded, |stack|
    {
      var (block, done) := stack[|stack| - 1];
      if done {
        FinishStep(tree.idom, root, tree.children, expanded, post, stack);
        stack := stack[..|stack| - 1];
        post := post + [block];
      } else {
        ExpandStep(tree.idom, root, tree.children, expanded, post, stack, block);
        assert block in Below(|g|) - expanded;
        stack := Expand(stack, tree.children[block], block);
        expanded := expanded + {block};
      }
    }
    forall b: nat ensures b in post <==> b < |g| && Reach(g, root, b) {
      if b in expanded {
        assert b in post;
        PostReachable(g, root, tree.idom, expanded, post, b);
      }
      if b < |g| && Reach(g, root, b) {
        ReachableInPost(g, root, tree, expanded, post, b);
      }
    }
  }

  lemma {:induction false} ReachableInPost(g: Succs, root: nat, tree: DominatorTree, expanded: set<nat>,
      post: seq<nat>, b: nat)
    requires Analyzed(g, root, tree) && PostInv(tree.idom, root, tree.children, expanded, post, [])
    requires root in expanded && b < |g| && Reach(g, root, b)
    ensures b in post
    decreases |StrictDominators(g, root, b)|
  {
    if b == root {
      assert !OnStack([], root, -1);
    } else {
      var d := tree.idom[b].value;
      IdomHasFewer(g, root, d, b);
      ReachableInPost(g, root, tree, expanded, post, d);
      assert IsChild(tree.idom, root, d, b);
      assert b in tree.children[d];
      var i :| 0 <= i < |post| && post[i] == d;
      assert b in post[..i];
    }
  }

  /** Expanded blocks are reachable; the descent is along strictly growing dominator sets. */
  lemma {:induction false} PostReachable(g: Succs, root: nat, idom: Links, expanded: set<nat>, post: seq<nat>, b: nat)
    requires IdomTable(g, root, idom) && root < |g| && Expanded(idom, root, expanded, post, []) && b in expanded
    ensures b < |g| && Reach(g, root, b)
  {
    if b == root {
      ReachRefl(g, root);
    }
  }

  // ------------------------------------------------------------ the frontier table

  /** Members of the frontier of `x` gathered from its own edges and its children. */
  ghost predicate Gathered(g: Succs, tree: DominatorTree, frontiers: seq<set<nat>>, x: nat, y: nat)
    requires |frontiers| == |g| == |tree.idom| == |tree.children| && x < |g|
  {
    && y < |g| && tree.idom[y] != Some(x)
    && (Edge(g, x, y) || exists c :: c in tree.children[x] && c < |g| && y in frontiers[c])
  }

  ghost predicate FrontierOf(g: Succs, root: nat, x: nat, f: set<nat>) {
    forall y: nat :: y in f <==> InFrontier(g, root, x, y)
  }

  lemma GatheredIsFrontier(g: Succs, root: nat, tree: DominatorTree, frontiers: seq<set<nat>>, x: nat, f: set<nat>)
    requires Analyzed(g, root, tree) && |frontiers| == |g| && x < |g| && Reach(g, root, x)
    requires forall c :: c in tree.children[x] ==> c < |g| && FrontierOf(g, root, c, frontiers[c])
    requires forall y: nat :: y in f <==> Gathered(g, tree, frontiers, x, y)
    ensures FrontierOf(g, root, x, f)
  {
    forall y: nat ensures y in f <==> InFrontier(g, root, x, y) {
      if Gathered(g, tree, frontiers, x, y) {
        if Edge(g, x, y) {
          FrontierFromEdge(g, root, tree, x, y);
        } else {
          var c :| c in tree.children[x] && c < |g| && y in frontiers[c];
          assert IsChild(tree.idom, root, x, c);
          FrontierFromChild(g, root, tree, x, c, y);
        }
      }
      if InFrontier(g, root, x, y) {
        FrontierStep(g, root, tree, x, y);
        FrontierMembersReachable(g, root, x, y);
        if !Edge(g, x, y) {
          var c :| c in tree.children[x] && InFrontier(g, root, c, y);
          assert y in frontiers[c];
        }
      }
    }
  }

  method GatherBlock(g: Succs, tree: DominatorTree, frontiers: seq<set<nat>>, block: nat) returns (f: set<nat>)
    requires Wellformed(g) && |frontiers| == |g| == |tree.idom| == |tree.children| && block < |g|
    requires forall c :: c in tree.children[block] ==> c < |g|
    requires forall c, m :: 0 <= c < |frontiers| && m in frontiers[c] ==> m < |g|
    ensures forall y: nat :: y in f <==> Gathered(g, tree, frontiers, block, y)
  {
    f := {};
    for i := 0 to |g[block]|
      invariant forall y: nat :: y in f <==> y < |g| && y in g[block][..i] && tree.idom[y] != Some(block)
    {
      var successor := g[block][i];
      assert successor in g[block];
      assert g[block][..i + 1] == g[block][..i] + [successor];
      if tree.idom[successor] != Some(block) {
        f := f + {successor};
      }
    }
    assert g[block][..|g[block]|] == g[block];
    var kids := tree.children[block];
    for i := 0 to |kids|
      invariant forall y: nat :: y in f <==>
        (y < |g| && tree.idom[y] != Some(block) &&
         (Edge(g, block, y) || exists c :: c in kids[..i] && c < |g| && y in frontiers[c]))
    {
      var child := kids[i];
      assert child in kids;
      assert kids[..i + 1] == kids[..i] + [child];
      f := f + set m | m in frontiers[child] && tree.idom[m] != Some(block);
    }
    assert kids[..|kids|] == kids;
  }

  method DominanceFrontiers(g: Succs, tree: DominatorTree, root: nat) returns (frontiers: seq<set<nat>>)
    requires Analyzed(g, root, tree)
    ensures |frontiers| == |g|
    ensures forall x: nat, y: nat :: x < |g| ==> (y in frontiers[x] <==> InFrontier(g, root, x, y))
  {
    var post := TreePostorder(g, root, tree);
    frontiers := seq(|g|, _ => {});
    for i := 0 to |post|
      invariant |frontiers| == |g|
      invariant forall x :: x in post[..i] ==> x < |g| && FrontierOf(g, root, x, frontiers[x])
      invariant forall x :: 0 <= x < |g| && x !in post[..i] ==> frontiers[x] == {}
      invariant forall c, m :: 0 <= c < |frontiers| && m in frontiers[c] ==> m < |g|
    {
      var block := post[i];
      assert block in post;
      forall c | c in tree.children[block] ensures c < |g| && FrontierOf(g, root, c, frontiers[c]) {
        assert c in post[..i];
      }
      var f := GatherBlock(g, tree, frontiers, block);
      GatheredIsFrontier(g, root, tree, frontiers, block, f);
      assert post[..i + 1] == post[..i] + [block];
      frontiers := frontiers[block := f];
    }
    assert post[..|post|] == post;
    forall x: nat, y: nat | x < |g| && InFrontier(g, root, x, y) ensures x in post {
      FrontierMembersReachable(g, root, x, y);
    }
  }
}
