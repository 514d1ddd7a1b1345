/** Parent links that hold immediate dominators say exactly which blocks dominate which. */
module Dominance {
  import opened Graph
  import opened Finite
  import opened CfgErrors
  import opened LengauerTarjan
  import opened DomTree

  ghost function StrictDominators(g: Succs, root: nat, b: nat): set<nat> {
    set a | a in Below(|g|) && StrictlyDominates(g, root, a, b)
  }

  lemma IdomHasFewer(g: Succs, root: nat, d: nat, b: nat)
    requires IsIdom(g, root, d, b)
    ensures StrictDominators(g, root, d) < StrictDominators(g, root, b)
    ensures |StrictDominators(g, root, d)| < |StrictDominators(g, root, b)|
    ensures Reach(g, root, d) && d < |g|
  {
    DominatorReachable(g, root, d, b);
    forall a | a in StrictDominators(g, root, d) ensures a in StrictDominators(g, root, b) {
      DominatesTrans(g, root, a, d, b);
      if a == b {
        DominatesAntisym(g, root, a, d);
      }
    }
    assert d in StrictDominators(g, root, b) && d !in StrictDominators(g, root, d);
    SubsetCard(StrictDominators(g, root, d), StrictDominators(g, root, b));
  }

  lemma {:induction false} UpAdd(idom: Links, b: nat, i: nat, j: nat)
    requires Up(idom, b, i).Some?
    ensures Up(idom, b, i + j) == Up(idom, Up(idom, b, i).value, j)
    decreases i
  {
    if i > 0 {
      UpAdd(idom, idom[b].value, i - 1, j);
    }
  }

  lemma DominatesThroughIdom(g: Succs, root: nat, d: nat, a: nat, b: nat)
    requires IsIdom(g, root, d, b)
    ensures Dominates(g, root, a, b) <==> a == b || Dominates(g, root, a, d)
  {
    if Dominates(g, root, a, d) {
      DominatesTrans(g, root, a, d, b);
    }
  }

  lemma {:induction false} RootHasNoIdom(g: Succs, root: nat, a: nat)
    requires Dominates(g, root, a, root)
    ensures a == root
  {
    DominatorReachable(g, root, a, root);
    assert root < |g|;
    assert PathFromTo(g, [root], root, root);
  }

  /** Being reachable is being linked to the root, and dominating is being above. */
  lemma {:induction false} AboveIsDominates(g: Succs, root: nat, idom: Links, a: nat, b: nat)
    requires IdomTable(g, root, idom) && root < |g| && b < |g| && Reach(g, root, b)
    ensures Above(idom, root, b)
    ensures Above(idom, a, b) <==> Dominates(g, root, a, b)
    decreases |StrictDominators(g, root, b)|
  {
    assert Up(idom, b, 0) == Some(b);
    if b == root {
      if Dominates(g, root, a, b) {
        RootHasNoIdom(g, root, a);
      }
      if k: nat :| Up(idom, b, k) == Some(a) {
        assert k == 0;
      }
    } else {
      var d := idom[b].value;
      IdomHasFewer(g, root, d, b);
      AboveIsDominates(g, root, idom, a, d);
      DominatesThroughIdom(g, root, d, a, b);
      AboveParent(idom, root, b);
      AboveParent(idom, a, b);
    }
  }

  lemma AboveParent(idom: Links, a: nat, b: nat)
    requires b < |idom| && idom[b].Some?
    ensures Above(idom, a, b) <==> a == b || Above(idom, a, idom[b].value)
  {
    assert Up(idom, b, 0) == Some(b);
    if k: nat :| Up(idom, idom[b].value, k) == Some(a) {
      assert Up(idom, b, k + 1) == Some(a);
    }
    if k: nat :| Up(idom, b, k) == Some(a) {
      if k > 0 {
        assert Up(idom, idom[b].value, k - 1) == Some(a);
      }
    }
  }

  lemma {:induction false} LinkedIsReachable(g: Succs, root: nat, idom: Links, b: nat, k: nat)
    requires IdomTable(g, root, idom) && root < |g| && Up(idom, b, k) == Some(root)
    ensures Reach(g, root, b)
  {
    if k == 0 || b == root {
      ReachRefl(g, root);
    }
  }

  /** Immediate dominators always form a tree that construction accepts. */
  lemma IdomTableIsTree(g: Succs, root: nat, idom: Links)
    requires IdomTable(g, root, idom) && root < |g|
    ensures LinksOk(idom, root)
  {
    forall b | 0 <= b < |idom| && idom[b].Some? ensures idom[b].value < |idom| {
      IdomHasFewer(g, root, idom[b].value, b);
    }
  }

  /** A constant-time query on the times is dominance over all paths. */
  lemma QueryIsDominance(g: Succs, root: nat, tree: DominatorTree, a: nat, b: nat)
    requires root < |g| && IdomTable(g, root, tree.idom) && ValidTree(tree, root)
    ensures tree.Dominates(a, b) <==> b < |g| && Dominates(g, root, a, b)
  {
    if b < |g| {
      if Reach(g, root, b) {
        AboveIsDominates(g, root, tree.idom, a, b);
      } else if k: nat :| Up(tree.idom, b, k) == Some(root) {
        LinkedIsReachable(g, root, tree.idom, b, k);
      }
    }
  }

  /** The child of `a` on the way to a block it strictly dominates. */
  lemma ChildAbove(g: Succs, root: nat, idom: Links, a: nat, b: nat) returns (c: nat)
    requires IdomTable(g, root, idom) && root < |g| && b < |g| && StrictlyDominates(g, root, a, b)
    ensures c < |g| && idom[c] == Some(a) && Dominates(g, root, c, b) && c != root
    ensures IsIdom(g, root, a, c)
  {
    AboveIsDominates(g, root, idom, a, b);
    var k: nat :| Up(idom, b, k) == Some(a);
    assert k > 0;
    c := Up1(idom, b, k - 1, a);
    AboveIsDominates(g, root, idom, c, b);
    DominatorReachable(g, root, c, b);
  }

  lemma {:induction false} Up1(idom: Links, b: nat, k: nat, a: nat) returns (c: nat)
    requires Up(idom, b, k + 1) == Some(a)
    ensures Up(idom, b, k) == Some(c) && c < |idom| && idom[c] == Some(a)
    decreases k
  {
    if k == 0 {
      c := b;
    } else {
      c := Up1(idom, idom[b].value, k - 1, a);
    }
  }

  /** Two dominators of one block dominate each other in one direction. */
  lemma Comparable(g: Succs, root: nat, idom: Links, a: nat, b: nat, u: nat)
    requires IdomTable(g, root, idom) && root < |g| && u < |g|
    requires Dominates(g, root, a, u) && Dominates(g, root, b, u)
    ensures Dominates(g, root, a, b) || Dominates(g, root, b, a)
  {
    AboveIsDominates(g, root, idom, a, u);
    AboveIsDominates(g, root, idom, b, u);
    DominatorReachable(g, root, a, u);
    DominatorReachable(g, root, b, u);
    var i: nat :| Up(idom, u, i) == Some(a);
    var j: nat :| Up(idom, u, j) == Some(b);
    if i <= j {
      UpAdd(idom, u, i, j - i);
      assert Up(idom, a, j - i) == Some(b);
      AboveIsDominates(g, root, idom, b, a);
    } else {
      UpAdd(idom, u, j, i - j);
      assert Up(idom, b, i - j) == Some(a);
      AboveIsDominates(g, root, idom, a, b);
    }
  }

  // ------------------------------------------------------------ nearest common ancestor

  lemma {:induction false} DepthOfAbove(tree: DominatorTree, root: nat, a: nat, b: nat)
    requires ValidTree(tree, root) && Above(tree.idom, root, b) && Above(tree.idom, a, b) && b < |tree.idom|
    ensures a < |tree.idom| && Above(tree.idom, root, a) && tree.depth[a] <= tree.depth[b]
    ensures tree.depth[a] == tree.depth[b] ==> a == b
    ensures a != b ==> tree.idom[b].Some? && Above(tree.idom, a, tree.idom[b].value)
  {
    var k: nat :| Up(tree.idom, b, k) == Some(a);
    UpInRange(tree.idom, b, k);
    var d: nat := tree.depth[b];
    if a != b {
      AboveParentOf(tree.idom, a, b);
    }
    if k <= d {
      UpAdd(tree.idom, b, k, d - k);
      assert Up(tree.idom, a, d - k) == Some(root);
      assert Above(tree.idom, root, a);
      DepthUnique(tree.idom, root, a, d - k, tree.depth[a]);
    } else {
      UpAdd(tree.idom, b, d, k - d);
      assert tree.idom[root].None?;
    }
  }

  lemma AboveParentOf(idom: Links, a: nat, b: nat)
    requires b < |idom| && Above(idom, a, b) && a != b
    ensures idom[b].Some? && Above(idom, a, idom[b].value)
  {
    var k: nat :| Up(idom, b, k) == Some(a);
    assert Up(idom, idom[b].value, k - 1) == Some(a);
  }

  lemma {:induction false} UpInRange(idom: Links, b: nat, k: nat)
    requires Up(idom, b, k).Some?
    ensures b < |idom| && Up(idom, b, k).value < |idom|
    decreases k
  {
    if k > 0 {
      UpInRange(idom, idom[b].value, k - 1);
    }
  }

  lemma {:induction false} DepthUnique(idom: Links, root: nat, b: nat, i: nat, j: nat)
    requires root < |idom| && idom[root].None?
    requires Up(idom, b, i) == Some(root) && Up(idom, b, j) == Some(root)
    ensures i == j
    decreases i
  {
    if i > 0 && j > 0 {
      DepthUnique(idom, root, idom[b].value, i - 1, j - 1);
    }
  }

  ghost predicate Common(tree: DominatorTree, a: nat, left: nat, right: nat) {
    Above(tree.idom, a, left) && Above(tree.idom, a, right)
  }

  lemma ClimbKeepsCommon(tree: DominatorTree, root: nat, left: nat, right: nat)
    requires ValidTree(tree, root) && left < |tree.idom| && right < |tree.idom|
    requires Above(tree.idom, root, left) && Above(tree.idom, root, right)
    requires tree.depth[left] >= tree.depth[right] && left != right
    ensures tree.idom[left].Some?
    ensures var p := tree.idom[left].value;
      && p < |tree.idom| && Above(tree.idom, root, p) && tree.depth[p] == tree.depth[left] - 1
      && forall a: nat :: Common(tree, a, left, right) <==> Common(tree, a, p, right)
  {
    UpZero(tree, root);
    if left == root {
      DepthIsNat(tree, root, right);
    }
    DepthOfAbove(tree, root, root, left);
    var p := tree.idom[left].value;
    assert Up(tree.idom, left, tree.depth[left]) == Some(root);
    assert Up(tree.idom, p, tree.depth[left] - 1) == Some(root);
    DepthUnique(tree.idom, root, p, tree.depth[left] - 1, tree.depth[p]);
    forall a: nat ensures Common(tree, a, left, right) <==> Common(tree, a, p, right) {
      AboveParent(tree.idom, a, left);
      if Above(tree.idom, left, right) {
        DepthOfAbove(tree, root, left, right);
      }
    }
  }

  lemma DepthIsNat(tree: DominatorTree, root: nat, b: nat)
    requires ValidTree(tree, root) && b < |tree.idom| && Above(tree.idom, root, b) && b != root
    ensures tree.depth[b] > 0
  {
    assert Up(tree.idom, b, 0) == Some(b);
  }

  lemma UpZero(tree: DominatorTree, root: nat)
    requires ValidTree(tree, root)
    ensures tree.depth[root] == 0 && Above(tree.idom, root, root)
  {
    assert Up(tree.idom, root, 0) == Some(root);
    DepthUnique(tree.idom, root, root, 0, tree.depth[root]);
  }

  /** The nearest block above both arguments, when both belong to the tree. */
  method Lca(tree: DominatorTree, root: nat, left0: nat, right0: nat) returns (r: Option<nat>)
    requires ValidTree(tree, root)
    ensures r.Some? <==> left0 < |tree.idom| && right0 < |tree.idom|
                         && Above(tree.idom, root, left0) && Above(tree.idom, root, right0)
    ensures r.Some? ==> forall a: nat :: Above(tree.idom, a, r.value) <==> Common(tree, a, left0, right0)
  {
    if left0 >= |tree.depth| || right0 >= |tree.depth| {
      return None;
    }
    if tree.depth[left0] == UNSET || tree.depth[right0] == UNSET {
      return None;
    }
    var left: nat, right: nat := left0, right0;
    while tree.depth[left] > tree.depth[right]
      invariant right < |tree.idom| && Above(tree.idom, root, right)
      invariant left < |tree.idom| && Above(tree.idom, root, left)
      invariant forall a: nat :: Common(tree, a, left, right) <==> Common(tree, a, left0, right0)
      decreases tree.depth[left]
    {
      ClimbKeepsCommon(tree, root, left, right);
      left := tree.idom[left].value;
    }
    while tree.depth[right] > tree.depth[left]
      invariant left < |tree.idom| && Above(tree.idom, root, left)
      invariant right < |tree.idom| && Above(tree.idom, root, right) && tree.depth[left] <= tree.depth[right]
      invariant forall a: nat :: Common(tree, a, left, right) <==> Common(tree, a, left0, right0)
      decreases tree.depth[right]
    {
      ClimbKeepsCommonRight(tree, root, left, right);
      right := tree.idom[right].value;
    }
    while left != right
      invariant left < |tree.idom| && Above(tree.idom, root, left)
      invariant right < |tree.idom| && Above(tree.idom, root, right) && tree.depth[left] == tree.depth[right]
      invariant forall a: nat :: Common(tree, a, left, right) <==> Common(tree, a, left0, right0)
      decreases tree.depth[left]
    {
      ClimbKeepsCommon(tree, root, left, right);
      var up := tree.idom[left].value;
      ClimbKeepsCommonRight(tree, root, up, right);
      left := up;
      right := tree.idom[right].value;
    }
    return Some(left);
  }

  /** The second half of a joint climb: the other side is one level deeper. */
  lemma ClimbKeepsCommonRight(tree: DominatorTree, root: nat, left: nat, right: nat)
    requires ValidTree(tree, root) && left < |tree.idom| && right < |tree.idom| && left != right
    requires Above(tree.idom, root, left) && Above(tree.idom, root, right) && tree.depth[left] <= tree.depth[right]
    ensures tree.idom[right].Some?
    ensures var p := tree.idom[right].value;
      && p < |tree.idom| && Above(tree.idom, root, p) && tree.depth[p] == tree.depth[right] - 1
      && forall a: nat :: Common(tree, a, left, right) <==> Common(tree, a, left, p)
  {
    ClimbKeepsCommon(tree, root, right, left);
    forall a: nat ensures Common(tree, a, left, right) <==> Common(tree, a, right, left) {
    }
    var p := tree.idom[right].value;
    forall a: nat ensures Common(tree, a, left, p) <==> Common(tree, a, p, left) {
    }
  }
}
