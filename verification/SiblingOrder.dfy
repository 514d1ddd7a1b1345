/** How the subtrees of siblings follow each other in the printed order. */
module SiblingOrder {
  import opened Graph
  import opened CfgErrors
  import opened LengauerTarjan
  import opened DomTree
  import opened Dominance
  import opened IterativeDominators
  import opened PushTraversal
  import opened DominanceOrder

  /** Merges come after other siblings; otherwise the block visited first comes first. */
  ghost predicate ComesFirst(g: Succs, entry: nat, c: nat, d: nat)
    requires Wellformed(g) && entry < |g|
  {
    || (!IsMerge(g, entry, c) && IsMerge(g, entry, d))
    || ((IsMerge(g, entry, c) <==> IsMerge(g, entry, d)) && Earlier(VisitFrom(g, {entry}, entry).pre, c, d))
  }

  lemma FirstIsSooner(t: Printed, c: nat, d: nat)
    requires PrintedOk(t) && c < |t.g| && d < |t.g| && ComesFirst(t.g, t.entry, c, d)
    ensures Sooner(t.merge, t.position, c, d)
  {
    var visits := VisitFrom(t.g, {t.entry}, t.entry).pre;
    if Earlier(visits, c, d) {
      var i, j :| 0 <= i < j < |visits| && visits[i] == c && visits[j] == d;
      assert t.position[visits[i]] == i && t.position[visits[j]] == j;
    }
  }

  lemma {:induction false} ChainIsAbove(p: Links, num: seq<int>, x: nat, a: nat)
    requires Down(p, num) && x < |p|
    ensures a in Chain(p, num, x) <==> Above(p, a, x)
    decreases Rank(num, x)
  {
    if p[x].None? {
      TopOnly(p, a, x);
    } else {
      AboveParent(p, a, x);
      ChainIsAbove(p, num, p[x].value, a);
    }
  }

  /** The subtree of a block holds the blocks it dominates. */
  lemma DominatedInSubtree(t: Printed, c: nat, x: nat)
    requires PrintedOk(t) && c < |t.g| && x < |t.g| && Dominates(t.g, t.entry, c, x)
    ensures x in Preorder(t.children, t.num, t.total, c)
  {
    AboveIsDominates(t.g, t.entry, t.idom, c, x);
    ChainIsAbove(t.idom, t.num, x, c);
    PreorderMembers(t.g, t.entry, t.num, t.total, t.idom, t.children, c, x);
  }

  /** Blocks of an earlier piece come before blocks of a later one. */
  lemma {:induction false} PiecesInOrder(children: seq<seq<nat>>, num: seq<int>, total: nat, list: seq<nat>, low: int,
      i: nat, j: nat, x: nat, y: nat)
    requires KidsUp(children, num, total) && AllAbove(list, num, low) && low <= total && i < j < |list|
    requires x in Preorder(children, num, total, list[i]) && y in Preorder(children, num, total, list[j])
    ensures Earlier(PreorderAll(children, num, total, list, low), x, y)
    decreases |list|
  {
    var first, rest := Preorder(children, num, total, list[0]), PreorderAll(children, num, total, list[1..], low);
    assert list[j] == list[1..][j - 1];
    if i == 0 {
      OneOfIsIn(children, num, total, list[1..], low, j - 1, y);
      EarlierAcross(first, rest, x, y);
    } else {
      assert list[i] == list[1..][i - 1];
      PiecesInOrder(children, num, total, list[1..], low, i - 1, j - 1, x, y);
      EarlierIn(first, rest, [], x, y);
      assert first + rest + [] == first + rest;
    }
  }

  lemma EarlierAcross(a: seq<nat>, b: seq<nat>, x: nat, y: nat)
    requires x in a && y in b
    ensures Earlier(a + b, x, y)
  {
    var i :| 0 <= i < |a| && a[i] == x;
    var j :| 0 <= j < |b| && b[j] == y;
    assert (a + b)[i] == x && (a + b)[|a| + j] == y;
  }

  /** What is in order in a subtree is in order in every subtree around it. */
  lemma {:induction false} SubtreeKeepsOrder(t: Printed, b: nat, p: nat, x: nat, y: nat)
    requires PrintedOk(t) && b < |t.g| && p < |t.g| && b in Chain(t.idom, t.num, p)
    requires Earlier(Preorder(t.children, t.num, t.total, p), x, y)
    ensures Earlier(Preorder(t.children, t.num, t.total, b), x, y)
    decreases t.total - t.num[b]
  {
    if b != p {
      var c := DominanceOrder.ChildToward(t.idom, t.num, b, p);
      assert c in t.children[b];
      var i :| 0 <= i < |t.children[b]| && t.children[b][i] == c;
      SubtreeKeepsOrder(t, c, p, x, y);
      PieceOf(t.children, t.num, t.total, t.children[b], t.num[b], i, x, y);
      BelowKeepsOrder(t, b, x, y);
    }
  }

  lemma BelowKeepsOrder(t: Printed, b: nat, x: nat, y: nat)
    requires PrintedOk(t) && b < |t.g|
    requires Earlier(PreorderAll(t.children, t.num, t.total, t.children[b], t.num[b]), x, y)
    ensures Earlier(Preorder(t.children, t.num, t.total, b), x, y)
  {
    var below := PreorderAll(t.children, t.num, t.total, t.children[b], t.num[b]);
    EarlierIn([b], below, [], x, y);
    assert [b] + below + [] == Preorder(t.children, t.num, t.total, b);
  }

  lemma SiblingPlaces(t: Printed, p: nat, c: nat, d: nat) returns (i: nat, j: nat)
    requires PrintedOk(t) && p < |t.g| && c < |t.g| && d < |t.g| && ComesFirst(t.g, t.entry, c, d)
    requires t.idom[c] == Some(p) && t.idom[d] == Some(p)
    ensures i < j < |t.children[p]| && t.children[p][i] == c && t.children[p][j] == d
  {
    FirstIsSooner(t, c, d);
    var list := t.children[p];
    assert c in list && d in list;
    i :| i < |list| && list[i] == c;
    j :| j < |list| && list[j] == d;
    assert SortedSiblings(t.merge, t.position, list);
    forall k: nat | k <= i ensures list[k] != d {
      assert k == i || Sooner(t.merge, t.position, list[k], list[i]);
    }
  }

  /** Of two blocks with the same immediate dominator, everything the one that comes first dominates is printed
      before everything the other dominates. */
  lemma SubtreesInOrder(t: Printed, p: nat, c: nat, d: nat, x: nat, y: nat)
    requires PrintedOk(t) && p < |t.g| && c < |t.g| && d < |t.g| && x < |t.g| && y < |t.g|
    requires t.idom[c] == Some(p) && t.idom[d] == Some(p) && ComesFirst(t.g, t.entry, c, d)
    requires Dominates(t.g, t.entry, c, x) && Dominates(t.g, t.entry, d, y)
    ensures Earlier(Indices(t), x, y)
  {
    var i, j := SiblingPlaces(t, p, c, d);
    DominatedInSubtree(t, c, x);
    DominatedInSubtree(t, d, y);
    PiecesInOrder(t.children, t.num, t.total, t.children[p], t.num[p], i, j, x, y);
    BelowKeepsOrder(t, p, x, y);
    IdomHasFewer(t.g, t.entry, p, c);
    RootUp(t.g, t.entry, t.num, t.idom, p);
    SubtreeKeepsOrder(t, t.entry, p, x, y);
    EarlierThen(Preorder(t.children, t.num, t.total, t.entry), t.unreached, x, y);
  }
}
