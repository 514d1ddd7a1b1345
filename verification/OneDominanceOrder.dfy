/** The printed order is determined by the graph: any two results for the same input are equal. */
module OneDominanceOrder {
  import opened Graph
  import opened LengauerTarjan
  import opened CfgErrors
  import opened DomTree
  import opened Dominance
  import opened PushTraversal
  import opened SearchOrder
  import opened SortedLists
  import opened DominanceOrder

  lemma SameAscending(s: seq<nat>, t: seq<nat>)
    requires Ascending(s) && Ascending(t) && forall x: nat :: x in s <==> x in t
    ensures s == t
  {
    SameSorted(s, t, (a: nat, b: nat) => a < b);
  }

  lemma SameSiblings(merge: seq<bool>, position: seq<int>, s: seq<nat>, t: seq<nat>)
    requires |merge| == |position| && forall x: nat :: x in s <==> x in t
    requires SortedSiblings(merge, position, s) && SortedSiblings(merge, position, t)
    ensures s == t
  {
    SameSorted(s, t, (a: nat, b: nat) => a < |merge| && b < |merge| && Sooner(merge, position, a, b));
  }

  lemma SameIdom(g: Succs, root: nat, p: Links, q: Links)
    requires IdomTable(g, root, p) && IdomTable(g, root, q)
    ensures p == q
  {
    forall b: nat | b < |g| ensures p[b] == q[b] {
      if b != root && Reach(g, root, b) {
        DominatesAntisym(g, root, p[b].value, q[b].value);
      }
    }
  }

  lemma SamePlaces(visits: seq<nat>, p: seq<int>, q: seq<int>)
    requires Placed(visits, p) && Placed(visits, q) && |p| == |q|
    ensures p == q
  {
    forall b: nat | b < |p| ensures p[b] == q[b] {
      if b in visits {
        var i :| 0 <= i < |visits| && visits[i] == b;
        assert p[visits[i]] == i && q[visits[i]] == i;
      }
    }
  }

  lemma SameMerges(g: Succs, root: nat, p: seq<bool>, q: seq<bool>)
    requires |p| == |q| == |g|
    requires forall b: nat :: b < |g| ==> (p[b] <==> IsMerge(g, root, b))
    requires forall b: nat :: b < |g| ==> (q[b] <==> IsMerge(g, root, b))
    ensures p == q
  {
    forall b: nat | b < |g| ensures p[b] == q[b] {
      assert IsMerge(g, root, b) || !IsMerge(g, root, b);
    }
  }

  lemma SameChildren(idom: Links, merge: seq<bool>, position: seq<int>, p: seq<seq<nat>>, q: seq<seq<nat>>)
    requires TreeChildren(idom, p) && TreeChildren(idom, q) && |merge| == |position|
    requires forall b :: 0 <= b < |p| ==> SortedSiblings(merge, position, p[b])
    requires forall b :: 0 <= b < |q| ==> SortedSiblings(merge, position, q[b])
    ensures p == q
  {
    forall b: nat | b < |p| ensures p[b] == q[b] {
      forall x: nat ensures x in p[b] <==> x in q[b] {
      }
      SameSiblings(merge, position, p[b], q[b]);
    }
  }

  /** The preorder does not depend on the numbering that shows it ends. */
  lemma {:induction false} SamePreorder(children: seq<seq<nat>>, num: seq<int>, total: nat, num': seq<int>,
      total': nat, b: nat)
    requires KidsUp(children, num, total) && KidsUp(children, num', total') && b < |children|
    ensures Preorder(children, num, total, b) == Preorder(children, num', total', b)
    decreases total - num[b], |children[b]| + 1
  {
    SamePreorders(children, num, total, num', total', children[b], num[b], num'[b]);
  }

  lemma {:induction false} SamePreorders(children: seq<seq<nat>>, num: seq<int>, total: nat, num': seq<int>,
      total': nat, list: seq<nat>, low: int, low': int)
    requires KidsUp(children, num, total) && AllAbove(list, num, low) && low <= total
    requires KidsUp(children, num', total') && AllAbove(list, num', low') && low' <= total'
    ensures PreorderAll(children, num, total, list, low) == PreorderAll(children, num', total', list, low')
    decreases total - low, |list|
  {
    if list != [] {
      SamePreorder(children, num, total, num', total', list[0]);
      SamePreorders(children, num, total, num', total', list[1..], low, low');
    }
  }

  /** Everything but the numbering is determined by the graph and the entry, and so is the order of the blocks. */
  lemma OnePrinted(t: Printed, u: Printed)
    requires PrintedOk(t) && PrintedOk(u) && t.g == u.g && t.entry == u.entry
    ensures t.idom == u.idom && t.merge == u.merge && t.position == u.position && t.children == u.children
    ensures Indices(t) == Indices(u)
  {
    SameIdom(t.g, t.entry, t.idom, u.idom);
    SameMerges(t.g, t.entry, t.merge, u.merge);
    SamePlaces(VisitFrom(t.g, {t.entry}, t.entry).pre, t.position, u.position);
    SameChildren(t.idom, t.merge, t.position, t.children, u.children);
    SamePreorder(t.children, t.num, t.total, u.num, u.total, t.entry);
    SameAscending(t.unreached, u.unreached);
  }

  lemma SameGraph(ids: seq<nat>, successors: nat -> seq<nat>, g: Succs, h: Succs)
    requires IndexGraph(ids, successors, g) && IndexGraph(ids, successors, h)
    ensures g == h
  {
    forall u: nat | u < |g| ensures g[u] == h[u] {
    }
  }

  /** Two results for the same entry, blocks and successors are the same list. */
  lemma OneOrder(entry: nat, ids: seq<nat>, ids': seq<nat>, successors: nat -> seq<nat>, order: seq<nat>,
      order': seq<nat>, t: Printed, t': Printed)
    requires Ascending(ids) && Ascending(ids') && forall k: nat :: k in ids <==> k in ids'
    requires IsDominanceOrder(entry, ids, successors, order, t) && IsDominanceOrder(entry, ids', successors, order', t')
    ensures order == order'
  {
    SameAscending(ids, ids');
    if entry in ids {
      SameGraph(ids, successors, t.g, t'.g);
      assert t.entry == t'.entry;
      OnePrinted(t, t');
    }
  }
}
