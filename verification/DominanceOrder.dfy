/** Blocks in dominator-tree preorder, merges after their sibling arms, unreachable blocks last. */
module DominanceOrder {
  import opened Graph
  import opened CfgErrors
  import opened LengauerTarjan
  import opened DomTree
  import opened Dominance
  import opened IterativeDominators
  import opened Finite
  import opened PushTraversal
  import opened SearchOrder

  // ------------------------------------------------------------ keys and indices

  predicate Ascending(s: seq<nat>) {
    forall i, j :: 0 <= i < j < |s| ==> s[i] < s[j]
  }

  method InsertKey(s: seq<nat>, key: nat) returns (r: seq<nat>)
    requires Ascending(s)
    ensures Ascending(r) && forall x: nat :: x in r <==> x == key || x in s
  {
    var k := |s|;
    while k > 0 && s[k - 1] >= key
      invariant 0 <= k <= |s| && forall i :: k <= i < |s| ==> s[i] >= key
    {
      k := k - 1;
    }
    if k < |s| && s[k] == key {
      r := s;
    } else {
      InsertedAt(s, k, key);
      r := s[..k] + [key] + s[k..];
    }
  }

  lemma InsertedAt(s: seq<nat>, k: nat, key: nat)
    requires Ascending(s) && k <= |s| && (k > 0 ==> s[k - 1] < key) && (k < |s| ==> key < s[k])
    ensures Ascending(s[..k] + [key] + s[k..])
    ensures forall x: nat :: x in s[..k] + [key] + s[k..] <==> x == key || x in s
  {
    var a, b := s[..k], s[k..];
    assert s == a + b;
    AscendingInsert(a, key, b);
    forall x: nat ensures x in a + [key] + b <==> x == key || x in s {
      InsertedMember(a, key, b, x);
    }
  }

  lemma InsertedMember(a: seq<nat>, key: nat, b: seq<nat>, x: nat)
    ensures x in a + [key] + b <==> x == key || x in a + b
  {
  }

  lemma AscendingInsert(a: seq<nat>, key: nat, b: seq<nat>)
    requires Ascending(a) && Ascending(b) && (a != [] ==> a[|a| - 1] < key) && (b != [] ==> key < b[0])
    ensures Ascending(a + [key] + b)
  {
    AscendingJoin(a, [key]);
    AscendingJoin(a + [key], b);
  }

  lemma AscendingJoin(a: seq<nat>, b: seq<nat>)
    requires Ascending(a) && Ascending(b) && forall i, j :: 0 <= i < |a| && 0 <= j < |b| ==> a[i] < b[j]
    ensures Ascending(a + b)
  {
  }

  /** The distinct keys in ascending order. */
  method SortedKeys(blocks: seq<nat>) returns (ids: seq<nat>)
    ensures Ascending(ids) && forall x: nat :: x in ids <==> x in blocks
  {
    ids := [];
    for i := 0 to |blocks|
      invariant Ascending(ids) && forall x: nat :: x in ids <==> x in blocks[..i]
    {
      assert blocks[..i + 1] == blocks[..i] + [blocks[i]];
      ids := InsertKey(ids, blocks[i]);
    }
    assert blocks[..|blocks|] == blocks;
  }

  method Position(ids: seq<nat>, key: nat) returns (index: Option<nat>)
    ensures index.None? ==> key !in ids
    ensures index.Some? ==> index.value < |ids| && ids[index.value] == key
  {
    for i := 0 to |ids|
      invariant key !in ids[..i]
    {
      if ids[i] == key {
        return Some(i);
      }
      assert ids[..i + 1] == ids[..i] + [ids[i]];
    }
    assert ids[..|ids|] == ids;
    return None;
  }

  ghost function IndexOf(ids: seq<nat>, key: nat): (r: nat)
    requires key in ids
    ensures r < |ids| && ids[r] == key
  {
    if ids[0] == key then 0 else 1 + IndexOf(ids[1..], key)
  }

  /** The indices of the listed keys among the targets, in their order. */
  ghost function Indexed(ids: seq<nat>, targets: seq<nat>): (r: seq<nat>)
    ensures forall v: nat :: v in r ==> v < |ids| && ids[v] in targets
  {
    if targets == [] then []
    else
      var last := targets[|targets| - 1];
      var before := Indexed(ids, targets[..|targets| - 1]);
      assert last in targets;
      if last in ids then before + [IndexOf(ids, last)] else before
  }

  lemma {:induction false} IndexedAll(ids: seq<nat>, targets: seq<nat>, v: nat)
    requires Ascending(ids) && v < |ids| && ids[v] in targets
    ensures v in Indexed(ids, targets)
  {
    var n := |targets| - 1;
    if ids[v] == targets[n] {
      assert IndexOf(ids, ids[v]) == v;
    } else {
      assert targets == targets[..n] + [targets[n]];
      IndexedAll(ids, targets[..n], v);
    }
  }

  /** A sequence without the entries that repeat the one before them. */
  ghost function Squeezed(s: seq<nat>): (r: seq<nat>)
    ensures if s == [] then r == [] else r != [] && r[|r| - 1] == s[|s| - 1]
    ensures forall x: nat :: x in r <==> x in s
    ensures forall i, j :: 0 <= i && j == i + 1 && j < |r| ==> r[i] != r[j]
  {
    if s == [] then []
    else
      var before := s[..|s| - 1];
      assert s == before + [s[|s| - 1]];
      if before != [] && before[|before| - 1] == s[|s| - 1] then Squeezed(before)
      else Squeezed(before) + [s[|s| - 1]]
  }

  /** The row of a key: the indices of its listed successors, adjacent repetitions dropped. */
  ghost function RowOf(ids: seq<nat>, targets: seq<nat>): seq<nat> {
    Squeezed(Indexed(ids, targets))
  }

  lemma RowMembers(ids: seq<nat>, targets: seq<nat>, v: nat)
    requires Ascending(ids)
    ensures v in RowOf(ids, targets) <==> v < |ids| && ids[v] in targets
  {
    if v < |ids| && ids[v] in targets {
      IndexedAll(ids, targets, v);
    }
  }

  method IndexRow(ids: seq<nat>, targets: seq<nat>) returns (row: seq<nat>)
    requires Ascending(ids)
    ensures row == RowOf(ids, targets)
  {
    row := [];
    for i := 0 to |targets|
      invariant row == RowOf(ids, targets[..i])
    {
      assert targets[..i + 1][..i] == targets[..i] && targets[..i + 1][i] == targets[i];
      var index := Position(ids, targets[i]);
      ghost var before := Indexed(ids, targets[..i]);
      if index.Some? {
        assert index.value == IndexOf(ids, targets[i]);
        assert (before + [index.value])[..|before|] == before;
        if row == [] || row[|row| - 1] != index.value {
          row := row + [index.value];
        }
      }
    }
    assert targets[..|targets|] == targets;
  }

  ghost predicate IndexGraph(ids: seq<nat>, successors: nat -> seq<nat>, g: Succs) {
    |g| == |ids| && forall u: nat {:trigger g[u]} :: u < |g| ==> g[u] == RowOf(ids, successors(ids[u]))
  }

  /** The edges of the indexed graph are the listed successors. */
  lemma IndexedEdges(ids: seq<nat>, successors: nat -> seq<nat>, g: Succs, u: nat, v: nat)
    requires Ascending(ids) && IndexGraph(ids, successors, g) && u < |g|
    ensures v in g[u] <==> v < |ids| && ids[v] in successors(ids[u])
  {
    RowMembers(ids, successors(ids[u]), v);
  }

  lemma IndexGraphInRange(ids: seq<nat>, successors: nat -> seq<nat>, g: Succs)
    requires Ascending(ids) && IndexGraph(ids, successors, g)
    ensures Wellformed(g)
  {
    forall u: nat, v: nat | u < |g| && v in g[u] ensures v < |g| {
      IndexedEdges(ids, successors, g, u, v);
    }
  }

  method MakeGraph(ids: seq<nat>, successors: nat -> seq<nat>) returns (g: Succs)
    requires Ascending(ids)
    ensures IndexGraph(ids, successors, g)
  {
    g := [];
    for u := 0 to |ids|
      invariant |g| == u && forall x: nat {:trigger g[x]} :: x < u ==> g[x] == RowOf(ids, successors(ids[x]))
    {
      var row := IndexRow(ids, successors(ids[u]));
      g := g + [row];
    }
  }

  // ------------------------------------------------------------ merges

  /** Follows the links up, as the dominance test of the printer does. */
  method DominatesIndex(ghost g: Succs, ghost root: nat, num: seq<int>, idom: Links, dominator: nat, block: nat)
      returns (r: bool)
    requires root < |g| && IdomTable(g, root, idom) && Down(idom, num) && block < |idom| && Reach(g, root, block)
    ensures r <==> Dominates(g, root, dominator, block)
  {
    AboveIsDominates(g, root, idom, dominator, block);
    var at: nat := block;
    while true
      invariant at < |idom| && (Above(idom, dominator, block) <==> Above(idom, dominator, at))
      decreases Rank(num, at)
    {
      if idom[at].Some? {
        AboveParent(idom, dominator, at);
      } else {
        TopOnly(idom, dominator, at);
      }
      if dominator == at {
        assert Up(idom, at, 0) == Some(at);
        return true;
      }
      if idom[at].None? {
        return false;
      }
      at := idom[at].value;
    }
    assert false;
    r := false;
  }

  lemma TopOnly(idom: Links, a: nat, b: nat)
    requires b < |idom| && idom[b].None?
    ensures Above(idom, a, b) <==> a == b
  {
    assert Up(idom, b, 0) == Some(b);
    assert forall k: nat :: k > 0 ==> Up(idom, b, k) == None;
  }

  /** Two edges from reachable blocks lead to the block. */
  ghost predicate SeveralArrive(g: Succs, root: nat, b: nat) {
    exists u: nat, i: nat, v: nat, j: nat ::
      EdgeAt(g, u, i, b) && EdgeAt(g, v, j, b) && (u, i) != (v, j) && Reach(g, root, u) && Reach(g, root, v)
  }

  /** Several edges from reachable blocks lead to the block, and it dominates none of their sources. */
  ghost predicate IsMerge(g: Succs, root: nat, b: nat) {
    SeveralArrive(g, root, b) && forall u: nat :: Edge(g, u, b) && Reach(g, root, u) ==> !Dominates(g, root, b, u)
  }

  /** The rows hold the reachable predecessors, and more than one entry where several edges arrive. */
  ghost predicate PredsReached(g: Succs, root: nat, preds: seq<seq<nat>>) {
    && |preds| == |g|
    && (forall b: nat, u: nat :: b < |g| ==> (u in preds[b] <==> Edge(g, u, b) && Reach(g, root, u)))
    && forall b: nat :: b < |g| ==> (|preds[b]| > 1 <==> SeveralArrive(g, root, b))
  }

  /** Some predecessor is dominated by the block. */
  method Looped(ghost g: Succs, ghost root: nat, num: seq<int>, preds: seq<seq<nat>>, idom: Links, b: nat)
      returns (looped: bool)
    requires root < |g| && IdomTable(g, root, idom) && Down(idom, num) && b < |g|
    requires PredsReached(g, root, preds)
    ensures looped <==> exists u: nat :: u in preds[b] && Dominates(g, root, b, u)
  {
    var row := preds[b];
    looped := false;
    for k := 0 to |row|
      invariant looped <==> exists u: nat :: u in row[..k] && Dominates(g, root, b, u)
    {
      var u := preds[b][k];
      assert row[..k + 1] == row[..k] + [u] && u in row && Edge(g, u, b);
      var back := DominatesIndex(g, root, num, idom, b, u);
      looped := looped || back;
    }
    assert row[..|row|] == row;
  }

  method Merges(ghost g: Succs, ghost root: nat, num: seq<int>, preds: seq<seq<nat>>, idom: Links)
      returns (merge: seq<bool>)
    requires root < |g| && IdomTable(g, root, idom) && Down(idom, num)
    requires PredsReached(g, root, preds)
    ensures |merge| == |g| && forall b :: 0 <= b < |g| ==> (merge[b] <==> IsMerge(g, root, b))
  {
    merge := [];
    for b := 0 to |idom|
      invariant |merge| == b && forall x :: 0 <= x < b ==> (merge[x] <==> IsMerge(g, root, x))
    {
      var looped := Looped(g, root, num, preds, idom, b);
      merge := merge + [|preds[b]| > 1 && !looped];
      assert IsMerge(g, root, b) <==> |preds[b]| > 1 && !looped;
    }
  }

  // ------------------------------------------------------------ children

  /** The order among siblings: merges last, otherwise by first visit. */
  predicate Sooner(merge: seq<bool>, position: seq<int>, a: nat, b: nat)
    requires a < |merge| == |position| && b < |merge|
  {
    (!merge[a] && merge[b]) || (merge[a] == merge[b] && position[a] < position[b])
  }

  predicate InRange(list: seq<nat>, n: nat) {
    forall i :: 0 <= i < |list| ==> list[i] < n
  }

  predicate SortedSiblings(merge: seq<bool>, position: seq<int>, list: seq<nat>)
    requires |merge| == |position|
  {
    InRange(list, |merge|) && forall i, j :: 0 <= i < j < |list| ==> Sooner(merge, position, list[i], list[j])
  }

  method InsertSibling(merge: seq<bool>, position: seq<int>, list: seq<nat>, c: nat) returns (r: seq<nat>)
    requires |merge| == |position| && c < |merge| && SortedSiblings(merge, position, list)
    requires forall x :: x in list ==> position[x] != position[c]
    ensures SortedSiblings(merge, position, r) && forall x: nat :: x in r <==> x == c || x in list
  {
    var k := |list|;
    while k > 0 && Sooner(merge, position, c, list[k - 1])
      invariant 0 <= k <= |list| && forall i :: k <= i < |list| ==> Sooner(merge, position, c, list[i])
    {
      k := k - 1;
    }
    if k > 0 {
      assert list[k - 1] in list;
    }
    SiblingInserted(merge, position, list, k, c);
    r := list[..k] + [c] + list[k..];
  }

  lemma SiblingInserted(merge: seq<bool>, position: seq<int>, list: seq<nat>, k: nat, c: nat)
    requires |merge| == |position| && c < |merge| && SortedSiblings(merge, position, list) && k <= |list|
    requires k > 0 ==> Sooner(merge, position, list[k - 1], c)
    requires forall i :: k <= i < |list| ==> Sooner(merge, position, c, list[i])
    ensures SortedSiblings(merge, position, list[..k] + [c] + list[k..])
    ensures forall x: nat :: x in list[..k] + [c] + list[k..] <==> x == c || x in list
  {
    assert list == list[..k] + list[k..];
    forall i | 0 <= i < k ensures Sooner(merge, position, list[i], c) {
      assert i == k - 1 || Sooner(merge, position, list[i], list[k - 1]);
    }
    SiblingsJoin(merge, position, list[..k], [c]);
    SiblingsJoin(merge, position, list[..k] + [c], list[k..]);
  }

  lemma SiblingsJoin(merge: seq<bool>, position: seq<int>, a: seq<nat>, b: seq<nat>)
    requires |merge| == |position| && SortedSiblings(merge, position, a) && SortedSiblings(merge, position, b)
    requires forall i, j :: 0 <= i < |a| && 0 <= j < |b| ==> Sooner(merge, position, a[i], b[j])
    ensures SortedSiblings(merge, position, a + b)
  {
  }

  ghost predicate TreeChildren(idom: Links, children: seq<seq<nat>>) {
    && |children| == |idom|
    && forall p: nat, c: nat {:trigger c in children[p]} :: p < |children| ==>
         (c in children[p] <==> c < |idom| && idom[c] == Some(p))
  }

  /** Children of every block, sorted as the printer wants them. */
  method SortedChildren(discovery: seq<nat>, idom: Links, merge: seq<bool>, position: seq<int>)
      returns (children: seq<seq<nat>>)
    requires |merge| == |position| == |idom| && InRange(discovery, |idom|)
    requires forall i, j :: 0 <= i < j < |discovery| ==> position[discovery[i]] != position[discovery[j]]
    requires forall c: nat :: c < |idom| && idom[c].Some? ==> c in discovery && idom[c].value < |idom|
    ensures TreeChildren(idom, children)
    ensures forall p :: 0 <= p < |children| ==> SortedSiblings(merge, position, children[p])
  {
    children := seq(|idom|, _ => []);
    for i := 0 to |discovery|
      invariant |children| == |idom|
      invariant forall p: nat, c: nat :: p < |children| ==>
                  (c in children[p] <==> c in discovery[..i] && idom[c] == Some(p))
      invariant forall p :: 0 <= p < |children| ==> SortedSiblings(merge, position, children[p])
    {
      var c := discovery[i];
      assert discovery[..i + 1] == discovery[..i] + [c];
      if idom[c].Some? {
        var p := idom[c].value;
        forall x: nat | x in children[p] ensures position[x] != position[c] {
          assert x in discovery[..i];
          var j :| 0 <= j < i && discovery[j] == x;
        }
        var list := InsertSibling(merge, position, children[p], c);
        children := children[p := list];
      }
    }
    assert discovery[..|discovery|] == discovery;
  }

  // ------------------------------------------------------------ preorder

  ghost predicate KidsUp(children: seq<seq<nat>>, num: seq<int>, total: nat) {
    && |children| == |num| && (forall b :: 0 <= b < |num| ==> num[b] < total)
    && forall b, i :: 0 <= b < |children| && 0 <= i < |children[b]| ==>
         children[b][i] < |children| && num[children[b][i]] > num[b]
  }

  ghost predicate AllAbove(list: seq<nat>, num: seq<int>, low: int) {
    forall i :: 0 <= i < |list| ==> list[i] < |num| && num[list[i]] > low
  }

  /** A block, then the preorders of its children in turn. */
  ghost function Preorder(children: seq<seq<nat>>, num: seq<int>, total: nat, b: nat): seq<nat>
    requires KidsUp(children, num, total) && b < |children|
    decreases total - num[b], |children[b]| + 1
  {
    [b] + PreorderAll(children, num, total, children[b], num[b])
  }

  ghost function PreorderAll(children: seq<seq<nat>>, num: seq<int>, total: nat, list: seq<nat>, low: int): seq<nat>
    requires KidsUp(children, num, total) && AllAbove(list, num, low) && low <= total
    decreases total - low, |list|
  {
    if list == [] then []
    else Preorder(children, num, total, list[0]) + PreorderAll(children, num, total, list[1..], low)
  }

  /** The preorders of the blocks on the stack, from the top down. */
  ghost function Rest(children: seq<seq<nat>>, num: seq<int>, total: nat, stack: seq<nat>): seq<nat>
    requires KidsUp(children, num, total) && InRange(stack, |children|)
  {
    if stack == [] then []
    else Preorder(children, num, total, stack[|stack| - 1]) + Rest(children, num, total, stack[..|stack| - 1])
  }

  function Backward(s: seq<nat>): (r: seq<nat>)
    ensures |r| == |s| && forall i :: 0 <= i < |s| ==> r[i] == s[|s| - 1 - i]
  {
    seq<nat>(|s|, i requires 0 <= i < |s| => s[|s| - 1 - i])
  }

  lemma RestTop(children: seq<seq<nat>>, num: seq<int>, total: nat, stack: seq<nat>)
    requires KidsUp(children, num, total) && InRange(stack, |children|) && stack != []
    ensures Rest(children, num, total, stack) ==
            Preorder(children, num, total, stack[|stack| - 1]) + Rest(children, num, total, stack[..|stack| - 1])
  {
  }

  lemma Associative(a: seq<nat>, b: seq<nat>, c: seq<nat>)
    ensures a + (b + c) == (a + b) + c
  {
  }

  lemma PushInRange(stack: seq<nat>, list: seq<nat>, num: seq<int>, low: int)
    requires InRange(stack, |num|) && AllAbove(list, num, low)
    ensures InRange(stack + Backward(list), |num|)
  {
  }

  lemma {:induction false} RestPush(
    children: seq<seq<nat>>, num: seq<int>, total: nat, stack: seq<nat>, list: seq<nat>, low: int)
    requires KidsUp(children, num, total) && InRange(stack, |children|) && AllAbove(list, num, low) && low <= total
    requires InRange(stack + Backward(list), |children|)
    ensures Rest(children, num, total, stack + Backward(list)) ==
            PreorderAll(children, num, total, list, low) + Rest(children, num, total, stack)
    decreases |list|
  {
    var whole := stack + Backward(list);
    if list == [] {
      assert whole == stack;
    } else {
      var n, below := |whole| - 1, stack + Backward(list[1..]);
      assert whole[..n] == below && whole[n] == list[0];
      var first := Preorder(children, num, total, list[0]);
      var others := PreorderAll(children, num, total, list[1..], low);
      calc {
        Rest(children, num, total, whole);
      ==  { RestTop(children, num, total, whole); }
        first + Rest(children, num, total, below);
      ==  { RestPush(children, num, total, stack, list[1..], low); }
        first + (others + Rest(children, num, total, stack));
      ==  { Associative(first, others, Rest(children, num, total, stack)); }
        (first + others) + Rest(children, num, total, stack);
      }
    }
  }

  method TreePreorder(children: seq<seq<nat>>, num: seq<int>, ghost total: nat, root: nat) returns (order: seq<nat>)
    requires KidsUp(children, num, total) && root < |children|
    ensures order == Preorder(children, num, total, root)
  {
    order := [];
    var stack := [root];
    assert Rest(children, num, total, stack[..0]) == [];
    while stack != []
      invariant InRange(stack, |children|)
      invariant order + Rest(children, num, total, stack) == Preorder(children, num, total, root)
      decreases |Rest(children, num, total, stack)|
    {
      var n := |stack| - 1;
      var block := stack[n];
      ghost var below := stack[..n];
      PushInRange(below, children[block], num, num[block]);
      RestPush(children, num, total, below, children[block], num[block]);
      order := order + [block];
      stack := stack[..n] + Backward(children[block]);
    }
  }

  // ------------------------------------------------------------ what the preorder is

  ghost predicate TreeOk(g: Succs, root: nat, num: seq<int>, total: nat, idom: Links, children: seq<seq<nat>>) {
    && root < |g| && IdomTable(g, root, idom) && Down(idom, num) && TreeChildren(idom, children)
         && KidsUp(children, num, total)
    && (forall p: nat, i, j :: p < |children| && 0 <= i < j < |children[p]| ==> children[p][i] != children[p][j])
  }

  lemma {:induction false} PreorderInside(g: Succs, root: nat, num: seq<int>, total: nat, idom: Links,
      children: seq<seq<nat>>, b: nat, x: nat)
    requires TreeOk(g, root, num, total, idom, children) && b < |g| && x in Preorder(children, num, total, b)
    ensures x < |g| && b in Chain(idom, num, x)
    decreases total - num[b]
  {
    if x != b {
      var i := InOneOf(children, num, total, children[b], num[b], x);
      var c := children[b][i];
      ChildLink(idom, children, b, i);
      PreorderInside(g, root, num, total, idom, children, c, x);
      ChainWithin(idom, num, x, c);
    }
  }

  lemma ChildLink(idom: Links, children: seq<seq<nat>>, b: nat, i: nat)
    requires TreeChildren(idom, children) && b < |children| && i < |children[b]|
    ensures children[b][i] < |idom| && idom[children[b][i]] == Some(b)
  {
    assert children[b][i] in children[b];
  }

  lemma {:induction false} PreorderReaches(g: Succs, root: nat, num: seq<int>, total: nat, idom: Links,
      children: seq<seq<nat>>, b: nat, x: nat)
    requires TreeOk(g, root, num, total, idom, children) && b < |g| && x < |g| && b in Chain(idom, num, x)
    ensures x in Preorder(children, num, total, b)
    decreases total - num[b]
  {
    if x != b {
      var c := ChildToward(idom, num, b, x);
      assert c in children[b];
      var i :| 0 <= i < |children[b]| && children[b][i] == c;
      PreorderReaches(g, root, num, total, idom, children, c, x);
      OneOfIsIn(children, num, total, children[b], num[b], i, x);
    }
  }

  /** The blocks of a subtree are those the block is up from. */
  lemma PreorderMembers(g: Succs, root: nat, num: seq<int>, total: nat, idom: Links, children: seq<seq<nat>>, b: nat,
      x: nat)
    requires TreeOk(g, root, num, total, idom, children) && b < |g|
    ensures x in Preorder(children, num, total, b) <==> x < |g| && b in Chain(idom, num, x)
  {
    if x in Preorder(children, num, total, b) {
      PreorderInside(g, root, num, total, idom, children, b, x);
    }
    if x < |g| && b in Chain(idom, num, x) {
      PreorderReaches(g, root, num, total, idom, children, b, x);
    }
  }

  lemma {:induction false} ChildToward(p: Links, num: seq<int>, b: nat, x: nat) returns (c: nat)
    requires Down(p, num) && x < |p| && b in Chain(p, num, x) && b != x
    ensures c < |p| && p[c] == Some(b) && c in Chain(p, num, x)
    decreases Rank(num, x)
  {
    if p[x] == Some(b) {
      c := x;
    } else {
      c := ChildToward(p, num, b, p[x].value);
    }
  }

  lemma {:induction false} InOneOf(children: seq<seq<nat>>, num: seq<int>, total: nat, list: seq<nat>, low: int,
      x: nat) returns (i: nat)
    requires KidsUp(children, num, total) && AllAbove(list, num, low) && low <= total
    requires x in PreorderAll(children, num, total, list, low)
    ensures i < |list| && x in Preorder(children, num, total, list[i])
    decreases |list|
  {
    if x in Preorder(children, num, total, list[0]) {
      i := 0;
    } else {
      var j := InOneOf(children, num, total, list[1..], low, x);
      i := j + 1;
    }
  }

  lemma {:induction false} OneOfIsIn(children: seq<seq<nat>>, num: seq<int>, total: nat, list: seq<nat>, low: int,
      i: nat, x: nat)
    requires KidsUp(children, num, total) && AllAbove(list, num, low) && low <= total
    requires i < |list| && x in Preorder(children, num, total, list[i])
    ensures x in PreorderAll(children, num, total, list, low)
    decreases |list|
  {
    if i > 0 {
      assert list[i] == list[1..][i - 1];
      OneOfIsIn(children, num, total, list[1..], low, i - 1, x);
    }
  }

  predicate Distinct(s: seq<nat>) {
    forall i, j :: 0 <= i < j < |s| ==> s[i] != s[j]
  }

  lemma DistinctJoin(a: seq<nat>, b: seq<nat>)
    requires Distinct(a) && Distinct(b) && forall x: nat :: x in a ==> x !in b
    ensures Distinct(a + b)
  {
    forall i, j | 0 <= i < |a| && 0 <= j < |b| ensures a[i] != b[j] {
      assert a[i] in a && b[j] in b;
    }
  }

  /** Subtrees of siblings have no block in common. */
  lemma SiblingsApart(g: Succs, root: nat, num: seq<int>, total: nat, idom: Links, children: seq<seq<nat>>, p: nat,
      c: nat, d: nat, x: nat)
    requires TreeOk(g, root, num, total, idom, children) && c < |g| && d < |g| && c != d && idom[c] == Some(p)
    requires idom[d] == Some(p)
    ensures x !in Preorder(children, num, total, c) || x !in Preorder(children, num, total, d)
  {
    PreorderMembers(g, root, num, total, idom, children, c, x);
    PreorderMembers(g, root, num, total, idom, children, d, x);
    if x < |g| && c in Chain(idom, num, x) && d in Chain(idom, num, x) {
      var lower, upper := if num[c] <= num[d] then d else c, if num[c] <= num[d] then c else d;
      ChainLinear(idom, num, x, upper, lower);
      ChainBelow(idom, num, p, upper);
    }
  }

  lemma {:induction false} PreorderDistinct(g: Succs, root: nat, num: seq<int>, total: nat, idom: Links,
      children: seq<seq<nat>>, b: nat)
    requires TreeOk(g, root, num, total, idom, children) && b < |g|
    ensures Distinct(Preorder(children, num, total, b))
    decreases total - num[b], |children[b]| + 1
  {
    PreordersDistinct(g, root, num, total, idom, children, b, 0);
    assert children[b][0..] == children[b];
    var below := PreorderAll(children, num, total, children[b], num[b]);
    if b in below {
      var i := InOneOf(children, num, total, children[b], num[b], b);
      var c := children[b][i];
      PreorderMembers(g, root, num, total, idom, children, c, b);
      ChainBelow(idom, num, b, c);
    }
    DistinctJoin([b], below);
  }

  lemma {:induction false} PreordersDistinct(g: Succs, root: nat, num: seq<int>, total: nat, idom: Links,
      children: seq<seq<nat>>, b: nat, k: nat)
    requires TreeOk(g, root, num, total, idom, children) && b < |g| && k <= |children[b]|
    ensures Distinct(PreorderAll(children, num, total, children[b][k..], num[b]))
    decreases total - num[b], |children[b]| - k
  {
    var list := children[b][k..];
    if list != [] {
      var c := children[b][k];
      PreorderDistinct(g, root, num, total, idom, children, c);
      PreordersDistinct(g, root, num, total, idom, children, b, k + 1);
      assert list[1..] == children[b][k + 1..];
      forall x: nat | x in Preorder(children, num, total, c)
        ensures x !in PreorderAll(children, num, total, list[1..], num[b])
      {
        LaterApart(g, root, num, total, idom, children, b, k, x);
      }
      DistinctJoin(Preorder(children, num, total, c), PreorderAll(children, num, total, list[1..], num[b]));
    }
  }

  lemma LaterApart(g: Succs, root: nat, num: seq<int>, total: nat, idom: Links, children: seq<seq<nat>>, b: nat,
      k: nat, x: nat)
    requires TreeOk(g, root, num, total, idom, children) && b < |g| && k < |children[b]|
    requires x in Preorder(children, num, total, children[b][k])
    ensures x !in PreorderAll(children, num, total, children[b][k + 1..], num[b])
  {
    var later := children[b][k + 1..];
    if x in PreorderAll(children, num, total, later, num[b]) {
      var i := InOneOf(children, num, total, later, num[b], x);
      var c, d := children[b][k], children[b][k + 1 + i];
      assert c in children[b] && d in children[b] && later[i] == d;
      SiblingsApart(g, root, num, total, idom, children, b, c, d, x);
    }
  }

  ghost predicate Earlier(s: seq<nat>, a: nat, b: nat) {
    exists i, j :: 0 <= i < j < |s| && s[i] == a && s[j] == b
  }

  lemma EarlierIn(a: seq<nat>, b: seq<nat>, c: seq<nat>, x: nat, y: nat)
    requires Earlier(b, x, y)
    ensures Earlier(a + b + c, x, y)
  {
    var i, j :| 0 <= i < j < |b| && b[i] == x && b[j] == y;
    var s := a + b + c;
    assert s[|a| + i] == x && s[|a| + j] == y;
  }

  /** Every block comes after the blocks it is up from, its immediate dominator among them. */
  lemma {:induction false} PreorderParents(g: Succs, root: nat, num: seq<int>, total: nat, idom: Links,
      children: seq<seq<nat>>, b: nat, a: nat, x: nat)
    requires TreeOk(g, root, num, total, idom, children) && b < |g| && x < |g|
    requires a < |g| && b in Chain(idom, num, a) && a in Chain(idom, num, x) && a != x
    ensures Earlier(Preorder(children, num, total, b), a, x)
    decreases total - num[b]
  {
    ChainWithin(idom, num, x, a);
    PreorderMembers(g, root, num, total, idom, children, b, x);
    var s := Preorder(children, num, total, b);
    if a == b {
      var j :| 0 <= j < |s| && s[j] == x;
      assert s[0] == a;
    } else {
      var c := ChildToward(idom, num, b, a);
      assert c in children[b];
      var i :| 0 <= i < |children[b]| && children[b][i] == c;
      PreorderParents(g, root, num, total, idom, children, c, a, x);
      PieceOf(children, num, total, children[b], num[b], i, a, x);
      EarlierIn([b], PreorderAll(children, num, total, children[b], num[b]), [], a, x);
      assert s == [b] + PreorderAll(children, num, total, children[b], num[b]) + [];
    }
  }

  lemma {:induction false} PieceOf(children: seq<seq<nat>>, num: seq<int>, total: nat, list: seq<nat>, low: int,
      i: nat, a: nat, x: nat)
    requires KidsUp(children, num, total) && AllAbove(list, num, low) && low <= total
    requires i < |list| && Earlier(Preorder(children, num, total, list[i]), a, x)
    ensures Earlier(PreorderAll(children, num, total, list, low), a, x)
    decreases |list|
  {
    var first, rest := Preorder(children, num, total, list[0]), PreorderAll(children, num, total, list[1..], low);
    if i == 0 {
      EarlierIn([], first, rest, a, x);
      assert [] + first + rest == first + rest;
    } else {
      assert list[i] == list[1..][i - 1];
      PieceOf(children, num, total, list[1..], low, i - 1, a, x);
      EarlierIn(first, rest, [], a, x);
      assert first + rest + [] == first + rest;
    }
  }

  // ------------------------------------------------------------ the order

  /** Where each visited block was first visited; the others have no place. */
  ghost predicate Placed(visits: seq<nat>, position: seq<int>) {
    && (forall i :: 0 <= i < |visits| ==> visits[i] < |position| && position[visits[i]] == i)
    && forall b: nat :: b < |position| && b !in visits ==> position[b] == UNSET
  }

  method Positions(discovery: seq<nat>, n: nat) returns (position: seq<int>)
    requires InRange(discovery, n) && Distinct(discovery)
    ensures |position| == n && Placed(discovery, position)
  {
    position := seq(n, _ => UNSET);
    for i := 0 to |discovery|
      invariant |position| == n && Placed(discovery[..i], position)
    {
      assert discovery[..i + 1] == discovery[..i] + [discovery[i]];
      position := position[discovery[i] := i];
    }
    assert discovery[..|discovery|] == discovery;
  }

  function Unreached(discovered: seq<bool>, n: nat): (r: seq<nat>)
    requires n <= |discovered|
    ensures forall b: nat :: b in r <==> b < n && !discovered[b]
    ensures Ascending(r)
  {
    if n == 0 then [] else
      var rest := Unreached(discovered, n - 1);
      assert forall i :: 0 <= i < |rest| ==> rest[i] in rest;
      if discovered[n - 1] then rest else rest + [n - 1]
  }

  /** Everything the order is made of. */
  datatype Printed = Printed(g: Succs, entry: nat, num: seq<int>, total: nat, idom: Links,
                             merge: seq<bool>, position: seq<int>, children: seq<seq<nat>>, unreached: seq<nat>)

  ghost predicate PrintedOk(t: Printed) {
    && TreeOk(t.g, t.entry, t.num, t.total, t.idom, t.children)
    && Wellformed(t.g) && |t.merge| == |t.position| == |t.g|
    && (forall b: nat :: b < |t.g| ==> (t.merge[b] <==> IsMerge(t.g, t.entry, b)))
    && Placed(VisitFrom(t.g, {t.entry}, t.entry).pre, t.position)
    && (forall p :: 0 <= p < |t.children| ==> SortedSiblings(t.merge, t.position, t.children[p]))
    && Ascending(t.unreached) && forall b: nat :: b in t.unreached <==> b < |t.g| && !Reach(t.g, t.entry, b)
  }

  ghost function Indices(t: Printed): seq<nat>
    requires PrintedOk(t)
  {
    Preorder(t.children, t.num, t.total, t.entry) + t.unreached
  }

  /** Reachable blocks in tree preorder, the others after them; each block exactly once. */
  lemma IndicesAreAll(t: Printed)
    requires PrintedOk(t)
    ensures Distinct(Indices(t)) && forall x: nat :: x in Indices(t) <==> x < |t.g|
    ensures forall x: nat :: x in Preorder(t.children, t.num, t.total, t.entry) <==> Reach(t.g, t.entry, x)
  {
    forall x: nat ensures x in Preorder(t.children, t.num, t.total, t.entry) <==> Reach(t.g, t.entry, x) {
      PreorderMembers(t.g, t.entry, t.num, t.total, t.idom, t.children, t.entry, x);
      if x < |t.g| {
        RootUp(t.g, t.entry, t.num, t.idom, x);
      }
      if Reach(t.g, t.entry, x) {
        DominatesRefl(t.g, t.entry, x);
        DominatorReachable(t.g, t.entry, x, x);
      }
    }
    PreorderDistinct(t.g, t.entry, t.num, t.total, t.idom, t.children, t.entry);
    DistinctJoin(Preorder(t.children, t.num, t.total, t.entry), t.unreached);
  }

  lemma {:induction false} RootUp(g: Succs, root: nat, num: seq<int>, idom: Links, x: nat)
    requires root < |g| && IdomTable(g, root, idom) && Down(idom, num) && x < |g|
    ensures root in Chain(idom, num, x) <==> Reach(g, root, x)
    decreases Rank(num, x)
  {
    if x == root {
      ReachRefl(g, root);
    } else if Reach(g, root, x) {
      IdomHasFewer(g, root, idom[x].value, x);
      RootUp(g, root, num, idom, idom[x].value);
    }
  }

  /** Every reachable block but the entry comes after its immediate dominator. */
  lemma DominatorsFirst(t: Printed, x: nat)
    requires PrintedOk(t) && Reach(t.g, t.entry, x) && x != t.entry && x < |t.g|
    ensures t.idom[x].Some? && IsIdom(t.g, t.entry, t.idom[x].value, x) && Earlier(Indices(t), t.idom[x].value, x)
  {
    var d := t.idom[x].value;
    IdomHasFewer(t.g, t.entry, d, x);
    RootUp(t.g, t.entry, t.num, t.idom, d);
    assert d in Chain(t.idom, t.num, d);
    PreorderParents(t.g, t.entry, t.num, t.total, t.idom, t.children, t.entry, d, x);
    EarlierThen(Preorder(t.children, t.num, t.total, t.entry), t.unreached, d, x);
  }

  lemma EarlierThen(a: seq<nat>, b: seq<nat>, x: nat, y: nat)
    requires Earlier(a, x, y)
    ensures Earlier(a + b, x, y)
  {
    var i, j :| 0 <= i < j < |a| && a[i] == x && a[j] == y;
    assert (a + b)[i] == x && (a + b)[j] == y;
  }

  function Keys(ids: seq<nat>, order: seq<nat>): (r: seq<nat>)
    requires InRange(order, |ids|)
    ensures |r| == |order| && forall i :: 0 <= i < |r| ==> r[i] == ids[order[i]]
  {
    seq<nat>(|order|, i requires 0 <= i < |order| => ids[order[i]])
  }

  lemma KeysAreAll(ids: seq<nat>, order: seq<nat>)
    requires Ascending(ids) && Distinct(order) && forall x: nat :: x in order <==> x < |ids|
    ensures InRange(order, |ids|) && Distinct(Keys(ids, order)) && forall k: nat :: k in Keys(ids, order) <==> k in ids
  {
    forall i | 0 <= i < |order| ensures order[i] < |ids| {
      assert order[i] in order;
    }
    forall k: nat ensures k in Keys(ids, order) <==> k in ids {
      if k in ids {
        var x: nat :| x < |ids| && ids[x] == k;
        assert x in order;
        var i :| 0 <= i < |order| && order[i] == x;
        assert Keys(ids, order)[i] == k;
      }
    }
  }

  method OrderIndices(g: Succs, entry: nat) returns (order: seq<nat>, ghost t: Printed)
    requires Wellformed(g) && entry < |g|
    ensures PrintedOk(t) && t.g == g && t.entry == entry && order == Indices(t)
  {
    var discovered, discovery, post, up := Search(g, entry);
    var preds, arrivals := DiscoveredPredecessors(g, discovered);
    forall b: nat | b < |g| ensures (discovered[b] <==> Reach(g, entry, b)) && (b in post <==> Reach(g, entry, b)) {
      DiscoveredIsReached(g, entry, discovered, post, up, b);
    }
    forall i | 0 <= i < |post| ensures post[i] < |g| {
      assert post[i] in post;
    }
    var rpo, num := NumberReverse(post, |g|);
    SearchIsOrder(g, entry, discovered, post, up, rpo, num, preds);
    ghost var o := Order(g, entry, num, up, preds);
    var idom := IterateDominators(o, rpo, num, entry, preds);
    FirstVisits(g, entry, discovered, discovery, post, up);
    var position := Positions(discovery, |g|);
    PredsAreReached(g, entry, discovered, preds, arrivals);
    var merge := Merges(g, entry, num, preds, idom);
    LinkedIsVisited(g, entry, discovery, post, idom);
    var children := SortedChildren(discovery, idom, merge, position);
    KidsAreUp(g, entry, idom, num, |post|, merge, position, children);
    order := TreePreorder(children, num, |post|, entry);
    var unreached := Unreached(discovered, |g|);
    t := Printed(g, entry, num, |post|, idom, merge, position, children, unreached);
    order := order + unreached;
  }

  lemma FirstVisits(g: Succs, root: nat, discovered: seq<bool>, discovery: seq<nat>, post: seq<nat>, up: Links)
    requires SearchInv(g, root, discovered, post, [], up, None) && Visited(root, discovery, post, [])
    ensures Distinct(discovery) && InRange(discovery, |g|)
  {
    forall i | 0 <= i < |discovery| ensures discovery[i] < |g| {
      assert discovery[i] in discovery;
      assert !ExpandedBelow([], 0, discovery[i]);
    }
  }

  lemma SeveralPairs(pairs: set<(nat, nat)>)
    ensures |pairs| > 1 <==> exists p, q :: p in pairs && q in pairs && p != q
  {
    if |pairs| > 1 {
      var p :| p in pairs;
      assert pairs - {p} != {};
      var q :| q in pairs - {p};
    }
    if p, q :| p in pairs && q in pairs && p != q {
      SubsetCard({p, q}, pairs);
    }
  }

  lemma PredsAreReached(g: Succs, root: nat, discovered: seq<bool>, preds: seq<seq<nat>>,
                        arrivals: seq<set<(nat, nat)>>)
    requires IsPreds(g, discovered, preds) && forall b: nat :: b < |g| ==> (discovered[b] <==> Reach(g, root, b))
    requires Counts(arrivals, preds)
    requires forall b: nat :: b < |g| ==> ArrivalsUpTo(g, discovered, |g|, 0, b, arrivals[b])
    ensures PredsReached(g, root, preds)
  {
    forall b: nat, u: nat | b < |g| ensures u in preds[b] <==> Edge(g, u, b) && Reach(g, root, u) {
      if Edge(g, u, b) && Reach(g, root, u) {
        ReachEdge(g, root, u, b);
      }
    }
    forall b: nat | b < |g| ensures |preds[b]| > 1 <==> SeveralArrive(g, root, b) {
      SeveralPairs(arrivals[b]);
      ArrivalsAre(g, root, discovered, b, arrivals[b]);
    }
  }

  lemma ArrivalsAre(g: Succs, root: nat, discovered: seq<bool>, b: nat, pairs: set<(nat, nat)>)
    requires |discovered| == |g| && b < |g| && forall x: nat :: x < |g| ==> (discovered[x] <==> Reach(g, root, x))
    requires ArrivalsUpTo(g, discovered, |g|, 0, b, pairs)
    ensures (exists p, q :: p in pairs && q in pairs && p != q) <==> SeveralArrive(g, root, b)
  {
    if p, q :| p in pairs && q in pairs && p != q {
      assert EdgeAt(g, p.0, p.1, b) && EdgeAt(g, q.0, q.1, b) && (p.0, p.1) != (q.0, q.1);
    }
    if SeveralArrive(g, root, b) {
      var u: nat, i: nat, v: nat, j: nat :| EdgeAt(g, u, i, b) && EdgeAt(g, v, j, b) && (u, i) != (v, j) &&
        Reach(g, root, u) && Reach(g, root, v);
      assert g[u][i] in g[u];
      ReachEdge(g, root, u, b);
      assert (u, i) in pairs && (v, j) in pairs;
    }
  }

  lemma LinkedIsVisited(g: Succs, root: nat, discovery: seq<nat>, post: seq<nat>, idom: Links)
    requires root < |g| && IdomTable(g, root, idom) && Visited(root, discovery, post, [])
    requires forall b: nat :: b < |g| ==> (b in post <==> Reach(g, root, b))
    ensures forall c: nat :: c < |idom| && idom[c].Some? ==> c in discovery && idom[c].value < |idom|
  {
    forall c: nat | c < |idom| && idom[c].Some? ensures c in discovery && idom[c].value < |idom| {
      IdomHasFewer(g, root, idom[c].value, c);
      assert Expanded(post, [], c);
    }
  }

  lemma KidsAreUp(g: Succs, root: nat, idom: Links, num: seq<int>, total: nat, merge: seq<bool>, position: seq<int>,
      children: seq<seq<nat>>)
    requires root < |g| && IdomTable(g, root, idom) && Down(idom, num) && TreeChildren(idom, children)
    requires |merge| == |position| == |g|
    requires forall b :: 0 <= b < |num| ==> num[b] < total
    requires forall p :: 0 <= p < |children| ==> SortedSiblings(merge, position, children[p])
    ensures TreeOk(g, root, num, total, idom, children)
  {
    forall b: nat, i: nat | b < |children| && i < |children[b]|
      ensures children[b][i] < |children| && num[children[b][i]] > num[b]
    {
      var c := children[b][i];
      assert c in children[b];
      assert idom[c] == Some(b);
    }
    forall p: nat, i, j | p < |children| && 0 <= i < j < |children[p]| ensures children[p][i] != children[p][j] {
      assert Sooner(merge, position, children[p][i], children[p][j]);
    }
  }

  /** What the caller gets: without the entry the plain ascending list, with it the printed tree's order. */
  ghost predicate IsDominanceOrder(entry: nat, ids: seq<nat>, successors: nat -> seq<nat>, order: seq<nat>,
      t: Printed) {
    if entry !in ids then order == ids
    else
      && PrintedOk(t) && IndexGraph(ids, successors, t.g) && t.entry < |ids| && ids[t.entry] == entry
      && InRange(Indices(t), |ids|) && order == Keys(ids, Indices(t))
  }

  method DominanceOrder(entry: nat, blocks: seq<nat>, successors: nat -> seq<nat>)
      returns (order: seq<nat>, ghost ids: seq<nat>, ghost t: Printed)
    ensures Ascending(ids) && forall k: nat :: k in ids <==> k in blocks
    ensures IsDominanceOrder(entry, ids, successors, order, t)
    ensures Distinct(order) && forall k: nat :: k in order <==> k in blocks
  {
    t := Printed([], 0, [], 0, [], [], [], [], []);
    var sorted := SortedKeys(blocks);
    ids := sorted;
    var index := Position(sorted, entry);
    if index.None? {
      return sorted, ids, t;
    }
    var g := MakeGraph(sorted, successors);
    IndexGraphInRange(sorted, successors, g);
    var indices;
    indices, t := OrderIndices(g, index.value);
    IndicesAreAll(t);
    KeysAreAll(sorted, indices);
    order := Keys(sorted, indices);
  }
}
