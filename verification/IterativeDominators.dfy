/**
  The Cooper-Harvey-Kennedy iteration over any numbering in which every block but the root
  comes after a block that discovered it.
 */
module IterativeDominators {
  import opened Graph
  import opened CfgErrors
  import opened LengauerTarjan
  import opened DomTree

  /** Numbers of the discovered blocks, the block each was discovered from, and the discovered predecessors. */
  datatype Order = Order(g: Succs, root: nat, num: seq<int>, up: Links, preds: seq<seq<nat>>)

  ghost predicate Seen(o: Order, b: nat) {
    b < |o.num| && o.num[b] >= 0
  }

  ghost predicate UpOk(o: Order, b: nat)
    requires |o.up| == |o.num|
  {
    Seen(o, b) && b != o.root ==> o.up[b].Some? && Edge(o.g, o.up[b].value, b)
  }

  ghost predicate PredsOk(o: Order, b: nat)
    requires |o.preds| == |o.num|
  {
    Seen(o, b) ==> forall u: nat :: u in o.preds[b] <==> Edge(o.g, u, b) && Seen(o, u)
  }

  ghost predicate OrderOk(o: Order) {
    && Wellformed(o.g) && o.root < |o.g| && |o.num| == |o.up| == |o.preds| == |o.g|
    && o.num[o.root] == 0 && Down(o.up, o.num) && o.up[o.root].None?
    && (forall b: nat :: b < |o.num| ==> (Seen(o, b) <==> Reach(o.g, o.root, b)))
    && (forall a: nat, b: nat :: Seen(o, a) && Seen(o, b) && o.num[a] == o.num[b] ==> a == b)
    && (forall b: nat {:trigger UpOk(o, b)} :: b < |o.num| ==> UpOk(o, b))
    && (forall b: nat {:trigger PredsOk(o, b)} :: b < |o.num| ==> PredsOk(o, b))
  }

  // ------------------------------------------------------------ chains up the links

  /** Links lead to discovered blocks with smaller numbers. */
  predicate Down(p: Links, num: seq<int>) {
    |p| == |num| && forall x :: 0 <= x < |p| && p[x].Some? ==> p[x].value < |p| && 0 <= num[p[x].value] < num[x]
  }

  ghost function Rank(num: seq<int>, x: nat): nat
    requires x < |num|
  {
    if num[x] < 0 then 0 else num[x]
  }

  /** The blocks up the links, from `x` on. */
  ghost function Chain(p: Links, num: seq<int>, x: nat): set<nat>
    requires Down(p, num) && x < |p|
    decreases Rank(num, x)
  {
    {x} + if p[x].Some? then Chain(p, num, p[x].value) else {}
  }

  lemma {:induction false} ChainBelow(p: Links, num: seq<int>, x: nat, a: nat)
    requires Down(p, num) && x < |p| && a in Chain(p, num, x)
    ensures a < |p| && num[a] <= num[x] && (a != x ==> 0 <= num[a] < num[x])
    decreases Rank(num, x)
  {
    if a != x {
      ChainBelow(p, num, p[x].value, a);
    }
  }

  lemma {:induction false} ChainWithin(p: Links, num: seq<int>, x: nat, a: nat)
    requires Down(p, num) && x < |p| && a in Chain(p, num, x)
    ensures a < |p| && Chain(p, num, a) <= Chain(p, num, x)
    decreases Rank(num, x)
  {
    if a != x {
      ChainWithin(p, num, p[x].value, a);
    }
  }

  /** Of two blocks of a chain, the one with the smaller number is up from the other. */
  lemma {:induction false} ChainLinear(p: Links, num: seq<int>, x: nat, a: nat, b: nat)
    requires Down(p, num) && x < |p| && a in Chain(p, num, x) && b in Chain(p, num, x) && a < |p| && b < |p|
    requires num[a] <= num[b]
    ensures a in Chain(p, num, b)
    decreases Rank(num, x)
  {
    ChainBelow(p, num, x, a);
    ChainBelow(p, num, x, b);
    if b != x && a != x {
      ChainLinear(p, num, p[x].value, a, b);
    }
  }

  ghost predicate SameUpTo(p: Links, q: Links, num: seq<int>, x: nat)
    requires |p| == |q| == |num| && x < |num|
  {
    forall b: nat :: b < |num| && num[b] <= num[x] ==> p[b] == q[b]
  }

  /** A chain only depends on the links of its own and smaller numbers. */
  lemma {:induction false} ChainLocal(p: Links, q: Links, num: seq<int>, x: nat)
    requires Down(p, num) && Down(q, num) && x < |p| && SameUpTo(p, q, num, x)
    ensures Chain(p, num, x) == Chain(q, num, x)
    decreases Rank(num, x)
  {
    if p[x].Some? {
      ChainLocal(p, q, num, p[x].value);
    }
  }

  /** Relinking `b` changes chains through `b` only, from `b` up. */
  lemma {:induction false} ChainUpdate(p: Links, num: seq<int>, b: nat, c: nat, x: nat, a: nat)
    requires Down(p, num) && b < |p| && c < |p| && 0 <= num[c] < num[b] && x < |p|
    ensures Down(p[b := Some(c)], num)
    ensures b !in Chain(p, num, x) ==> (a in Chain(p[b := Some(c)], num, x) <==> a in Chain(p, num, x))
    ensures b in Chain(p, num, x) ==>
              (a in Chain(p[b := Some(c)], num, x) <==>
                 (a in Chain(p, num, x) && a < |p| && num[a] > num[b]) || a == b || a in Chain(p, num, c))
    decreases Rank(num, x)
  {
    var q := p[b := Some(c)];
    if x == b {
      ChainLocal(p, q, num, c);
      if a in Chain(p, num, b) {
        ChainBelow(p, num, b, a);
      }
    } else if p[x].Some? {
      ChainUpdate(p, num, b, c, p[x].value, a);
      if b in Chain(p, num, p[x].value) {
        ChainBelow(p, num, p[x].value, b);
      }
    }
  }

  // ------------------------------------------------------------ intersection of two chains

  ghost predicate Rooted(o: Order, p: Links, x: nat) {
    OrderOk(o) && Down(p, o.num) && x < |p| && Seen(o, x) && o.root in Chain(p, o.num, x)
  }

  lemma RootOfChain(o: Order, p: Links, x: nat)
    requires Rooted(o, p, x) && x != o.root
    ensures p[x].Some? && Rooted(o, p, p[x].value)
  {
  }

  lemma NotInLower(p: Links, num: seq<int>, left: nat, right: nat)
    requires Down(p, num) && left < |p| && right < |p| && num[left] > num[right]
    ensures left !in Chain(p, num, right)
  {
    if left in Chain(p, num, right) {
      ChainBelow(p, num, right, left);
    }
  }

  /** Follows the links of the left block down to the number of the right one. */
  method Climb(ghost o: Order, num: seq<int>, p: Links, left0: nat, right: nat) returns (left: nat)
    requires num == o.num && Rooted(o, p, left0) && Rooted(o, p, right)
    ensures Rooted(o, p, left) && num[left] <= num[right] && (left == left0 || num[left] < num[left0])
    ensures num[left0] > num[right] ==> left != left0
    ensures Chain(p, num, left) * Chain(p, num, right) == Chain(p, num, left0) * Chain(p, num, right)
  {
    left := left0;
    while num[left] > num[right]
      invariant Rooted(o, p, left) && (left == left0 || num[left] < num[left0])
      invariant Chain(p, num, left) * Chain(p, num, right) == Chain(p, num, left0) * Chain(p, num, right)
      decreases num[left]
    {
      StepsUp(o, p, left, right);
      left := p[left].value;
    }
  }

  lemma StepsUp(o: Order, p: Links, left: nat, right: nat)
    requires Rooted(o, p, left) && Rooted(o, p, right) && o.num[left] > o.num[right]
    ensures p[left].Some? && Rooted(o, p, p[left].value) && o.num[p[left].value] < o.num[left]
    ensures Chain(p, o.num, p[left].value) * Chain(p, o.num, right) == Chain(p, o.num, left) * Chain(p, o.num, right)
  {
    RootOfChain(o, p, left);
    NotInLower(p, o.num, left, right);
  }

  lemma NumbersDiffer(o: Order, p: Links, left: nat, right: nat)
    requires Rooted(o, p, left) && Rooted(o, p, right) && left != right
    ensures o.num[left] != o.num[right] && o.num[left] >= 0 && o.num[right] >= 0
  {
  }

  lemma Commutes(a: set<nat>, b: set<nat>)
    ensures a * b == b * a
  {
  }

  /** Follows the links of whichever block has the larger number until both are the same. */
  method Intersect(ghost o: Order, num: seq<int>, p: Links, left0: nat, right0: nat) returns (left: nat)
    requires num == o.num && Rooted(o, p, left0) && Rooted(o, p, right0)
    ensures Rooted(o, p, left) && Chain(p, num, left) == Chain(p, num, left0) * Chain(p, num, right0)
  {
    left := left0;
    var right := right0;
    ghost var common := Chain(p, num, left0) * Chain(p, num, right0);
    while left != right
      invariant Rooted(o, p, left) && Rooted(o, p, right) && Chain(p, num, left) * Chain(p, num, right) == common
      decreases num[left] + num[right]
    {
      NumbersDiffer(o, p, left, right);
      left := Climb(o, num, p, left, right);
      Commutes(Chain(p, num, left), Chain(p, num, right));
      right := Climb(o, num, p, right, left);
      Commutes(Chain(p, num, left), Chain(p, num, right));
    }
  }

  // ------------------------------------------------------------ the state between passes

  predicate Processed(p: Links, root: nat, x: nat) {
    x < |p| && (x == root || p[x].Some?)
  }

  /** A link leads to a processed block on the way the block was discovered. */
  ghost predicate LinkOk(o: Order, p: Links, x: nat)
    requires OrderOk(o) && Down(p, o.num) && x < |p|
  {
    p[x].Some? ==> Seen(o, x) && x != o.root && Processed(p, o.root, p[x].value) && p[x].value in Chain(o.up, o.num, x)
  }

  /** Every dominator is up the links. */
  ghost predicate KeepsDominators(o: Order, p: Links, x: nat)
    requires OrderOk(o) && Down(p, o.num) && x < |p|
  {
    Processed(p, o.root, x) ==> forall d: nat :: Dominates(o.g, o.root, d, x) ==> d in Chain(p, o.num, x)
  }

  ghost predicate LinksFit(o: Order, p: Links) {
    && OrderOk(o) && Down(p, o.num)
    && (forall x: nat {:trigger LinkOk(o, p, x)} :: x < |p| ==> LinkOk(o, p, x))
    && forall x: nat {:trigger KeepsDominators(o, p, x)} :: x < |p| ==> KeepsDominators(o, p, x)
  }

  /** The link is up from the discovering block. */
  ghost predicate Tight(o: Order, p: Links, x: nat)
    requires OrderOk(o) && Down(p, o.num) && x < |p|
  {
    Seen(o, x) && x != o.root ==> p[x].Some? && o.up[x].Some? && p[x].value in Chain(p, o.num, o.up[x].value)
  }

  /** The block is up from every predecessor. */
  ghost predicate AboveAll(o: Order, p: Links, x: nat, a: nat)
    requires OrderOk(o) && Down(p, o.num) && x < |p|
  {
    forall u: nat :: u in o.preds[x] ==> u < |p| && a in Chain(p, o.num, u)
  }

  /** What is up from every predecessor is up from the block. */
  ghost predicate Covers(o: Order, p: Links, x: nat)
    requires OrderOk(o) && Down(p, o.num) && x < |p|
  {
    Seen(o, x) && p[x].Some? ==>
      forall a: nat {:trigger AboveAll(o, p, x, a)} :: AboveAll(o, p, x, a) ==> a in Chain(p, o.num, p[x].value)
  }

  /** Before the first pass nothing but the root is processed; afterwards every discovered block is. */
  ghost predicate Between(o: Order, p: Links, first: bool) {
    && LinksFit(o, p)
    && (first ==> forall x :: 0 <= x < |p| ==> p[x].None?)
    && (!first ==> forall x: nat {:trigger Tight(o, p, x)} :: x < |p| ==> Tight(o, p, x))
    && (!first ==> forall x: nat {:trigger Covers(o, p, x)} :: x < |p| ==> Covers(o, p, x))
  }

  lemma {:induction false} ProcessedIsRooted(o: Order, p: Links, x: nat)
    requires LinksFit(o, p) && Processed(p, o.root, x)
    ensures Rooted(o, p, x)
    decreases Rank(o.num, x)
  {
    assert LinkOk(o, p, x);
    if x != o.root {
      ProcessedIsRooted(o, p, p[x].value);
    }
  }

  // ------------------------------------------------------------ evaluating one block

  ghost predicate AboveProcessed(o: Order, p: Links, x: nat, a: nat)
    requires OrderOk(o) && Down(p, o.num) && x < |p|
  {
    forall u: nat :: u in o.preds[x] && Processed(p, o.root, u) ==> a in Chain(p, o.num, u)
  }

  ghost predicate AboveScanned(p: Links, num: seq<int>, root: nat, scanned: seq<nat>, a: nat)
    requires Down(p, num)
  {
    forall u: nat :: u in scanned && Processed(p, root, u) ==> a in Chain(p, num, u)
  }

  /** The nearest block up from all processed predecessors. */
  method Nearest(ghost o: Order, num: seq<int>, root: nat, preds: seq<nat>, p: Links) returns (found: Option<nat>)
    requires LinksFit(o, p) && num == o.num && root == o.root
    ensures found.None? <==> forall u :: u in preds ==> !Processed(p, root, u)
    ensures found.Some? ==> Rooted(o, p, found.value)
    ensures found.Some? ==> forall a :: a in Chain(p, num, found.value) <==> AboveScanned(p, num, root, preds, a)
  {
    found := None;
    for k := 0 to |preds|
      invariant found.None? <==> forall u :: u in preds[..k] ==> !Processed(p, root, u)
      invariant found.Some? ==> Rooted(o, p, found.value)
      invariant found.Some? ==>
                  forall a :: a in Chain(p, num, found.value) <==> AboveScanned(p, num, root, preds[..k], a)
    {
      assert preds[..k + 1] == preds[..k] + [preds[k]];
      if Processed(p, root, preds[k]) {
        ProcessedIsRooted(o, p, preds[k]);
        if found.None? {
          found := Some(preds[k]);
        } else {
          var next := Intersect(o, num, p, found.value, preds[k]);
          found := Some(next);
        }
      }
    }
    assert preds[..|preds|] == preds;
  }

  // ------------------------------------------------------------ one pass

  /** The links when the blocks numbered below `i` have been evaluated in a pass from `p0` to `p`. */
  ghost function Mix(p0: Links, p: Links, num: seq<int>, i: int): (m: Links)
    requires |p0| == |p| == |num|
    ensures |m| == |p| && forall x :: 0 <= x < |m| ==> m[x] == if 0 <= num[x] < i then p[x] else p0[x]
  {
    seq(|p|, x requires 0 <= x < |p| => if 0 <= num[x] < i then p[x] else p0[x])
  }

  lemma MixDown(o: Order, p0: Links, p: Links, i: int)
    requires OrderOk(o) && Down(p0, o.num) && Down(p, o.num)
    ensures Down(Mix(p0, p, o.num, i), o.num)
  {
  }

  /** The link of `x` was the nearest block up from its predecessors at its turn. */
  ghost predicate Evaluated(o: Order, p0: Links, p: Links, x: nat)
    requires OrderOk(o) && Down(p0, o.num) && Down(p, o.num) && x < |p|
  {
    MixDown(o, p0, p, o.num[x]);
    var m := Mix(p0, p, o.num, o.num[x]);
    && p[x].Some?
    && forall a: nat {:trigger AboveProcessed(o, m, x, a)} ::
         a in Chain(p, o.num, p[x].value) <==> AboveProcessed(o, m, x, a)
  }

  ghost predicate Turned(o: Order, p0: Links, first: bool, p: Links, x: nat)
    requires OrderOk(o) && Down(p0, o.num) && Down(p, o.num) && x < |p|
  {
    && (x != o.root ==> Evaluated(o, p0, p, x)) && Tight(o, p, x)
    && (!first ==> Chain(p, o.num, x) <= Chain(p0, o.num, x))
  }

  ghost predicate Mid(o: Order, p0: Links, first: bool, p: Links, i: nat) {
    && Between(o, p0, first) && LinksFit(o, p) && p == Mix(p0, p, o.num, i)
    && forall x: nat {:trigger Turned(o, p0, first, p, x)} :: x < |p| && 0 <= o.num[x] < i ==>
         Turned(o, p0, first, p, x)
  }

  /** The traversal leads from a block to those discovered through it, passing higher numbers only. */
  lemma {:induction false} UpPath(o: Order, b: nat, x: nat) returns (path: seq<nat>)
    requires OrderOk(o) && Seen(o, x) && b in Chain(o.up, o.num, x)
    ensures PathFromTo(o.g, path, b, x) && forall k :: 0 <= k < |path| ==> o.num[path[k]] >= o.num[b]
    decreases Rank(o.num, x)
  {
    ChainBelow(o.up, o.num, x, b);
    if b == x {
      path := [x];
    } else {
      var y := o.up[x].value;
      assert UpOk(o, x);
      var rest := UpPath(o, b, y);
      path := rest + [x];
      JoinPaths(o.g, rest, [y, x], b, y, x);
      assert rest + [y, x][1..] == path;
    }
  }

  /** A dominator of a block above the block `b` it was discovered through dominates `b` as well. */
  lemma DominatesOnTheWay(o: Order, d: nat, b: nat, x: nat)
    requires OrderOk(o) && Seen(o, x) && b in Chain(o.up, o.num, x) && d < |o.num| && b < |o.num| && o.num[d] < o.num[b]
    requires Dominates(o.g, o.root, d, x)
    ensures Dominates(o.g, o.root, d, b)
  {
    ChainBelow(o.up, o.num, x, b);
    var down := UpPath(o, b, x);
    forall path | PathFromTo(o.g, path, o.root, b) ensures d in path {
      JoinPaths(o.g, path, down, o.root, b, x);
      assert d in path + down[1..];
      assert d !in down;
    }
  }

  lemma DominatorsOfPredecessors(o: Order, d: nat, u: nat, b: nat)
    requires OrderOk(o) && Seen(o, b) && u in o.preds[b] && Dominates(o.g, o.root, d, b) && d != b
    ensures Dominates(o.g, o.root, d, u)
  {
    assert PredsOk(o, b);
    DominatesPredecessor(o.g, o.root, d, u, b);
  }

  // ------------------------------------------------------------ relinking one block

  /** The facts about the block at its turn and the link it gets. */
  ghost predicate Turn(o: Order, p: Links, b: nat, c: nat) {
    && LinksFit(o, p) && Seen(o, b) && b != o.root && Rooted(o, p, c)
    && (forall a: nat {:trigger AboveProcessed(o, p, b, a)} :: a in Chain(p, o.num, c) <==> AboveProcessed(o, p, b, a))
    && o.up[b].Some? && Processed(p, o.root, o.up[b].value)
  }

  /** The new link is up from the block that discovered `b`, so it is numbered lower. */
  lemma LinkIsUp(o: Order, p: Links, b: nat, c: nat)
    requires Turn(o, p, b, c)
    ensures var t := o.up[b].value; t in o.preds[b] && c in Chain(p, o.num, t) && 0 <= o.num[c] <= o.num[t] < o.num[b]
  {
    assert UpOk(o, b) && PredsOk(o, b);
    var t := o.up[b].value;
    assert c in Chain(p, o.num, c);
    assert AboveProcessed(o, p, b, c);
    ChainBelow(p, o.num, t, c);
  }

  /** Links only lead along the discovery, so chains do too. */
  lemma {:induction false} ChainOnTheWay(o: Order, p: Links, x: nat, a: nat)
    requires LinksFit(o, p) && x < |p| && a in Chain(p, o.num, x)
    ensures a in Chain(o.up, o.num, x)
    decreases Rank(o.num, x)
  {
    if a != x {
      var y := p[x].value;
      assert LinkOk(o, p, x);
      ChainOnTheWay(o, p, y, a);
      ChainWithin(o.up, o.num, x, y);
    }
  }

  lemma RelinkLinks(o: Order, p: Links, b: nat, c: nat, x: nat)
    requires Turn(o, p, b, c) && x < |p| && Down(p[b := Some(c)], o.num)
    ensures LinkOk(o, p[b := Some(c)], x)
  {
    LinkIsUp(o, p, b, c);
    assert LinkOk(o, p, x);
    if x == b {
      ChainOnTheWay(o, p, o.up[b].value, c);
    }
  }

  lemma RelinkDominators(o: Order, p: Links, b: nat, c: nat, x: nat, d: nat)
    requires Turn(o, p, b, c) && x < |p| && Down(p[b := Some(c)], o.num)
    requires Processed(p[b := Some(c)], o.root, x) && Dominates(o.g, o.root, d, x)
    ensures d in Chain(p[b := Some(c)], o.num, x)
  {
    LinkIsUp(o, p, b, c);
    ChainUpdate(p, o.num, b, c, x, d);
    if x == b {
      NewDominators(o, p, b, c, d);
    } else {
      assert KeepsDominators(o, p, x);
      if b in Chain(p, o.num, x) {
        ChainBelow(p, o.num, x, d);
        if o.num[d] < o.num[b] {
          ChainOnTheWay(o, p, x, b);
          assert LinkOk(o, p, x);
          DominatesOnTheWay(o, d, b, x);
          NewDominators(o, p, b, c, d);
        } else {
          ChainLinear(p, o.num, x, b, d);
          ChainBelow(p, o.num, d, b);
        }
      }
    }
  }

  /** A dominator of `b` dominates all predecessors, so it is up from the new link. */
  lemma NewDominators(o: Order, p: Links, b: nat, c: nat, d: nat)
    requires Turn(o, p, b, c) && Dominates(o.g, o.root, d, b)
    ensures d == b || d in Chain(p, o.num, c)
  {
    if d != b {
      forall u: nat | u in o.preds[b] && Processed(p, o.root, u) ensures d in Chain(p, o.num, u) {
        DominatorsOfPredecessors(o, d, u, b);
        assert KeepsDominators(o, p, u);
      }
      assert AboveProcessed(o, p, b, d);
    }
  }

  lemma RelinkFits(o: Order, p: Links, b: nat, c: nat)
    requires Turn(o, p, b, c)
    ensures LinksFit(o, p[b := Some(c)])
  {
    LinkIsUp(o, p, b, c);
    var q := p[b := Some(c)];
    assert Down(q, o.num);
    forall x: nat | x < |q| ensures LinkOk(o, q, x) {
      RelinkLinks(o, p, b, c, x);
    }
    forall x: nat | x < |q| ensures KeepsDominators(o, q, x) {
      forall d: nat | Processed(q, o.root, x) && Dominates(o.g, o.root, d, x) ensures d in Chain(q, o.num, x) {
        RelinkDominators(o, p, b, c, x, d);
      }
    }
  }

  // ------------------------------------------------------------ a pass only moves links up

  /** While a pass is under way, chains have lost blocks only. */
  lemma {:induction false} MidShrinks(o: Order, p0: Links, p: Links, i: nat, x: nat, a: nat)
    requires Mid(o, p0, false, p, i) && x < |p| && a in Chain(p, o.num, x)
    ensures a in Chain(p0, o.num, x)
    decreases Rank(o.num, x)
  {
    if 0 <= o.num[x] < i {
      assert Turned(o, p0, false, p, x);
    } else if a != x {
      MidShrinks(o, p0, p, i, p[x].value, a);
    }
  }

  /** In a later pass, the new link was already up from the block. */
  lemma LinkMovesUp(o: Order, p0: Links, p: Links, i: nat, b: nat, c: nat)
    requires Mid(o, p0, false, p, i) && Turn(o, p, b, c) && o.num[b] == i
    ensures p0[b].Some? && Chain(p, o.num, c) <= Chain(p0, o.num, p0[b].value)
  {
    assert Tight(o, p0, b) && Covers(o, p0, b);
    forall a | a in Chain(p, o.num, c) ensures a in Chain(p0, o.num, p0[b].value) {
      assert AboveProcessed(o, p, b, a);
      forall u: nat | u in o.preds[b] ensures u < |p0| && a in Chain(p0, o.num, u) {
        assert PredsOk(o, b);
        AlwaysProcessed(o, p0, p, i, u);
        MidShrinks(o, p0, p, i, u, a);
      }
      assert AboveAll(o, p0, b, a);
    }
  }

  lemma AlwaysProcessed(o: Order, p0: Links, p: Links, i: nat, u: nat)
    requires Mid(o, p0, false, p, i) && Seen(o, u)
    ensures Processed(p, o.root, u)
  {
    assert Tight(o, p0, u);
    if 0 <= o.num[u] < i && u != o.root {
      assert Turned(o, p0, false, p, u);
    }
  }

  lemma TurnedKept(o: Order, p0: Links, first: bool, p: Links, i: nat, b: nat, c: nat, x: nat)
    requires Mid(o, p0, first, p, i) && Turn(o, p, b, c) && o.num[b] == i && LinksFit(o, p[b := Some(c)])
    requires x < |p| && 0 <= o.num[x] < i
    ensures Turned(o, p0, first, p[b := Some(c)], x)
  {
    var q := p[b := Some(c)];
    assert Turned(o, p0, first, p, x);
    ChainLocal(p, q, o.num, x);
    assert Mix(p0, p, o.num, o.num[x]) == Mix(p0, q, o.num, o.num[x]);
    assert UpOk(o, x);
    if x != o.root {
      ChainLocal(p, q, o.num, p[x].value);
      ChainLocal(p, q, o.num, o.up[x].value);
    }
  }

  lemma TurnedNow(o: Order, p0: Links, first: bool, p: Links, i: nat, b: nat, c: nat)
    requires Mid(o, p0, first, p, i) && Turn(o, p, b, c) && o.num[b] == i && LinksFit(o, p[b := Some(c)])
    ensures Turned(o, p0, first, p[b := Some(c)], b)
  {
    var q := p[b := Some(c)];
    LinkIsUp(o, p, b, c);
    ChainLocal(p, q, o.num, c);
    ChainLocal(p, q, o.num, o.up[b].value);
    assert Mix(p0, q, o.num, i) == p;
    assert Evaluated(o, p0, q, b);
    if !first {
      LinkMovesUp(o, p0, p, i, b, c);
    }
  }

  lemma MixStep(p0: Links, p: Links, num: seq<int>, i: nat, b: nat, c: nat)
    requires |p0| == |p| == |num| && b < |num| && num[b] == i && p == Mix(p0, p, num, i)
    requires forall x :: 0 <= x < |num| && num[x] == i ==> x == b
    ensures p[b := Some(c)] == Mix(p0, p[b := Some(c)], num, i + 1)
  {
  }

  lemma PassStep(o: Order, p0: Links, first: bool, p: Links, i: nat, b: nat, c: nat)
    requires Mid(o, p0, first, p, i) && Turn(o, p, b, c) && o.num[b] == i
    ensures Mid(o, p0, first, p[b := Some(c)], i + 1)
  {
    var q := p[b := Some(c)];
    RelinkFits(o, p, b, c);
    MixStep(p0, p, o.num, i, b, c);
    AllTurned(o, p0, first, p, i, b, c);
  }

  lemma AllTurned(o: Order, p0: Links, first: bool, p: Links, i: nat, b: nat, c: nat)
    requires Mid(o, p0, first, p, i) && Turn(o, p, b, c) && o.num[b] == i && LinksFit(o, p[b := Some(c)])
    ensures forall x: nat {:trigger Turned(o, p0, first, p[b := Some(c)], x)} ::
              x < |p| && 0 <= o.num[x] < i + 1 ==> Turned(o, p0, first, p[b := Some(c)], x)
  {
    forall x: nat | x < |p| && 0 <= o.num[x] < i + 1 ensures Turned(o, p0, first, p[b := Some(c)], x) {
      TurnedNext(o, p0, first, p, i, b, c, x);
    }
  }

  lemma TurnedNext(o: Order, p0: Links, first: bool, p: Links, i: nat, b: nat, c: nat, x: nat)
    requires Mid(o, p0, first, p, i) && Turn(o, p, b, c) && o.num[b] == i && LinksFit(o, p[b := Some(c)])
    requires x < |p| && 0 <= o.num[x] < i + 1
    ensures Turned(o, p0, first, p[b := Some(c)], x)
  {
    if o.num[x] == i {
      assert x == b;
      TurnedNow(o, p0, first, p, i, b, c);
    } else {
      TurnedKept(o, p0, first, p, i, b, c, x);
    }
  }

  // ------------------------------------------------------------ after a pass

  ghost predicate Done(o: Order, p0: Links, first: bool, p: Links, i: nat) {
    Mid(o, p0, first, p, i) && forall x :: 0 <= x < |o.num| ==> o.num[x] < i
  }

  lemma DoneIsTight(o: Order, p0: Links, first: bool, p: Links, i: nat, x: nat)
    requires Done(o, p0, first, p, i) && x < |p|
    ensures Tight(o, p, x) && (Seen(o, x) ==> Turned(o, p0, first, p, x))
  {
    assert Seen(o, x) ==> Turned(o, p0, first, p, x);
  }

  /** With links up from the discovering blocks, a chain runs through all lower blocks on the way. */
  lemma {:induction false} TightChain(o: Order, p0: Links, first: bool, p: Links, i: nat, x: nat, c: nat, a: nat)
    requires Done(o, p0, first, p, i) && x < |p| && c in Chain(o.up, o.num, x) && c < |p|
    requires a in Chain(p, o.num, x) && a < |p| && o.num[a] <= o.num[c]
    ensures a in Chain(p, o.num, c)
    decreases Rank(o.num, x)
  {
    if x != c {
      var t := o.up[x].value;
      ChainBelow(o.up, o.num, x, c);
      DoneIsTight(o, p0, first, p, i, x);
      ChainWithin(p, o.num, t, p[x].value);
      TightChain(o, p0, first, p, i, t, c, a);
    }
  }

  /** The new link is up from the old one, in the new links as well. */
  lemma OldLinkBelow(o: Order, p0: Links, p: Links, i: nat, u: nat)
    requires Done(o, p0, false, p, i) && Seen(o, u) && u != o.root
    ensures p[u].Some? && p0[u].Some? && p[u].value in Chain(p, o.num, p0[u].value)
    ensures o.num[p[u].value] <= o.num[p0[u].value] && (p[u] != p0[u] ==> o.num[p[u].value] < o.num[p0[u].value])
  {
    DoneIsTight(o, p0, false, p, i, u);
    assert Tight(o, p0, u) && LinkOk(o, p0, u);
    var c, old' := p[u].value, p0[u].value;
    assert c in Chain(p, o.num, c) && c in Chain(p, o.num, u) && c in Chain(p0, o.num, u);
    ChainBelow(p0, o.num, old', c);
    TightChain(o, p0, false, p, i, u, old', c);
  }

  /** What is up from a predecessor after the pass was up from it at the turn of `b`. */
  lemma {:induction false} MixKeeps(o: Order, p0: Links, first: bool, p: Links, i: nat, b: nat, u: nat, a: nat)
    requires Done(o, p0, first, p, i) && b < |p| && u < |p| && Down(Mix(p0, p, o.num, o.num[b]), o.num)
    requires Processed(Mix(p0, p, o.num, o.num[b]), o.root, u) && Seen(o, b) && b != o.root
    requires a in Chain(p, o.num, u) && a < |p| && o.num[a] < o.num[b]
    ensures a in Chain(Mix(p0, p, o.num, o.num[b]), o.num, u)
    decreases Rank(o.num, u)
  {
    var m := Mix(p0, p, o.num, o.num[b]);
    if o.num[u] < o.num[b] {
      ChainLocal(p, m, o.num, u);
    } else {
      assert LinkOk(o, p0, u);
      OldLinkBelow(o, p0, p, i, u);
      ChainWithin(p, o.num, p0[u].value, p[u].value);
      assert m[u] == p0[u];
      MixProcessed(o, p0, p, i, b, p0[u].value);
      MixKeeps(o, p0, first, p, i, b, p0[u].value, a);
    }
  }

  lemma MixProcessed(o: Order, p0: Links, p: Links, i: nat, b: nat, u: nat)
    requires Done(o, p0, false, p, i) && b < |p| && Seen(o, u)
    ensures Processed(Mix(p0, p, o.num, o.num[b]), o.root, u)
  {
    if u != o.root {
      OldLinkBelow(o, p0, p, i, u);
    }
  }

  lemma DoneCovers(o: Order, p0: Links, first: bool, p: Links, i: nat, b: nat, a: nat)
    requires Done(o, p0, first, p, i) && b < |p| && Seen(o, b) && p[b].Some? && AboveAll(o, p, b, a)
    ensures a in Chain(p, o.num, p[b].value)
  {
    assert LinkOk(o, p, b);
    DoneIsTight(o, p0, first, p, i, b);
    assert UpOk(o, b) && PredsOk(o, b);
    ChainBelow(p, o.num, o.up[b].value, a);
    MixDown(o, p0, p, o.num[b]);
    var m := Mix(p0, p, o.num, o.num[b]);
    forall u: nat | u in o.preds[b] && Processed(m, o.root, u) ensures a in Chain(m, o.num, u) {
      MixKeeps(o, p0, first, p, i, b, u, a);
    }
    assert AboveProcessed(o, m, b, a);
    assert Evaluated(o, p0, p, b);
  }

  /** A finished pass leaves links the next one can start from. */
  lemma PassDone(o: Order, p0: Links, first: bool, p: Links, i: nat)
    requires Done(o, p0, first, p, i)
    ensures Between(o, p, false)
  {
    forall x: nat | x < |p| ensures Tight(o, p, x) {
      DoneIsTight(o, p0, first, p, i, x);
    }
    forall x: nat | x < |p| ensures Covers(o, p, x) {
      forall a: nat | Seen(o, x) && p[x].Some? && AboveAll(o, p, x, a) ensures a in Chain(p, o.num, p[x].value) {
        DoneCovers(o, p0, first, p, i, x, a);
      }
    }
  }

  // ------------------------------------------------------------ the fixpoint

  /** Nothing changed: every link is the nearest block up from all predecessors. */
  ghost predicate Fixed(o: Order, p: Links) {
    && Between(o, p, false)
    && forall x: nat, a: nat, u: nat ::
         Seen(o, x) && p[x].Some? && a in Chain(p, o.num, p[x].value) && u in o.preds[x] ==>
         u < |p| && a in Chain(p, o.num, u)
  }

  lemma UnchangedIsFixed(o: Order, p: Links, first: bool, i: nat)
    requires Done(o, p, first, p, i) && (first ==> forall x: nat :: Seen(o, x) ==> x == o.root)
    ensures Fixed(o, p)
  {
    PassDone(o, p, first, p, i);
    forall x: nat, a: nat, u: nat | Seen(o, x) && p[x].Some? && a in Chain(p, o.num, p[x].value) && u in o.preds[x]
      ensures u < |p| && a in Chain(p, o.num, u)
    {
      DoneIsTight(o, p, first, p, i, x);
      assert LinkOk(o, p, x);
      assert Mix(p, p, o.num, o.num[x]) == p;
      assert Evaluated(o, p, p, x);
      assert AboveProcessed(o, p, x, a);
      assert PredsOk(o, x);
      DoneIsTight(o, p, first, p, i, u);
    }
  }

  /** At the fixpoint, the blocks up the links are on every path. */
  lemma {:induction false} FixedIsOnPaths(o: Order, p: Links, path: seq<nat>, x: nat, a: nat)
    requires Fixed(o, p) && PathFromTo(o.g, path, o.root, x) && a in Chain(p, o.num, x)
    ensures a in path
    decreases |path|
  {
    assert x in path;
    if a != x {
      assert LinkOk(o, p, x);
      var k := |path| - 2;
      assert Edge(o.g, path[k], path[k + 1]);
      var rest := path[..k + 1];
      SubPath(o.g, path, 0, k + 1);
      assert path[0..k + 1] == rest && PathFromTo(o.g, rest, o.root, path[k]);
      assert Reach(o.g, o.root, path[k]);
      assert PredsOk(o, x);
      assert path[k] in o.preds[x];
      FixedIsOnPaths(o, p, rest, path[k], a);
    }
  }

  lemma FixedIsDominance(o: Order, p: Links, a: nat, x: nat)
    requires Fixed(o, p) && Seen(o, x)
    ensures a in Chain(p, o.num, x) <==> Dominates(o.g, o.root, a, x)
  {
    assert Tight(o, p, x) && KeepsDominators(o, p, x);
    if a in Chain(p, o.num, x) {
      forall path | PathFromTo(o.g, path, o.root, x) ensures a in path {
        FixedIsOnPaths(o, p, path, x, a);
      }
    }
  }

  /** The fixpoint's links are the immediate dominators. */
  lemma FixedIsIdom(o: Order, p: Links)
    requires Fixed(o, p)
    ensures IdomTable(o.g, o.root, p)
  {
    forall b: nat | b < |p|
      ensures if b == o.root || !Reach(o.g, o.root, b) then p[b] ==
              None else p[b].Some? && IsIdom(o.g, o.root, p[b].value, b)
    {
      assert LinkOk(o, p, b) && Tight(o, p, b);
      if Seen(o, b) && b != o.root {
        LinkIsIdom(o, p, b);
      }
    }
  }

  lemma LinkIsIdom(o: Order, p: Links, b: nat)
    requires Fixed(o, p) && Seen(o, b) && b != o.root && p[b].Some?
    ensures IsIdom(o.g, o.root, p[b].value, b)
  {
    var d := p[b].value;
    assert LinkOk(o, p, b) && d in Chain(p, o.num, d);
    FixedIsDominance(o, p, d, b);
    forall a: nat | StrictlyDominates(o.g, o.root, a, b) ensures Dominates(o.g, o.root, a, d) {
      FixedIsDominance(o, p, a, b);
      FixedIsDominance(o, p, a, d);
    }
  }

  // ------------------------------------------------------------ the iteration

  ghost predicate IsNumbering(o: Order, rpo: seq<nat>) {
    && OrderOk(o)
    && (forall i :: 0 <= i < |rpo| ==> Seen(o, rpo[i]) && o.num[rpo[i]] == i)
    && forall x :: 0 <= x < |o.num| ==> o.num[x] < |rpo|
  }

  lemma TurnAt(o: Order, p0: Links, first: bool, p: Links, i: nat, b: nat)
    requires Mid(o, p0, first, p, i) && Seen(o, b) && o.num[b] == i > 0
    ensures o.up[b].Some? && Processed(p, o.root, o.up[b].value) && o.up[b].value in o.preds[b]
  {
    assert UpOk(o, b) && PredsOk(o, b);
    var t := o.up[b].value;
    assert Turned(o, p0, first, p, t);
  }

  lemma IsTurn(o: Order, p: Links, b: nat, c: nat, preds: seq<nat>)
    requires LinksFit(o, p) && Seen(o, b) && b != o.root && Rooted(o, p, c) && preds == o.preds[b]
    requires o.up[b].Some? && Processed(p, o.root, o.up[b].value)
    requires forall a :: a in Chain(p, o.num, c) <==> AboveScanned(p, o.num, o.root, preds, a)
    ensures Turn(o, p, b, c)
  {
    forall a: nat ensures a in Chain(p, o.num, c) <==> AboveProcessed(o, p, b, a) {
    }
  }

  /** `c` is the nearest block up from the processed predecessors of `b`. */
  ghost predicate NearestOf(o: Order, p: Links, b: nat, c: nat) {
    Rooted(o, p, c) && b < |p| && forall a :: a in Chain(p, o.num, c) <==> AboveScanned(p, o.num, o.root, o.preds[b], a)
  }

  lemma RelinkStep(o: Order, p0: Links, first: bool, p: Links, b: nat, c: nat, i: nat, q: Links)
    requires OrderOk(o) && Seen(o, b) && b != o.root && i == o.num[b] && Mid(o, p0, first, p, i)
    requires NearestOf(o, p, b, c)
    requires q == if p[b] == Some(c) then p else p[b := Some(c)]
    ensures Mid(o, p0, first, q, i + 1)
    ensures q != p0 <==> p != p0 || p[b] != Some(c)
  {
    TurnAt(o, p0, first, p, i, b);
    IsTurn(o, p, b, c, o.preds[b]);
    PassStep(o, p0, first, p, i, b, c);
    StillChanged(p0, p, o.num, i, b, c);
    assert q == p[b := Some(c)];
  }

  lemma HasTurn(o: Order, p0: Links, first: bool, p: Links, b: nat)
    requires OrderOk(o) && Seen(o, b) && b != o.root && Mid(o, p0, first, p, o.num[b])
    ensures LinksFit(o, p) && exists u :: u in o.preds[b] && Processed(p, o.root, u)
  {
    TurnAt(o, p0, first, p, o.num[b], b);
  }

  method NearestAt(ghost o: Order, ghost p0: Links, ghost first: bool, b: nat, num: seq<int>, root: nat,
      preds: seq<nat>, p: Links)
    returns (c: nat)
    requires OrderOk(o) && num == o.num && root == o.root && Seen(o, b) && b != o.root && preds == o.preds[b]
    requires Mid(o, p0, first, p, num[b])
    ensures NearestOf(o, p, b, c)
  {
    HasTurn(o, p0, first, p, b);
    var found := Nearest(o, num, root, preds, p);
    c := found.value;
  }

  method Pass(ghost o: Order, rpo: seq<nat>, num: seq<int>, root: nat, preds: seq<seq<nat>>, ghost first: bool,
      p0: Links)
    returns (p: Links, changed: bool)
    requires IsNumbering(o, rpo) && num == o.num && root == o.root && preds == o.preds && Between(o, p0, first)
    ensures Done(o, p0, first, p, |rpo|) && (changed <==> p != p0)
  {
    p, changed := p0, false;
    StartPass(o, p0, first);
    for i := 1 to |rpo|
      invariant Mid(o, p0, first, p, i) && (changed <==> p != p0)
    {
      var b := rpo[i];
      var c := NearestAt(o, p0, first, b, num, root, preds[b], p);
      ghost var before := p;
      if p[b] != Some(c) {
        p := p[b := Some(c)];
        changed := true;
      }
      RelinkStep(o, p0, first, before, b, c, i, p);
    }
  }

  lemma StillChanged(p0: Links, p: Links, num: seq<int>, i: nat, b: nat, c: nat)
    requires |p0| == |p| == |num| && p == Mix(p0, p, num, i) && b < |p| && num[b] == i
    ensures p[b] == p0[b] && (p != p0 || p[b] != Some(c) ==> p[b := Some(c)] != p0)
  {
    if p != p0 {
      var x :| 0 <= x < |p| && p[x] != p0[x];
      assert p[b := Some(c)][x] != p0[x];
    } else if p[b] != Some(c) {
      assert p[b := Some(c)][b] != p0[b];
    }
  }

  lemma StartPass(o: Order, p: Links, first: bool)
    requires Between(o, p, first)
    ensures Mid(o, p, first, p, 1)
  {
    assert p == Mix(p, p, o.num, 1);
    forall x: nat | x < |p| && 0 <= o.num[x] < 1 ensures Turned(o, p, first, p, x) {
      assert x == o.root;
      assert Tight(o, p, x);
    }
  }

  ghost function LinkHeight(o: Order, p: Links, x: nat): nat
    requires OrderOk(o) && Down(p, o.num) && x < |p|
  {
    if p[x].Some? then o.num[p[x].value] + 1 else 0
  }

  ghost function Heights(o: Order, p: Links): (r: seq<nat>)
    requires OrderOk(o) && Down(p, o.num)
    ensures |r| == |p| && forall x :: 0 <= x < |p| ==> r[x] == LinkHeight(o, p, x)
  {
    seq<nat>(|p|, x requires 0 <= x < |p| => LinkHeight(o, p, x))
  }

  ghost function Total(s: seq<nat>): nat {
    if s == [] then 0 else Total(s[..|s| - 1]) + s[|s| - 1]
  }

  lemma {:induction false} TotalFalls(a: seq<nat>, b: seq<nat>)
    requires |a| == |b| && forall x :: 0 <= x < |a| ==> a[x] <= b[x]
    ensures Total(a) <= Total(b) && (a != b ==> Total(a) < Total(b))
  {
    if a != [] {
      var n := |a| - 1;
      TotalFalls(a[..n], b[..n]);
      assert a == a[..n] + [a[n]] && b == b[..n] + [b[n]];
    }
  }

  /** The numbers of the links, added up: what every later pass that changes something lowers. */
  ghost function Height(o: Order, p: Links): nat
    requires OrderOk(o) && Down(p, o.num)
  {
    Total(Heights(o, p))
  }

  lemma HeightFalls(o: Order, p0: Links, p: Links, i: nat)
    requires Done(o, p0, false, p, i) && p != p0
    ensures Height(o, p) < Height(o, p0)
  {
    forall x | 0 <= x < |p| ensures Heights(o, p)[x] <= Heights(o, p0)[x] {
      LinkFalls(o, p0, p, i, x);
    }
    var x :| 0 <= x < |p| && p[x] != p0[x];
    LinkFalls(o, p0, p, i, x);
    TotalFalls(Heights(o, p), Heights(o, p0));
  }

  lemma LinkFalls(o: Order, p0: Links, p: Links, i: nat, x: nat)
    requires Done(o, p0, false, p, i) && x < |p|
    ensures LinkHeight(o, p, x) <= LinkHeight(o, p0, x)
    ensures p[x] != p0[x] ==> LinkHeight(o, p, x) < LinkHeight(o, p0, x)
  {
    if Seen(o, x) && x != o.root {
      OldLinkBelow(o, p0, p, i, x);
    } else {
      assert LinkOk(o, p, x) && LinkOk(o, p0, x);
    }
  }

  lemma FirstPassUnchanged(o: Order, p: Links, i: nat)
    requires Done(o, p, true, p, i)
    ensures forall x: nat :: Seen(o, x) ==> x == o.root
  {
    forall x: nat | Seen(o, x) ensures x == o.root {
      DoneIsTight(o, p, true, p, i, x);
    }
  }

  lemma StartLinks(o: Order, p: Links)
    requires OrderOk(o) && |p| == |o.num| && forall x :: 0 <= x < |p| ==> p[x].None?
    ensures Between(o, p, true)
  {
    assert Down(p, o.num);
    forall x: nat | x < |p| ensures KeepsDominators(o, p, x) {
      forall d: nat | Processed(p, o.root, x) && Dominates(o.g, o.root, d, x) ensures d in Chain(p, o.num, x) {
        assert PathFromTo(o.g, [o.root], o.root, o.root);
        assert d in [o.root];
      }
    }
    assert forall x: nat :: x < |p| ==> LinkOk(o, p, x);
  }

  /** Passes until nothing changes; they end, and the links are the immediate dominators. */
  method IterateDominators(ghost o: Order, rpo: seq<nat>, num: seq<int>, root: nat, preds: seq<seq<nat>>)
      returns (p: Links)
    requires IsNumbering(o, rpo) && num == o.num && root == o.root && preds == o.preds
    ensures IdomTable(o.g, root, p) && Down(p, num)
  {
    p := seq(|num|, _ => None);
    StartLinks(o, p);
    ghost var first := true;
    var changed := true;
    while changed
      invariant Between(o, p, first) && (!changed ==> Fixed(o, p))
      decreases changed, first, if first then 0 else Height(o, p)
    {
      ghost var before := p;
      p, changed := Pass(o, rpo, num, root, preds, first, p);
      PassDone(o, before, first, p, |rpo|);
      if changed {
        if !first {
          HeightFalls(o, before, p, |rpo|);
        }
      } else {
        if first {
          FirstPassUnchanged(o, p, |rpo|);
        }
        UnchangedIsFixed(o, p, first, |rpo|);
      }
      first := false;
    }
    FixedIsIdom(o, p);
  }
}
