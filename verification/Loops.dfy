/** Natural loops and their nesting. */
module Loops {
  import opened Graph
  import opened Finite
  import opened CfgErrors
  import opened LengauerTarjan
  import opened DomTree
  import opened Dominance
  import opened Frontier
  import opened SsaSpec

  ghost predicate BackEdge(g: Succs, root: nat, t: nat, h: nat) {
    Edge(g, t, h) && Dominates(g, root, h, t)
  }

  ghost predicate IsHeader(g: Succs, root: nat, h: nat) {
    exists t :: BackEdge(g, root, t, h)
  }

  /** `p` leads to the tail of a back edge to `h` without passing `h`. */
  ghost predicate LoopPath(g: Succs, root: nat, h: nat, p: seq<nat>) {
    IsPath(g, p) && h !in p && BackEdge(g, root, p[|p| - 1], h)
  }

  /** The header and everything that reaches a back-edge tail without passing it. */
  ghost predicate InLoop(g: Succs, root: nat, h: nat, b: nat) {
    && IsHeader(g, root, h)
    && (b == h || exists p :: LoopPath(g, root, h, p) && p[0] == b)
  }

  ghost predicate AllReachable(g: Succs, root: nat) {
    forall b: nat :: b < |g| ==> Reach(g, root, b)
  }

  lemma HeaderInRange(g: Succs, root: nat, h: nat, b: nat)
    requires InLoop(g, root, h, b)
    ensures h < |g| && b < |g|
  {
  }

  /** A header dominates its whole loop. */
  lemma HeaderDominates(g: Succs, root: nat, h: nat, b: nat)
    requires AllReachable(g, root) && InLoop(g, root, h, b)
    ensures Dominates(g, root, h, b)
  {
    HeaderInRange(g, root, h, b);
    if b == h {
      DominatesRefl(g, root, h);
    } else {
      var p :| LoopPath(g, root, h, p) && p[0] == b;
      forall q | PathFromTo(g, q, root, b) ensures h in q {
        JoinPaths(g, q, p, root, b, p[|p| - 1]);
      }
    }
  }

  lemma ExtendLoop(g: Succs, root: nat, h: nat, u: nat, b: nat)
    requires InLoop(g, root, h, b) && b != h && u != h && Edge(g, u, b)
    ensures InLoop(g, root, h, u)
  {
    var p :| LoopPath(g, root, h, p) && p[0] == b;
    assert PathFromTo(g, [u, b], u, b);
    JoinPaths(g, [u, b], p, u, b, p[|p| - 1]);
    assert LoopPath(g, root, h, [u, b] + p[1..]);
  }

  /** A path inside a loop's avoidance of the header leads back into the loop. */
  lemma LoopPrefix(g: Succs, root: nat, h: nat, q: seq<nat>)
    requires IsPath(g, q) && h !in q && InLoop(g, root, h, q[|q| - 1])
    ensures InLoop(g, root, h, q[0])
  {
    var b := q[|q| - 1];
    assert b in q;
    var p :| LoopPath(g, root, h, p) && p[0] == b;
    JoinPaths(g, q, p, q[0], b, p[|p| - 1]);
    assert LoopPath(g, root, h, q + p[1..]);
  }

  /** A loop whose header lies in another loop lies in it entirely. */
  lemma LoopInside(g: Succs, root: nat, h1: nat, h2: nat, b: nat)
    requires AllReachable(g, root) && h1 != h2 && InLoop(g, root, h2, h1) && InLoop(g, root, h1, b)
    ensures InLoop(g, root, h2, b)
  {
    if b != h1 {
      var p :| LoopPath(g, root, h1, p) && p[0] == b;
      var t := p[|p| - 1];
      assert PathFromTo(g, [t, h1], t, h1);
      JoinPaths(g, p, [t, h1], b, t, h1);
      var q := p + [t, h1][1..];
      if h2 in p {
        var i := FirstIndex(p, h2);
        SubPath(g, p, i, |p|);
        assert LoopPath(g, root, h1, p[i..|p|]);
        HeaderDominates(g, root, h1, h2);
        HeaderDominates(g, root, h2, h1);
        DominatesAntisym(g, root, h1, h2);
      }
      LoopPrefix(g, root, h2, q);
    }
  }

  /** A path from one block to another that a deeper dominator must lie on. */
  lemma DominatorBetween(g: Succs, root: nat, a: nat, d: nat, b: nat, p: seq<nat>) returns (i: nat)
    requires Dominates(g, root, d, b) && StrictlyDominates(g, root, a, d) && PathFromTo(g, p, root, b)
    ensures i < |p| && p[i] == d && a !in p[i..]
  {
    DominatesTrans(g, root, a, d, b);
    var j := LastIndex(p, a);
    DominatorReachable(g, root, a, d);
    if Dominates(g, root, d, a) {
      DominatesAntisym(g, root, a, d);
    }
    var q := NotDominated(g, root, d, a);
    SubPath(g, p, j, |p|);
    JoinPaths(g, q, p[j..|p|], root, a, b);
    assert d in p[j..|p|];
    var k := FirstIndex(p[j..|p|], d);
    i := j + k;
    assert p[i..] == p[j + 1..][k - 1..];
  }

  /** Loops that share a block are nested one way or the other. */
  lemma SharedNested(g: Succs, root: nat, idom: Links, h1: nat, h2: nat, b: nat)
    requires AllReachable(g, root) && IdomTable(g, root, idom) && root < |g|
    requires InLoop(g, root, h1, b) && InLoop(g, root, h2, b)
    ensures InLoop(g, root, h2, h1) || InLoop(g, root, h1, h2)
  {
    HeaderInRange(g, root, h1, b);
    HeaderDominates(g, root, h1, b);
    HeaderDominates(g, root, h2, b);
    Comparable(g, root, idom, h1, h2, b);
    if h1 != h2 {
      if Dominates(g, root, h2, h1) {
        DeeperInside(g, root, h2, h1, b);
      } else {
        DeeperInside(g, root, h1, h2, b);
      }
    }
  }

  lemma DeeperInside(g: Succs, root: nat, h: nat, d: nat, b: nat)
    requires AllReachable(g, root) && InLoop(g, root, h, b) && b < |g|
    requires Dominates(g, root, d, b) && StrictlyDominates(g, root, h, d)
    ensures InLoop(g, root, h, d)
  {
    var p :| PathFromTo(g, p, root, b);
    var i := DominatorBetween(g, root, h, d, b, p);
    SubPath(g, p, i, |p|);
    assert p[i..|p|] == p[i..];
    LoopPrefix(g, root, h, p[i..|p|]);
  }

  // ------------------------------------------------------------ collecting loop bodies

  /** Loop blocks found so far: sound, and closed backward except at queued blocks. */
  ghost predicate BodyInv(g: Succs, root: nat, h: nat, blocks: set<nat>, stack: seq<nat>) {
    && h in blocks
    && (forall b :: b in blocks ==> InLoop(g, root, h, b))
    && (forall b :: b in stack ==> InLoop(g, root, h, b))
    && forall u: nat, b: nat :: b in blocks && b != h && Edge(g, u, b) ==> u in blocks || u in stack
  }

  method Flood(g: Succs, root: nat, preds: seq<seq<nat>>, header: nat, tail: nat, blocks0: set<nat>)
      returns (blocks: set<nat>)
    requires PredecessorTable(g, preds) && BodyInv(g, root, header, blocks0, []) && BackEdge(g, root, tail, header)
    ensures blocks0 <= blocks && BodyInv(g, root, header, blocks, []) && tail in blocks
  {
    blocks := blocks0;
    var stack := [tail];
    assert tail != header ==> LoopPath(g, root, header, [tail]);
    while stack != []
      invariant blocks0 <= blocks && BodyInv(g, root, header, blocks, stack)
      invariant tail in blocks || tail in stack
      decreases Below(|g|) - blocks, |stack|
    {
      var block := stack[|stack| - 1];
      assert block in stack;
      HeaderInRange(g, root, header, block);
      ghost var stack0, before := stack, blocks;
      stack := stack[..|stack| - 1];
      assert stack0 == stack + [block];
      if block !in blocks {
        assert block in Below(|g|) - blocks;
        blocks := blocks + {block};
        forall u | u in preds[block] ensures InLoop(g, root, header, u) {
          assert Edge(g, u, block);
          if u != header {
            ExtendLoop(g, root, header, u, block);
          }
        }
        stack := stack + preds[block];
        forall u: nat, b: nat | b in blocks && b != header && Edge(g, u, b) ensures u in blocks || u in stack {
          if b == block {
            assert u in preds[block];
          } else {
            assert b in before;
          }
        }
      }
    }
  }

  /** With every tail inside and nothing queued, the body is the whole loop. */
  lemma BodyStep(g: Succs, root: nat, h: nat, blocks: set<nat>, u: nat, b: nat)
    requires BodyInv(g, root, h, blocks, []) && b in blocks && b != h && Edge(g, u, b)
    ensures u in blocks
  {
  }

  lemma {:induction false} BodyComplete(g: Succs, root: nat, h: nat, blocks: set<nat>, p: seq<nat>)
    requires BodyInv(g, root, h, blocks, []) && IsPath(g, p) && h !in p && p[|p| - 1] in blocks
    ensures p[0] in blocks
    decreases |p|
  {
    if |p| > 1 {
      var rest := p[1..];
      assert Edge(g, p[0], p[1]) && p[1] in p;
      SubPath(g, p, 1, |p|);
      assert p[1..|p|] == rest;
      BodyComplete(g, root, h, blocks, rest);
      BodyStep(g, root, h, blocks, p[0], p[1]);
    }
  }

  /** `body` is the loop of `h` as far as the tails in `tails` show it, or absent. */
  ghost predicate BodySoFar(g: Succs, root: nat, h: nat, body: Option<set<nat>>, tails: set<nat>) {
    && (body.Some? <==> exists t :: t in tails && BackEdge(g, root, t, h))
    && (body.Some? ==> BodyInv(g, root, h, body.value, []))
    && (body.Some? ==> forall t: nat :: t in tails && BackEdge(g, root, t, h) ==> t in body.value)
  }

  ghost predicate IsBody(g: Succs, root: nat, h: nat, body: Option<set<nat>>) {
    && (body.Some? <==> IsHeader(g, root, h))
    && (body.Some? ==> forall b: nat :: b in body.value <==> InLoop(g, root, h, b))
  }

  /** Dominance queries answer dominance. */
  ghost predicate Answers(g: Succs, root: nat, tree: DominatorTree) {
    forall a: nat, b: nat :: tree.Dominates(a, b) <==> b < |g| && Dominates(g, root, a, b)
  }

  /** A target the tail's edge does not close a loop to keeps its body. */
  lemma BodyKept(g: Succs, root: nat, h: nat, body: Option<set<nat>>, tail: nat)
    requires BodySoFar(g, root, h, body, Below(tail)) && !BackEdge(g, root, tail, h)
    ensures BodySoFar(g, root, h, body, Below(tail + 1))
  {
    forall t | t in Below(tail + 1) && BackEdge(g, root, t, h) ensures t in Below(tail) {
    }
  }

  method GrowBody(g: Succs, root: nat, preds: seq<seq<nat>>, tail: nat, header: nat, body: Option<set<nat>>)
      returns (r: Option<set<nat>>)
    requires PredecessorTable(g, preds) && BodySoFar(g, root, header, body, Below(tail))
    requires BackEdge(g, root, tail, header)
    ensures BodySoFar(g, root, header, r, Below(tail + 1))
  {
    var blocks := match body case Some(found) => found case None => {};
    assert IsHeader(g, root, header);
    assert BodyInv(g, root, header, blocks + {header}, []) by {
      assert body.Some? ==> blocks + {header} == blocks;
    }
    var grown := Flood(g, root, preds, header, tail, blocks + {header});
    r := Some(grown);
    assert tail in Below(tail + 1);
  }

  method TailBodies(g: Succs, root: nat, preds: seq<seq<nat>>, tree: DominatorTree, tail: nat,
      bodies0: seq<Option<set<nat>>>)
    returns (bodies: seq<Option<set<nat>>>)
    requires Answers(g, root, tree) && PredecessorTable(g, preds) && NoParallelEdges(g) && Wellformed(g)
    requires tail < |g| == |bodies0| && forall h :: 0 <= h < |g| ==> BodySoFar(g, root, h, bodies0[h], Below(tail))
    ensures |bodies| == |g| && forall h :: 0 <= h < |g| ==> BodySoFar(g, root, h, bodies[h], Below(tail + 1))
  {
    bodies := bodies0;
    var outgoing := g[tail];
    for i := 0 to |outgoing|
      invariant |bodies| == |g|
      invariant forall h :: 0 <= h < |g| && h in outgoing[..i] ==> BodySoFar(g, root, h, bodies[h], Below(tail + 1))
      invariant forall h :: 0 <= h < |g| && h !in outgoing[..i] ==> BodySoFar(g, root, h, bodies[h], Below(tail))
    {
      var header := outgoing[i];
      assert header in outgoing && outgoing[..i + 1] == outgoing[..i] + [header];
      assert header !in outgoing[..i];
      if tree.Dominates(header, tail) {
        var body := GrowBody(g, root, preds, tail, header, bodies[header]);
        bodies := bodies[header := body];
      } else {
        BodyKept(g, root, header, bodies[header], tail);
      }
    }
    assert outgoing[..|outgoing|] == outgoing;
    forall h: nat | h < |g| && h !in outgoing ensures BodySoFar(g, root, h, bodies[h], Below(tail + 1)) {
      BodyKept(g, root, h, bodies[h], tail);
    }
  }

  method LoopBodies(g: Succs, root: nat, preds: seq<seq<nat>>, tree: DominatorTree)
      returns (bodies: seq<Option<set<nat>>>)
    requires Answers(g, root, tree) && PredecessorTable(g, preds) && NoParallelEdges(g) && Wellformed(g)
    ensures |bodies| == |g| && forall h :: 0 <= h < |g| ==> IsBody(g, root, h, bodies[h])
  {
    bodies := seq(|g|, _ => None);
    for tail := 0 to |g|
      invariant |bodies| == |g| && forall h :: 0 <= h < |g| ==> BodySoFar(g, root, h, bodies[h], Below(tail))
    {
      bodies := TailBodies(g, root, preds, tree, tail, bodies);
    }
    forall h: nat | h < |g| ensures IsBody(g, root, h, bodies[h]) {
      assert BodySoFar(g, root, h, bodies[h], Below(|g|));
      forall b: nat | bodies[h].Some? && InLoop(g, root, h, b) && b != h ensures b in bodies[h].value {
        var p :| LoopPath(g, root, h, p) && p[0] == b;
        BodyComplete(g, root, h, bodies[h].value, p);
      }
    }
  }

  // ------------------------------------------------------------ nesting

  datatype NaturalLoop = NaturalLoop(header: nat, blocks: set<nat>, parent: Option<nat>)

  predicate SmallerLoop(a: NaturalLoop, b: NaturalLoop) {
    |a.blocks| < |b.blocks| || (|a.blocks| == |b.blocks| && a.header < b.header)
  }

  ghost predicate LoopIs(g: Succs, root: nat, l: NaturalLoop) {
    IsHeader(g, root, l.header) && l.header < |g| && forall b: nat :: b in l.blocks <==> InLoop(g, root, l.header, b)
  }

  /** Exactly the loops with headers below `n`, smallest first. */
  ghost predicate LoopList(g: Succs, root: nat, loops: seq<NaturalLoop>, n: nat) {
    && (forall i :: 0 <= i < |loops| ==> LoopIs(g, root, loops[i]) && loops[i].header < n)
    && (forall i, j :: 0 <= i < j < |loops| ==> SmallerLoop(loops[i], loops[j]))
    && forall h: nat :: h < n && IsHeader(g, root, h) ==> HasLoop(loops, h)
  }

  ghost predicate HasLoop(loops: seq<NaturalLoop>, h: nat) {
    exists i :: 0 <= i < |loops| && loops[i].header == h
  }

  method InsertLoop(loops: seq<NaturalLoop>, l: NaturalLoop) returns (r: seq<NaturalLoop>)
    requires forall i, j :: 0 <= i < j < |loops| ==> SmallerLoop(loops[i], loops[j])
    requires forall i :: 0 <= i < |loops| ==> loops[i].header != l.header
    ensures forall i, j :: 0 <= i < j < |r| ==> SmallerLoop(r[i], r[j])
    ensures forall x :: x in r <==> x in loops || x == l
  {
    var at := |loops|;
    while at > 0 && SmallerLoop(l, loops[at - 1])
      invariant 0 <= at <= |loops| && forall i :: at <= i < |loops| ==> SmallerLoop(l, loops[i])
    {
      at := at - 1;
    }
    r := loops[..at] + [l] + loops[at..];
    assert loops == loops[..at] + loops[at..];
  }

  /** The recorded bodies as a list, ordered by size and then by header. */
  method ListLoops(g: Succs, root: nat, bodies: seq<Option<set<nat>>>) returns (loops: seq<NaturalLoop>)
    requires |bodies| == |g| && forall h :: 0 <= h < |g| ==> IsBody(g, root, h, bodies[h])
    ensures LoopList(g, root, loops, |g|) && forall i :: 0 <= i < |loops| ==> loops[i].parent.None?
  {
    loops := [];
    for h := 0 to |g|
      invariant LoopList(g, root, loops, h) && forall i :: 0 <= i < |loops| ==> loops[i].parent.None?
    {
      assert IsBody(g, root, h, bodies[h]);
      match bodies[h]
      case None =>
      case Some(blocks) =>
        var l := NaturalLoop(h, blocks, None);
        var before := loops;
        loops := InsertLoop(loops, l);
        forall i | 0 <= i < |loops|
          ensures LoopIs(g, root, loops[i]) && loops[i].header < h + 1 && loops[i].parent.None?
        {
          assert loops[i] in loops;
        }
        forall k: nat | k < h + 1 && IsHeader(g, root, k) ensures HasLoop(loops, k) {
          if k < h {
            assert HasLoop(before, k);
            var i :| 0 <= i < |before| && before[i].header == k;
            assert before[i] in loops;
          } else {
            assert l in loops;
          }
        }
    }
  }

  /** `innermost[b]` is the smallest of the loops from `child` on that contains `b`. */
  ghost predicate Innermost(loops: seq<NaturalLoop>, child: int, innermost: seq<Option<nat>>) {
    forall b: nat :: b < |innermost| ==>
      match innermost[b]
      case None => forall k :: child <= k < |loops| && 0 <= k ==> b !in loops[k].blocks
      case Some(j) =>
        && child <= j < |loops| && b in loops[j].blocks
        && forall k :: child <= k < |loops| && 0 <= k && b in loops[k].blocks ==> j <= k
  }

  /** A parent is the smallest other loop that contains the header, and then the whole loop. */
  ghost predicate ParentOk(loops: seq<NaturalLoop>, i: nat, parent: Option<nat>)
    requires i < |loops|
  {
    match parent
    case None => forall k :: 0 <= k < |loops| && k != i ==> loops[i].header !in loops[k].blocks
    case Some(j) =>
      && i < j < |loops| && loops[i].blocks < loops[j].blocks
      && forall k :: 0 <= k < |loops| && k != i && loops[i].header in loops[k].blocks ==>
           loops[j].blocks <= loops[k].blocks
  }

  /** The list holds one loop per header. */
  lemma SameHeader(g: Succs, root: nat, loops: seq<NaturalLoop>, i: nat, k: nat)
    requires LoopList(g, root, loops, |g|) && i < |loops| && k < |loops| && loops[i].header == loops[k].header
    ensures i == k
  {
    assert LoopIs(g, root, loops[i]) && LoopIs(g, root, loops[k]);
    assert loops[i].blocks == loops[k].blocks;
  }

  lemma Enclosed(g: Succs, root: nat, loops: seq<NaturalLoop>, i: nat, k: nat)
    requires AllReachable(g, root) && LoopList(g, root, loops, |g|) && i < |loops| && k < |loops| && k != i
    requires loops[i].header in loops[k].blocks
    ensures loops[i].blocks < loops[k].blocks && i < k
  {
    var h1, h2 := loops[i].header, loops[k].header;
    assert LoopIs(g, root, loops[i]) && LoopIs(g, root, loops[k]);
    if h1 == h2 {
      SameHeader(g, root, loops, i, k);
    }
    forall b | b in loops[i].blocks ensures b in loops[k].blocks {
      LoopInside(g, root, h1, h2, b);
    }
    if h2 in loops[i].blocks {
      HeaderDominates(g, root, h1, h2);
      HeaderDominates(g, root, h2, h1);
      DominatesAntisym(g, root, h1, h2);
    }
    SubsetCard(loops[i].blocks, loops[k].blocks);
    assert k < i ==> SmallerLoop(loops[k], loops[i]);
  }

  /** The loop that innermost names is the parent: the overlap error cannot arise. */
  lemma ParentFound(g: Succs, root: nat, idom: Links, loops: seq<NaturalLoop>, innermost: seq<Option<nat>>, i: nat)
    requires AllReachable(g, root) && IdomTable(g, root, idom) && root < |g| && LoopList(g, root, loops, |g|)
    requires i < |loops|
    requires |innermost| == |g| && Innermost(loops, i + 1, innermost)
    ensures loops[i].header < |g| && ParentOk(loops, i, innermost[loops[i].header])
  {
    var h := loops[i].header;
    assert LoopIs(g, root, loops[i]);
    forall k: nat | k < |loops| && k != i && h in loops[k].blocks ensures i < k {
      Enclosed(g, root, loops, i, k);
    }
    match innermost[h]
    case None =>
    case Some(j) =>
      Enclosed(g, root, loops, i, j);
      forall k: nat | k < |loops| && k != i && h in loops[k].blocks ensures loops[j].blocks <= loops[k].blocks {
        Enclosed(g, root, loops, i, k);
        if k != j {
          assert LoopIs(g, root, loops[j]) && LoopIs(g, root, loops[k]);
          SharedNested(g, root, idom, loops[j].header, loops[k].header, h);
          if loops[j].header in loops[k].blocks {
            Enclosed(g, root, loops, j, k);
          } else {
            Enclosed(g, root, loops, k, j);
          }
        }
      }
  }

  /** The finished forest. */
  ghost predicate LoopForest(g: Succs, root: nat, loops: seq<NaturalLoop>) {
    && LoopList(g, root, loops, |g|)
    && forall i :: 0 <= i < |loops| ==> ParentOk(loops, i, loops[i].parent)
  }

  ghost predicate SameLoops(a: seq<NaturalLoop>, b: seq<NaturalLoop>) {
    |a| == |b| && forall i :: 0 <= i < |a| ==> a[i].header == b[i].header && a[i].blocks == b[i].blocks
  }

  lemma SameLoopList(g: Succs, root: nat, a: seq<NaturalLoop>, b: seq<NaturalLoop>, n: nat)
    requires LoopList(g, root, a, n) && SameLoops(a, b)
    ensures LoopList(g, root, b, n)
  {
    forall i | 0 <= i < |b| ensures LoopIs(g, root, b[i]) && b[i].header < n {
      assert LoopIs(g, root, a[i]);
    }
    forall i, j | 0 <= i < j < |b| ensures SmallerLoop(b[i], b[j]) {
      assert SmallerLoop(a[i], a[j]);
    }
    forall h: nat | h < n && IsHeader(g, root, h) ensures HasLoop(b, h) {
      assert HasLoop(a, h);
      var i :| 0 <= i < |a| && a[i].header == h;
      assert b[i].header == h;
    }
  }

  method MarkBlocks(innermost0: seq<Option<nat>>, blocks: set<nat>, child: nat) returns (innermost: seq<Option<nat>>)
    requires forall b :: b in blocks ==> b < |innermost0|
    ensures |innermost| == |innermost0|
    ensures forall b :: 0 <= b < |innermost| ==> innermost[b] == if b in blocks then Some(child) else innermost0[b]
  {
    innermost := innermost0;
    var rest := blocks;
    while rest != {}
      invariant rest <= blocks && |innermost| == |innermost0|
      invariant forall b :: 0 <= b < |innermost| ==>
                  innermost[b] == if b in blocks && b !in rest then Some(child) else innermost0[b]
      decreases rest
    {
      var b :| b in rest;
      innermost := innermost[b := Some(child)];
      rest := rest - {b};
    }
  }

  method NestLoops(g: Succs, root: nat, idom: Links, loops0: seq<NaturalLoop>)
      returns (result: Result<seq<NaturalLoop>>)
    requires AllReachable(g, root) && IdomTable(g, root, idom) && root < |g| && LoopList(g, root, loops0, |g|)
    ensures result.Ok? && LoopForest(g, root, result.value)
  {
    var loops := loops0;
    var innermost: seq<Option<nat>> := seq(|g|, _ => None);
    var child := |loops|;
    while child > 0
      invariant 0 <= child <= |loops| && SameLoops(loops0, loops) && |innermost| == |g|
      invariant Innermost(loops0, child, innermost)
      invariant forall i :: child <= i < |loops| ==> ParentOk(loops0, i, loops[i].parent)
    {
      child := child - 1;
      ParentFound(g, root, idom, loops0, innermost, child);
      var parent := innermost[loops[child].header];
      if parent.Some? && !(loops[parent.value].blocks >= loops[child].blocks) {
        assert false;
        return Err(InvalidGraph("natural loops overlap without nesting"));
      }
      loops := loops[child := loops[child].(parent := parent)];
      BlocksInRange(g, root, loops0, child);
      innermost := MarkBlocks(innermost, loops[child].blocks, child);
    }
    SameLoopList(g, root, loops0, loops, |g|);
    SameParents(loops0, loops);
    return Ok(loops);
  }

  lemma BlocksInRange(g: Succs, root: nat, loops: seq<NaturalLoop>, i: nat)
    requires LoopList(g, root, loops, |g|) && i < |loops|
    ensures forall b :: b in loops[i].blocks ==> b < |g|
  {
    assert LoopIs(g, root, loops[i]);
    forall b | b in loops[i].blocks ensures b < |g| {
      HeaderInRange(g, root, loops[i].header, b);
    }
  }

  lemma SameParents(a: seq<NaturalLoop>, b: seq<NaturalLoop>)
    requires SameLoops(a, b) && forall i :: 0 <= i < |b| ==> ParentOk(a, i, b[i].parent)
    ensures forall i :: 0 <= i < |b| ==> ParentOk(b, i, b[i].parent)
  {
    forall i | 0 <= i < |b| ensures ParentOk(b, i, b[i].parent) {
      assert ParentOk(a, i, b[i].parent);
    }
  }

  /** Natural loops, smallest first, each with its smallest strictly enclosing loop. */
  method NaturalLoops(g: Succs, root: nat, preds: seq<seq<nat>>, tree: DominatorTree)
      returns (result: Result<seq<NaturalLoop>>)
    requires Analyzed(g, root, tree) && PredecessorTable(g, preds) && NoParallelEdges(g) && AllReachable(g, root)
    ensures result.Ok? && LoopForest(g, root, result.value)
  {
    forall a: nat, b: nat ensures tree.Dominates(a, b) <==> b < |g| && Dominates(g, root, a, b) {
      QueryIsDominance(g, root, tree, a, b);
    }
    var bodies := LoopBodies(g, root, preds, tree);
    var loops := ListLoops(g, root, bodies);
    result := NestLoops(g, root, tree.idom, loops);
  }
}
