/** Depth-first search as a recursive definition: the blocks in the order in which they finish. */
module FinishingOrder {
  import opened Graph
  import opened Finite

  type OpenRows = seq<(nat, nat)>

  datatype Finishing = Finishing(seen: set<nat>, post: seq<nat>)

  predicate InGraph(g: Succs, row: seq<nat>) {
    forall i :: 0 <= i < |row| ==> row[i] < |g|
  }

  /** The unseen targets of a row in turn, each after everything unseen that it leads to. */
  ghost function Finished(g: Succs, seen: set<nat>, row: seq<nat>): (r: Finishing)
    requires Wellformed(g) && InGraph(g, row)
    ensures seen <= r.seen
    decreases Below(|g|) - seen, |row|
  {
    if row == [] then Finishing(seen, [])
    else if row[0] in seen then Finished(g, seen, row[1..])
    else
      assert row[0] in Below(|g|) - seen;
      RowInGraph(g, row[0]);
      var below := Finished(g, seen + {row[0]}, g[row[0]]);
      var later := Finished(g, below.seen, row[1..]);
      Finishing(later.seen, below.post + [row[0]] + later.post)
  }

  lemma RowInGraph(g: Succs, b: nat)
    requires Wellformed(g) && b < |g|
    ensures InGraph(g, g[b])
  {
    forall i | 0 <= i < |g[b]| ensures g[b][i] < |g| {
      assert g[b][i] in g[b];
    }
  }

  ghost predicate FramesIn(g: Succs, stack: OpenRows) {
    forall i :: 0 <= i < |stack| ==> stack[i].0 < |g| && stack[i].1 <= |g[stack[i].0]|
  }

  /** What the blocks on the stack still finish: from the top down, the rest of the row, then the block. */
  ghost function Rest(g: Succs, seen: set<nat>, stack: OpenRows): Finishing
    requires Wellformed(g) && FramesIn(g, stack)
    decreases |stack|, 0
  {
    if stack == [] then Finishing(seen, [])
    else
      var (b, k) := stack[|stack| - 1];
      RowInGraph(g, b);
      Then(g, Finished(g, seen, g[b][k..]), b, stack[..|stack| - 1])
  }

  ghost function Then(g: Succs, first: Finishing, b: nat, stack: OpenRows): Finishing
    requires Wellformed(g) && FramesIn(g, stack)
    decreases |stack|, 1
  {
    var rest := Rest(g, first.seen, stack);
    Finishing(rest.seen, first.post + [b] + rest.post)
  }

  lemma RestTop(g: Succs, seen: set<nat>, stack: OpenRows, b: nat, k: nat)
    requires Wellformed(g) && FramesIn(g, stack) && b < |g| && k <= |g[b]| && InGraph(g, g[b][k..])
    requires FramesIn(g, stack + [(b, k)])
    ensures Rest(g, seen, stack + [(b, k)]) == Then(g, Finished(g, seen, g[b][k..]), b, stack)
  {
    assert (stack + [(b, k)])[..|stack|] == stack;
  }

  /** The top block has no targets left. */
  lemma RestPop(g: Succs, seen: set<nat>, stack: OpenRows, b: nat)
    requires Wellformed(g) && FramesIn(g, stack) && b < |g| && FramesIn(g, stack + [(b, |g[b]|)])
    ensures var rest := Rest(g, seen, stack);
            Rest(g, seen, stack + [(b, |g[b]|)]) == Finishing(rest.seen, [b] + rest.post)
  {
    RestTop(g, seen, stack, b, |g[b]|);
    assert [] + [b] == [b];
  }

  lemma RowSplits(g: Succs, b: nat, k: nat)
    requires Wellformed(g) && b < |g| && k < |g[b]|
    ensures g[b][k..] == [g[b][k]] + g[b][k + 1..] && InGraph(g, g[b][k..]) && InGraph(g, g[b][k + 1..])
    ensures g[b][k] < |g|
  {
    RowInGraph(g, b);
  }

  /** The next target of the top block was seen before. */
  lemma RestSkip(g: Succs, seen: set<nat>, stack: OpenRows, b: nat, k: nat)
    requires Wellformed(g) && FramesIn(g, stack) && b < |g| && k < |g[b]| && g[b][k] in seen
    requires FramesIn(g, stack + [(b, k)]) && FramesIn(g, stack + [(b, k + 1)])
    ensures Rest(g, seen, stack + [(b, k)]) == Rest(g, seen, stack + [(b, k + 1)])
  {
    RowSplits(g, b, k);
    RestTop(g, seen, stack, b, k);
    RestTop(g, seen, stack, b, k + 1);
    assert g[b][k..][1..] == g[b][k + 1..];
  }

  /** The next target of the top block is new: it is searched first. */
  lemma RestPush(g: Succs, seen: set<nat>, stack: OpenRows, b: nat, k: nat, s: nat)
    requires Wellformed(g) && FramesIn(g, stack) && b < |g| && k < |g[b]| && s == g[b][k] && s !in seen && s < |g|
    requires FramesIn(g, stack + [(b, k)]) && FramesIn(g, stack + [(b, k + 1)])
    requires FramesIn(g, stack + [(b, k + 1)] + [(s, 0)])
    ensures Rest(g, seen, stack + [(b, k)]) == Rest(g, seen + {s}, stack + [(b, k + 1)] + [(s, 0)])
  {
    RowSplits(g, b, k);
    RowInGraph(g, s);
    assert g[s][0..] == g[s] && g[b][k..][1..] == g[b][k + 1..];
    RestTop(g, seen, stack, b, k);
    RestTop(g, seen + {s}, stack + [(b, k + 1)], s, 0);
    var below := Finished(g, seen + {s}, g[s]);
    RestTop(g, below.seen, stack, b, k + 1);
    var later := Finished(g, below.seen, g[b][k + 1..]);
    var rest := Rest(g, later.seen, stack);
    Regroup(below.post, [s], later.post, [b], rest.post);
  }

  lemma Regroup(a: seq<nat>, b: seq<nat>, c: seq<nat>, d: seq<nat>, e: seq<nat>)
    ensures a + b + c + d + e == a + b + (c + d + e)
  {
  }

  lemma RestStart(g: Succs, root: nat)
    requires Wellformed(g) && root < |g| && InGraph(g, [root]) && FramesIn(g, [(root, 0)])
    ensures Rest(g, {root}, [(root, 0)]) == Finished(g, {}, [root])
  {
    RowInGraph(g, root);
    var start: OpenRows := [];
    assert start + [(root, 0)] == [(root, 0)] && g[root][0..] == g[root];
    RestTop(g, {root}, start, root, 0);
    assert {} + {root} == {root} && [root][1..] == [];
  }
}
