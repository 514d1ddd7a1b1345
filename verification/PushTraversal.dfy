/** The traversal that marks blocks when it pushes them, as a recursive definition without a stack. */
module PushTraversal {
  import opened Graph
  import opened Finite

  type Stack = seq<(nat, bool)>

  /** The blocks marked at the end, and the visited blocks by first visit and by completion. */
  datatype Trace = Trace(seen: set<nat>, pre: seq<nat>, post: seq<nat>)

  ghost function Members(row: seq<nat>): (r: set<nat>)
    ensures forall x: nat :: x in r <==> x in row
  {
    set x | x in row
  }

  /** The unmarked blocks of a row, each at its last occurrence. */
  ghost function Kids(row: seq<nat>, seen: set<nat>): (r: seq<nat>)
    ensures forall x: nat :: x in r <==> x in row && x !in seen
    ensures forall i, j :: 0 <= i < j < |r| ==> r[i] != r[j]
  {
    if row == [] then []
    else if row[0] in seen || row[0] in row[1..] then Kids(row[1..], seen)
    else [row[0]] + Kids(row[1..], seen)
  }

  /** All successors of `b` are marked at once; the new ones are visited in turn. */
  ghost function VisitFrom(g: Succs, seen: set<nat>, b: nat): (r: Trace)
    requires Wellformed(g) && b < |g|
    ensures seen <= r.seen
    decreases Below(|g|) - seen, 0
  {
    var kids := Kids(g[b], seen);
    if kids == [] then Trace(seen, [b], [b])
    else
      assert kids[0] in kids;
      assert kids[0] in Below(|g|) - seen;
      var below := VisitEach(g, seen + Members(g[b]), kids);
      Trace(below.seen, [b] + below.pre, below.post + [b])
  }

  ghost function VisitEach(g: Succs, seen: set<nat>, list: seq<nat>): (r: Trace)
    requires Wellformed(g) && forall b: nat :: b in list ==> b < |g|
    ensures seen <= r.seen
    decreases Below(|g|) - seen, |list|
  {
    if list == [] then Trace(seen, [], [])
    else
      assert list[0] in list && forall x: nat :: x in list[1..] ==> x in list;
      var first := VisitFrom(g, seen, list[0]);
      var later := VisitEach(g, first.seen, list[1..]);
      Trace(later.seen, first.pre + later.pre, first.post + later.post)
  }

  // ------------------------------------------------------------ what a stack still has to visit

  ghost predicate StackIn(g: Succs, stack: Stack) {
    forall i :: 0 <= i < |stack| ==> stack[i].0 < |g|
  }

  ghost function Rest(g: Succs, seen: set<nat>, stack: Stack): Trace
    requires Wellformed(g) && StackIn(g, stack)
    decreases |stack|, 0
  {
    if stack == [] then Trace(seen, [], [])
    else
      var (b, expanded) := stack[|stack| - 1];
      if expanded then Then(g, Trace(seen, [], [b]), stack[..|stack| - 1])
      else Then(g, VisitFrom(g, seen, b), stack[..|stack| - 1])
  }

  ghost function Then(g: Succs, first: Trace, stack: Stack): Trace
    requires Wellformed(g) && StackIn(g, stack)
    decreases |stack|, 1
  {
    var rest := Rest(g, first.seen, stack);
    Trace(rest.seen, first.pre + rest.pre, first.post + rest.post)
  }

  /** The list as it lies on the stack, its first block on top. */
  ghost function Waiting(list: seq<nat>): (r: Stack)
    ensures |r| == |list|
  {
    seq(|list|, i requires 0 <= i < |list| => (list[|list| - 1 - i], false))
  }

  lemma WaitingMore(first: nat, list: seq<nat>)
    ensures Waiting([first] + list) == Waiting(list) + [(first, false)]
  {
  }

  lemma WaitingIn(g: Succs, stack: Stack, list: seq<nat>)
    requires StackIn(g, stack) && forall b: nat :: b in list ==> b < |g|
    ensures StackIn(g, stack + Waiting(list))
  {
    forall i | 0 <= i < |list| ensures Waiting(list)[i].0 < |g| {
      assert list[|list| - 1 - i] in list;
    }
  }

  lemma {:induction false} RestWaiting(g: Succs, seen: set<nat>, stack: Stack, list: seq<nat>)
    requires Wellformed(g) && StackIn(g, stack) && StackIn(g, stack + Waiting(list))
    requires forall b: nat :: b in list ==> b < |g|
    ensures Rest(g, seen, stack + Waiting(list)) == Then(g, VisitEach(g, seen, list), stack)
    decreases |list|
  {
    if list == [] {
      assert stack + Waiting(list) == stack;
    } else {
      var b, more := list[0], list[1..];
      assert list == [b] + more && forall x: nat :: x in more ==> x in list;
      WaitingMore(b, more);
      WaitingIn(g, stack, more);
      var whole, below := stack + Waiting(list), stack + Waiting(more);
      assert whole == below + [(b, false)] && whole[..|whole| - 1] == below && whole[|whole| - 1] == (b, false);
      var first := VisitFrom(g, seen, b);
      RestWaiting(g, first.seen, stack, more);
      var later := VisitEach(g, first.seen, more);
      var rest := Rest(g, later.seen, stack);
      Joined(first.pre, later.pre, rest.pre);
      Joined(first.post, later.post, rest.post);
    }
  }

  lemma Joined(a: seq<nat>, b: seq<nat>, c: seq<nat>)
    ensures a + (b + c) == (a + b) + c
  {
  }

  /** Opening the top block: it is visited now, its new successors wait above it. */
  lemma RestOpen(g: Succs, seen: set<nat>, stack: Stack, b: nat)
    requires Wellformed(g) && StackIn(g, stack) && b < |g|
    requires StackIn(g, stack + [(b, false)]) && StackIn(g, stack + [(b, true)] + Waiting(Kids(g[b], seen)))
    ensures var whole := Rest(g, seen, stack + [(b, false)]);
            var rest := Rest(g, seen + Members(g[b]), stack + [(b, true)] + Waiting(Kids(g[b], seen)));
            whole == Trace(rest.seen, [b] + rest.pre, rest.post)
  {
    var kids, marks, opened0 := Kids(g[b], seen), seen + Members(g[b]), stack + [(b, true)];
    assert StackIn(g, opened0);
    RestWaiting(g, marks, opened0, kids);
    assert (stack + [(b, false)])[..|stack|] == stack && opened0[..|stack|] == stack;
    var below := VisitEach(g, marks, kids);
    VisitUnfolds(g, seen, b);
    var rest := Rest(g, below.seen, stack);
    var after := Rest(g, below.seen, opened0);
    assert after == Then(g, Trace(below.seen, [], [b]), stack);
    Joined(below.post, [b], rest.post);
    Joined([b], below.pre, rest.pre);
    assert [] + rest.pre == rest.pre;
  }

  lemma VisitUnfolds(g: Succs, seen: set<nat>, b: nat)
    requires Wellformed(g) && b < |g| && forall x: nat :: x in Kids(g[b], seen) ==> x < |g|
    ensures var below := VisitEach(g, seen + Members(g[b]), Kids(g[b], seen));
            VisitFrom(g, seen, b) == Trace(below.seen, [b] + below.pre, below.post + [b])
  {
    if Kids(g[b], seen) == [] {
      forall x: nat | x in g[b] ensures x in seen {
        assert x !in Kids(g[b], seen);
      }
      assert seen + Members(g[b]) == seen;
      assert [b] + [] == [b] && [] + [b] == [b];
    }
  }

  lemma RestFinish(g: Succs, seen: set<nat>, stack: Stack, b: nat)
    requires Wellformed(g) && StackIn(g, stack) && StackIn(g, stack + [(b, true)])
    ensures var rest := Rest(g, seen, stack);
            Rest(g, seen, stack + [(b, true)]) == Trace(rest.seen, rest.pre, [b] + rest.post)
  {
    assert (stack + [(b, true)])[..|stack|] == stack;
  }
}
