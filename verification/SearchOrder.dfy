/** The explicit-stack traversal that marks blocks when it pushes them, and the numbering it yields. */
module SearchOrder {
  import opened Graph
  import opened CfgErrors
  import opened Finite
  import opened DomTree
  import opened IterativeDominators
  import opened PushTraversal

  ghost predicate Listed(stack: Stack, b: nat) {
    exists i :: 0 <= i < |stack| && stack[i].0 == b
  }

  ghost predicate ExpandedBelow(stack: Stack, i: nat, t: nat) {
    exists j :: 0 <= j < i && j < |stack| && stack[j] == (t, true)
  }

  ghost predicate After(post: seq<nat>, i: nat, t: nat) {
    exists j :: i < j < |post| && post[j] == t
  }

  /** The block that discovered `b` is still open below it, or finishes after it. */
  ghost predicate ParentOk(g: Succs, post: seq<nat>, stack: Stack, up: Links, b: nat)
    requires b < |up|
  {
    && up[b].Some? && Edge(g, up[b].value, b)
    && (forall i :: 0 <= i < |stack| && stack[i].0 == b ==> ExpandedBelow(stack, i, up[b].value))
    && forall i :: 0 <= i < |post| && post[i] == b ==>
         ExpandedBelow(stack, |stack|, up[b].value) || After(post, i, up[b].value)
  }

  ghost predicate Expanded(post: seq<nat>, stack: Stack, b: nat) {
    b in post || ExpandedBelow(stack, |stack|, b)
  }

  ghost predicate Known(g: Succs, discovered: seq<bool>, b: nat)
    requires |discovered| == |g|
  {
    b < |g| && forall s: nat :: Edge(g, b, s) ==> discovered[s]
  }

  ghost predicate Marked(discovered: seq<bool>, post: seq<nat>, stack: Stack) {
    && (forall b: nat :: b < |discovered| ==> (discovered[b] <==> b in post || Listed(stack, b)))
    && (forall b: nat :: b in post || Listed(stack, b) ==> b < |discovered|)
    && (forall i, j :: 0 <= i < j < |post| ==> post[i] != post[j])
    && (forall i, j :: 0 <= i < j < |stack| ==> stack[i].0 != stack[j].0)
    && forall i :: 0 <= i < |stack| ==> stack[i].0 !in post
  }

  ghost predicate Parents(g: Succs, root: nat, discovered: seq<bool>, post: seq<nat>, stack: Stack, up: Links) {
    && |discovered| == |up| == |g|
    && forall b: nat {:trigger ParentOk(g, post, stack, up, b)} :: b < |g| ==>
         if discovered[b] && b != root then ParentOk(g, post, stack, up, b) else up[b].None?
  }

  /** The root is the first on the stack and the last to finish. */
  ghost predicate RootLast(root: nat, post: seq<nat>, stack: Stack) {
    if stack == [] then post != [] && post[|post| - 1] == root else stack[0].0 == root
  }

  /** Expanded blocks but `open` have all their successors discovered. */
  ghost predicate Closed(g: Succs, discovered: seq<bool>, post: seq<nat>, stack: Stack, open: Option<nat>)
    requires |discovered| == |g|
  {
    forall b: nat {:trigger Expanded(post, stack, b)} :: Expanded(post, stack, b) && open != Some(b) ==>
         Known(g, discovered, b)
  }

  ghost predicate Reached(g: Succs, root: nat, discovered: seq<bool>)
    requires |discovered| == |g|
  {
    root < |g| && discovered[root] && forall b: nat :: b < |g| && discovered[b] ==> Reach(g, root, b)
  }

  ghost predicate SearchInv(g: Succs, root: nat, discovered: seq<bool>, post: seq<nat>, stack: Stack, up: Links,
      open: Option<nat>) {
    && Wellformed(g) && Parents(g, root, discovered, post, stack, up) && Marked(discovered, post, stack)
    && Reached(g, root, discovered) && RootLast(root, post, stack) && Closed(g, discovered, post, stack, open)
  }

  lemma ClosedMore(g: Succs, discovered: seq<bool>, post: seq<nat>, stack: Stack, open: Option<nat>,
                   marks: seq<bool>, done: seq<nat>, rest: Stack, open': Option<nat>)
    requires |discovered| == |marks| == |g| && Closed(g, discovered, post, stack, open)
    requires forall x: nat :: x < |g| && discovered[x] ==> marks[x]
    requires forall x: nat :: Expanded(done, rest, x) && open' != Some(x) ==>
               Expanded(post, stack, x) && open != Some(x)
    ensures Closed(g, marks, done, rest, open')
  {
    forall x: nat | Expanded(done, rest, x) && open' != Some(x) ensures Known(g, marks, x) {
      assert Expanded(post, stack, x);
    }
  }

  lemma Finish(g: Succs, root: nat, discovered: seq<bool>, post: seq<nat>, stack: Stack, up: Links, b: nat)
    requires SearchInv(g, root, discovered, post, stack, up, None) && stack != [] && stack[|stack| - 1] == (b, true)
    ensures SearchInv(g, root, discovered, post + [b], stack[..|stack| - 1], up, None)
  {
    FinishMarked(discovered, post, stack, b);
    FinishParents(g, root, discovered, post, stack, up, b);
    FinishExpanded(post, stack, b);
    ClosedMore(g, discovered, post, stack, None, discovered, post + [b], stack[..|stack| - 1], None);
  }

  lemma FinishExpanded(post: seq<nat>, stack: Stack, b: nat)
    requires stack != [] && stack[|stack| - 1] == (b, true)
    ensures forall x: nat :: Expanded(post + [b], stack[..|stack| - 1], x) <==> Expanded(post, stack, x)
  {
    var n := |stack| - 1;
    var rest, done := stack[..n], post + [b];
    forall x: nat ensures Expanded(done, rest, x) <==> Expanded(post, stack, x) {
      if Expanded(done, rest, x) && x !in post && x != b {
        var j :| 0 <= j < n && rest[j] == (x, true);
        assert stack[j] == (x, true);
      }
      assert x == b ==> stack[n] == (x, true);
      if Expanded(post, stack, x) && x !in done {
        var j :| 0 <= j < |stack| && stack[j] == (x, true);
        assert rest[j] == (x, true);
      }
    }
  }

  lemma FinishParents(g: Succs, root: nat, discovered: seq<bool>, post: seq<nat>, stack: Stack, up: Links, b: nat)
    requires Marked(discovered, post, stack) && Parents(g, root, discovered, post, stack, up)
    requires stack != [] && stack[|stack| - 1] == (b, true)
    ensures Parents(g, root, discovered, post + [b], stack[..|stack| - 1], up)
  {
    forall x: nat | x < |g| && discovered[x] && x != root ensures ParentOk(g, post + [b], stack[..|stack| - 1], up, x) {
      assert ParentOk(g, post, stack, up, x);
      FinishParent(g, discovered, post, stack, up, b, x);
    }
    forall x: nat | x < |g| && !(discovered[x] && x != root) ensures up[x].None? {
      assert !discovered[x] || x == root;
      NoParent(g, root, discovered, post, stack, up, x);
    }
  }

  lemma NoParent(g: Succs, root: nat, discovered: seq<bool>, post: seq<nat>, stack: Stack, up: Links, x: nat)
    requires Parents(g, root, discovered, post, stack, up) && x < |g| && !(discovered[x] && x != root)
    ensures up[x].None?
  {
    assert ParentOk(g, post, stack, up, x) || !ParentOk(g, post, stack, up, x);
  }

  lemma FinishMarked(discovered: seq<bool>, post: seq<nat>, stack: Stack, b: nat)
    requires Marked(discovered, post, stack) && stack != [] && stack[|stack| - 1] == (b, true)
    ensures Marked(discovered, post + [b], stack[..|stack| - 1])
  {
    var n := |stack| - 1;
    var rest, done := stack[..n], post + [b];
    assert Listed(stack, b);
    forall x: nat ensures x in done || Listed(rest, x) <==> x in post || Listed(stack, x) {
      if Listed(rest, x) {
        var i :| 0 <= i < n && rest[i].0 == x;
        assert stack[i].0 == x;
      }
      if Listed(stack, x) {
        var i :| 0 <= i <= n && stack[i].0 == x;
        assert i < n ==> rest[i].0 == x;
      }
    }
  }

  lemma FinishParent(g: Succs, discovered: seq<bool>, post: seq<nat>, stack: Stack, up: Links, b: nat, x: nat)
    requires Marked(discovered, post, stack) && stack != [] && stack[|stack| - 1] == (b, true)
    requires x < |up| && ParentOk(g, post, stack, up, x)
    ensures ParentOk(g, post + [b], stack[..|stack| - 1], up, x)
  {
    var n := |stack| - 1;
    var rest, done, t := stack[..n], post + [b], up[x].value;
    forall i | 0 <= i < |rest| && rest[i].0 == x ensures ExpandedBelow(rest, i, t) {
      assert stack[i].0 == x;
      var j :| 0 <= j < i && stack[j] == (t, true);
      assert rest[j] == (t, true);
    }
    forall i | 0 <= i < |done| && done[i] == x ensures ExpandedBelow(rest, |rest|, t) || After(done, i, t) {
      if i < |post| {
        assert post[i] == x;
        if After(post, i, t) {
          var j :| i < j < |post| && post[j] == t;
          assert done[j] == t;
        } else {
          var j :| 0 <= j < |stack| && stack[j] == (t, true);
          if j == n {
            assert done[|post|] == t;
          } else {
            assert rest[j] == (t, true);
          }
        }
      } else {
        assert stack[n].0 == x;
        var j :| 0 <= j < n && stack[j] == (t, true);
        assert rest[j] == (t, true);
      }
    }
  }

  /** Replacing the top by its expanded form changes neither the blocks nor what is open below others. */
  lemma OpenStack(stack: Stack, b: nat)
    requires stack != [] && stack[|stack| - 1] == (b, false)
    ensures var turned := stack[..|stack| - 1] + [(b, true)];
            && (forall x: nat :: Listed(turned, x) <==> Listed(stack, x))
            && (forall i: nat, t: nat :: ExpandedBelow(stack, i, t) ==> ExpandedBelow(turned, i, t))
            && (forall x: nat :: ExpandedBelow(turned, |turned|, x) <==> x == b || ExpandedBelow(stack, |stack|, x))
  {
    var n := |stack| - 1;
    var turned := stack[..n] + [(b, true)];
    forall x: nat ensures Listed(turned, x) <==> Listed(stack, x) {
      if Listed(turned, x) {
        var i :| 0 <= i <= n && turned[i].0 == x;
        assert stack[i].0 == x;
      }
      if Listed(stack, x) {
        var i :| 0 <= i <= n && stack[i].0 == x;
        assert turned[i].0 == x;
      }
    }
    forall i: nat, t: nat | ExpandedBelow(stack, i, t) ensures ExpandedBelow(turned, i, t) {
      var j :| 0 <= j < i && j < |stack| && stack[j] == (t, true);
      assert turned[j] == (t, true);
    }
    forall x: nat ensures ExpandedBelow(turned, |turned|, x) <==> x == b || ExpandedBelow(stack, |stack|, x) {
      assert x == b ==> turned[n] == (x, true);
      if ExpandedBelow(turned, |turned|, x) && x != b {
        var j :| 0 <= j < |turned| && turned[j] == (x, true);
        assert stack[j] == (x, true);
      }
    }
  }

  lemma Open(g: Succs, root: nat, discovered: seq<bool>, post: seq<nat>, stack: Stack, up: Links, b: nat)
    requires SearchInv(g, root, discovered, post, stack, up, None) && stack != [] && stack[|stack| - 1] == (b, false)
    ensures SearchInv(g, root, discovered, post, stack[..|stack| - 1] + [(b, true)], up, Some(b))
  {
    OpenStack(stack, b);
    OpenParents(g, root, discovered, post, stack, up, b);
    assert Marked(discovered, post, stack[..|stack| - 1] + [(b, true)]);
    ClosedMore(g, discovered, post, stack, None, discovered, post, stack[..|stack| - 1] + [(b, true)], Some(b));
  }

  lemma OpenParents(g: Succs, root: nat, discovered: seq<bool>, post: seq<nat>, stack: Stack, up: Links, b: nat)
    requires Parents(g, root, discovered, post, stack, up) && stack != [] && stack[|stack| - 1] == (b, false)
    ensures Parents(g, root, discovered, post, stack[..|stack| - 1] + [(b, true)], up)
  {
    var turned := stack[..|stack| - 1] + [(b, true)];
    OpenStack(stack, b);
    forall x: nat | x < |g| && discovered[x] && x != root ensures ParentOk(g, post, turned, up, x) {
      assert ParentOk(g, post, stack, up, x);
      forall i | 0 <= i < |turned| && turned[i].0 == x ensures ExpandedBelow(turned, i, up[x].value) {
        assert stack[i].0 == x;
      }
    }
    forall x: nat | x < |g| && !(discovered[x] && x != root) ensures up[x].None? {
      NoParent(g, root, discovered, post, stack, up, x);
    }
  }

  lemma PushStack(stack: Stack, s: nat)
    ensures var more := stack + [(s, false)];
            && (forall i: nat, t: nat :: ExpandedBelow(more, i, t) <==> ExpandedBelow(stack, i, t))
            && (forall t: nat :: ExpandedBelow(more, |more|, t) <==> ExpandedBelow(stack, |stack|, t))
  {
    var more := stack + [(s, false)];
    forall i: nat, t: nat ensures ExpandedBelow(more, i, t) <==> ExpandedBelow(stack, i, t) {
      if ExpandedBelow(stack, i, t) {
        var j :| 0 <= j < i && j < |stack| && stack[j] == (t, true);
        assert more[j] == (t, true);
      }
      if ExpandedBelow(more, i, t) {
        var j :| 0 <= j < i && j < |more| && more[j] == (t, true);
        assert stack[j] == (t, true);
      }
    }
    forall t: nat ensures ExpandedBelow(stack, |more|, t) <==> ExpandedBelow(stack, |stack|, t) {
      if ExpandedBelow(stack, |more|, t) {
        var j :| 0 <= j < |stack| && stack[j] == (t, true);
      }
      if ExpandedBelow(stack, |stack|, t) {
        var j :| 0 <= j < |stack| && stack[j] == (t, true);
      }
    }
  }

  lemma Discovered(g: Succs, root: nat, discovered: seq<bool>, post: seq<nat>, stack: Stack, up: Links, b: nat, s: nat)
    requires SearchInv(g, root, discovered, post, stack, up, Some(b)) && ExpandedBelow(stack, |stack|, b)
    requires Edge(g, b, s) && !discovered[s]
    ensures SearchInv(g, root, discovered[s := true], post, stack + [(s, false)], up[s := Some(b)], Some(b))
    ensures ExpandedBelow(stack + [(s, false)], |stack| + 1, b)
  {
    PushStack(stack, s);
    PushMarked(discovered, post, stack, s);
    PushParents(g, root, discovered, post, stack, up, b, s);
    var k :| 0 <= k < |stack| && stack[k] == (b, true);
    assert Listed(stack, b);
    ReachEdge(g, root, b, s);
    ClosedMore(g, discovered, post, stack, Some(b), discovered[s := true], post, stack + [(s, false)], Some(b));
  }

  lemma PushParents(g: Succs, root: nat, discovered: seq<bool>, post: seq<nat>, stack: Stack, up: Links, b: nat, s: nat)
    requires Parents(g, root, discovered, post, stack, up) && Marked(discovered, post, stack)
    requires ExpandedBelow(stack, |stack|, b)
    requires Edge(g, b, s) && !discovered[s] && root < |g| && discovered[root]
    ensures Parents(g, root, discovered[s := true], post, stack + [(s, false)], up[s := Some(b)])
  {
    var more, marks, links := stack + [(s, false)], discovered[s := true], up[s := Some(b)];
    PushStack(stack, s);
    forall x: nat | x < |g| && marks[x] && x != root ensures ParentOk(g, post, more, links, x) {
      if x == s {
        forall i | 0 <= i < |more| && more[i].0 == s ensures ExpandedBelow(more, i, b) {
          assert i < |stack| ==> Listed(stack, s);
        }
      } else {
        assert ParentOk(g, post, stack, up, x);
        PushParent(g, post, stack, up, b, s, x);
      }
    }
    forall x: nat | x < |g| && !(marks[x] && x != root) ensures links[x].None? {
      NoParent(g, root, discovered, post, stack, up, x);
    }
  }

  lemma PushParent(g: Succs, post: seq<nat>, stack: Stack, up: Links, b: nat, s: nat, x: nat)
    requires x < |up| && s < |up| && x != s && ParentOk(g, post, stack, up, x)
    ensures ParentOk(g, post, stack + [(s, false)], up[s := Some(b)], x)
  {
    var more, t := stack + [(s, false)], up[x].value;
    forall i: nat | i <= |stack| && ExpandedBelow(stack, i, t)
      ensures ExpandedBelow(more, i, t) && ExpandedBelow(more, |more|, t)
    {
      var j :| 0 <= j < i && j < |stack| && stack[j] == (t, true);
      assert more[j] == (t, true);
    }
    forall i | 0 <= i < |more| && more[i].0 == x ensures ExpandedBelow(more, i, t) {
      assert stack[i].0 == x;
    }
  }

  lemma PushMarked(discovered: seq<bool>, post: seq<nat>, stack: Stack, s: nat)
    requires Marked(discovered, post, stack) && s < |discovered| && !discovered[s]
    ensures Marked(discovered[s := true], post, stack + [(s, false)])
  {
    var more := stack + [(s, false)];
    forall x: nat ensures Listed(more, x) <==> x == s || Listed(stack, x) {
      if x == s {
        assert more[|stack|].0 == s;
      }
      if Listed(stack, x) {
        var i :| 0 <= i < |stack| && stack[i].0 == x;
        assert more[i].0 == x;
      }
      if Listed(more, x) && x != s {
        var i :| 0 <= i < |more| && more[i].0 == x;
        assert stack[i].0 == x;
      }
    }
    forall i | 0 <= i < |stack| ensures stack[i].0 != s {
      assert Listed(stack, stack[i].0);
    }
  }

  // ------------------------------------------------------------ the loop

  ghost function Unseen(discovered: seq<bool>): set<nat> {
    set b | b in Below(|discovered|) && !discovered[b]
  }

  /** What is left to pop: two turns for a pushed block, one for an expanded one. */
  ghost function Turns(stack: Stack): nat {
    if stack == [] then 0 else Turns(stack[..|stack| - 1]) + if stack[|stack| - 1].1 then 1 else 2
  }

  ghost function Work(discovered: seq<bool>, stack: Stack): nat {
    2 * |Unseen(discovered)| + Turns(stack)
  }

  lemma WorkPush(discovered: seq<bool>, stack: Stack, s: nat)
    requires s < |discovered| && !discovered[s]
    ensures Work(discovered[s := true], stack + [(s, false)]) == Work(discovered, stack)
  {
    assert Unseen(discovered[s := true]) == Unseen(discovered) - {s};
    assert (stack + [(s, false)])[..|stack|] == stack;
  }

  lemma WorkOpen(discovered: seq<bool>, stack: Stack, b: nat)
    requires stack != [] && stack[|stack| - 1] == (b, false)
    ensures Work(discovered, stack[..|stack| - 1] + [(b, true)]) < Work(discovered, stack)
  {
    assert (stack[..|stack| - 1] + [(b, true)])[..|stack| - 1] == stack[..|stack| - 1];
  }

  /** Pushes the undiscovered successors, the first of them on top. */
  method Expand(g: Succs, ghost root: nat, b: nat, discovered0: seq<bool>, ghost post: seq<nat>, stack0: Stack,
      ghost up0: Links)
    returns (discovered: seq<bool>, stack: Stack, ghost up: Links)
    requires SearchInv(g, root, discovered0, post, stack0, up0, Some(b)) && ExpandedBelow(stack0, |stack0|, b)
    requires b < |g|
    ensures SearchInv(g, root, discovered, post, stack, up, None)
    ensures Work(discovered, stack) == Work(discovered0, stack0)
    ensures forall x: nat :: ExpandedBelow(stack, |stack|, x) <==> ExpandedBelow(stack0, |stack0|, x)
    ensures stack == stack0 + Waiting(Kids(g[b], Marks(discovered0)))
    ensures Marks(discovered) == Marks(discovered0) + Members(g[b])
  {
    discovered, stack, up := discovered0, stack0, up0;
    var row := g[b];
    ExpandStart(g, root, b, discovered0, post, stack0, up0);
    for k := |row| downto 0
      invariant Expanding(g, root, b, discovered0, stack0, k, discovered, post, stack, up)
    {
      var s := row[k];
      ExpandNext(g, root, b, discovered0, stack0, k, discovered, post, stack, up);
      if !discovered[s] {
        up := up[s := Some(b)];
        stack := stack + [(s, false)];
        discovered := discovered[s := true];
      }
    }
    ExpandEnd(g, root, b, discovered0, stack0, discovered, post, stack, up);
  }

  /** The loop's invariant: the row is scanned down to `k`. */
  ghost predicate Expanding(g: Succs, root: nat, b: nat, discovered0: seq<bool>, stack0: Stack, k: nat,
      discovered: seq<bool>, post: seq<nat>, stack: Stack, up: Links) {
    && SearchInv(g, root, discovered, post, stack, up, Some(b)) && ExpandedBelow(stack, |stack|, b)
    && b < |g| && k <= |g[b]| && (forall j :: k <= j < |g[b]| ==> g[b][j] < |g| && discovered[g[b][j]])
    && Work(discovered, stack) == Work(discovered0, stack0)
    && (forall x: nat :: ExpandedBelow(stack, |stack|, x) <==> ExpandedBelow(stack0, |stack0|, x))
    && Pushed(Marks(discovered0), g[b], k, discovered, stack0, stack)
  }

  lemma ExpandStart(g: Succs, root: nat, b: nat, discovered: seq<bool>, post: seq<nat>, stack: Stack, up: Links)
    requires SearchInv(g, root, discovered, post, stack, up, Some(b)) && ExpandedBelow(stack, |stack|, b)
    requires b < |g|
    ensures Expanding(g, root, b, discovered, stack, |g[b]|, discovered, post, stack, up)
  {
    assert g[b][|g[b]|..] == [];
    assert stack + [] == stack;
  }

  lemma ExpandNext(g: Succs, root: nat, b: nat, discovered0: seq<bool>, stack0: Stack, k: nat, discovered: seq<bool>,
                   post: seq<nat>, stack: Stack, up: Links)
    requires Expanding(g, root, b, discovered0, stack0, k + 1, discovered, post, stack, up)
    ensures var s := g[b][k];
            s < |discovered| == |up| &&
            if discovered[s] then Expanding(g, root, b, discovered0, stack0, k, discovered, post, stack, up)
            else Expanding(g, root, b, discovered0, stack0, k, discovered[s := true], post, stack + [(s, false)],
                           up[s := Some(b)])
  {
    var s := g[b][k];
    assert s in g[b] && Edge(g, b, s);
    if discovered[s] {
      PushSeen(Marks(discovered0), g[b], k, discovered, stack0, stack);
    } else {
      PushNew(Marks(discovered0), g[b], k, discovered, stack0, stack);
      Discovered(g, root, discovered, post, stack, up, b, s);
      WorkPush(discovered, stack, s);
      PushStack(stack, s);
    }
  }

  lemma ExpandEnd(g: Succs, root: nat, b: nat, discovered0: seq<bool>, stack0: Stack, discovered: seq<bool>,
                  post: seq<nat>, stack: Stack, up: Links)
    requires Expanding(g, root, b, discovered0, stack0, 0, discovered, post, stack, up)
    ensures SearchInv(g, root, discovered, post, stack, up, None)
    ensures stack == stack0 + Waiting(Kids(g[b], Marks(discovered0)))
    ensures Marks(discovered) == Marks(discovered0) + Members(g[b])
  {
    assert Known(g, discovered, b);
    assert g[b][0..] == g[b];
  }

  ghost function Marks(discovered: seq<bool>): (r: set<nat>)
    ensures forall x: nat :: x in r <==> x < |discovered| && discovered[x]
  {
    set x | x in Below(|discovered|) && discovered[x]
  }

  /** The row is scanned down to `k`: the new blocks of that part are marked and wait on the stack. */
  ghost predicate Pushed(marks: set<nat>, row: seq<nat>, k: nat, discovered: seq<bool>, stack0: Stack, stack: Stack)
    requires k <= |row|
  {
    Marks(discovered) == marks + Members(row[k..]) && stack == stack0 + Waiting(Kids(row[k..], marks))
  }

  lemma RowFrom(row: seq<nat>, k: nat)
    requires k < |row|
    ensures row[k..] == [row[k]] + row[k + 1..] && Members(row[k..]) == Members(row[k + 1..]) + {row[k]}
  {
    assert row[k..] == [row[k]] + row[k + 1..];
  }

  lemma KidsFrom(row: seq<nat>, k: nat, marks: set<nat>)
    requires k < |row|
    ensures var rest := Kids(row[k + 1..], marks);
            Kids(row[k..], marks) == if row[k] in marks || row[k] in row[k + 1..] then rest else [row[k]] + rest
  {
    assert row[k..][0] == row[k] && row[k..][1..] == row[k + 1..];
  }

  lemma MarksMore(discovered: seq<bool>, s: nat)
    requires s < |discovered|
    ensures Marks(discovered[s := true]) == Marks(discovered) + {s}
  {
  }

  lemma PushSeen(marks: set<nat>, row: seq<nat>, k: nat, discovered: seq<bool>, stack0: Stack, stack: Stack)
    requires k < |row| && row[k] < |discovered| && Pushed(marks, row, k + 1, discovered, stack0, stack)
    requires discovered[row[k]]
    ensures Pushed(marks, row, k, discovered, stack0, stack)
  {
    RowFrom(row, k);
    KidsFrom(row, k, marks);
    assert row[k] in Marks(discovered);
  }

  lemma PushNew(marks: set<nat>, row: seq<nat>, k: nat, discovered: seq<bool>, stack0: Stack, stack: Stack)
    requires k < |row| && row[k] < |discovered| && Pushed(marks, row, k + 1, discovered, stack0, stack)
    requires !discovered[row[k]]
    ensures Pushed(marks, row, k, discovered[row[k] := true], stack0, stack + [(row[k], false)])
  {
    var s, kids := row[k], Kids(row[k + 1..], marks);
    RowFrom(row, k);
    KidsFrom(row, k, marks);
    MarksMore(discovered, s);
    assert s !in Marks(discovered);
    WaitingMore(s, kids);
    JoinStack(stack0, Waiting(kids), [(s, false)]);
  }

  lemma JoinStack(a: Stack, b: Stack, c: Stack)
    ensures a + b + c == a + (b + c)
  {
  }

  /** The blocks visited so far; the list starts with the root, which is not entered again when it is popped. */
  ghost predicate Entered(root: nat, discovery: seq<nat>, pre: seq<nat>, post: seq<nat>, stack: Stack) {
    if pre == [] then discovery == [root] && stack == [(root, false)]
    else discovery == pre && Expanded(post, stack, root)
  }

  /** What was visited and what the stack still has to visit make up the whole traversal. */
  ghost predicate OnTrace(g: Succs, root: nat, discovered: seq<bool>, pre: seq<nat>, post: seq<nat>, stack: Stack) {
    && Wellformed(g) && root < |g| && StackIn(g, stack)
    && var rest := Rest(g, Marks(discovered), stack);
       VisitFrom(g, {root}, root) == Trace(rest.seen, pre + rest.pre, post + rest.post)
  }

  lemma StackInside(g: Succs, discovered: seq<bool>, post: seq<nat>, stack: Stack)
    requires Marked(discovered, post, stack) && |discovered| == |g|
    ensures StackIn(g, stack)
  {
    forall i | 0 <= i < |stack| ensures stack[i].0 < |g| {
      assert Listed(stack, stack[i].0);
    }
  }

  lemma FinishTrace(g: Succs, root: nat, discovered: seq<bool>, pre: seq<nat>, post: seq<nat>, stack: Stack, b: nat)
    requires OnTrace(g, root, discovered, pre, post, stack) && stack != [] && stack[|stack| - 1] == (b, true)
    ensures OnTrace(g, root, discovered, pre, post + [b], stack[..|stack| - 1])
  {
    var below := stack[..|stack| - 1];
    assert stack == below + [(b, true)];
    RestFinish(g, Marks(discovered), below, b);
    Joined(post, [b], Rest(g, Marks(discovered), below).post);
  }

  lemma OpenTrace(g: Succs, root: nat, discovered: seq<bool>, pre: seq<nat>, post: seq<nat>, stack: Stack, b: nat,
                  marks: seq<bool>, more: Stack)
    requires OnTrace(g, root, discovered, pre, post, stack) && stack != [] && stack[|stack| - 1] == (b, false)
    requires b < |g| && StackIn(g, more)
    requires more == stack[..|stack| - 1] + [(b, true)] + Waiting(Kids(g[b], Marks(discovered)))
    requires Marks(marks) == Marks(discovered) + Members(g[b])
    ensures OnTrace(g, root, marks, pre + [b], post, more)
  {
    var below := stack[..|stack| - 1];
    assert stack == below + [(b, false)];
    RestOpen(g, Marks(discovered), below, b);
    Joined(pre, [b], Rest(g, Marks(marks), more).pre);
  }

  lemma StartTrace(g: Succs, root: nat, discovered: seq<bool>)
    requires Wellformed(g) && root < |g| && |discovered| == |g|
    requires forall b :: 0 <= b < |g| ==> (discovered[b] <==> b == root)
    ensures OnTrace(g, root, discovered, [], [], [(root, false)])
  {
    assert Marks(discovered) == {root};
    var start: Stack := [(root, false)];
    assert start[..0] == [];
    var all := VisitFrom(g, {root}, root);
    var rest := Rest(g, {root}, start);
    assert rest == Then(g, all, []);
    assert all.pre + [] == all.pre && all.post + [] == all.post;
    assert [] + rest.pre == rest.pre && [] + rest.post == rest.post;
  }

  /** The blocks popped so far, each once, in the order of their first pop; the root is listed from the start. */
  ghost predicate Visited(root: nat, discovery: seq<nat>, post: seq<nat>, stack: Stack) {
    && discovery != [] && discovery[0] == root
    && (forall i, j :: 0 <= i < j < |discovery| ==> discovery[i] != discovery[j])
    && forall x: nat :: x in discovery <==> x == root || Expanded(post, stack, x)
  }

  lemma FinishVisited(root: nat, discovery: seq<nat>, post: seq<nat>, stack: Stack, b: nat)
    requires Visited(root, discovery, post, stack) && stack != [] && stack[|stack| - 1] == (b, true)
    ensures Visited(root, discovery, post + [b], stack[..|stack| - 1])
  {
    FinishExpanded(post, stack, b);
  }

  lemma OpenVisited(discovered: seq<bool>, root: nat, discovery: seq<nat>, post: seq<nat>, stack: Stack, b: nat)
    requires Marked(discovered, post, stack) && stack != [] && stack[|stack| - 1] == (b, false)
    requires Visited(root, discovery, post, stack)
    ensures Visited(root, if b == root then discovery else discovery + [b], post, stack[..|stack| - 1] + [(b, true)])
  {
    OpenStack(stack, b);
    NotExpanded(discovered, post, stack, b);
    forall x: nat
      ensures Expanded(post, stack[..|stack| - 1] + [(b, true)], x) <==> x == b || Expanded(post, stack, x)
    {
    }
  }

  lemma NotExpanded(discovered: seq<bool>, post: seq<nat>, stack: Stack, b: nat)
    requires Marked(discovered, post, stack) && stack != [] && stack[|stack| - 1] == (b, false)
    ensures !Expanded(post, stack, b)
  {
    assert stack[|stack| - 1].0 == b;
    forall j | 0 <= j < |stack| ensures stack[j] != (b, true) {
    }
  }

  lemma StartSearch(g: Succs, root: nat, discovered: seq<bool>, up: Links)
    requires Wellformed(g) && root < |g| && |discovered| == |up| == |g|
    requires forall b :: 0 <= b < |g| ==> (discovered[b] <==> b == root) && up[b].None?
    ensures SearchInv(g, root, discovered, [], [(root, false)], up, None)
    ensures Visited(root, [root], [], [(root, false)])
  {
    ReachRefl(g, root);
    assert [(root, false)][0].0 == root;
    assert forall b: nat :: Listed([(root, false)], b) ==> b == root;
  }

  /** Blocks in order of first visit and of completion; `up` records who discovered whom. */
  method Search(g: Succs, root: nat)
      returns (discovered: seq<bool>, discovery: seq<nat>, post: seq<nat>, ghost up: Links)
    requires Wellformed(g) && root < |g|
    ensures SearchInv(g, root, discovered, post, [], up, None) && Visited(root, discovery, post, [])
    ensures VisitFrom(g, {root}, root) == Trace(Marks(discovered), discovery, post)
  {
    discovered, discovery, post := seq(|g|, b => b == root), [root], [];
    up := seq(|g|, _ => None);
    var stack: Stack := [(root, false)];
    ghost var pre := [];
    StartSearch(g, root, discovered, up);
    StartTrace(g, root, discovered);
    while stack != []
      invariant Searching(g, root, discovered, discovery, pre, post, stack, up)
      decreases Work(discovered, stack)
    {
      var n := |stack| - 1;
      var (b, expanded) := stack[n];
      if expanded {
        FinishTurn(g, root, discovered, discovery, pre, post, stack, up, b);
        stack := stack[..n];
        post := post + [b];
      } else {
        OpenTop(g, root, discovered, discovery, pre, post, stack, up, b);
        if b != root {
          discovery := discovery + [b];
        }
        ghost var marks, waiting := discovered, stack;
        discovered, stack, up := Expand(g, root, b, discovered, post, stack[..n] + [(b, true)], up);
        OpenTurn(g, root, marks, waiting, discovered, discovery, pre, post, stack, up, b);
        pre := pre + [b];
      }
    }
  }

  /** What every turn of the loop keeps. */
  ghost predicate Searching(g: Succs, root: nat, discovered: seq<bool>, discovery: seq<nat>, pre: seq<nat>,
      post: seq<nat>, stack: Stack, up: Links) {
    && SearchInv(g, root, discovered, post, stack, up, None) && Visited(root, discovery, post, stack)
    && OnTrace(g, root, discovered, pre, post, stack) && Entered(root, discovery, pre, post, stack)
  }

  lemma FinishTurn(g: Succs, root: nat, discovered: seq<bool>, discovery: seq<nat>, pre: seq<nat>, post: seq<nat>,
                   stack: Stack, up: Links, b: nat)
    requires Searching(g, root, discovered, discovery, pre, post, stack, up)
    requires stack != [] && stack[|stack| - 1] == (b, true)
    ensures Searching(g, root, discovered, discovery, pre, post + [b], stack[..|stack| - 1], up)
    ensures Work(discovered, stack[..|stack| - 1]) < Work(discovered, stack)
  {
    Finish(g, root, discovered, post, stack, up, b);
    FinishVisited(root, discovery, post, stack, b);
    FinishExpanded(post, stack, b);
    FinishTrace(g, root, discovered, pre, post, stack, b);
  }

  /** Before the row of the top block is scanned, the block is entered. */
  lemma OpenTop(g: Succs, root: nat, discovered: seq<bool>, discovery: seq<nat>, pre: seq<nat>, post: seq<nat>,
                stack: Stack, up: Links, b: nat)
    requires Searching(g, root, discovered, discovery, pre, post, stack, up)
    requires stack != [] && stack[|stack| - 1] == (b, false)
    ensures var opened0 := stack[..|stack| - 1] + [(b, true)];
            var entered := if b == root then discovery else discovery + [b];
            && SearchInv(g, root, discovered, post, opened0, up, Some(b)) && ExpandedBelow(opened0, |opened0|, b)
            && b < |g| && Work(discovered, opened0) < Work(discovered, stack)
            && Visited(root, entered, post, opened0) && Entered(root, entered, pre + [b], post, opened0)
  {
    var opened0 := stack[..|stack| - 1] + [(b, true)];
    OpenVisited(discovered, root, discovery, post, stack, b);
    Open(g, root, discovered, post, stack, up, b);
    WorkOpen(discovered, stack, b);
    assert opened0[|stack| - 1] == (b, true);
    assert Listed(stack, b);
    OpenEntered(discovered, root, discovery, pre, post, stack, b);
  }

  lemma OpenEntered(discovered: seq<bool>, root: nat, discovery: seq<nat>, pre: seq<nat>, post: seq<nat>,
                    stack: Stack, b: nat)
    requires Marked(discovered, post, stack) && stack != [] && stack[|stack| - 1] == (b, false)
    requires Entered(root, discovery, pre, post, stack)
    ensures Entered(root, if b == root then discovery else discovery + [b], pre + [b], post,
                    stack[..|stack| - 1] + [(b, true)])
  {
    OpenStack(stack, b);
    NotExpanded(discovered, post, stack, b);
  }

  /** After its row is scanned, the new blocks wait on the stack. */
  lemma OpenTurn(g: Succs, root: nat, marks: seq<bool>, waiting: Stack, discovered: seq<bool>, discovery: seq<nat>,
                 pre: seq<nat>, post: seq<nat>, stack: Stack, up: Links, b: nat)
    requires OnTrace(g, root, marks, pre, post, waiting) && waiting != [] && waiting[|waiting| - 1] == (b, false)
    requires b < |g| && SearchInv(g, root, discovered, post, stack, up, None)
    requires stack == waiting[..|waiting| - 1] + [(b, true)] + Waiting(Kids(g[b], Marks(marks)))
    requires Marks(discovered) == Marks(marks) + Members(g[b])
    requires var opened0 := waiting[..|waiting| - 1] + [(b, true)];
             && Visited(root, discovery, post, opened0) && Entered(root, discovery, pre + [b], post, opened0)
             && forall x: nat :: ExpandedBelow(stack, |stack|, x) <==> ExpandedBelow(opened0, |opened0|, x)
    ensures Searching(g, root, discovered, discovery, pre + [b], post, stack, up)
  {
    StackInside(g, discovered, post, stack);
    OpenTrace(g, root, marks, pre, post, waiting, b, discovered, stack);
    var opened0 := waiting[..|waiting| - 1] + [(b, true)];
    assert forall x: nat :: Expanded(post, stack, x) <==> Expanded(post, opened0, x);
  }

  // ------------------------------------------------------------ the numbering

  /** Reverse postorder numbers; unreached blocks have none. */
  method NumberReverse(post: seq<nat>, n: nat) returns (rpo: seq<nat>, num: seq<int>)
    requires forall i :: 0 <= i < |post| ==> post[i] < n
    requires forall i, j :: 0 <= i < j < |post| ==> post[i] != post[j]
    ensures Reversed(post, rpo, num) && |num| == n
  {
    rpo := seq(|post|, i requires 0 <= i < |post| => post[|post| - 1 - i]);
    num := seq(n, _ => UNSET);
    for i := 0 to |rpo|
      invariant |num| == n && forall k :: 0 <= k < i ==> num[rpo[k]] == k
      invariant forall b :: 0 <= b < n ==>
                  if b in rpo[..i] then 0 <= num[b] < i && rpo[num[b]] == b else num[b] == UNSET
    {
      assert rpo[..i + 1] == rpo[..i] + [rpo[i]];
      num := num[rpo[i] := i];
    }
    assert rpo[..|rpo|] == rpo;
    forall b | 0 <= b < n ensures b in post <==> b in rpo {
      if b in post {
        var i :| 0 <= i < |post| && post[i] == b;
        assert rpo[|post| - 1 - i] == b;
      }
    }
  }

  /** The edge at place `k` of the row of `u` leads to `b`. */
  ghost predicate EdgeAt(g: Succs, u: nat, k: nat, b: nat) {
    u < |g| && k < |g[u]| && g[u][k] == b
  }

  /** Every row has one entry for each edge occurrence counted. */
  ghost predicate Counts(arrivals: seq<set<(nat, nat)>>, preds: seq<seq<nat>>) {
    |arrivals| == |preds| && forall b :: 0 <= b < |preds| ==> |preds[b]| == |arrivals[b]|
  }

  /** The counted occurrences into `b`: those of discovered blocks before `u`, and of `u` before place `k`. */
  ghost predicate ArrivalsUpTo(g: Succs, discovered: seq<bool>, u: nat, k: nat, b: nat, pairs: set<(nat, nat)>)
    requires |discovered| == |g| && b < |g|
  {
    forall x: nat, i: nat :: (x, i) in pairs <==>
      x < |g| && (x < u || (x == u && i < k)) && discovered[x] && discovered[b] && EdgeAt(g, x, i, b)
  }

  /** Discovered predecessors of discovered blocks, one entry for every edge. */
  method DiscoveredPredecessors(g: Succs, discovered: seq<bool>)
      returns (preds: seq<seq<nat>>, ghost arrivals: seq<set<(nat, nat)>>)
    requires Wellformed(g) && |discovered| == |g|
    ensures IsPreds(g, discovered, preds) && Counts(arrivals, preds)
    ensures forall b: nat :: b < |g| ==> ArrivalsUpTo(g, discovered, |g|, 0, b, arrivals[b])
  {
    preds := seq(|g|, _ => []);
    arrivals := seq(|g|, _ => {});
    for block := 0 to |g|
      invariant |preds| == |g| && Counts(arrivals, preds)
      invariant forall b: nat :: b < |g| ==> SourcesUpTo(g, discovered, block, b, preds[b])
      invariant forall b: nat :: b < |g| ==> ArrivalsUpTo(g, discovered, block, 0, b, arrivals[b])
    {
      ghost var before := preds;
      if discovered[block] {
        preds, arrivals := AddSuccessors(g, discovered, block, preds, arrivals);
      }
      forall b: nat | b < |g| ensures SourcesUpTo(g, discovered, block + 1, b, preds[b]) {
        NextSources(g, discovered, block, b, before[b], preds[b]);
      }
      forall b: nat | b < |g| ensures ArrivalsUpTo(g, discovered, block + 1, 0, b, arrivals[b]) {
        NextRow(g, discovered, block, b, arrivals[b]);
      }
    }
    assert forall b: nat :: b < |g| ==> SourcesUpTo(g, discovered, |g|, b, preds[b]);
  }

  ghost predicate SourcesUpTo(g: Succs, discovered: seq<bool>, n: nat, b: nat, row: seq<nat>)
    requires |discovered| == |g| && b < |g|
  {
    forall u: nat :: u in row <==> u < n && Edge(g, u, b) && discovered[u] && discovered[b]
  }

  lemma NextSources(g: Succs, discovered: seq<bool>, block: nat, b: nat, before: seq<nat>, after: seq<nat>)
    requires |discovered| == |g| && b < |g| && block < |g| && SourcesUpTo(g, discovered, block, b, before)
    requires forall u: nat ::
               u in after <==> u in before || (u == block && discovered[block] && Edge(g, u, b) && discovered[b])
    ensures SourcesUpTo(g, discovered, block + 1, b, after)
  {
  }

  lemma NextRow(g: Succs, discovered: seq<bool>, block: nat, b: nat, pairs: set<(nat, nat)>)
    requires |discovered| == |g| && block < |g| && b < |g|
    requires ArrivalsUpTo(g, discovered, block, if discovered[block] then |g[block]| else 0, b, pairs)
    ensures ArrivalsUpTo(g, discovered, block + 1, 0, b, pairs)
  {
  }

  method AddSuccessors(g: Succs, discovered: seq<bool>, block: nat, preds0: seq<seq<nat>>,
      ghost arrivals0: seq<set<(nat, nat)>>) returns (preds: seq<seq<nat>>, ghost arrivals: seq<set<(nat, nat)>>)
    requires Wellformed(g) && |discovered| == |preds0| == |g| && block < |g| && discovered[block]
    requires Counts(arrivals0, preds0)
    requires forall b: nat :: b < |g| ==> ArrivalsUpTo(g, discovered, block, 0, b, arrivals0[b])
    ensures |preds| == |g| && Counts(arrivals, preds)
    ensures forall b: nat :: b < |g| ==> ArrivalsUpTo(g, discovered, block, |g[block]|, b, arrivals[b])
    ensures forall b: nat, u: nat :: b < |g| ==>
              (u in preds[b] <==> u in preds0[b] || (u == block && Edge(g, u, b) && discovered[b]))
  {
    preds, arrivals := preds0, arrivals0;
    var row := g[block];
    for k := 0 to |row|
      invariant |preds| == |g| && Counts(arrivals, preds)
      invariant forall b: nat :: b < |g| ==> ArrivalsUpTo(g, discovered, block, k, b, arrivals[b])
      invariant forall b: nat, u: nat :: b < |g| ==>
                  (u in preds[b] <==> u in preds0[b] || (u == block && b in row[..k] && discovered[b]))
    {
      assert row[..k + 1] == row[..k] + [row[k]] && row[k] in row;
      var s := row[k];
      ghost var counted := arrivals;
      if discovered[s] {
        assert ArrivalsUpTo(g, discovered, block, k, s, arrivals[s]);
        arrivals := arrivals[s := arrivals[s] + {(block, k)}];
        preds := preds[s := preds[s] + [block]];
      }
      forall b: nat | b < |g| ensures ArrivalsUpTo(g, discovered, block, k + 1, b, arrivals[b]) {
        NextEdge(g, discovered, block, k, b, counted[b]);
      }
    }
    assert row[..|row|] == row;
  }

  lemma NextEdge(g: Succs, discovered: seq<bool>, block: nat, k: nat, b: nat, pairs: set<(nat, nat)>)
    requires |discovered| == |g| && block < |g| && b < |g| && discovered[block] && k < |g[block]|
    requires ArrivalsUpTo(g, discovered, block, k, b, pairs)
    ensures ArrivalsUpTo(g, discovered, block, k + 1, b,
                         if g[block][k] == b && discovered[b] then pairs + {(block, k)} else pairs)
  {
  }

  lemma DiscoveredIsReached(g: Succs, root: nat, discovered: seq<bool>, post: seq<nat>, up: Links, b: nat)
    requires SearchInv(g, root, discovered, post, [], up, None) && b < |g|
    ensures b in post <==> Reach(g, root, b)
    ensures discovered[b] <==> Reach(g, root, b)
  {
    assert !Listed([], b);
    if Reach(g, root, b) {
      var p :| PathFromTo(g, p, root, b);
      PathDiscovered(g, root, discovered, post, up, p);
    }
  }

  lemma {:induction false} PathDiscovered(g: Succs, root: nat, discovered: seq<bool>, post: seq<nat>, up: Links,
      p: seq<nat>)
    requires SearchInv(g, root, discovered, post, [], up, None) && IsPath(g, p) && p[0] == root
    ensures discovered[p[|p| - 1]]
    decreases |p|
  {
    var k := |p| - 1;
    if k > 0 {
      var rest := p[..k];
      assert IsPath(g, rest);
      PathDiscovered(g, root, discovered, post, up, rest);
      var u := rest[k - 1];
      assert u == p[k - 1] && Edge(g, p[k - 1], p[k]);
      assert !Listed([], u);
      assert Expanded(post, [], u);
    }
  }

  ghost predicate Reversed(post: seq<nat>, rpo: seq<nat>, num: seq<int>) {
    && |rpo| == |post|
    && (forall i :: 0 <= i < |rpo| ==> rpo[i] == post[|post| - 1 - i] && rpo[i] < |num| && num[rpo[i]] == i)
    && forall b :: 0 <= b < |num| ==> if b in post then 0 <= num[b] < |post| && rpo[num[b]] == b else num[b] == UNSET
  }

  ghost predicate IsPreds(g: Succs, discovered: seq<bool>, preds: seq<seq<nat>>) {
    && |preds| == |discovered| == |g|
    && forall b: nat, u: nat :: b < |g| ==> (u in preds[b] <==> Edge(g, u, b) && discovered[u] && discovered[b])
  }

  /** The finished traversal is a numbering the iteration can work with. */
  lemma SearchIsOrder(g: Succs, root: nat, discovered: seq<bool>, post: seq<nat>, up: Links, rpo: seq<nat>,
      num: seq<int>, preds: seq<seq<nat>>)
    requires SearchInv(g, root, discovered, post, [], up, None) && Reversed(post, rpo, num) && |num| == |g|
    requires IsPreds(g, discovered, preds)
    ensures IsNumbering(Order(g, root, num, up, preds), rpo)
  {
    var o := Order(g, root, num, up, preds);
    forall b: nat | b < |g| ensures discovered[b] == Seen(o, b) && (Seen(o, b) <==> Reach(g, root, b)) {
      DiscoveredIsReached(g, root, discovered, post, up, b);
    }
    SearchIsDown(g, root, discovered, post, up, rpo, num);
    forall b: nat | b < |g| ensures UpOk(o, b) {
      if Seen(o, b) && b != root {
        assert ParentOk(g, post, [], up, b);
      }
    }
    forall b: nat | b < |g| ensures PredsOk(o, b) {
    }
    assert rpo[0] == root;
    NoParent(g, root, discovered, post, [], up, root);
    forall i | 0 <= i < |rpo| ensures Seen(o, rpo[i]) {
    }
  }

  lemma SearchIsDown(g: Succs, root: nat, discovered: seq<bool>, post: seq<nat>, up: Links, rpo: seq<nat>,
      num: seq<int>)
    requires SearchInv(g, root, discovered, post, [], up, None) && Reversed(post, rpo, num) && |num| == |g|
    ensures Down(up, num)
  {
    forall b: nat | b < |g| && up[b].Some? ensures up[b].value < |g| && 0 <= num[up[b].value] < num[b] {
      if !discovered[b] || b == root {
        NoParent(g, root, discovered, post, [], up, b);
      } else {
        assert ParentOk(g, post, [], up, b);
        DiscoveredIsReached(g, root, discovered, post, up, b);
        NumberedBelow(g, post, up, rpo, num, b);
      }
    }
  }

  lemma NumberedBelow(g: Succs, post: seq<nat>, up: Links, rpo: seq<nat>, num: seq<int>, b: nat)
    requires b < |up| && ParentOk(g, post, [], up, b) && b in post && Reversed(post, rpo, num) && |num| == |g|
    ensures up[b].value < |g| && 0 <= num[up[b].value] < num[b]
  {
    var i :| 0 <= i < |post| && post[i] == b;
    assert !ExpandedBelow([], 0, up[b].value);
    assert After(post, i, up[b].value);
    var j :| i < j < |post| && post[j] == up[b].value;
    assert rpo[|post| - 1 - i] == b && rpo[|post| - 1 - j] == up[b].value;
  }
}
