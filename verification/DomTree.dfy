/** Dominator trees: entry and exit times that answer dominance queries. */
module DomTree {
  import opened CfgErrors

  /** Marks a block without a time; stands for the largest machine word. */
  const UNSET := -1

  datatype DominatorTree = DominatorTree(
    idom: seq<Option<nat>>, children: seq<seq<nat>>, enter: seq<int>, exit: seq<int>, depth: seq<int>)
  {
    predicate Dominates(a: nat, b: nat) {
      && a < |enter| && a < |exit| && b < |enter| && b < |exit|
      && enter[a] != UNSET && enter[b] != UNSET
      && enter[a] <= enter[b] && exit[b] <= exit[a]
    }
  }

  type Links = seq<Option<nat>>

  /** The `k`-th block up the parent links. */
  ghost function Up(idom: Links, b: nat, k: nat): (r: Option<nat>)
    decreases k
  {
    if b >= |idom| then None
    else if k == 0 then Some(b)
    else if idom[b].None? then None
    else Up(idom, idom[b].value, k - 1)
  }

  ghost predicate Above(idom: Links, a: nat, b: nat) {
    exists k: nat :: Up(idom, b, k) == Some(a)
  }

  /** What construction accepts: a parentless root and parents in range. */
  predicate LinksOk(idom: Links, root: nat) {
    && root < |idom| && idom[root].None?
    && forall b :: 0 <= b < |idom| && idom[b].Some? ==> idom[b].value < |idom|
  }

  ghost predicate IsChild(idom: Links, root: nat, p: nat, c: nat) {
    c < |idom| && c != root && idom[c] == Some(p)
  }

  /** Child lists, in ascending order, of the parent links of the blocks below `n`. */
  ghost predicate ChildrenUpTo(idom: Links, root: nat, children: seq<seq<nat>>, n: nat) {
    && |children| == |idom|
    && (forall p: nat, c: nat :: p < |children| ==> (c in children[p] <==> c < n && IsChild(idom, root, p, c)))
    && forall p, i, j :: 0 <= p < |children| && 0 <= i < j < |children[p]| ==> children[p][i] < children[p][j]
  }

  ghost predicate ChildrenOf(idom: Links, root: nat, children: seq<seq<nat>>) {
    ChildrenUpTo(idom, root, children, |idom|)
  }

  datatype Visit = Arrive(block: nat, depth: nat) | Leave(block: nat)

  datatype Times = Times(enter: seq<int>, exit: seq<int>, depth: seq<int>)

  ghost predicate Sized(idom: Links, t: Times, anc: seq<set<nat>>) {
    |t.enter| == |t.exit| == |t.depth| == |idom| == |anc|
  }

  ghost predicate Entered(t: Times, b: nat) { b < |t.enter| && t.enter[b] != UNSET }

  ghost predicate Closed(t: Times, b: nat) { b < |t.exit| && t.exit[b] != UNSET }

  /** Facts about one entered block. */
  ghost predicate BlockOk(idom: Links, root: nat, children: seq<seq<nat>>, t: Times, anc: seq<set<nat>>, time: int,
      b: nat)
    requires Sized(idom, t, anc) && b < |idom| && |children| == |idom|
  {
    && 0 <= t.enter[b] < time && b in anc[b]
    && (Closed(t, b) ==> t.enter[b] < t.exit[b] < time && forall c :: c in children[b] ==> Closed(t, c))
    && (if b == root then anc[b] == {root} && t.depth[b] == 0
        else idom[b].Some? && var p := idom[b].value;
          && Entered(t, p) && t.enter[p] < t.enter[b] && anc[b] == anc[p] + {b} && t.depth[b] == t.depth[p] + 1
          && (Closed(t, p) ==> Closed(t, b) && t.exit[b] < t.exit[p]))
  }

  ghost predicate Blocks(idom: Links, root: nat, children: seq<seq<nat>>, t: Times, anc: seq<set<nat>>, time: int) {
    && Sized(idom, t, anc) && |children| == |idom|
    && (forall b: nat :: Closed(t, b) ==> Entered(t, b))
    && (forall b: nat :: b < |idom| && !Entered(t, b) ==> t.depth[b] == UNSET)
    && forall b: nat {:trigger BlockOk(idom, root, children, t, anc, time, b)} ::
         Entered(t, b) ==> BlockOk(idom, root, children, t, anc, time, b)
  }

  ghost predicate DistinctTimes(t: Times) {
    forall x: nat, y: nat :: Entered(t, x) && Entered(t, y) && x != y ==> t.enter[x] != t.enter[y]
  }

  /** Two entered blocks are nested or follow each other. */
  ghost predicate NestedOrLater(t: Times, anc: seq<set<nat>>) {
    && |t.enter| == |t.exit| == |anc|
    && forall x: nat, y: nat :: Entered(t, x) && Entered(t, y) && t.enter[x] < t.enter[y] ==>
         x in anc[y] || (Closed(t, x) && t.exit[x] < t.enter[y])
  }

  ghost predicate AncestorsFirst(t: Times, anc: seq<set<nat>>) {
    && |t.enter| == |t.exit| == |anc|
    && forall x: nat, y: nat :: Entered(t, y) && x in anc[y] ==> Entered(t, x) && t.enter[x] <= t.enter[y]
  }

  ghost predicate Nested(t: Times, anc: seq<set<nat>>) {
    DistinctTimes(t) && NestedOrLater(t, anc) && AncestorsFirst(t, anc)
  }

  /** An entry awaits below its open parent; an exit belongs to an open block. */
  ghost predicate EventOk(idom: Links, root: nat, t: Times, e: Visit) {
    match e
    case Leave(b) => Entered(t, b) && !Closed(t, b)
    case Arrive(b, d) =>
      && b < |idom| && !Entered(t, b)
      && if b == root then d == 0
         else idom[b].Some? && Entered(t, idom[b].value) && idom[b].value < |t.depth| && d == t.depth[idom[b].value] + 1
  }

  /** The block an event descends from, itself included once entered. */
  ghost function Path(idom: Links, root: nat, anc: seq<set<nat>>, e: Visit): set<nat> {
    match e
    case Leave(b) => if b < |anc| then anc[b] else {}
    case Arrive(b, _) =>
      if b != root && b < |idom| && idom[b].Some? && idom[b].value < |anc| then anc[idom[b].value] else {}
  }

  ghost predicate StackOk(idom: Links, root: nat, t: Times, anc: seq<set<nat>>, events: seq<Visit>) {
    && (forall i :: 0 <= i < |events| ==> EventOk(idom, root, t, events[i]))
    && (forall i, j :: 0 <= i < j < |events| ==> events[i].block != events[j].block)
    && forall i, j :: 0 <= i < j < |events| && events[i].Leave? ==> events[i].block in Path(idom, root, anc, events[j])
  }

  ghost predicate Pending(events: seq<Visit>, i: int, c: nat) {
    exists j :: i < j < |events| && 0 <= j && events[j].Arrive? && events[j].block == c
  }

  /** An open block awaits its exit, and its children are entered or await entry above it. */
  ghost predicate OpenOk(kids: seq<nat>, t: Times, events: seq<Visit>, b: nat) {
    exists i :: 0 <= i < |events| && events[i] == Leave(b) && forall c :: c in kids ==>
         Entered(t, c) || Pending(events, i, c)
  }

  ghost predicate Covered(children: seq<seq<nat>>, t: Times, events: seq<Visit>) {
    forall b: nat {:trigger OpenOk(children[b], t, events, b)} ::
      b < |children| && Entered(t, b) && !Closed(t, b) ==> OpenOk(children[b], t, events, b)
  }

  ghost predicate Inv(idom: Links, root: nat, children: seq<seq<nat>>, t: Times, anc: seq<set<nat>>, time: int,
      events: seq<Visit>) {
    && time >= 0 && Blocks(idom, root, children, t, anc, time) && Nested(t, anc)
    && StackOk(idom, root, t, anc, events) && Covered(children, t, events)
  }

  function Enters(kids: seq<nat>, depth: nat): (r: seq<Visit>)
    ensures |r| == |kids| && forall i :: 0 <= i < |kids| ==> r[i] == Arrive(kids[|kids| - 1 - i], depth)
  {
    seq(|kids|, i requires 0 <= i < |kids| => Arrive(kids[|kids| - 1 - i], depth))
  }

  ghost function EnterTimes(t: Times, b: nat, d: nat, time: int): Times
    requires b < |t.enter| && b < |t.depth|
  {
    t.(enter := t.enter[b := time], depth := t.depth[b := d])
  }

  ghost function EnterAnc(idom: Links, root: nat, anc: seq<set<nat>>, b: nat): seq<set<nat>>
    requires b < |anc| == |idom|
  {
    anc[b := (if b != root && idom[b].Some? && idom[b].value < |anc| then anc[idom[b].value] else {}) + {b}]
  }

  /** Every open block is on the path of the event about to be handled. */
  lemma OpenOnPath(idom: Links, root: nat, children: seq<seq<nat>>, t: Times, anc: seq<set<nat>>, events: seq<Visit>)
    requires StackOk(idom, root, t, anc, events) && Covered(children, t, events) && events != []
    ensures forall x: nat :: x < |children| && Entered(t, x) && !Closed(t, x) ==>
      x in Path(idom, root, anc, events[|events| - 1]) || events[|events| - 1] == Leave(x)
  {
    forall x: nat | x < |children| && Entered(t, x) && !Closed(t, x)
      ensures x in Path(idom, root, anc, events[|events| - 1]) || events[|events| - 1] == Leave(x)
    {
      assert OpenOk(children[x], t, events, x);
      var i :| 0 <= i < |events| && events[i] == Leave(x);
    }
  }

  /** The parent of a block about to be entered is still open. */
  lemma ParentOpen(idom: Links, root: nat, children: seq<seq<nat>>, t: Times, anc: seq<set<nat>>, time: int, b: nat,
      d: nat)
    requires Blocks(idom, root, children, t, anc, time) && ChildrenOf(idom, root, children)
    requires EventOk(idom, root, t, Arrive(b, d)) && b != root
    ensures !Closed(t, idom[b].value)
  {
    var p := idom[b].value;
    assert BlockOk(idom, root, children, t, anc, time, p);
    assert b in children[p];
  }

  lemma EnterBlocks(idom: Links, root: nat, children: seq<seq<nat>>, t: Times, anc: seq<set<nat>>, time: int, b: nat,
      d: nat)
    requires Blocks(idom, root, children, t, anc, time) && time >= 0
    requires EventOk(idom, root, t, Arrive(b, d))
    requires b != root ==> !Closed(t, idom[b].value)
    ensures Blocks(idom, root, children, EnterTimes(t, b, d, time), EnterAnc(idom, root, anc, b), time + 1)
  {
    var t', anc' := EnterTimes(t, b, d, time), EnterAnc(idom, root, anc, b);
    forall x: nat | x < |idom| && !Entered(t', x) ensures t'.depth[x] == UNSET {
      assert !Entered(t, x);
    }
    forall x: nat | Closed(t', x) ensures Entered(t', x) {
      assert Closed(t, x) && Entered(t, x);
    }
    forall x: nat | Entered(t', x) ensures BlockOk(idom, root, children, t', anc', time + 1, x) {
      if x != b {
        assert Entered(t, x);
        assert BlockOk(idom, root, children, t, anc, time, x);
      } else if b != root {
        var p := idom[b].value;
        assert BlockOk(idom, root, children, t, anc, time, p);
      }
    }
  }

  lemma EnterDistinct(idom: Links, root: nat, children: seq<seq<nat>>, t: Times, anc: seq<set<nat>>, time: int,
      b: nat, d: nat)
    requires Blocks(idom, root, children, t, anc, time) && DistinctTimes(t) && time >= 0
    requires b < |t.enter| && b < |t.depth| && !Entered(t, b)
    ensures DistinctTimes(EnterTimes(t, b, d, time))
  {
    var t' := EnterTimes(t, b, d, time);
    forall x: nat, y: nat | Entered(t', x) && Entered(t', y) && x != y ensures t'.enter[x] != t'.enter[y] {
      assert x == b || Entered(t, x);
      assert y == b || Entered(t, y);
      assert x == b || BlockOk(idom, root, children, t, anc, time, x);
      assert y == b || BlockOk(idom, root, children, t, anc, time, y);
    }
  }

  lemma EnterNestedOrLater(idom: Links, root: nat, t: Times, anc: seq<set<nat>>, time: int, b: nat, d: nat)
    requires NestedOrLater(t, anc) && Sized(idom, t, anc) && time >= 0
    requires forall x: nat :: Entered(t, x) ==> t.enter[x] < time && (Closed(t, x) ==> t.exit[x] < time)
    requires b < |anc| && !Entered(t, b)
    requires forall x: nat :: Entered(t, x) && !Closed(t, x) ==> x in Path(idom, root, anc, Arrive(b, d))
    ensures NestedOrLater(EnterTimes(t, b, d, time), EnterAnc(idom, root, anc, b))
  {
    var t', anc' := EnterTimes(t, b, d, time), EnterAnc(idom, root, anc, b);
    forall x: nat, y: nat | Entered(t', x) && Entered(t', y) && t'.enter[x] < t'.enter[y]
      ensures x in anc'[y] || (Closed(t', x) && t'.exit[x] < t'.enter[y])
    {
      assert x == b || Entered(t, x);
      assert y == b || Entered(t, y);
    }
  }

  lemma EnterAncestorsFirst(idom: Links, root: nat, t: Times, anc: seq<set<nat>>, time: int, b: nat, d: nat)
    requires AncestorsFirst(t, anc) && Sized(idom, t, anc) && time >= 0
    requires forall x: nat :: Entered(t, x) ==> t.enter[x] < time
    requires EventOk(idom, root, t, Arrive(b, d))
    ensures AncestorsFirst(EnterTimes(t, b, d, time), EnterAnc(idom, root, anc, b))
  {
    var t', anc' := EnterTimes(t, b, d, time), EnterAnc(idom, root, anc, b);
    forall x: nat, y: nat | Entered(t', y) && x in anc'[y] ensures Entered(t', x) && t'.enter[x] <= t'.enter[y] {
      if y != b {
        assert Entered(t, y) && x in anc[y];
      } else if x != b {
        assert Entered(t, idom[b].value) && x in anc[idom[b].value];
      }
      assert x == b || Entered(t, x);
    }
  }

  lemma EnterNested(idom: Links, root: nat, children: seq<seq<nat>>, t: Times, anc: seq<set<nat>>, time: int, b: nat,
      d: nat)
    requires Blocks(idom, root, children, t, anc, time) && Nested(t, anc) && time >= 0
    requires EventOk(idom, root, t, Arrive(b, d))
    requires forall x: nat :: x < |children| && Entered(t, x) && !Closed(t, x) ==>
               x in Path(idom, root, anc, Arrive(b, d))
    ensures Nested(EnterTimes(t, b, d, time), EnterAnc(idom, root, anc, b))
  {
    EnterDistinct(idom, root, children, t, anc, time, b, d);
    forall x: nat | Entered(t, x) ensures t.enter[x] < time && (Closed(t, x) ==> t.exit[x] < time) {
      assert BlockOk(idom, root, children, t, anc, time, x);
    }
    EnterNestedOrLater(idom, root, t, anc, time, b, d);
    EnterAncestorsFirst(idom, root, t, anc, time, b, d);
  }

  lemma FreshChildren(idom: Links, root: nat, children: seq<seq<nat>>, t: Times, anc: seq<set<nat>>, time: int,
      events: seq<Visit>, b: nat)
    requires Blocks(idom, root, children, t, anc, time) && ChildrenOf(idom, root, children)
    requires b < |children| && !Entered(t, b) && (b != root ==> idom[b].Some? && Entered(t, idom[b].value))
    requires forall i :: 0 <= i < |events| ==> EventOk(idom, root, t, events[i])
    ensures forall c :: c in children[b] ==>
              !Entered(t, c) && c != b && forall i :: 0 <= i < |events| ==> events[i].block != c || events[i].block == b
  {
    forall c | c in children[b]
      ensures !Entered(t, c) && c != b && forall i :: 0 <= i < |events| ==> events[i].block != c || events[i].block == b
    {
      assert c < |idom| && idom[c] == Some(b);
      assert Entered(t, c) ==> BlockOk(idom, root, children, t, anc, time, c);
      forall i | 0 <= i < |events| ensures events[i].block != c || events[i].block == b {
        assert EventOk(idom, root, t, events[i]);
      }
    }
  }

  lemma EnterEvents(idom: Links, root: nat, children: seq<seq<nat>>, t: Times, anc: seq<set<nat>>, time: int,
      events: seq<Visit>, b: nat, d: nat)
    requires StackOk(idom, root, t, anc, events) && Sized(idom, t, anc) && time >= 0
    requires (forall b: nat :: Closed(t, b) ==> Entered(t, b)) && ChildrenOf(idom, root, children)
    requires events != [] && events[|events| - 1] == Arrive(b, d) && b < |children|
    requires forall c :: c in children[b] ==> !Entered(t, c) && c != b && forall i :: 0 <= i < |events| ==>
               events[i].block != c || events[i].block == b
    ensures b < |t.enter|
    ensures StackOk(idom, root, EnterTimes(t, b, d, time), EnterAnc(idom, root, anc, b),
                    events[..|events| - 1] + [Leave(b)] + Enters(children[b], d + 1))
  {
    var top := |events| - 1;
    assert EventOk(idom, root, t, events[top]);
    var t', anc' := EnterTimes(t, b, d, time), EnterAnc(idom, root, anc, b);
    var kids := Enters(children[b], d + 1);
    var events' := events[..top] + [Leave(b)] + kids;
    forall i | 0 <= i < |events'|
      ensures i < top ==> events'[i] == events[i] && events[i].block != b
      ensures i == top ==> events'[i] == Leave(b)
      ensures i > top ==> events'[i] == Arrive(children[b][|children[b]| - 1 - (i - top - 1)], d + 1)
      ensures i > top ==> events'[i].block in children[b]
    {
      if i > top {
        assert events'[i] == kids[i - top - 1];
      }
    }
    forall i | 0 <= i < |events'| ensures EventOk(idom, root, t', events'[i]) {
      if i < top {
        assert EventOk(idom, root, t, events[i]);
      }
    }
    forall i, j | 0 <= i < j < |events'| ensures events'[i].block != events'[j].block {
      if i < top && j > top {
        assert events[i].block != events'[j].block;
      }
    }
    EnterPaths(idom, root, children, t, anc, events, b, d, events');
  }

  lemma EnterPaths(idom: Links, root: nat, children: seq<seq<nat>>, t: Times, anc: seq<set<nat>>, events: seq<Visit>,
      b: nat, d: nat, events': seq<Visit>)
    requires StackOk(idom, root, t, anc, events) && Sized(idom, t, anc) && ChildrenOf(idom, root, children)
    requires events != [] && events[|events| - 1] == Arrive(b, d) && b < |children|
    requires |events'| >= |events|
    requires forall i :: 0 <= i < |events| - 1 ==> events'[i] == events[i]
    requires events'[|events| - 1] == Leave(b)
    requires forall i :: |events| <= i < |events'| ==> events'[i].Arrive? && events'[i].block in children[b]
    ensures forall i, j :: 0 <= i < j < |events'| && events'[i].Leave? ==>
      events'[i].block in Path(idom, root, EnterAnc(idom, root, anc, b), events'[j])
  {
    var top := |events| - 1;
    assert EventOk(idom, root, t, events[top]);
    forall i, j | 0 <= i < j < |events'| && events'[i].Leave?
      ensures events'[i].block in Path(idom, root, EnterAnc(idom, root, anc, b), events'[j])
    {
      if i < top {
        assert events[i].block in Path(idom, root, anc, events[if j < top then j else top]);
        if j < top {
          assert EventOk(idom, root, t, events[j]);
        }
      }
    }
  }

  lemma EnterStep(idom: Links, root: nat, children: seq<seq<nat>>, t: Times, anc: seq<set<nat>>, time: int,
      events: seq<Visit>, b: nat, d: nat)
    requires Inv(idom, root, children, t, anc, time, events) && ChildrenOf(idom, root, children)
    requires events != [] && events[|events| - 1] == Arrive(b, d)
    ensures b < |children| && b < |t.enter| && b < |t.depth| && b < |anc| && !Entered(t, b)
    ensures Inv(idom, root, children, EnterTimes(t, b, d, time), EnterAnc(idom, root, anc, b), time + 1,
                events[..|events| - 1] + [Leave(b)] + Enters(children[b], d + 1))
  {
    assert EventOk(idom, root, t, events[|events| - 1]);
    if b != root {
      ParentOpen(idom, root, children, t, anc, time, b, d);
    }
    OpenOnPath(idom, root, children, t, anc, events);
    EnterBlocks(idom, root, children, t, anc, time, b, d);
    EnterNested(idom, root, children, t, anc, time, b, d);
    FreshChildren(idom, root, children, t, anc, time, events, b);
    EnterEvents(idom, root, children, t, anc, time, events, b, d);
    EnterCovered(children, t, time, events, b, d);
  }

  lemma EnterCovered(children: seq<seq<nat>>, t: Times, time: int, events: seq<Visit>, b: nat, d: nat)
    requires Covered(children, t, events) && time >= 0
    requires events != [] && events[|events| - 1] == Arrive(b, d)
    requires b < |children| && b < |t.enter| && b < |t.depth|
    ensures Covered(children, EnterTimes(t, b, d, time),
              events[..|events| - 1] + [Leave(b)] + Enters(children[b], d + 1))
  {
    var top := |events| - 1;
    var t' := EnterTimes(t, b, d, time);
    var kids := Enters(children[b], d + 1);
    var events' := events[..top] + [Leave(b)] + kids;
    forall x: nat | x < |children| && Entered(t', x) && !Closed(t', x) ensures OpenOk(children[x], t', events', x) {
      if x == b {
        assert events'[top] == Leave(b);
        forall c | c in children[b] ensures Pending(events', top, c) {
          var k :| 0 <= k < |children[b]| && children[b][k] == c;
          assert events'[top + |children[b]| - k] == kids[|children[b]| - 1 - k];
        }
      } else {
        assert OpenOk(children[x], t, events, x);
        var i :|
          && 0 <= i < |events| && events[i] == Leave(x)
          && forall c :: c in children[x] ==> Entered(t, c) || Pending(events, i, c);
        assert events'[i] == Leave(x);
        forall c | c in children[x] ensures Entered(t', c) || Pending(events', i, c) {
          if !Entered(t', c) {
            var j :| i < j < |events| && 0 <= j && events[j].Arrive? && events[j].block == c;
            assert events'[j] == events[j];
          }
        }
      }
    }
  }

  /** When a block is left, all its children have been left before. */
  lemma KidsClosed(idom: Links, root: nat, children: seq<seq<nat>>, t: Times, anc: seq<set<nat>>, time: int,
      events: seq<Visit>, b: nat)
    requires Blocks(idom, root, children, t, anc, time) && Nested(t, anc) && ChildrenOf(idom, root, children)
    requires StackOk(idom, root, t, anc, events) && Covered(children, t, events)
    requires events != [] && events[|events| - 1] == Leave(b)
    ensures b < |children| && forall c :: c in children[b] ==> Closed(t, c)
  {
    var top := |events| - 1;
    assert EventOk(idom, root, t, events[top]);
    OpenOnPath(idom, root, children, t, anc, events);
    forall c | c in children[b] ensures Closed(t, c) {
      assert OpenOk(children[b], t, events, b);
      var i :|
        && 0 <= i < |events| && events[i] == Leave(b)
        && forall c :: c in children[b] ==> Entered(t, c) || Pending(events, i, c);
      assert i == top && Entered(t, c);
      assert BlockOk(idom, root, children, t, anc, time, c);
    }
  }

  lemma ExitBlocks(idom: Links, root: nat, children: seq<seq<nat>>, t: Times, anc: seq<set<nat>>, time: int, b: nat)
    requires Blocks(idom, root, children, t, anc, time) && ChildrenOf(idom, root, children) && time >= 0
    requires Entered(t, b) && !Closed(t, b) && b < |t.exit| && b < |children|
    requires forall c :: c in children[b] ==> Closed(t, c)
    ensures Blocks(idom, root, children, t.(exit := t.exit[b := time]), anc, time + 1)
  {
    var t' := t.(exit := t.exit[b := time]);
    assert BlockOk(idom, root, children, t, anc, time, b);
    forall x: nat | x < |idom| && !Entered(t', x) ensures t'.depth[x] == UNSET {
      assert !Entered(t, x);
    }
    forall x: nat | Closed(t', x) ensures Entered(t', x) {
      assert Closed(t, x) || x == b;
      assert Entered(t, x);
    }
    forall x: nat | Entered(t', x) ensures BlockOk(idom, root, children, t', anc, time + 1, x) {
      assert Entered(t, x);
      assert BlockOk(idom, root, children, t, anc, time, x);
      if x != root && idom[x].value == b {
        assert x in children[b];
      }
    }
  }

  lemma ExitNested(t: Times, anc: seq<set<nat>>, time: int, b: nat)
    requires Nested(t, anc) && time >= 0 && b < |t.exit| && !Closed(t, b)
    ensures Nested(t.(exit := t.exit[b := time]), anc)
  {
    var t' := t.(exit := t.exit[b := time]);
    forall x: nat, y: nat | Entered(t', x) && Entered(t', y) && x != y ensures t'.enter[x] != t'.enter[y] {
      assert Entered(t, x) && Entered(t, y);
    }
    forall x: nat, y: nat | Entered(t', x) && Entered(t', y) && t'.enter[x] < t'.enter[y]
      ensures x in anc[y] || (Closed(t', x) && t'.exit[x] < t'.enter[y])
    {
      assert Entered(t, x) && Entered(t, y);
    }
    forall x: nat, y: nat | Entered(t', y) && x in anc[y] ensures Entered(t', x) && t'.enter[x] <= t'.enter[y] {
      assert Entered(t, y) && Entered(t, x);
    }
  }

  lemma ExitEvents(idom: Links, root: nat, t: Times, anc: seq<set<nat>>, time: int, events: seq<Visit>, b: nat)
    requires StackOk(idom, root, t, anc, events)
    requires events != [] && events[|events| - 1] == Leave(b) && b < |t.exit|
    ensures StackOk(idom, root, t.(exit := t.exit[b := time]), anc, events[..|events| - 1])
  {
    var t' := t.(exit := t.exit[b := time]);
    var events' := events[..|events| - 1];
    forall i | 0 <= i < |events'| ensures EventOk(idom, root, t', events'[i]) {
      assert EventOk(idom, root, t, events[i]) && events[i].block != events[|events| - 1].block;
    }
  }

  lemma ExitStep(idom: Links, root: nat, children: seq<seq<nat>>, t: Times, anc: seq<set<nat>>, time: int,
      events: seq<Visit>, b: nat)
    requires Inv(idom, root, children, t, anc, time, events) && ChildrenOf(idom, root, children)
    requires events != [] && events[|events| - 1] == Leave(b)
    ensures b < |t.exit|
    ensures Inv(idom, root, children, t.(exit := t.exit[b := time]), anc, time + 1, events[..|events| - 1])
  {
    assert EventOk(idom, root, t, events[|events| - 1]);
    KidsClosed(idom, root, children, t, anc, time, events, b);
    ExitBlocks(idom, root, children, t, anc, time, b);
    ExitNested(t, anc, time, b);
    ExitEvents(idom, root, t, anc, time, events, b);
    ExitCovered(children, t, time, events, b);
  }

  lemma ExitCovered(children: seq<seq<nat>>, t: Times, time: int, events: seq<Visit>, b: nat)
    requires Covered(children, t, events) && time >= 0
    requires events != [] && events[|events| - 1] == Leave(b) && b < |t.exit|
    ensures Covered(children, t.(exit := t.exit[b := time]), events[..|events| - 1])
  {
    var events' := events[..|events| - 1];
    var t' := t.(exit := t.exit[b := time]);
    forall x: nat | x < |children| && Entered(t', x) && !Closed(t', x) ensures OpenOk(children[x], t', events', x) {
      assert OpenOk(children[x], t, events, x);
      var i :|
        && 0 <= i < |events| && events[i] == Leave(x)
        && forall c :: c in children[x] ==> Entered(t, c) || Pending(events, i, c);
      assert events'[i] == Leave(x);
      forall c | c in children[x] ensures Entered(t', c) || Pending(events', i, c) {
        if !Entered(t, c) {
          var j :| i < j < |events| && 0 <= j && events[j].Arrive? && events[j].block == c;
          assert events'[j] == events[j];
        }
      }
    }
  }

  // ------------------------------------------------------------ construction

  method BuildChildren(idom: Links, root: nat) returns (result: Result<seq<seq<nat>>>)
    requires root < |idom|
    ensures result.Ok? <==> LinksOk(idom, root)
    ensures result.Ok? ==> ChildrenOf(idom, root, result.value)
    ensures result.Err? ==> result.error.InvalidGraph?
  {
    var children: seq<seq<nat>> := seq(|idom|, _ => []);
    for block := 0 to |idom|
      invariant |children| == |idom|
      invariant root < block ==> idom[root].None?
      invariant forall b :: 0 <= b < block && idom[b].Some? ==> idom[b].value < |idom|
      invariant ChildrenUpTo(idom, root, children, block)
    {
      if block == root {
        if idom[block].Some? {
          return Err(InvalidGraph("dominator root has an immediate dominator"));
        }
      } else if idom[block].Some? {
        var parent := idom[block].value;
        if parent >= |children| {
          return Err(InvalidGraph("immediate dominator is out of range"));
        }
        ghost var before := children;
        forall i | 0 <= i < |children[parent]| ensures children[parent][i] < block {
          var c: nat := children[parent][i];
          assert c in children[parent];
        }
        children := children[parent := children[parent] + [block]];
        assert forall p :: 0 <= p < |children| && p != parent ==> children[p] == before[p];
      }
    }
    return Ok(children);
  }

  /** The tree a successful construction returns: entered blocks are exactly those
      linked to the root, and times nest exactly like the tree. */
  ghost predicate ValidTree(tree: DominatorTree, root: nat) {
    && LinksOk(tree.idom, root) && ChildrenOf(tree.idom, root, tree.children)
    && |tree.enter| == |tree.exit| == |tree.depth| == |tree.idom|
    && (forall b: nat :: b < |tree.idom| ==> (tree.enter[b] != UNSET <==> Above(tree.idom, root, b)))
    && (forall b: nat :: b < |tree.idom| && Above(tree.idom, root, b) ==>
         tree.depth[b] >= 0 && Up(tree.idom, b, tree.depth[b]) == Some(root))
    && (forall b: nat :: b < |tree.idom| && !Above(tree.idom, root, b) ==> tree.depth[b] == UNSET)
    && forall a: nat, b: nat :: tree.Dominates(a, b) <==> Above(tree.idom, root, b) && Above(tree.idom, a, b)
  }

  method FromIdom(idom: Links, root: nat) returns (result: Result<DominatorTree>)
    ensures result.Ok? <==> LinksOk(idom, root)
    ensures result.Ok? ==> result.value.idom == idom && ValidTree(result.value, root)
    ensures result.Err? && root >= |idom| ==> result.error == InvalidRoot(root, |idom|)
    ensures result.Err? && root < |idom| ==> result.error.InvalidGraph?
  {
    if root >= |idom| {
      return Err(InvalidRoot(root, |idom|));
    }
    var built := BuildChildren(idom, root);
    if built.Err? {
      return Err(built.error);
    }
    var children := built.value;
    var t := Times(seq(|idom|, _ => UNSET), seq(|idom|, _ => UNSET), seq(|idom|, _ => UNSET));
    ghost var anc: seq<set<nat>> := seq(|idom|, _ => {});
    var time := 0;
    var events := [Arrive(root, 0)];
    ghost var left := Unentered(t);
    while events != []
      invariant Inv(idom, root, children, t, anc, time, events)
      invariant Entered(t, root) || events == [Arrive(root, 0)]
      decreases Unentered(t), |events|
    {
      var event := events[|events| - 1];
      match event
      case Arrive(block, depth) =>
        EnterStep(idom, root, children, t, anc, time, events, block, depth);
        if t.enter[block] != UNSET {
          assert false;
          return Err(InvalidGraph("immediate-dominator links contain a cycle"));
        }
        FewerUnentered(t, block, depth, time);
        events := events[..|events| - 1] + [Leave(block)] + Enters(children[block], depth + 1);
        t := t.(enter := t.enter[block := time], depth := t.depth[block := depth]);
        anc := EnterAnc(idom, root, anc, block);
        time := time + 1;
      case Leave(block) =>
        ExitStep(idom, root, children, t, anc, time, events, block);
        events := events[..|events| - 1];
        t := t.(exit := t.exit[block := time]);
        time := time + 1;
    }
    var tree := DominatorTree(idom, children, t.enter, t.exit, t.depth);
    TimesMatchTree(idom, root, children, t, anc, time, tree);
    return Ok(tree);
  }

  lemma FewerUnentered(t: Times, b: nat, d: nat, time: int)
    requires b < |t.enter| && b < |t.depth| && !Entered(t, b) && time != UNSET
    ensures Unentered(t.(enter := t.enter[b := time], depth := t.depth[b := d])) < Unentered(t)
  {
    var next := t.(enter := t.enter[b := time], depth := t.depth[b := d]);
    assert b in Unentered(t) && b !in Unentered(next);
  }

  ghost function Unentered(t: Times): set<nat> {
    set b: nat | b < |t.enter| && t.enter[b] == UNSET
  }

  // ------------------------------------------------------------ meaning

  ghost predicate Done(idom: Links, root: nat, children: seq<seq<nat>>, t: Times, anc: seq<set<nat>>, time: int) {
    && LinksOk(idom, root) && ChildrenOf(idom, root, children) && Entered(t, root)
    && Blocks(idom, root, children, t, anc, time) && Nested(t, anc)
    && forall b: nat :: Entered(t, b) ==> Closed(t, b)
  }

  lemma {:induction false} EnteredUp(idom: Links, root: nat, children: seq<seq<nat>>, t: Times, anc: seq<set<nat>>,
      time: int, b: nat, k: nat)
    requires Done(idom, root, children, t, anc, time) && Entered(t, b) && Up(idom, b, k).Some?
    ensures var a := Up(idom, b, k).value;
      a in anc[b] && Entered(t, a) && t.depth[a] == t.depth[b] - k && t.enter[a] <= t.enter[b] && t.exit[b] <= t.exit[a]
    decreases k
  {
    assert BlockOk(idom, root, children, t, anc, time, b);
    if k > 0 {
      EnteredUp(idom, root, children, t, anc, time, idom[b].value, k - 1);
    }
  }

  lemma {:induction false} AncIsAbove(idom: Links, root: nat, children: seq<seq<nat>>, t: Times, anc: seq<set<nat>>,
      time: int, a: nat, b: nat)
    requires Done(idom, root, children, t, anc, time) && Entered(t, b) && a in anc[b]
    ensures Above(idom, a, b)
    decreases t.enter[b]
  {
    assert BlockOk(idom, root, children, t, anc, time, b);
    if a == b {
      assert Up(idom, b, 0) == Some(b);
    } else {
      var p := idom[b].value;
      assert BlockOk(idom, root, children, t, anc, time, p);
      AncIsAbove(idom, root, children, t, anc, time, a, p);
      var k: nat :| Up(idom, p, k) == Some(a);
      assert Up(idom, b, k + 1) == Some(a);
    }
  }

  lemma {:induction false} EnteredLinked(idom: Links, root: nat, children: seq<seq<nat>>, t: Times,
      anc: seq<set<nat>>, time: int, b: nat)
    requires Done(idom, root, children, t, anc, time) && Entered(t, b)
    ensures t.depth[b] >= 0 && Up(idom, b, t.depth[b]) == Some(root)
    decreases t.enter[b]
  {
    assert BlockOk(idom, root, children, t, anc, time, b);
    if b != root {
      assert BlockOk(idom, root, children, t, anc, time, idom[b].value);
      EnteredLinked(idom, root, children, t, anc, time, idom[b].value);
    }
  }

  lemma {:induction false} LinkedEntered(idom: Links, root: nat, children: seq<seq<nat>>, t: Times,
      anc: seq<set<nat>>, time: int, b: nat, k: nat)
    requires Done(idom, root, children, t, anc, time) && Up(idom, b, k) == Some(root)
    ensures Entered(t, b)
    decreases k
  {
    if k > 0 && b != root {
      var p := idom[b].value;
      LinkedEntered(idom, root, children, t, anc, time, p, k - 1);
      assert BlockOk(idom, root, children, t, anc, time, p);
      assert b in children[p];
    }
  }

  lemma NestedTimesAreAncestors(t: Times, anc: seq<set<nat>>, a: nat, b: nat)
    requires Nested(t, anc) && Entered(t, a) && Entered(t, b)
    requires t.enter[a] <= t.enter[b] < t.exit[b] <= t.exit[a] && b in anc[b]
    ensures a in anc[b]
  {
  }

  lemma TimesMatchTree(idom: Links, root: nat, children: seq<seq<nat>>, t: Times, anc: seq<set<nat>>, time: int,
      tree: DominatorTree)
    requires Inv(idom, root, children, t, anc, time, []) && LinksOk(idom, root)
    requires ChildrenOf(idom, root, children) && Entered(t, root)
    requires tree == DominatorTree(idom, children, t.enter, t.exit, t.depth)
    ensures ValidTree(tree, root)
  {
    forall b: nat | Entered(t, b) ensures Closed(t, b) {
      assert Closed(t, b) || OpenOk(children[b], t, [], b);
    }
    forall b: nat | b < |idom| ensures tree.enter[b] != UNSET <==> Above(idom, root, b)
      ensures Above(idom, root, b) ==> tree.depth[b] >= 0 && Up(idom, b, tree.depth[b]) == Some(root)
    {
      if Entered(t, b) {
        EnteredLinked(idom, root, children, t, anc, time, b);
      }
      if k: nat :| Up(idom, b, k) == Some(root) {
        LinkedEntered(idom, root, children, t, anc, time, b, k);
      }
    }
    forall a: nat, b: nat ensures tree.Dominates(a, b) <==> Above(idom, root, b) && Above(idom, a, b) {
      if tree.Dominates(a, b) {
        assert Entered(t, a) && Entered(t, b) && Closed(t, a) && Closed(t, b);
        assert BlockOk(idom, root, children, t, anc, time, a);
        assert BlockOk(idom, root, children, t, anc, time, b);
        NestedTimesAreAncestors(t, anc, a, b);
        AncIsAbove(idom, root, children, t, anc, time, a, b);
      }
      if Above(idom, root, b) && Above(idom, a, b) {
        var k: nat :| Up(idom, b, k) == Some(a);
        assert b < |idom|;
        EnteredUp(idom, root, children, t, anc, time, b, k);
      }
    }
  }
}
