/**
  The access graph of MemorySSA, the backward walks over it, and one step of the walk that
  resolves a clobber query on an explicit stack.
 */
module ClobberSpec {
  import opened CfgErrors

  /** A node of the access graph; a phi lists (predecessor block, reaching access) pairs. */
  datatype Node =
    | LiveOnEntry
    | Definition(definition: nat, previous: nat)
    | Phi(block: nat, inputs: seq<(nat, nat)>)

  type Nodes = seq<Node>

  /** The alias oracle for one fixed query, over definition identities. */
  type Oracle = nat -> bool

  ghost predicate NodesOk(nodes: Nodes) {
    forall n: nat :: n < |nodes| ==> NodeOk(nodes, nodes[n])
  }

  ghost predicate NodeOk(nodes: Nodes, node: Node) {
    match node
    case LiveOnEntry => true
    case Definition(_, previous) => previous < |nodes|
    case Phi(_, inputs) => forall i :: 0 <= i < |inputs| ==> inputs[i].1 < |nodes|
  }

  // ------------------------------------------------------------ walks

  /** Where a backward walk ends: the initial memory, or a definition that may alias. */
  predicate Stop(nodes: Nodes, alias: Oracle, n: nat) {
    n < |nodes| && (nodes[n].LiveOnEntry? || (nodes[n].Definition? && alias(nodes[n].definition)))
  }

  /** A definition the walk passes through. */
  predicate Through(nodes: Nodes, alias: Oracle, n: nat) {
    n < |nodes| && nodes[n].Definition? && !alias(nodes[n].definition)
  }

  ghost predicate Back(nodes: Nodes, alias: Oracle, n: nat, m: nat) {
    n < |nodes| &&
    match nodes[n]
    case LiveOnEntry => false
    case Definition(_, previous) => !Stop(nodes, alias, n) && m == previous
    case Phi(_, inputs) => exists i :: 0 <= i < |inputs| && inputs[i].1 == m
  }

  ghost predicate IsWalk(nodes: Nodes, alias: Oracle, w: seq<nat>) {
    && |w| > 0
    && w[|w| - 1] < |nodes|
    && forall i, j :: 0 <= i && j == i + 1 && j < |w| ==> Back(nodes, alias, w[i], w[j])
  }

  /** A complete backward walk from `n`. */
  ghost predicate StopWalk(nodes: Nodes, alias: Oracle, w: seq<nat>, n: nat) {
    IsWalk(nodes, alias, w) && w[0] == n && Stop(nodes, alias, w[|w| - 1])
  }

  /** Every complete backward walk from `n` meets `c`. */
  ghost predicate Mandatory(nodes: Nodes, alias: Oracle, n: nat, c: nat) {
    forall w :: StopWalk(nodes, alias, w, n) ==> c in w
  }

  ghost predicate LeadsTo(nodes: Nodes, alias: Oracle, n: nat, c: nat) {
    exists w :: IsWalk(nodes, alias, w) && w[0] == n && w[|w| - 1] == c
  }

  // ------------------------------------------------------------ definition chains

  /** The access at the end of the chain of passed definitions from `n`, within `k` steps. */
  ghost function ChainEnd(nodes: Nodes, alias: Oracle, n: nat, k: nat): Option<nat>
    decreases k
  {
    if n >= |nodes| then None
    else if !Through(nodes, alias, n) then Some(n)
    else if k == 0 then None
    else ChainEnd(nodes, alias, nodes[n].previous, k - 1)
  }

  ghost predicate Ends(nodes: Nodes, alias: Oracle, n: nat, e: nat) {
    exists k: nat :: ChainEnd(nodes, alias, n, k) == Some(e)
  }

  /** The chain from `n` runs in a circle of passed definitions. */
  ghost predicate Endless(nodes: Nodes, alias: Oracle, n: nat) {
    forall e: nat :: !Ends(nodes, alias, n, e)
  }

  lemma {:induction false} ChainEndStable(nodes: Nodes, alias: Oracle, n: nat, k: nat, l: nat)
    requires ChainEnd(nodes, alias, n, k).Some? && k <= l
    ensures ChainEnd(nodes, alias, n, l) == ChainEnd(nodes, alias, n, k)
    ensures ChainEnd(nodes, alias, n, k).value < |nodes|
    ensures !Through(nodes, alias, ChainEnd(nodes, alias, n, k).value)
    decreases k
  {
    if n < |nodes| && Through(nodes, alias, n) && k > 0 {
      ChainEndStable(nodes, alias, nodes[n].previous, k - 1, l - 1);
    }
  }

  lemma EndsUnique(nodes: Nodes, alias: Oracle, n: nat, e: nat, f: nat)
    requires Ends(nodes, alias, n, e) && Ends(nodes, alias, n, f)
    ensures e == f && e < |nodes| && !Through(nodes, alias, e)
  {
    var k: nat :| ChainEnd(nodes, alias, n, k) == Some(e);
    var l: nat :| ChainEnd(nodes, alias, n, l) == Some(f);
    ChainEndStable(nodes, alias, n, k, if k < l then l else k);
    ChainEndStable(nodes, alias, n, l, if k < l then l else k);
  }

  lemma EndsHere(nodes: Nodes, alias: Oracle, n: nat)
    requires n < |nodes| && !Through(nodes, alias, n)
    ensures forall e: nat :: Ends(nodes, alias, n, e) <==> e == n
  {
    assert ChainEnd(nodes, alias, n, 0) == Some(n);
    forall e: nat | Ends(nodes, alias, n, e) ensures e == n {
      EndsUnique(nodes, alias, n, e, n);
    }
  }

  lemma EndsThrough(nodes: Nodes, alias: Oracle, d: nat)
    requires Through(nodes, alias, d)
    ensures forall e: nat :: Ends(nodes, alias, d, e) <==> Ends(nodes, alias, nodes[d].previous, e)
  {
    forall e: nat | Ends(nodes, alias, nodes[d].previous, e) ensures Ends(nodes, alias, d, e) {
      var k: nat :| ChainEnd(nodes, alias, nodes[d].previous, k) == Some(e);
      assert ChainEnd(nodes, alias, d, k + 1) == Some(e);
    }
    forall e: nat | Ends(nodes, alias, d, e) ensures Ends(nodes, alias, nodes[d].previous, e) {
      var k: nat :| ChainEnd(nodes, alias, d, k) == Some(e);
      assert ChainEnd(nodes, alias, nodes[d].previous, k - 1) == Some(e);
    }
  }

  lemma TailWalk(nodes: Nodes, alias: Oracle, w: seq<nat>, n: nat, i: nat)
    requires StopWalk(nodes, alias, w, n) && i < |w|
    ensures StopWalk(nodes, alias, w[i..], w[i])
  {
  }

  /** A complete walk follows its start's chain to the chain's end. */
  lemma {:induction false} WalkMeetsEnd(nodes: Nodes, alias: Oracle, w: seq<nat>, n: nat) returns (e: nat, i: nat)
    requires NodesOk(nodes) && StopWalk(nodes, alias, w, n)
    ensures Ends(nodes, alias, n, e) && i < |w| && w[i] == e
    ensures i == 0 <==> !Through(nodes, alias, n)
    decreases |w|
  {
    if Through(nodes, alias, n) {
      assert |w| > 1 && Back(nodes, alias, w[0], w[1]);
      TailWalk(nodes, alias, w, n, 1);
      var j;
      e, j := WalkMeetsEnd(nodes, alias, w[1..], w[1]);
      EndsThrough(nodes, alias, n);
      i := j + 1;
    } else {
      assert |w| == 1 || Back(nodes, alias, w[0], w[1]);
      EndsHere(nodes, alias, n);
      e, i := n, 0;
    }
  }

  // ------------------------------------------------------------ the walk as a machine

  datatype Resolution = Access(access: nat) | Cycle

  datatype Frame = Enter(access: nat) | FinishDefinition(access: nat) | FinishPhi(access: nat, inputs: nat)

  datatype Mark = New | Open | Done(access: nat)

  datatype Walk = Walk(memo: seq<Mark>, frames: seq<Frame>, values: seq<Resolution>)

  function Enters(inputs: seq<(nat, nat)>, from: nat): (r: seq<Frame>)
    decreases |inputs| - from
  {
    if from >= |inputs| then [] else Enters(inputs, from + 1) + [Enter(inputs[from].1)]
  }

  /** The one access all non-cycle results agree on, else the phi itself. */
  function Merge(phi: nat, results: seq<Resolution>): (r: nat) {
    if exists i, j :: 0 <= i < |results| && 0 <= j < |results| && results[i].Access? && results[j].Access?
                      && results[i] != results[j]
    then phi
    else Common(phi, results)
  }

  function Common(phi: nat, results: seq<Resolution>): (r: nat)
    ensures (exists i :: 0 <= i < |results| && results[i].Access?) ==> Access(r) in results
    ensures (forall i :: 0 <= i < |results| ==> results[i].Cycle?) ==> r == phi
  {
    if results == [] then phi
    else if results[0].Access? then results[0].access
    else Common(phi, results[1..])
  }

  /** The stacks hold what the next step takes from them. */
  predicate CanStep(nodes: Nodes, s: Walk) {
    && |s.memo| == |nodes| && |s.frames| > 0
    && match s.frames[|s.frames| - 1]
       case Enter(x) => x < |nodes|
       case FinishDefinition(d) => d < |nodes| && |s.values| > 0
       case FinishPhi(p, n) => p < |nodes| && |s.values| >= n
  }

  function Step(nodes: Nodes, alias: Oracle, s: Walk): (t: Walk)
    requires CanStep(nodes, s)
  {
    var rest := s.frames[..|s.frames| - 1];
    match s.frames[|s.frames| - 1]
    case Enter(x) =>
      (match s.memo[x]
       case Open => Walk(s.memo, rest, s.values + [Cycle])
       case Done(c) => Walk(s.memo, rest, s.values + [Access(c)])
       case New =>
         match nodes[x]
         case LiveOnEntry => Walk(s.memo[x := Done(x)], rest, s.values + [Access(x)])
         case Definition(definition, previous) =>
           if alias(definition) then Walk(s.memo[x := Done(x)], rest, s.values + [Access(x)])
           else Walk(s.memo[x := Open], rest + [FinishDefinition(x), Enter(previous)], s.values)
         case Phi(_, inputs) =>
           Walk(s.memo[x := Open], rest + [FinishPhi(x, |inputs|)] + Enters(inputs, 0), s.values))
    case FinishDefinition(d) =>
      (match s.values[|s.values| - 1]
       case Cycle => Walk(s.memo[d := New], rest, s.values)
       case Access(c) => Walk(s.memo[d := Done(c)], rest, s.values))
    case FinishPhi(p, n) =>
      var first := |s.values| - n;
      var r := Merge(p, s.values[first..]);
      Walk(s.memo[p := Done(r)], rest, s.values[..first] + [Access(r)])
  }

  function Start(memo: seq<Mark>, start: nat): (s: Walk) {
    Walk(memo, [Enter(start)], [])
  }
}
