/** One clobber query for a program point, from events to answer. */
module MemoryQuery {
  import opened CfgErrors
  import opened SsaSpec
  import opened ClobberSpec
  import opened ClobberRun
  import opened ClobberSession
  import opened ClobberWalkers
  import opened MemoryGraph
  import opened MemoryConverse
  import opened MemorySsa
  import MB = MemoryBuild

  lemma FreshMemo(nodes: Nodes, alias: Oracle, memo: seq<Mark>)
    requires NodesOk(nodes) && memo == seq(|nodes|, _ => New)
    ensures Ready(nodes, alias, memo) && Sharp(nodes, alias, memo)
  {
    assert forall n: nat :: n < |memo| ==> memo[n] == New;
  }

  /** Every run to the point agrees with the answer. */
  ghost predicate RunsAgree(c: SsaCfg, mem: MemoryEvents, nodes: Nodes, alias: Oracle, b: nat, i: nat, a: nat) {
    a < |nodes| && forall p :: RunTo(c, mem, p, i) && p[|p| - 1] == b ==> AnswerHolds(mem, nodes, alias, p, i, a)
  }

  lemma AnswerFitsRuns(c: SsaCfg, mem: MemoryEvents, placed: Places, nodes: Nodes, acc: Accesses, alias: Oracle,
      b: nat, i: nat, a: nat)
    requires IsGraph(c, mem, placed, nodes, acc) && NoStoreReturns(c, mem) && b < |mem| && i <= |mem[b]|
    requires VersionAt(c, mem, placed, b, i) in acc
    requires Answers(nodes, alias, acc[VersionAt(c, mem, placed, b, i)], Access(a))
    ensures RunsAgree(c, mem, nodes, alias, b, i, a)
  {
    forall p | RunTo(c, mem, p, i) && p[|p| - 1] == b ensures AnswerHolds(mem, nodes, alias, p, i, a) {
      ClobberIsLastStore(c, mem, placed, nodes, acc, alias, p, i, a);
    }
  }

  /**
    Builds the graph and asks for the clobber before event `i` of block `b`. There always is an answer, and
    every complete walk from the point meets it. If no store flows back to the root, it is true of every run: a
    store is the last one that may alias, the initial memory means there is none, a phi marks a block passed
    without such a store since.
   */
  method ClobberBefore(c: SsaCfg, mem: MemoryEvents, alias: Oracle, b: nat, i: nat)
    returns (result: MemoryResult, r: MemoryClobber)
    requires CfgOk(c) && b < |mem| && i < |mem[b]|
    ensures result.MemoryOk? ==>
              r.AccessIs? && AnsweredAt(result.graph.nodes, result.points, alias, mem[b][i].point, r.access)
    ensures result.MemoryOk? && NoStoreReturns(c, mem) ==>
              RunsAgree(c, mem, result.graph.nodes, alias, b, i, r.access)
  {
    ghost var placed, acc;
    result, placed, acc := MB.Build(c, mem);
    r := Indeterminate;
    if result.MemoryErr? {
      return;
    }
    var nodes := result.graph.nodes;
    assert MB.PointOk(c, mem, placed, acc, result.points, b, i);
    var start := result.points.events[mem[b][i].point].before;
    ghost var e := PointEnds(c, mem, placed, nodes, acc, alias, b, i);
    var walker := new ClobberWalker();
    walker.Query(|nodes|);
    FreshMemo(nodes, alias, walker.Memo());
    r := walker.FindClobber(nodes, start, alias);
    if NoStoreReturns(c, mem) {
      AnswerFitsRuns(c, mem, placed, nodes, acc, alias, b, i, r.access);
    }
  }

  /** The answer for a recorded point, in terms of the graph alone. */
  ghost predicate AnsweredAt(nodes: Nodes, points: PointMap, alias: Oracle, point: nat, a: nat) {
    point in points.events && Answers(nodes, alias, points.events[point].before, Access(a))
  }
}
