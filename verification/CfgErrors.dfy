/** Results of graph analyses and the check every analysis starts with. */
module CfgErrors {
  import opened Graph

  datatype Option<+T> = None | Some(value: T)

  datatype CfgError =
    | Empty
    | InvalidRoot(root: nat, blocks: nat)
    | EdgeOutOfRange(source: nat, target: nat, blocks: nat)
    | Unreachable(missing: seq<nat>)
    | InvalidGraph(message: string)

  datatype Result<+T> = Ok(value: T) | Err(error: CfgError)

  /** `target` is the first of the row that is no block. */
  ghost predicate FirstOutside(out: seq<nat>, blocks: nat, target: nat) {
    exists i :: 0 <= i < |out| && out[i] == target >= blocks && forall j :: 0 <= j < i ==> out[j] < blocks
  }

  /** The error names the first row from `first` on that leaves the graph, and its first target outside. */
  ghost predicate NamesFirst(g: Succs, first: nat, e: CfgError) {
    && e.EdgeOutOfRange? && first <= e.source < |g| && e.blocks == |g|
    && FirstOutside(g[e.source], |g|, e.target)
    && forall u: nat, v: nat :: first <= u < e.source && v in g[u] ==> v < |g|
  }

  /** The first target outside the graph, if any. */
  function BadTarget(out: seq<nat>, blocks: nat): (r: Option<nat>)
    ensures r.None? <==> forall v :: v in out ==> v < blocks
    ensures r.Some? ==> FirstOutside(out, blocks, r.value)
  {
    if out == [] then None
    else if out[0] >= blocks then assert out[0] in out; Some(out[0])
    else
      assert forall v :: v in out <==> v == out[0] || v in out[1..];
      var later := BadTarget(out[1..], blocks);
      assert later.Some? ==> FirstOutside(out, blocks, later.value) by {
        if later.Some? {
          OutsideLater(out, blocks, later.value);
        }
      }
      later
  }

  lemma OutsideLater(out: seq<nat>, blocks: nat, target: nat)
    requires out != [] && out[0] < blocks && FirstOutside(out[1..], blocks, target)
    ensures FirstOutside(out, blocks, target)
  {
    var i :| 0 <= i < |out| - 1 && out[1..][i] == target >= blocks && forall j :: 0 <= j < i ==> out[1..][j] < blocks;
    forall j | 0 <= j < i + 1 ensures out[j] < blocks {
      assert j > 0 ==> out[1..][j - 1] == out[j];
    }
    assert out[i + 1] == target;
  }

  function BadEdge(g: Succs, source: nat): (r: Option<CfgError>)
    requires source <= |g|
    ensures r.None? <==> forall u: nat, v: nat :: source <= u < |g| && v in g[u] ==> v < |g|
    ensures r.Some? ==> NamesFirst(g, source, r.value)
    decreases |g| - source
  {
    if source == |g| then None
    else match BadTarget(g[source], |g|)
      case Some(target) => Some(EdgeOutOfRange(source, target, |g|))
      case None => BadEdge(g, source + 1)
  }

  /** No error exactly for a nonempty graph with its root and every edge inside. */
  function ValidateEdges(g: Succs, root: nat): (r: Option<CfgError>)
    ensures r.None? <==> root < |g| && Wellformed(g)
    ensures r.Some? ==> match r.value
      case Empty => |g| == 0
      case InvalidRoot(block, blocks) => block == root && blocks == |g| && 0 < |g| <= root
      case _ => root < |g| && NamesFirst(g, 0, r.value)
  {
    if g == [] then Some(Empty)
    else if root >= |g| then Some(InvalidRoot(root, |g|))
    else BadEdge(g, 0)
  }
}
