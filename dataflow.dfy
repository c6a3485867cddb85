/**
 * The forward dataflow framework both analyses instantiate, stated as the
 * equations its converged result satisfies. Units are numbered by their
 * position in the method body; the graph gives each unit its predecessors in
 * the order the framework merges them, so for a merge in which the first
 * operand wins (the available loads' targets) that order decides the result.
 */
module Dataflow {

  datatype Graph = Graph(preds: seq<seq<nat>>)
  {
    function Size(): nat { |preds| }

    /** Every predecessor index names a unit of the body. */
    ghost predicate Valid()
    {
      forall i, j :: 0 <= i < |preds| && 0 <= j < |preds[i]| ==> preds[i][j] < |preds|
    }

    /** A head of the graph: the first unit, or a unit nothing flows into. */
    predicate IsHead(i: nat)
      requires i < Size()
    {
      i == 0 || |preds[i]| == 0
    }
  }

  /**
   * The flows merged into unit i, in merge order: the entry flow first when i
   * is a head, then the out-flow of every predecessor.
   */
  function Sources<A>(g: Graph, i: nat, entry: A, outs: seq<A>): (r: seq<A>)
    requires g.Valid() && i < g.Size() && |outs| == g.Size()
    ensures |r| >= 1 || !g.IsHead(i)
    ensures |r| == |g.preds[i]| + (if g.IsHead(i) then 1 else 0)
    ensures forall j :: 0 <= j < |g.preds[i]| ==> r[|r| - |g.preds[i]| + j] == outs[g.preds[i][j]]
    ensures g.IsHead(i) ==> r[0] == entry
  {
    var fromPreds := seq(|g.preds[i]|, j requires 0 <= j < |g.preds[i]| => outs[g.preds[i][j]]);
    if g.IsHead(i) then [entry] + fromPreds else fromPreds
  }

  /** The straight-line graph 0 -> 1 -> ... -> n-1. */
  function Chain(n: nat): (g: Graph)
    ensures g.Size() == n && g.Valid()
    ensures forall i :: 0 < i < n ==> g.preds[i] == [i - 1] && !g.IsHead(i)
  {
    Graph(seq(n, i => if i == 0 then [] else [i - 1]))
  }
}
