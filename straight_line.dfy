/**
 * Facts about a method body whose units run in a straight line, each unit's
 * only predecessor being the one before it, used to run the test programs
 * through the fixed-point equations of both analyses and the detector.
 */
module StraightLine {
  import opened Jimple
  import PointsTo
  import opened AvailableLoads
  import Detector
  import Dataflow
  import opened Results

  /** The snapshot table the points-to analysis leaves behind: every unit's out-flow. */
  function Snapshots(outs: seq<PointsTo.PtsMap>): (t: map<nat, PointsTo.PtsMap>)
    ensures forall i :: 0 <= i < |outs| ==> i in t && t[i] == outs[i]
  {
    map i: nat | i < |outs| :: outs[i]
  }

  /** On a chain, the in-flow of every unit after the first is its predecessor's out-flow. */
  lemma ChainPointsTo(body: seq<Unit>, ins: seq<PointsTo.PtsMap>, outs: seq<PointsTo.PtsMap>, i: nat)
    requires PointsTo.IsSolution(body, Dataflow.Chain(|body|), ins, outs)
    requires 0 < i < |body|
    ensures ins[i] == outs[i - 1]
    ensures outs[i] == PointsTo.Transfer(outs[i - 1], body[i])
  {
    assert PointsTo.SolvedAt(body, Dataflow.Chain(|body|), ins, outs, i);
  }

  /** A local that no unit after `from` assigns keeps the points-to set it had after `from`. */
  lemma {:induction false} PointsToPersists(body: seq<Unit>, ins: seq<PointsTo.PtsMap>, outs: seq<PointsTo.PtsMap>,
                                            v: Value, from: nat, i: nat)
    requires PointsTo.IsSolution(body, Dataflow.Chain(|body|), ins, outs)
    requires from <= i < |body|
    requires forall k :: from < k <= i ==> !(body[k].stmt.AssignStmt? && body[k].stmt.leftOp == v)
    ensures PointsTo.Lookup(outs[i], v) == PointsTo.Lookup(outs[from], v)
  {
    if from < i {
      ChainPointsTo(body, ins, outs, i);
      PointsToPersists(body, ins, outs, v, from, i - 1);
    }
  }

  lemma ChainAvail(body: seq<Unit>, unitToPointsTo: map<nat, PointsTo.PtsMap>, ins: seq<Avail>, outs: seq<Avail>, i: nat)
    requires AvailableLoads.IsSolution(body, Dataflow.Chain(|body|), unitToPointsTo, ins, outs)
    requires i < |body|
    ensures i == 0 ==> ins[i] == map[]
    ensures i > 0 ==> ins[i] == outs[i - 1]
    ensures outs[i] == AvailableLoads.Transfer(ins[i], body[i], PointsTo.Snapshot(unitToPointsTo, i))
  {
    assert AvailableLoads.SolvedAt(body, Dataflow.Chain(|body|), unitToPointsTo, ins, outs, i);
  }

  lemma ReportedStep(body: seq<Unit>, ins: seq<Avail>, snaps: map<nat, PointsTo.PtsMap>, n: nat, reported: bool)
    requires n < |body| == |ins|
    requires Detector.Reportable(body, ins, snaps, n) == reported
    ensures Detector.ReportedUnits(body, ins, snaps, n + 1)
         == Detector.ReportedUnits(body, ins, snaps, n) + (if reported then [n] else [])
  {
  }

  /** Of two available facts, only the second matches the read: the finding takes the second's target. */
  lemma SecondOfTwoFinding(u: Unit, k1: LoadKey, v1: Value, k2: LoadKey, v2: Value, pts: PointsTo.PtsMap, info: RedundantLoadInfo)
    requires IsFieldLoad(u.stmt) && k1 != k2
    requires !Detector.Witnesses(k1, u.stmt.rightOp.base, u.stmt.rightOp.field, pts)
    requires Detector.IsFindingFor(u, map[k1 := v1, k2 := v2], pts, info)
    ensures info == RedundantLoadInfo(u.line, FieldRefText(u.stmt.rightOp.base, u.stmt.rightOp.field), Text(u.stmt.leftOp), Text(v2))
  {
  }

  /** When exactly one available fact matches a read, the finding for that read is determined. */
  lemma UniqueWitnessFinding(u: Unit, avail: Avail, pts: PointsTo.PtsMap, k: LoadKey, info: RedundantLoadInfo)
    requires IsFieldLoad(u.stmt)
    requires k in avail
    requires forall k' :: k' in avail && Detector.Witnesses(k', u.stmt.rightOp.base, u.stmt.rightOp.field, pts) ==> k' == k
    requires Detector.IsFindingFor(u, avail, pts, info)
    ensures info == RedundantLoadInfo(u.line, FieldRefText(u.stmt.rightOp.base, u.stmt.rightOp.field), Text(u.stmt.leftOp), Text(avail[k]))
  {
  }

  /** Sorting findings already in line order leaves them as they are. */
  lemma OrderedPairStaysSorted(a: RedundantLoadInfo, b: RedundantLoadInfo)
    requires a.lineNumber <= b.lineNumber
    ensures SortByLine([a, b]) == [a, b]
  {
    assert [a, b][..1] == [a];
    assert SortByLine([a]) == [a];
  }

  /** The same for three findings. */
  lemma OrderedTripleStaysSorted(a: RedundantLoadInfo, b: RedundantLoadInfo, c: RedundantLoadInfo)
    requires a.lineNumber <= b.lineNumber <= c.lineNumber
    ensures SortByLine([a, b, c]) == [a, b, c]
  {
    assert [a, b, c][..2] == [a, b];
    OrderedPairStaysSorted(a, b);
  }
}
