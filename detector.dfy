/**
 * analyzeMethod of files/PA2.java: after both analyses have converged, every
 * field read is checked against the facts available before it, and at most
 * one finding is recorded per read.
 */
module Detector {
  import opened Jimple
  import PointsTo
  import opened AvailableLoads
  import Dataflow
  import opened Results

  /** The detector's match: the same field, and the same base or intersecting points-to sets. */
  predicate Witnesses(k: LoadKey, base: string, f: SootField, pts: PointsTo.PtsMap)
  {
    (base == k.base || !(PointsOf(pts, base) !! PointsOf(pts, k.base))) && k.field == f
  }

  predicate HasWitness(avail: Avail, base: string, f: SootField, pts: PointsTo.PtsMap)
  {
    exists k :: k in avail && Witnesses(k, base, f, pts)
  }

  /** Unit i is reported: a field read with a usable line for which some available fact matches. */
  predicate Reportable(body: seq<Unit>, availableBefore: seq<Avail>, unitToPointsTo: map<nat, PointsTo.PtsMap>, i: nat)
    requires i < |body| == |availableBefore|
  {
    && IsFieldLoad(body[i].stmt)
    && body[i].line > 0
    && HasWitness(availableBefore[i], body[i].stmt.rightOp.base, body[i].stmt.rightOp.field,
                  PointsTo.Snapshot(unitToPointsTo, i))
  }

  /** The reported units among the first n, in body order: each at most once, and none missed. */
  function ReportedUnits(body: seq<Unit>, availableBefore: seq<Avail>, unitToPointsTo: map<nat, PointsTo.PtsMap>, n: nat): seq<nat>
    requires n <= |body| == |availableBefore|
  {
    if n == 0 then []
    else
      ReportedUnits(body, availableBefore, unitToPointsTo, n - 1)
        + (if Reportable(body, availableBefore, unitToPointsTo, n - 1) then [n - 1] else [])
  }

  /** Each field read is reported at most once, and a read is reported iff it is reportable. */
  lemma {:induction false} ReportedUnitsExact(body: seq<Unit>, availableBefore: seq<Avail>, unitToPointsTo: map<nat, PointsTo.PtsMap>, n: nat)
    requires n <= |body| == |availableBefore|
    ensures forall j, j' :: 0 <= j < j' < |ReportedUnits(body, availableBefore, unitToPointsTo, n)| ==>
      ReportedUnits(body, availableBefore, unitToPointsTo, n)[j] < ReportedUnits(body, availableBefore, unitToPointsTo, n)[j']
    ensures forall j :: 0 <= j < |ReportedUnits(body, availableBefore, unitToPointsTo, n)| ==>
      var i := ReportedUnits(body, availableBefore, unitToPointsTo, n)[j];
      i < n && Reportable(body, availableBefore, unitToPointsTo, i)
    ensures forall i :: 0 <= i < n && Reportable(body, availableBefore, unitToPointsTo, i) ==>
      i in ReportedUnits(body, availableBefore, unitToPointsTo, n)
  {
    if n > 0 {
      ReportedUnitsExact(body, availableBefore, unitToPointsTo, n - 1);
      var r0 := ReportedUnits(body, availableBefore, unitToPointsTo, n - 1);
      var r := ReportedUnits(body, availableBefore, unitToPointsTo, n);
      assert r == r0 + (if Reportable(body, availableBefore, unitToPointsTo, n - 1) then [n - 1] else []);
      forall j | 0 <= j < |r|
        ensures r[j] < n && Reportable(body, availableBefore, unitToPointsTo, r[j])
      {
        if j < |r0| {
          assert r[j] == r0[j];
        }
      }
    }
  }

  /** The finding recorded for a field read, given the fact that matched it. */
  predicate IsFindingFor(u: Unit, avail: Avail, pts: PointsTo.PtsMap, info: RedundantLoadInfo)
    requires IsFieldLoad(u.stmt)
  {
    var base, f := u.stmt.rightOp.base, u.stmt.rightOp.field;
    && info.lineNumber == u.line
    && info.jimpleStmt == FieldRefText(base, f)
    && info.targetVar == Text(u.stmt.leftOp)
    && exists k :: k in avail && Witnesses(k, base, f, pts) && info.replacementVar == Text(avail[k])
  }

  ghost predicate FindingsFor(body: seq<Unit>, availableBefore: seq<Avail>, unitToPointsTo: map<nat, PointsTo.PtsMap>,
                              n: nat, found: seq<RedundantLoadInfo>)
    requires n <= |body| == |availableBefore|
  {
    ReportedUnitsExact(body, availableBefore, unitToPointsTo, n);
    var units := ReportedUnits(body, availableBefore, unitToPointsTo, n);
    && |found| == |units|
    && forall j :: 0 <= j < |found| ==>
         IsFindingFor(body[units[j]], availableBefore[units[j]], PointsTo.Snapshot(unitToPointsTo, units[j]), found[j])
  }

  /**
   * The inner scan of analyzeMethod: the available facts are visited in no
   * particular order and the first one that matches the read stops the scan.
   */
  method FirstMatch(before: Avail, base: string, field: SootField, unitToPointsTo: map<nat, PointsTo.PtsMap>, i: nat)
    returns (hit: bool, key: LoadKey)
    ensures hit ==> key in before && Witnesses(key, base, field, PointsTo.Snapshot(unitToPointsTo, i))
    ensures !hit ==> !HasWitness(before, base, field, PointsTo.Snapshot(unitToPointsTo, i))
  {
    ghost var pts := PointsTo.Snapshot(unitToPointsTo, i);
    var basePointsTo := PointsTo.PointsToAt(unitToPointsTo, Local(base), i);
    var todo := before.Keys;
    hit, key := false, LoadKey(base, field);
    while todo != {} && !hit
      invariant todo <= before.Keys
      invariant hit ==> key in before && Witnesses(key, base, field, pts)
      invariant !hit ==> forall k :: k in before && k !in todo ==> !Witnesses(k, base, field, pts)
      decreases todo
    {
      var availLoad :| availLoad in todo;
      var availBasePointsTo := PointsTo.PointsToAt(unitToPointsTo, Local(availLoad.base), i);
      var sameBase := base == availLoad.base;
      var mayAlias := !(basePointsTo !! availBasePointsTo);
      if (sameBase || mayAlias) && availLoad.field == field {
        hit, key := true, availLoad;
      }
      todo := todo - {availLoad};
    }
  }

  lemma FindingsForStep(body: seq<Unit>, availableBefore: seq<Avail>, unitToPointsTo: map<nat, PointsTo.PtsMap>,
                         i: nat, found: seq<RedundantLoadInfo>, next: seq<RedundantLoadInfo>)
    requires i < |body| == |availableBefore|
    requires FindingsFor(body, availableBefore, unitToPointsTo, i, found)
    requires Reportable(body, availableBefore, unitToPointsTo, i) ==>
      |next| == 1 && IsFindingFor(body[i], availableBefore[i], PointsTo.Snapshot(unitToPointsTo, i), next[0])
    requires !Reportable(body, availableBefore, unitToPointsTo, i) ==> next == []
    ensures FindingsFor(body, availableBefore, unitToPointsTo, i + 1, found + next)
  {
    var units := ReportedUnits(body, availableBefore, unitToPointsTo, i);
    var units' := ReportedUnits(body, availableBefore, unitToPointsTo, i + 1);
    ReportedUnitsExact(body, availableBefore, unitToPointsTo, i);
    ReportedUnitsExact(body, availableBefore, unitToPointsTo, i + 1);
    assert units' == units + (if Reportable(body, availableBefore, unitToPointsTo, i) then [i] else []);
    var all := found + next;
    forall j | 0 <= j < |all|
      ensures IsFindingFor(body[units'[j]], availableBefore[units'[j]], PointsTo.Snapshot(unitToPointsTo, units'[j]), all[j])
    {
      if j < |found| {
        assert all[j] == found[j] && units'[j] == units[j];
      }
    }
  }

  /** Every finding recorded for the first n units carries a positive line number. */
  lemma FindingsHavePositiveLines(body: seq<Unit>, availableBefore: seq<Avail>, unitToPointsTo: map<nat, PointsTo.PtsMap>,
                                  n: nat, found: seq<RedundantLoadInfo>)
    requires n <= |body| == |availableBefore|
    requires FindingsFor(body, availableBefore, unitToPointsTo, n, found)
    ensures forall x :: x in multiset(found) ==> x.lineNumber > 0
  {
    var units := ReportedUnits(body, availableBefore, unitToPointsTo, n);
    ReportedUnitsExact(body, availableBefore, unitToPointsTo, n);
    forall x | x in multiset(found)
      ensures x.lineNumber > 0
    {
      var k :| 0 <= k < |found| && found[k] == x;
      assert Reportable(body, availableBefore, unitToPointsTo, units[k]);
    }
  }

  /**
   * The loop of analyzeMethod: walks the units in order; every field read for
   * which some available fact matches yields one finding if the read has a
   * usable line.
   */
  method CollectFindings(body: seq<Unit>, availableBefore: seq<Avail>, unitToPointsTo: map<nat, PointsTo.PtsMap>)
    returns (collected: seq<RedundantLoadInfo>)
    requires |availableBefore| == |body|
    ensures FindingsFor(body, availableBefore, unitToPointsTo, |body|, collected)
  {
    collected := [];
    var i := 0;
    assert ReportedUnits(body, availableBefore, unitToPointsTo, 0) == [];
    while i < |body|
      invariant i <= |body|
      invariant FindingsFor(body, availableBefore, unitToPointsTo, i, collected)
    {
      var unit := body[i];
      var next: seq<RedundantLoadInfo> := [];
      if IsFieldLoad(unit.stmt) {
        var base, field := unit.stmt.rightOp.base, unit.stmt.rightOp.field;
        var hit, availLoad := FirstMatch(availableBefore[i], base, field, unitToPointsTo, i);
        if hit && unit.line > 0 {
          next := [RedundantLoadInfo(unit.line, FieldRefText(base, field), Text(unit.stmt.leftOp),
                                     Text(availableBefore[i][availLoad]))];
        }
      }
      FindingsForStep(body, availableBefore, unitToPointsTo, i, collected, next);
      collected := collected + next;
      i := i + 1;
    }
  }

  /** analyzeMethod: the findings of one method body, sorted by line. */
  method AnalyzeMethod(body: seq<Unit>, availableBefore: seq<Avail>, unitToPointsTo: map<nat, PointsTo.PtsMap>)
    returns (redundantLoads: seq<RedundantLoadInfo>, ghost found: seq<RedundantLoadInfo>)
    requires |availableBefore| == |body|
    ensures FindingsFor(body, availableBefore, unitToPointsTo, |body|, found)
    ensures redundantLoads == SortByLine(found)
    ensures |redundantLoads| == |ReportedUnits(body, availableBefore, unitToPointsTo, |body|)|
    ensures SortedByLine(redundantLoads)
    ensures forall j :: 0 <= j < |redundantLoads| ==> redundantLoads[j].lineNumber > 0
  {
    var collected := CollectFindings(body, availableBefore, unitToPointsTo);
    redundantLoads := SortByLine(collected);
    found := collected;
    FindingsHavePositiveLines(body, availableBefore, unitToPointsTo, |body|, found);
    forall j | 0 <= j < |redundantLoads|
      ensures redundantLoads[j].lineNumber > 0
    {
      assert redundantLoads[j] in multiset(redundantLoads);
    }
  }

  /**
   * Every reported read is backed by a fact that, at the fixed point, every
   * path into the read's unit makes available.
   */
  lemma ReportedFactReachesFromAllPredecessors(body: seq<Unit>, g: Dataflow.Graph, unitToPointsTo: map<nat, PointsTo.PtsMap>,
                                               ins: seq<Avail>, outs: seq<Avail>, i: nat)
    requires IsSolution(body, g, unitToPointsTo, ins, outs)
    requires i < |body| && Reportable(body, ins, unitToPointsTo, i)
    ensures !g.IsHead(i)
    ensures exists k ::
      && k in ins[i]
      && Witnesses(k, body[i].stmt.rightOp.base, body[i].stmt.rightOp.field, PointsTo.Snapshot(unitToPointsTo, i))
      && (forall j :: 0 <= j < |g.preds[i]| ==> k in outs[g.preds[i][j]])
  {
    var k :| k in ins[i] && Witnesses(k, body[i].stmt.rightOp.base, body[i].stmt.rightOp.field, PointsTo.Snapshot(unitToPointsTo, i));
    SolutionIsMust(body, g, unitToPointsTo, ins, outs, i, k);
  }
}
