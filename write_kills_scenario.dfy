/**
 * The method testWriteKills of files/Test4/Test.java, in the Jimple the
 * analyses see, run through the fixed-point equations of both analyses and
 * the detector: the reads on lines 10 and 15 are reported, the ones on lines
 * 9 and 14 are not.
 */
module WriteKillsScenario {
  import opened Jimple
  import PointsTo
  import opened AvailableLoads
  import Detector
  import Dataflow
  import opened Results
  import opened StraightLine

  const F1 := SootField("Test", "int", "f1")
  const R1 := "$r1"
  const K1 := LoadKey(R1, F1)

  const Read10 := Unit(AssignStmt(Local("i1"), InstanceFieldRef(R1, F1)), 10)
  const Read15 := Unit(AssignStmt(Local("i3"), InstanceFieldRef(R1, F1)), 15)

  function Test4Body(): seq<Unit>
  {
    [ Unit(OtherStmt("r0 := @this: Test"), 5),
      Unit(AssignStmt(Local(R1), NewExpr("Test")), 6),
      Unit(InvokeStmt("specialinvoke $r1.<Test: void <init>()>()"), 6),
      Unit(AssignStmt(InstanceFieldRef(R1, F1), Opaque("10")), 7),
      Unit(AssignStmt(Local("i0"), InstanceFieldRef(R1, F1)), 9),
      Read10,
      Unit(AssignStmt(InstanceFieldRef(R1, F1), Opaque("20")), 12),
      Unit(AssignStmt(Local("i2"), InstanceFieldRef(R1, F1)), 14),
      Read15,
      Unit(OtherStmt("return"), 16) ]
  }

  /** From line 6 on, $r1 points to the object allocated there. */
  lemma Test4BasePointsTo(ins: seq<PointsTo.PtsMap>, outs: seq<PointsTo.PtsMap>, i: nat)
    requires PointsTo.IsSolution(Test4Body(), Dataflow.Chain(10), ins, outs)
    requires 1 <= i < 10
    ensures PointsTo.Lookup(outs[i], Local(R1)) == {PointsTo.AllocSite(6)}
  {
    ChainPointsTo(Test4Body(), ins, outs, 1);
    PointsToPersists(Test4Body(), ins, outs, Local(R1), 1, i);
  }

  /** Up to line 10: the call clears the facts, the read on line 9 makes (r1, f1) available as i0. */
  lemma Test4AvailableFirstHalf(unitToPointsTo: map<nat, PointsTo.PtsMap>, ins: seq<Avail>, outs: seq<Avail>)
    requires AvailableLoads.IsSolution(Test4Body(), Dataflow.Chain(10), unitToPointsTo, ins, outs)
    ensures ins[4] == map[] && ins[5] == map[K1 := Local("i0")] && outs[5] == ins[5]
  {
    var body := Test4Body();
    ChainAvail(body, unitToPointsTo, ins, outs, 2);
    ChainAvail(body, unitToPointsTo, ins, outs, 3);
    ChainAvail(body, unitToPointsTo, ins, outs, 4);
    ChainAvail(body, unitToPointsTo, ins, outs, 5);
  }

  /** From line 12: the write clears (r1, f1), the read on line 14 makes it available again as i2. */
  lemma Test4AvailableSecondHalf(unitToPointsTo: map<nat, PointsTo.PtsMap>, ins: seq<Avail>, outs: seq<Avail>)
    requires AvailableLoads.IsSolution(Test4Body(), Dataflow.Chain(10), unitToPointsTo, ins, outs)
    requires outs[5] == map[K1 := Local("i0")]
    requires PointsTo.Lookup(PointsTo.Snapshot(unitToPointsTo, 6), Local(R1)) == {PointsTo.AllocSite(6)}
    ensures ins[7] == map[] && ins[8] == map[K1 := Local("i2")]
  {
    var body := Test4Body();
    ChainAvail(body, unitToPointsTo, ins, outs, 6);
    assert KilledBy(K1, R1, F1, PointsTo.Snapshot(unitToPointsTo, 6));
    assert outs[6] == map[];
    ChainAvail(body, unitToPointsTo, ins, outs, 7);
    ChainAvail(body, unitToPointsTo, ins, outs, 8);
  }

  /** The facts available before the four reads of testWriteKills. */
  lemma Test4Available(ptsIns: seq<PointsTo.PtsMap>, ptsOuts: seq<PointsTo.PtsMap>, ins: seq<Avail>, outs: seq<Avail>)
    requires PointsTo.IsSolution(Test4Body(), Dataflow.Chain(10), ptsIns, ptsOuts)
    requires AvailableLoads.IsSolution(Test4Body(), Dataflow.Chain(10), Snapshots(ptsOuts), ins, outs)
    ensures ins[4] == map[] && ins[5] == map[K1 := Local("i0")]
    ensures ins[7] == map[] && ins[8] == map[K1 := Local("i2")]
  {
    Test4BasePointsTo(ptsIns, ptsOuts, 6);
    Test4AvailableFirstHalf(Snapshots(ptsOuts), ins, outs);
    Test4AvailableSecondHalf(Snapshots(ptsOuts), ins, outs);
  }

  lemma Test4ReportableAt(ins: seq<Avail>, snaps: map<nat, PointsTo.PtsMap>, i: nat)
    requires |ins| == 10 && i < 10
    requires ins[4] == map[] && ins[5] == map[K1 := Local("i0")]
    requires ins[7] == map[] && ins[8] == map[K1 := Local("i2")]
    ensures Detector.Reportable(Test4Body(), ins, snaps, i) <==> i == 5 || i == 8
  {
    if i == 5 || i == 8 {
      assert Detector.Witnesses(K1, R1, F1, PointsTo.Snapshot(snaps, i));
    }
  }

  /** The reads on lines 10 and 15 are the reported units, in that order. */
  lemma Test4Reported(ins: seq<Avail>, snaps: map<nat, PointsTo.PtsMap>)
    requires |ins| == 10
    requires ins[4] == map[] && ins[5] == map[K1 := Local("i0")]
    requires ins[7] == map[] && ins[8] == map[K1 := Local("i2")]
    ensures Detector.ReportedUnits(Test4Body(), ins, snaps, 10) == [5, 8]
  {
    var body := Test4Body();
    Test4ReportableAt(ins, snaps, 0);
    ReportedStep(body, ins, snaps, 0, false);
    Test4ReportableAt(ins, snaps, 1);
    ReportedStep(body, ins, snaps, 1, false);
    Test4ReportableAt(ins, snaps, 2);
    ReportedStep(body, ins, snaps, 2, false);
    Test4ReportableAt(ins, snaps, 3);
    ReportedStep(body, ins, snaps, 3, false);
    Test4ReportableAt(ins, snaps, 4);
    ReportedStep(body, ins, snaps, 4, false);
    Test4ReportableAt(ins, snaps, 5);
    ReportedStep(body, ins, snaps, 5, true);
    Test4ReportableAt(ins, snaps, 6);
    ReportedStep(body, ins, snaps, 6, false);
    Test4ReportableAt(ins, snaps, 7);
    ReportedStep(body, ins, snaps, 7, false);
    Test4ReportableAt(ins, snaps, 8);
    ReportedStep(body, ins, snaps, 8, true);
    Test4ReportableAt(ins, snaps, 9);
    ReportedStep(body, ins, snaps, 9, false);
  }

  const Line10 := RedundantLoadInfo(10, "$r1.<Test: int f1>", "i1", "i0")
  const Line15 := RedundantLoadInfo(15, "$r1.<Test: int f1>", "i3", "i2")

  /** How Jimple prints the field reference. */
  lemma DescriptorText()
    ensures FieldRefText(R1, F1) == "$r1.<Test: int f1>"
  {
  }

  lemma Test4FindingsFrom(ins: seq<Avail>, snaps: map<nat, PointsTo.PtsMap>, found: seq<RedundantLoadInfo>)
    requires |ins| == 10
    requires ins[5] == map[K1 := Local("i0")] && ins[8] == map[K1 := Local("i2")]
    requires Detector.ReportedUnits(Test4Body(), ins, snaps, 10) == [5, 8]
    requires Detector.FindingsFor(Test4Body(), ins, snaps, 10, found)
    ensures found == [Line10, Line15]
  {
    var body := Test4Body();
    assert body[5] == Read10 && body[8] == Read15;
    DescriptorText();
    assert Detector.IsFindingFor(Read10, ins[5], PointsTo.Snapshot(snaps, 5), found[0]);
    assert Detector.IsFindingFor(Read15, ins[8], PointsTo.Snapshot(snaps, 8), found[1]);
    UniqueWitnessFinding(Read10, ins[5], PointsTo.Snapshot(snaps, 5), K1, found[0]);
    UniqueWitnessFinding(Read15, ins[8], PointsTo.Snapshot(snaps, 8), K1, found[1]);
  }

  /**
   * testWriteKills: the detector reports the reads on lines 10 and 15, with
   * i0 and i2 as replacements; the write on line 12 keeps the read on line 14
   * from being reported.
   */
  lemma Test4Findings(ptsIns: seq<PointsTo.PtsMap>, ptsOuts: seq<PointsTo.PtsMap>, ins: seq<Avail>, outs: seq<Avail>,
                      found: seq<RedundantLoadInfo>)
    requires PointsTo.IsSolution(Test4Body(), Dataflow.Chain(10), ptsIns, ptsOuts)
    requires AvailableLoads.IsSolution(Test4Body(), Dataflow.Chain(10), Snapshots(ptsOuts), ins, outs)
    requires Detector.FindingsFor(Test4Body(), ins, Snapshots(ptsOuts), 10, found)
    ensures found == [Line10, Line15]
    ensures SortByLine(found) == [Line10, Line15]
  {
    Test4Available(ptsIns, ptsOuts, ins, outs);
    Test4Reported(ins, Snapshots(ptsOuts));
    Test4FindingsFrom(ins, Snapshots(ptsOuts), found);
    OrderedPairStaysSorted(Line10, Line15);
  }

}
