/**
 * The method testAliasing of files/TestCase5.java, with `alias = obj1` kept
 * as a copy between locals: the second reads of obj1.value and obj2.value
 * are reported, the first read of obj2.value is not (the two objects come
 * from different lines), and the read through the alias is reported with
 * the local that obj1.value was first loaded into.
 */
module AliasingScenario {
  import opened Jimple
  import PointsTo
  import opened AvailableLoads
  import Detector
  import Dataflow
  import opened Results
  import opened StraightLine

  const Value := SootField("Test", "int", "value")
  const Obj1 := "$r1"
  const Obj2 := "$r2"
  const Alias := "r3"
  const K1 := LoadKey(Obj1, Value)
  const K2 := LoadKey(Obj2, Value)

  const Read12 := Unit(AssignStmt(Local("i1"), InstanceFieldRef(Obj1, Value)), 12)
  const Read14 := Unit(AssignStmt(Local("i2"), InstanceFieldRef(Obj2, Value)), 14)
  const Read15 := Unit(AssignStmt(Local("i3"), InstanceFieldRef(Obj2, Value)), 15)
  const Read19 := Unit(AssignStmt(Local("i4"), InstanceFieldRef(Alias, Value)), 19)

  function Body(): seq<Unit>
  {
    [ Unit(OtherStmt("r0 := @this: Test"), 4),
      Unit(AssignStmt(Local(Obj1), NewExpr("Test")), 5),
      Unit(InvokeStmt("specialinvoke $r1.<Test: void <init>()>()"), 5),
      Unit(AssignStmt(Local(Obj2), NewExpr("Test")), 6),
      Unit(InvokeStmt("specialinvoke $r2.<Test: void <init>()>()"), 6),
      Unit(AssignStmt(InstanceFieldRef(Obj1, Value), Opaque("100")), 8),
      Unit(AssignStmt(InstanceFieldRef(Obj2, Value), Opaque("200")), 9),
      Unit(AssignStmt(Local("i0"), InstanceFieldRef(Obj1, Value)), 11),
      Read12,
      Read14,
      Read15,
      Unit(AssignStmt(Local(Alias), Local(Obj1)), 18),
      Read19,
      Unit(OtherStmt("return"), 20) ]
  }

  /** From line 5 on, obj1 points to the object allocated there. */
  lemma Obj1PointsTo(ins: seq<PointsTo.PtsMap>, outs: seq<PointsTo.PtsMap>, i: nat)
    requires PointsTo.IsSolution(Body(), Dataflow.Chain(14), ins, outs)
    requires 1 <= i < 14
    ensures PointsTo.Lookup(outs[i], Local(Obj1)) == {PointsTo.AllocSite(5)}
  {
    ChainPointsTo(Body(), ins, outs, 1);
    PointsToPersists(Body(), ins, outs, Local(Obj1), 1, i);
  }

  /** From line 6 on, obj2 points to the object allocated there. */
  lemma Obj2PointsTo(ins: seq<PointsTo.PtsMap>, outs: seq<PointsTo.PtsMap>, i: nat)
    requires PointsTo.IsSolution(Body(), Dataflow.Chain(14), ins, outs)
    requires 3 <= i < 14
    ensures PointsTo.Lookup(outs[i], Local(Obj2)) == {PointsTo.AllocSite(6)}
  {
    ChainPointsTo(Body(), ins, outs, 3);
    PointsToPersists(Body(), ins, outs, Local(Obj2), 3, i);
  }

  /** The copy on line 18 gives the alias obj1's object. */
  lemma AliasPointsTo(ins: seq<PointsTo.PtsMap>, outs: seq<PointsTo.PtsMap>)
    requires PointsTo.IsSolution(Body(), Dataflow.Chain(14), ins, outs)
    ensures PointsTo.Lookup(outs[12], Local(Alias)) == {PointsTo.AllocSite(5)}
  {
    Obj1PointsTo(ins, outs, 10);
    ChainPointsTo(Body(), ins, outs, 11);
    PointsToPersists(Body(), ins, outs, Local(Alias), 11, 12);
  }

  /** What the three bases point to wherever the detector asks. */
  lemma BasesPointTo(ins: seq<PointsTo.PtsMap>, outs: seq<PointsTo.PtsMap>)
    requires PointsTo.IsSolution(Body(), Dataflow.Chain(14), ins, outs)
    ensures BasesKnown(Snapshots(outs))
  {
    forall i | 9 <= i <= 12
      ensures PointsOf(PointsTo.Snapshot(Snapshots(outs), i), Obj1) == {PointsTo.AllocSite(5)}
      ensures PointsOf(PointsTo.Snapshot(Snapshots(outs), i), Obj2) == {PointsTo.AllocSite(6)}
    {
      Obj1PointsTo(ins, outs, i);
      Obj2PointsTo(ins, outs, i);
    }
    AliasPointsTo(ins, outs);
  }

  /** Up to line 12: the calls clear the facts, the writes find nothing to kill, line 11 makes (obj1, value) available. */
  lemma AvailableFirstHalf(unitToPointsTo: map<nat, PointsTo.PtsMap>, ins: seq<Avail>, outs: seq<Avail>)
    requires AvailableLoads.IsSolution(Body(), Dataflow.Chain(14), unitToPointsTo, ins, outs)
    ensures ins[7] == map[] && ins[8] == map[K1 := Local("i0")] && ins[9] == ins[8]
  {
    var body := Body();
    AvailableAfterCalls(unitToPointsTo, ins, outs);
    ChainAvail(body, unitToPointsTo, ins, outs, 7);
    ChainAvail(body, unitToPointsTo, ins, outs, 8);
    ChainAvail(body, unitToPointsTo, ins, outs, 9);
  }

  /** The second constructor call leaves nothing available, and the writes on lines 8 and 9 have nothing to kill. */
  lemma AvailableAfterCalls(unitToPointsTo: map<nat, PointsTo.PtsMap>, ins: seq<Avail>, outs: seq<Avail>)
    requires AvailableLoads.IsSolution(Body(), Dataflow.Chain(14), unitToPointsTo, ins, outs)
    ensures outs[6] == map[]
  {
    var body := Body();
    ChainAvail(body, unitToPointsTo, ins, outs, 4);
    ChainAvail(body, unitToPointsTo, ins, outs, 5);
    ChainAvail(body, unitToPointsTo, ins, outs, 6);
  }

  /** From line 14: (obj2, value) joins as i2 and nothing else changes up to line 19. */
  lemma AvailableSecondHalf(unitToPointsTo: map<nat, PointsTo.PtsMap>, ins: seq<Avail>, outs: seq<Avail>)
    requires AvailableLoads.IsSolution(Body(), Dataflow.Chain(14), unitToPointsTo, ins, outs)
    requires ins[9] == map[K1 := Local("i0")]
    ensures ins[10] == map[K1 := Local("i0"), K2 := Local("i2")] && ins[12] == ins[10]
  {
    var body := Body();
    ChainAvail(body, unitToPointsTo, ins, outs, 9);
    ChainAvail(body, unitToPointsTo, ins, outs, 10);
    ChainAvail(body, unitToPointsTo, ins, outs, 11);
    ChainAvail(body, unitToPointsTo, ins, outs, 12);
  }

  ghost predicate AvailableAtReads(ins: seq<Avail>)
  {
    && |ins| == 14
    && ins[7] == map[] && ins[8] == map[K1 := Local("i0")] && ins[9] == ins[8]
    && ins[10] == map[K1 := Local("i0"), K2 := Local("i2")] && ins[12] == ins[10]
  }

  ghost predicate BasesKnown(snaps: map<nat, PointsTo.PtsMap>)
  {
    && (forall i :: 9 <= i <= 12 ==> PointsOf(PointsTo.Snapshot(snaps, i), Obj1) == {PointsTo.AllocSite(5)})
    && (forall i :: 9 <= i <= 12 ==> PointsOf(PointsTo.Snapshot(snaps, i), Obj2) == {PointsTo.AllocSite(6)})
    && PointsOf(PointsTo.Snapshot(snaps, 12), Alias) == {PointsTo.AllocSite(5)}
  }

  lemma ReportableAt(ins: seq<Avail>, snaps: map<nat, PointsTo.PtsMap>, i: nat)
    requires AvailableAtReads(ins) && BasesKnown(snaps) && i < 14
    ensures Detector.Reportable(Body(), ins, snaps, i) <==> i == 8 || i == 10 || i == 12
  {
    PointsTo.AllocSitesDistinct(5, 6);
    if i == 8 {
      assert Detector.Witnesses(K1, Obj1, Value, PointsTo.Snapshot(snaps, i));
    } else if i == 10 {
      assert Detector.Witnesses(K2, Obj2, Value, PointsTo.Snapshot(snaps, i));
    } else if i == 12 {
      assert PointsTo.AllocSite(5) in PointsOf(PointsTo.Snapshot(snaps, i), Alias);
      assert Detector.Witnesses(K1, Alias, Value, PointsTo.Snapshot(snaps, i));
    } else if i == 9 {
      assert !Detector.Witnesses(K1, Obj2, Value, PointsTo.Snapshot(snaps, i));
    }
  }

  lemma ReportedUpToLine12(ins: seq<Avail>, snaps: map<nat, PointsTo.PtsMap>)
    requires AvailableAtReads(ins) && BasesKnown(snaps)
    ensures Detector.ReportedUnits(Body(), ins, snaps, 9) == [8]
  {
    var body := Body();
    ReportableAt(ins, snaps, 0);
    ReportedStep(body, ins, snaps, 0, false);
    ReportableAt(ins, snaps, 1);
    ReportedStep(body, ins, snaps, 1, false);
    ReportableAt(ins, snaps, 2);
    ReportedStep(body, ins, snaps, 2, false);
    ReportableAt(ins, snaps, 3);
    ReportedStep(body, ins, snaps, 3, false);
    ReportableAt(ins, snaps, 4);
    ReportedStep(body, ins, snaps, 4, false);
    ReportableAt(ins, snaps, 5);
    ReportedStep(body, ins, snaps, 5, false);
    ReportableAt(ins, snaps, 6);
    ReportedStep(body, ins, snaps, 6, false);
    ReportableAt(ins, snaps, 7);
    ReportedStep(body, ins, snaps, 7, false);
    ReportableAt(ins, snaps, 8);
    ReportedStep(body, ins, snaps, 8, true);
  }

  lemma ReportedUpToLine15(ins: seq<Avail>, snaps: map<nat, PointsTo.PtsMap>)
    requires AvailableAtReads(ins) && BasesKnown(snaps)
    ensures Detector.ReportedUnits(Body(), ins, snaps, 11) == [8, 10]
  {
    var body := Body();
    ReportedUpToLine12(ins, snaps);
    ReportableAt(ins, snaps, 9);
    ReportedStep(body, ins, snaps, 9, false);
    ReportableAt(ins, snaps, 10);
    ReportedStep(body, ins, snaps, 10, true);
  }

  /** The reads on lines 12, 15 and 19 are the reported units, in that order. */
  lemma Reported(ins: seq<Avail>, snaps: map<nat, PointsTo.PtsMap>)
    requires AvailableAtReads(ins) && BasesKnown(snaps)
    ensures Detector.ReportedUnits(Body(), ins, snaps, 14) == [8, 10, 12]
  {
    var body := Body();
    ReportedUpToLine15(ins, snaps);
    ReportableAt(ins, snaps, 11);
    ReportedStep(body, ins, snaps, 11, false);
    ReportableAt(ins, snaps, 12);
    ReportedStep(body, ins, snaps, 12, true);
    ReportableAt(ins, snaps, 13);
    ReportedStep(body, ins, snaps, 13, false);
  }

  const Line12 := RedundantLoadInfo(12, "$r1.<Test: int value>", "i1", "i0")
  const Line15 := RedundantLoadInfo(15, "$r2.<Test: int value>", "i3", "i2")
  const Line19 := RedundantLoadInfo(19, "r3.<Test: int value>", "i4", "i0")

  /** How Jimple prints the three field references. */
  lemma Obj1Descriptor()
    ensures FieldRefText(Obj1, Value) == "$r1.<Test: int value>"
  {
  }

  lemma Obj2Descriptor()
    ensures FieldRefText(Obj2, Value) == "$r2.<Test: int value>"
  {
  }

  lemma AliasDescriptor()
    ensures FieldRefText(Alias, Value) == "r3.<Test: int value>"
  {
  }

  lemma Finding12(ins: seq<Avail>, pts: PointsTo.PtsMap, info: RedundantLoadInfo)
    requires |ins| == 14 && ins[8] == map[K1 := Local("i0")]
    requires Detector.IsFindingFor(Read12, ins[8], pts, info)
    ensures info == Line12
  {
    Obj1Descriptor();
    UniqueWitnessFinding(Read12, ins[8], pts, K1, info);
  }

  /** obj1's fact does not match a read of obj2: different names, different allocation lines. */
  lemma Finding15(ins: seq<Avail>, pts: PointsTo.PtsMap, info: RedundantLoadInfo)
    requires |ins| == 14 && ins[10] == map[K1 := Local("i0"), K2 := Local("i2")]
    requires PointsOf(pts, Obj1) == {PointsTo.AllocSite(5)} && PointsOf(pts, Obj2) == {PointsTo.AllocSite(6)}
    requires Detector.IsFindingFor(Read15, ins[10], pts, info)
    ensures info == Line15
  {
    PointsTo.AllocSitesDistinct(5, 6);
    Obj2Descriptor();
    assert !Detector.Witnesses(K1, Obj2, Value, pts);
    SecondOfTwoFinding(Read15, K1, Local("i0"), K2, Local("i2"), pts, info);
  }

  /** The alias matches obj1's fact through the shared allocation line, and not obj2's. */
  lemma Finding19(ins: seq<Avail>, pts: PointsTo.PtsMap, info: RedundantLoadInfo)
    requires |ins| == 14 && ins[12] == map[K1 := Local("i0"), K2 := Local("i2")]
    requires PointsOf(pts, Alias) == {PointsTo.AllocSite(5)} && PointsOf(pts, Obj2) == {PointsTo.AllocSite(6)}
    requires Detector.IsFindingFor(Read19, ins[12], pts, info)
    ensures info == Line19
  {
    PointsTo.AllocSitesDistinct(5, 6);
    AliasDescriptor();
    assert !Detector.Witnesses(K2, Alias, Value, pts);
    assert ins[12] == map[K2 := Local("i2"), K1 := Local("i0")];
    SecondOfTwoFinding(Read19, K2, Local("i2"), K1, Local("i0"), pts, info);
  }

  lemma FindingsFrom(ins: seq<Avail>, snaps: map<nat, PointsTo.PtsMap>, found: seq<RedundantLoadInfo>)
    requires AvailableAtReads(ins) && BasesKnown(snaps)
    requires Detector.ReportedUnits(Body(), ins, snaps, 14) == [8, 10, 12]
    requires Detector.FindingsFor(Body(), ins, snaps, 14, found)
    ensures found == [Line12, Line15, Line19]
  {
    var body := Body();
    assert body[8] == Read12 && body[10] == Read15 && body[12] == Read19;
    assert Detector.IsFindingFor(Read12, ins[8], PointsTo.Snapshot(snaps, 8), found[0]);
    assert Detector.IsFindingFor(Read15, ins[10], PointsTo.Snapshot(snaps, 10), found[1]);
    assert Detector.IsFindingFor(Read19, ins[12], PointsTo.Snapshot(snaps, 12), found[2]);
    Finding12(ins, PointsTo.Snapshot(snaps, 8), found[0]);
    Finding15(ins, PointsTo.Snapshot(snaps, 10), found[1]);
    Finding19(ins, PointsTo.Snapshot(snaps, 12), found[2]);
  }

  /**
   * testAliasing: the detector reports lines 12, 15 and 19, replacing the
   * read through the alias on line 19 by i0, loaded from obj1 on line 11.
   */
  lemma AliasingFindings(ptsIns: seq<PointsTo.PtsMap>, ptsOuts: seq<PointsTo.PtsMap>, ins: seq<Avail>, outs: seq<Avail>,
                         found: seq<RedundantLoadInfo>)
    requires PointsTo.IsSolution(Body(), Dataflow.Chain(14), ptsIns, ptsOuts)
    requires AvailableLoads.IsSolution(Body(), Dataflow.Chain(14), Snapshots(ptsOuts), ins, outs)
    requires Detector.FindingsFor(Body(), ins, Snapshots(ptsOuts), 14, found)
    ensures found == [Line12, Line15, Line19]
    ensures SortByLine(found) == [Line12, Line15, Line19]
  {
    var snaps := Snapshots(ptsOuts);
    BasesPointTo(ptsIns, ptsOuts);
    AvailableFirstHalf(snaps, ins, outs);
    AvailableSecondHalf(snaps, ins, outs);
    Reported(ins, snaps);
    FindingsFrom(ins, snaps, found);
    OrderedTripleStaysSorted(Line12, Line15, Line19);
  }
}
