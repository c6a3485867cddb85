/**
 * The available-loads analysis of files/PA2.java (class
 * AvailableLoadsAnalysis): a must-analysis over field-load facts
 * (base, field, target). Facts are compared on (base, field) only, so a set
 * of them is a map from (base, field) to the target of the load that got
 * there first. Alias decisions read the points-to snapshot of the unit
 * being processed.
 */
module AvailableLoads {
  import opened Jimple
  import PointsTo
  import Dataflow

  /** What PA2.FieldLoad.equals and hashCode look at. */
  datatype LoadKey = LoadKey(base: string, field: SootField)

  /** PA2.FieldLoad: `target` holds the value of `base.field`. */
  datatype FieldLoad = FieldLoad(base: string, field: SootField, target: Value)
  {
    function Key(): LoadKey { LoadKey(base, field) }

    /** equals(Object): false for anything that is not a FieldLoad, otherwise base and field agree. */
    predicate Equals(o: JavaObject)
    {
      o.LoadObject? && base == o.load.base && field == o.load.field
    }

    /** Objects.hash(base, field), from the hash codes of the parts. */
    function HashCode(hashLocal: string -> int, hashField: SootField -> int): (h: int)
      ensures -0x8000_0000 <= h < 0x8000_0000
      ensures (h - (961 + hashLocal(base) * 31 + hashField(field))) % 0x1_0000_0000 == 0
    {
      Int32(31 * (31 + hashLocal(base)) + hashField(field))
    }

    /** toString: `base.name -> target`. */
    function ToString(): (s: string)
      ensures |s| == |base| + |field.name| + |Text(target)| + 5
      ensures s[..|base|] == base && s[|base|] == '.'
      ensures s[|base| + 1..|base| + 1 + |field.name|] == field.name
      ensures s[|base| + 1 + |field.name|..|base| + 5 + |field.name|] == " -> "
      ensures s[|s| - |Text(target)|..] == Text(target)
    {
      base + "." + field.name + " -> " + Text(target)
    }
  }

  /** The argument of equals(Object). */
  datatype JavaObject = LoadObject(load: FieldLoad) | OtherObject

  /** Loads that differ only in their target are the same element of a fact set. */
  lemma EqualsIgnoresTarget(l1: FieldLoad, l2: FieldLoad)
    ensures l1.Equals(LoadObject(l2)) <==> l1.Key() == l2.Key()
  {
  }

  lemma EqualsConsistentWithHashCode(l1: FieldLoad, l2: FieldLoad, hashLocal: string -> int, hashField: SootField -> int)
    requires l1.Equals(LoadObject(l2))
    ensures l1.HashCode(hashLocal, hashField) == l2.HashCode(hashLocal, hashField)
  {
  }

  /** A set of facts under (base, field) equality. */
  type Avail = map<LoadKey, Value>

  /** The objects a local may point to after unit u, as getPointsToSet answers. */
  function PointsOf(pts: PointsTo.PtsMap, x: string): set<PointsTo.AbsObj>
  {
    PointsTo.Lookup(pts, Local(x))
  }

  /** The removeIf test of a write `base.f = ...`: same field and intersecting points-to sets. */
  predicate KilledBy(k: LoadKey, base: string, f: SootField, pts: PointsTo.PtsMap)
  {
    !(PointsOf(pts, base) !! PointsOf(pts, k.base)) && k.field == f
  }

  function Kill(m: Avail, base: string, f: SootField, pts: PointsTo.PtsMap): (r: Avail)
    ensures forall k :: k in r <==> k in m && !KilledBy(k, base, f, pts)
    ensures forall k :: k in r ==> r[k] == m[k]
  {
    map k | k in m && !KilledBy(k, base, f, pts) :: m[k]
  }

  /** HashSet.add: a fact with the same (base, field) already present is kept as it is. */
  function Gen(m: Avail, k: LoadKey, target: Value): (r: Avail)
    ensures r.Keys == m.Keys + {k}
    ensures k in m ==> r == m
    ensures k !in m ==> r[k] == target && forall k' :: k' in m ==> r[k'] == m[k']
  {
    if k in m then m else m[k := target]
  }

  /**
   * flowThrough: on an assignment, a field write kills what may alias it
   * and a field read then adds its fact; a statement containing a call
   * kills everything; anything else passes the facts through.
   */
  function Transfer(inFlow: Avail, u: Unit, pts: PointsTo.PtsMap): Avail
  {
    if ContainsInvokeExpr(u.stmt) then map[]
    else
      match u.stmt
      case AssignStmt(left, right) =>
        var killed := if left.InstanceFieldRef? then Kill(inFlow, left.base, left.field, pts) else inFlow;
        if right.InstanceFieldRef? then Gen(killed, LoadKey(right.base, right.field), left) else killed
      case _ => inFlow
  }

  lemma InvokeKillsAll(inFlow: Avail, u: Unit, pts: PointsTo.PtsMap)
    requires ContainsInvokeExpr(u.stmt)
    ensures Transfer(inFlow, u, pts) == map[]
  {
  }

  /** A write removes exactly the facts on its field whose base may alias its own base. */
  lemma WriteKillsMayAliases(inFlow: Avail, o: string, f: SootField, rhs: Value, line: int, pts: PointsTo.PtsMap)
    requires !rhs.InvokeExpr? && !rhs.InstanceFieldRef?
    ensures var out := Transfer(inFlow, Unit(AssignStmt(InstanceFieldRef(o, f), rhs), line), pts);
      && (forall k :: k in out <==> k in inFlow && !(k.field == f && !(PointsOf(pts, o) !! PointsOf(pts, k.base))))
      && (forall k :: k in out ==> out[k] == inFlow[k])
  {
  }

  /** A write through a base with no points-to information removes nothing, not even facts on that very base. */
  lemma WriteThroughUntrackedBaseKillsNothing(inFlow: Avail, o: string, f: SootField, rhs: Value, line: int, pts: PointsTo.PtsMap)
    requires !rhs.InvokeExpr? && !rhs.InstanceFieldRef?
    requires PointsOf(pts, o) == {}
    ensures Transfer(inFlow, Unit(AssignStmt(InstanceFieldRef(o, f), rhs), line), pts) == inFlow
  {
    var out := Transfer(inFlow, Unit(AssignStmt(InstanceFieldRef(o, f), rhs), line), pts);
    assert out == Kill(inFlow, o, f, pts);
    assert out.Keys == inFlow.Keys;
  }

  /** After `x = o.f` the fact for (o, f) is present; one that was already there keeps its target. */
  lemma ReadGeneratesFact(inFlow: Avail, x: string, o: string, f: SootField, line: int, pts: PointsTo.PtsMap)
    ensures var out := Transfer(inFlow, Unit(AssignStmt(Local(x), InstanceFieldRef(o, f)), line), pts);
      && out.Keys == inFlow.Keys + {LoadKey(o, f)}
      && out[LoadKey(o, f)] == (if LoadKey(o, f) in inFlow then inFlow[LoadKey(o, f)] else Local(x))
      && forall k :: k in inFlow ==> out[k] == inFlow[k]
  {
  }

  /**
   * An assignment without a field reference or a call keeps every fact, even
   * when it overwrites the base or the target of one.
   */
  lemma PlainAssignmentKeepsFacts(inFlow: Avail, u: Unit, pts: PointsTo.PtsMap)
    requires !ContainsInvokeExpr(u.stmt)
    requires u.stmt.AssignStmt? ==> !u.stmt.leftOp.InstanceFieldRef? && !u.stmt.rightOp.InstanceFieldRef?
    ensures Transfer(inFlow, u, pts) == inFlow
  {
  }

  /** Facts about other fields survive any write. */
  lemma WriteSparesOtherFields(inFlow: Avail, u: Unit, pts: PointsTo.PtsMap, k: LoadKey)
    requires !ContainsInvokeExpr(u.stmt)
    requires u.stmt.AssignStmt? && u.stmt.leftOp.InstanceFieldRef?
    requires k.field != u.stmt.leftOp.field && k in inFlow
    ensures var out := Transfer(inFlow, u, pts); k in out && out[k] == inFlow[k]
  {
  }

  /** The merge (retainAll): keys in both flows, with the first flow's targets. */
  function Meet(a: Avail, b: Avail): (r: Avail)
    ensures r.Keys == a.Keys * b.Keys
    ensures forall k :: k in r ==> r[k] == a[k]
  {
    map k | k in a && k in b :: a[k]
  }

  lemma MeetIdempotent(a: Avail)
    ensures Meet(a, a) == a
  {
  }

  lemma MeetAssociative(a: Avail, b: Avail, c: Avail)
    ensures Meet(Meet(a, b), c) == Meet(a, Meet(b, c))
  {
    var l, r := Meet(Meet(a, b), c), Meet(a, Meet(b, c));
    assert l.Keys == r.Keys;
  }

  /** Which facts survive does not depend on the order; which target survives does. */
  lemma MeetKeysCommute(a: Avail, b: Avail)
    ensures Meet(a, b).Keys == Meet(b, a).Keys
    ensures forall k :: k in Meet(a, b) ==> Meet(a, b)[k] == a[k] && Meet(b, a)[k] == b[k]
  {
  }

  /** The in-flow of a unit with several sources: the first, then intersected with each further one. */
  function MeetAll(flows: seq<Avail>): Avail
  {
    if |flows| == 0 then map[]
    else if |flows| == 1 then flows[0]
    else Meet(MeetAll(flows[..|flows| - 1]), flows[|flows| - 1])
  }

  /** A fact survives the merge exactly when every source has it, with the first source's target. */
  lemma {:induction false} MeetAllHas(flows: seq<Avail>, k: LoadKey)
    requires |flows| > 0
    ensures k in MeetAll(flows) <==> forall j :: 0 <= j < |flows| ==> k in flows[j]
    ensures k in MeetAll(flows) ==> MeetAll(flows)[k] == flows[0][k]
  {
    if |flows| > 1 {
      var init := flows[..|flows| - 1];
      MeetAllHas(init, k);
      assert forall j :: 0 <= j < |init| ==> init[j] == flows[j];
    }
  }

  /** The converged analysis over the points-to snapshots of every unit. */
  ghost predicate IsSolution(body: seq<Unit>, g: Dataflow.Graph, unitToPointsTo: map<nat, PointsTo.PtsMap>,
                             ins: seq<Avail>, outs: seq<Avail>)
  {
    && g.Valid() && g.Size() == |body| == |ins| == |outs|
    && forall i :: 0 <= i < |body| ==> SolvedAt(body, g, unitToPointsTo, ins, outs, i)
  }

  ghost predicate SolvedAt(body: seq<Unit>, g: Dataflow.Graph, unitToPointsTo: map<nat, PointsTo.PtsMap>,
                           ins: seq<Avail>, outs: seq<Avail>, i: nat)
    requires g.Valid() && g.Size() == |body| == |ins| == |outs| && i < |body|
  {
    && ins[i] == MeetAll(Dataflow.Sources(g, i, map[], outs))
    && outs[i] == Transfer(ins[i], body[i], PointsTo.Snapshot(unitToPointsTo, i))
  }

  /**
   * Must-soundness: a fact available before a unit is in the out-flow of
   * every predecessor, with the first predecessor's target; nothing is
   * available before a head.
   */
  lemma SolutionIsMust(body: seq<Unit>, g: Dataflow.Graph, unitToPointsTo: map<nat, PointsTo.PtsMap>,
                       ins: seq<Avail>, outs: seq<Avail>, i: nat, k: LoadKey)
    requires IsSolution(body, g, unitToPointsTo, ins, outs)
    requires i < |body| && k in ins[i]
    ensures !g.IsHead(i)
    ensures forall j :: 0 <= j < |g.preds[i]| ==> k in outs[g.preds[i][j]]
    ensures ins[i][k] == outs[g.preds[i][0]][k]
  {
    assert SolvedAt(body, g, unitToPointsTo, ins, outs, i);
    var src := Dataflow.Sources(g, i, map[], outs);
    MeetAllHas(src, k);
    forall j | 0 <= j < |g.preds[i]|
      ensures k in outs[g.preds[i][j]]
    {
      assert src[j] == outs[g.preds[i][j]];
    }
  }

  /** After a unit containing a call nothing is available. */
  lemma SolutionClearsAtCalls(body: seq<Unit>, g: Dataflow.Graph, unitToPointsTo: map<nat, PointsTo.PtsMap>,
                              ins: seq<Avail>, outs: seq<Avail>, i: nat)
    requires IsSolution(body, g, unitToPointsTo, ins, outs)
    requires i < |body| && ContainsInvokeExpr(body[i].stmt)
    ensures outs[i] == map[]
  {
    assert SolvedAt(body, g, unitToPointsTo, ins, outs, i);
  }

  class AvailableLoadsAnalysis {
    const body: seq<Unit>
    const pointsTo: PointsTo.PointsToAnalysis

    constructor (body: seq<Unit>, pointsTo: PointsTo.PointsToAnalysis)
      ensures this.body == body && this.pointsTo == pointsTo
    {
      this.body := body;
      this.pointsTo := pointsTo;
    }

    method FlowThrough(inFlow: Avail, u: nat) returns (out: Avail)
      requires u < |body|
      ensures out == Transfer(inFlow, body[u], PointsTo.Snapshot(pointsTo.unitToPointsTo, u))
    {
      ghost var pts := PointsTo.Snapshot(pointsTo.unitToPointsTo, u);
      out := inFlow;
      var stmt := body[u].stmt;
      if stmt.AssignStmt? {
        var left := stmt.leftOp;
        if left.InstanceFieldRef? {
          // removeIf: drop every fact on this field whose base may alias the written base
          var basePointsTo := pointsTo.GetPointsToSet(Local(left.base), u);
          var todo := out.Keys;
          while todo != {}
            invariant todo <= inFlow.Keys
            invariant forall k :: k in out <==> k in inFlow && (k in todo || !KilledBy(k, left.base, left.field, pts))
            invariant forall k :: k in out ==> out[k] == inFlow[k]
            decreases todo
          {
            var load :| load in todo;
            var loadBasePointsTo := pointsTo.GetPointsToSet(Local(load.base), u);
            if !(basePointsTo !! loadBasePointsTo) && load.field == left.field {
              out := out - {load};
            }
            todo := todo - {load};
          }
        }
        var right := stmt.rightOp;
        if right.InstanceFieldRef? {
          var newLoad := FieldLoad(right.base, right.field, left);
          if newLoad.Key() !in out {
            out := out[newLoad.Key() := newLoad.target];
          }
        }
      }
      if ContainsInvokeExpr(stmt) {
        out := map[];
      }
    }

    /** out = in1, then retainAll(in2). */
    method Merge(in1: Avail, in2: Avail) returns (out: Avail)
      ensures out == Meet(in1, in2)
    {
      out := in1;
      var todo := in1.Keys;
      while todo != {}
        invariant todo <= in1.Keys
        invariant forall k :: k in out <==> k in in1 && (k in todo || k in in2)
        invariant forall k :: k in out ==> out[k] == in1[k]
        decreases todo
      {
        var load :| load in todo;
        if load !in in2 {
          out := out - {load};
        }
        todo := todo - {load};
      }
    }
  }
}
