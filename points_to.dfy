/**
 * The intraprocedural points-to analysis (class PointsToAnalysis of
 * files/PA2.java): a may-analysis over maps from values to sets of abstract
 * object names. There is no heap model: a field read yields the single name
 * "UNKNOWN", and a write `o.f = y` records y's set under the key `o.f`
 * itself.
 */
module PointsTo {
  import opened Jimple
  import Strings
  import Dataflow

  /** An abstract object name: "O" followed by the allocation's line, or "UNKNOWN". */
  type AbsObj = string

  type PtsMap = map<Value, set<AbsObj>>

  const Unknown: AbsObj := "UNKNOWN"

  /** The name of every object allocated on a source line. */
  function AllocSite(line: int): (o: AbsObj)
    ensures |o| >= 2 && o[0] == 'O' && o != Unknown
  {
    "O" + Strings.IntToString(line)
  }

  /** Allocations on different lines are never conflated. */
  lemma AllocSitesDistinct(l1: int, l2: int)
    requires l1 != l2
    ensures AllocSite(l1) != AllocSite(l2)
  {
    if AllocSite(l1) == AllocSite(l2) {
      assert AllocSite(l1)[1..] == Strings.IntToString(l1);
      assert AllocSite(l2)[1..] == Strings.IntToString(l2);
      Strings.IntToStringInjective(l1, l2);
    }
  }

  /** `m.getOrDefault(v, empty)`: a value the map does not mention points nowhere. */
  function Lookup(m: PtsMap, v: Value): set<AbsObj>
  {
    if v in m then m[v] else {}
  }

  /**
   * The transfer function: `x = new T` maps x to the allocation's name,
   * `lhs = y` (y a local) maps lhs to y's set, `x = o.f` maps x to UNKNOWN;
   * every other statement, and every other key, is left alone.
   */
  function Transfer(inFlow: PtsMap, u: Unit): (out: PtsMap)
    ensures !u.stmt.AssignStmt? ==> out == inFlow
    ensures out.Keys <= inFlow.Keys + (if u.stmt.AssignStmt? then {u.stmt.leftOp} else {})
    ensures forall k :: k in inFlow ==> k in out
    ensures forall k :: (u.stmt.AssignStmt? ==> k != u.stmt.leftOp) ==> Lookup(out, k) == Lookup(inFlow, k)
  {
    match u.stmt
    case AssignStmt(left, right) =>
      (match right
       case NewExpr(_) => inFlow[left := {AllocSite(u.line)}]
       case Local(_) => inFlow[left := Lookup(inFlow, right)]
       case InstanceFieldRef(_, _) => inFlow[left := {Unknown}]
       case _ => inFlow)
    case _ => inFlow
  }

  lemma TransferNew(inFlow: PtsMap, x: Value, t: string, line: int)
    ensures var out := Transfer(inFlow, Unit(AssignStmt(x, NewExpr(t)), line));
      x in out && out[x] == {AllocSite(line)}
  {
  }

  /** Two allocations on the same line give their targets the same abstract object. */
  lemma SameLineAllocationsShareObject(in1: PtsMap, in2: PtsMap, x: Value, y: Value, t1: string, t2: string, line: int)
    ensures Lookup(Transfer(in1, Unit(AssignStmt(x, NewExpr(t1)), line)), x)
         == Lookup(Transfer(in2, Unit(AssignStmt(y, NewExpr(t2)), line)), y)
  {
  }

  lemma TransferCopy(inFlow: PtsMap, lhs: Value, y: string, line: int)
    ensures var out := Transfer(inFlow, Unit(AssignStmt(lhs, Local(y)), line));
      lhs in out && out[lhs] == (if Local(y) in inFlow then inFlow[Local(y)] else {})
  {
  }

  lemma TransferFieldRead(inFlow: PtsMap, x: Value, base: string, f: SootField, line: int)
    ensures var out := Transfer(inFlow, Unit(AssignStmt(x, InstanceFieldRef(base, f)), line));
      x in out && out[x] == {Unknown}
  {
  }

  /** Any assignment whose right side is not an allocation, a local or a field read changes nothing. */
  lemma TransferIdentity(inFlow: PtsMap, u: Unit)
    requires u.stmt.AssignStmt? ==> !(u.stmt.rightOp.NewExpr? || u.stmt.rightOp.Local? || u.stmt.rightOp.InstanceFieldRef?)
    ensures Transfer(inFlow, u) == inFlow
  {
  }

  /** The merge: key set is the union of both key sets; each set is the union of both sides' sets. */
  function Join(a: PtsMap, b: PtsMap): (r: PtsMap)
    ensures r.Keys == a.Keys + b.Keys
    ensures forall v :: Lookup(r, v) == Lookup(a, v) + Lookup(b, v)
  {
    map v | v in a.Keys + b.Keys :: Lookup(a, v) + Lookup(b, v)
  }

  lemma JoinCommutative(a: PtsMap, b: PtsMap)
    ensures Join(a, b) == Join(b, a)
  {
    SameLookupsSameMap(Join(a, b), Join(b, a));
  }

  lemma JoinIdempotent(a: PtsMap)
    ensures Join(a, a) == a
  {
    var l := Join(a, a);
    assert forall v :: v in l ==> l[v] == Lookup(l, v) == Lookup(a, v) == a[v];
  }

  lemma JoinAssociative(a: PtsMap, b: PtsMap, c: PtsMap)
    ensures Join(Join(a, b), c) == Join(a, Join(b, c))
  {
    var l, r := Join(Join(a, b), c), Join(a, Join(b, c));
    assert l.Keys == r.Keys by {
      assert l.Keys == (a.Keys + b.Keys) + c.Keys && r.Keys == a.Keys + (b.Keys + c.Keys);
    }
    forall v
      ensures Lookup(l, v) == Lookup(r, v)
    {
      JoinAssociativeAt(a, b, c, v);
    }
    SameLookupsSameMap(l, r);
  }

  lemma JoinAssociativeAt(a: PtsMap, b: PtsMap, c: PtsMap, v: Value)
    ensures Lookup(Join(Join(a, b), c), v) == Lookup(Join(a, Join(b, c)), v)
  {
    var A, B, C := Lookup(a, v), Lookup(b, v), Lookup(c, v);
    assert Lookup(Join(Join(a, b), c), v) == (A + B) + C;
    assert Lookup(Join(a, Join(b, c)), v) == A + (B + C);
  }

  lemma SameLookupsSameMap(l: PtsMap, r: PtsMap)
    requires l.Keys == r.Keys
    requires forall v :: Lookup(l, v) == Lookup(r, v)
    ensures l == r
  {
    assert forall v :: v in l ==> l[v] == Lookup(l, v) == Lookup(r, v) == r[v];
  }

  /** Merging in a side never loses what the other side knew. */
  lemma JoinUpperBound(a: PtsMap, b: PtsMap, v: Value)
    ensures Lookup(a, v) <= Lookup(Join(a, b), v) && Lookup(b, v) <= Lookup(Join(a, b), v)
  {
  }

  /**
   * The in-flow of a unit with several sources: a copy of the first, then
   * each further one merged in.
   */
  function JoinAll(flows: seq<PtsMap>): PtsMap
  {
    if |flows| == 0 then map[]
    else if |flows| == 1 then flows[0]
    else Join(JoinAll(flows[..|flows| - 1]), flows[|flows| - 1])
  }

  /** An object is in the merged set of v exactly when some source has it for v. */
  lemma {:induction false} JoinAllLookup(flows: seq<PtsMap>, v: Value, o: AbsObj)
    ensures o in Lookup(JoinAll(flows), v) <==> exists j :: 0 <= j < |flows| && o in Lookup(flows[j], v)
  {
    if |flows| > 1 {
      var init := flows[..|flows| - 1];
      JoinAllLookup(init, v, o);
      assert forall j :: 0 <= j < |init| ==> init[j] == flows[j];
      if o in Lookup(JoinAll(flows), v) && o !in Lookup(flows[|flows| - 1], v) {
        var j :| 0 <= j < |init| && o in Lookup(init[j], v);
        assert o in Lookup(flows[j], v);
      }
    }
  }

  /** The converged analysis: every unit's in-flow merges its sources, its out-flow is its transfer. */
  ghost predicate IsSolution(body: seq<Unit>, g: Dataflow.Graph, ins: seq<PtsMap>, outs: seq<PtsMap>)
  {
    && g.Valid() && g.Size() == |body| == |ins| == |outs|
    && forall i :: 0 <= i < |body| ==> SolvedAt(body, g, ins, outs, i)
  }

  /** The two dataflow equations of one unit. */
  ghost predicate SolvedAt(body: seq<Unit>, g: Dataflow.Graph, ins: seq<PtsMap>, outs: seq<PtsMap>, i: nat)
    requires g.Valid() && g.Size() == |body| == |ins| == |outs| && i < |body|
  {
    && ins[i] == JoinAll(Dataflow.Sources(g, i, map[], outs))
    && outs[i] == Transfer(ins[i], body[i])
  }

  /** May-soundness: whatever a predecessor's out-flow says v may point to, the unit's in-flow says too. */
  lemma SolutionCoversPredecessors(body: seq<Unit>, g: Dataflow.Graph, ins: seq<PtsMap>, outs: seq<PtsMap>, i: nat, j: nat, v: Value)
    requires IsSolution(body, g, ins, outs)
    requires i < |body| && j < |g.preds[i]|
    ensures Lookup(outs[g.preds[i][j]], v) <= Lookup(ins[i], v)
  {
    var src := Dataflow.Sources(g, i, map[], outs);
    var k := |src| - |g.preds[i]| + j;
    assert SolvedAt(body, g, ins, outs, i);
    assert src[k] == outs[g.preds[i][j]];
    forall o | o in Lookup(outs[g.preds[i][j]], v)
      ensures o in Lookup(ins[i], v)
    {
      assert o in Lookup(src[k], v);
      JoinAllLookup(src, v, o);
    }
  }

  /** What getPointsToSet reads: the snapshot stored for a unit, or nothing. */
  function Snapshot(unitToPointsTo: map<nat, PtsMap>, u: nat): PtsMap
  {
    if u in unitToPointsTo then unitToPointsTo[u] else map[]
  }

  /** getPointsToSet(v, u) over a table of snapshots. */
  function PointsToAt(unitToPointsTo: map<nat, PtsMap>, v: Value, u: nat): (s: set<AbsObj>)
    ensures u !in unitToPointsTo ==> s == {}
    ensures u in unitToPointsTo ==> s == Lookup(unitToPointsTo[u], v)
  {
    Lookup(Snapshot(unitToPointsTo, u), v)
  }

  class PointsToAnalysis {
    const body: seq<Unit>
    /** The out-flow each unit had when it was last processed. */
    var unitToPointsTo: map<nat, PtsMap>

    constructor (body: seq<Unit>)
      ensures this.body == body && unitToPointsTo == map[]
    {
      this.body := body;
      unitToPointsTo := map[];
    }

    /** Copies the in-flow, applies the statement, and records the result as the unit's snapshot. */
    method FlowThrough(inFlow: PtsMap, u: nat) returns (out: PtsMap)
      requires u < |body|
      modifies this
      ensures out == Transfer(inFlow, body[u])
      ensures unitToPointsTo == old(unitToPointsTo)[u := out]
    {
      out := Copy(inFlow);
      var unit := body[u];
      match unit.stmt {
        case AssignStmt(left, right) =>
          if right.NewExpr? {
            out := out[left := {AllocSite(unit.line)}];
          } else if right.Local? {
            var pointsTo := Lookup(out, right);
            out := out[left := pointsTo];
          } else if right.InstanceFieldRef? {
            out := out[left := {Unknown}];
          }
        case _ =>
      }
      unitToPointsTo := unitToPointsTo[u := out];
    }

    /** Pointwise union of two flows, built key by key. */
    method Merge(in1: PtsMap, in2: PtsMap) returns (out: PtsMap)
      ensures out == Join(in1, in2)
    {
      out := map[];
      var allVars := in1.Keys + in2.Keys;
      var todo := allVars;
      while todo != {}
        invariant todo <= allVars
        invariant out.Keys == allVars - todo
        invariant forall v :: v in out ==> out[v] == Lookup(in1, v) + Lookup(in2, v)
        decreases todo
      {
        var v :| v in todo;
        var pointsTo: set<AbsObj> := {};
        if v in in1 {
          pointsTo := pointsTo + in1[v];
        }
        if v in in2 {
          pointsTo := pointsTo + in2[v];
        }
        out := out[v := pointsTo];
        todo := todo - {v};
      }
    }

    /** A copy of the source flow, entry by entry. */
    method Copy(source: PtsMap) returns (dest: PtsMap)
      ensures dest == source
    {
      dest := map[];
      var todo := source.Keys;
      while todo != {}
        invariant todo <= source.Keys
        invariant dest.Keys == source.Keys - todo
        invariant forall v :: v in dest ==> dest[v] == source[v]
        decreases todo
      {
        var v :| v in todo;
        dest := dest[v := source[v]];
        todo := todo - {v};
      }
    }

    /** The set v points to after unit u, as last recorded; empty if either is unknown. */
    function GetPointsToSet(v: Value, u: nat): (s: set<AbsObj>)
      reads this
      ensures u in unitToPointsTo && v in unitToPointsTo[u] ==> s == unitToPointsTo[u][v]
      ensures !(u in unitToPointsTo && v in unitToPointsTo[u]) ==> s == {}
    {
      PointsToAt(unitToPointsTo, v, u)
    }
  }
}
