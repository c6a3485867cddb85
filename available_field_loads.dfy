/**
 * AvailableFieldLoadAnalysis.java: a must-analysis over FieldLoad facts in
 * which bases are matched by name only. A copy `x = y` duplicates the facts
 * loaded into y for x, a read `x = o.f` adds its fact (and is reported when
 * a fact on o.f is already there), a write `o.f = ...` drops the facts on
 * o.f, and a call drops everything.
 */
module AvailableFieldLoads {
  import opened Jimple
  import opened FieldLoads
  import Dataflow

  type Facts = set<FieldLoad>

  /** The facts loaded into y, restated as loaded into x. */
  function Copies(inFlow: Facts, y: string, x: string): (r: Facts)
    ensures forall fl :: fl in r <==> fl.value == x && FieldLoad(fl.base, fl.field, y) in inFlow
  {
    set g | g in inFlow && g.value == y :: FieldLoad(g.base, g.field, x)
  }

  /** The facts that a write to o.f drops: same base name, same field, any value. */
  function OnField(facts: Facts, o: string, f: SootField): (r: Facts)
    ensures r <= facts
    ensures forall fl :: fl in r <==> fl in facts && fl.base == o && fl.field == f
  {
    set fl | fl in facts && fl.base == o && fl.field == f
  }

  /** Some fact on o.f is available, whatever local it was loaded into. */
  predicate HasLoad(facts: Facts, o: string, f: SootField)
  {
    exists fl :: fl in facts && fl.base == o && fl.field == f
  }

  /** flowThrough as an equation on the in-flow. */
  function Transfer(inFlow: Facts, u: Unit): Facts
  {
    if ContainsInvokeExpr(u.stmt) then {}
    else
      match u.stmt
      case AssignStmt(lhs, rhs) =>
        if lhs.Local? && rhs.Local? then inFlow + Copies(inFlow, rhs.name, lhs.name)
        else if lhs.Local? && rhs.InstanceFieldRef? then inFlow + {FieldLoad(rhs.base, rhs.field, lhs.name)}
        else if lhs.InstanceFieldRef? then inFlow - OnField(inFlow, lhs.base, lhs.field)
        else inFlow
      case _ => inFlow
  }

  /** The read `x = o.f` at u is reported redundant. */
  predicate Redundant(inFlow: Facts, u: Unit)
  {
    && !ContainsInvokeExpr(u.stmt)
    && u.stmt.AssignStmt? && u.stmt.leftOp.Local? && u.stmt.rightOp.InstanceFieldRef?
    && HasLoad(inFlow, u.stmt.rightOp.base, u.stmt.rightOp.field)
  }

  lemma InvokeKillsAll(inFlow: Facts, u: Unit)
    requires ContainsInvokeExpr(u.stmt)
    ensures Transfer(inFlow, u) == {}
    ensures !Redundant(inFlow, u)
  {
  }

  /** Statements other than assignments pass the facts through. */
  lemma NonAssignmentKeepsFacts(inFlow: Facts, u: Unit)
    requires !ContainsInvokeExpr(u.stmt) && !u.stmt.AssignStmt?
    ensures Transfer(inFlow, u) == inFlow
  {
  }

  /**
   * `x = y` adds, for every fact loaded into y, the same load into x, and
   * drops nothing, not even facts about the old value of x.
   */
  lemma CopyPropagatesFacts(inFlow: Facts, x: string, y: string, line: int)
    ensures var out := Transfer(inFlow, Unit(AssignStmt(Local(x), Local(y)), line));
      && inFlow <= out
      && forall fl :: fl in out <==> fl in inFlow || (fl.value == x && FieldLoad(fl.base, fl.field, y) in inFlow)
  {
  }

  /** `x = o.f` is reported exactly when some fact on o.f is available, and adds (o, f, x). */
  lemma ReadAddsFact(inFlow: Facts, x: string, o: string, f: SootField, line: int)
    ensures var u := Unit(AssignStmt(Local(x), InstanceFieldRef(o, f)), line);
      && Transfer(inFlow, u) == inFlow + {FieldLoad(o, f, x)}
      && (Redundant(inFlow, u) <==> exists v :: FieldLoad(o, f, v) in inFlow)
  {
    var u := Unit(AssignStmt(Local(x), InstanceFieldRef(o, f)), line);
    if Redundant(inFlow, u) {
      var fl :| fl in inFlow && fl.base == o && fl.field == f;
      assert FieldLoad(o, f, fl.value) == fl;
    }
  }

  /**
   * `o.f = ...` drops exactly the facts whose base is named o and whose field
   * is f; a fact on another base survives even if that base may alias o.
   */
  lemma WriteKillsSameBaseOnly(inFlow: Facts, o: string, f: SootField, rhs: Value, line: int)
    requires !rhs.InvokeExpr?
    ensures var out := Transfer(inFlow, Unit(AssignStmt(InstanceFieldRef(o, f), rhs), line));
      forall fl :: fl in out <==> fl in inFlow && !(fl.base == o && fl.field == f)
  {
  }

  /** Any other assignment (an allocation, a constant, an array access) changes nothing. */
  lemma OtherAssignmentKeepsFacts(inFlow: Facts, lhs: Value, rhs: Value, line: int)
    requires !rhs.InvokeExpr? && !lhs.InstanceFieldRef?
    requires !(lhs.Local? && (rhs.Local? || rhs.InstanceFieldRef?))
    ensures Transfer(inFlow, Unit(AssignStmt(lhs, rhs), line)) == inFlow
  {
  }

  /** merge: in1.intersection(in2) under full-triple equality. */
  function Meet(a: Facts, b: Facts): (r: Facts)
    ensures r <= a && r <= b
    ensures forall fl :: fl in a && fl in b ==> fl in r
  {
    a * b
  }

  /** The in-flow of a unit with several sources: the first, then intersected with each further one. */
  function MeetAll(flows: seq<Facts>): Facts
  {
    if |flows| == 0 then {}
    else if |flows| == 1 then flows[0]
    else Meet(MeetAll(flows[..|flows| - 1]), flows[|flows| - 1])
  }

  lemma {:induction false} MeetAllHas(flows: seq<Facts>, fl: FieldLoad)
    requires |flows| > 0
    ensures fl in MeetAll(flows) <==> forall j :: 0 <= j < |flows| ==> fl in flows[j]
  {
    if |flows| > 1 {
      var init := flows[..|flows| - 1];
      MeetAllHas(init, fl);
      assert forall j :: 0 <= j < |init| ==> init[j] == flows[j];
    }
  }

  /** The converged analysis: empty entry and initial flows, in = meet of the sources, out = transfer of in. */
  ghost predicate IsSolution(body: seq<Unit>, g: Dataflow.Graph, ins: seq<Facts>, outs: seq<Facts>)
  {
    && g.Valid() && g.Size() == |body| == |ins| == |outs|
    && forall i :: 0 <= i < |body| ==> SolvedAt(body, g, ins, outs, i)
  }

  ghost predicate SolvedAt(body: seq<Unit>, g: Dataflow.Graph, ins: seq<Facts>, outs: seq<Facts>, i: nat)
    requires g.Valid() && g.Size() == |body| == |ins| == |outs| && i < |body|
  {
    && ins[i] == MeetAll(Dataflow.Sources(g, i, {}, outs))
    && outs[i] == Transfer(ins[i], body[i])
  }

  /**
   * At the fixed point a fact is available before a unit exactly when the
   * unit is not a head and every predecessor's out-flow holds that very fact.
   */
  lemma SolutionIsMust(body: seq<Unit>, g: Dataflow.Graph, ins: seq<Facts>, outs: seq<Facts>, i: nat, fl: FieldLoad)
    requires IsSolution(body, g, ins, outs)
    requires i < |body|
    ensures fl in ins[i] <==> !g.IsHead(i) && forall j :: 0 <= j < |g.preds[i]| ==> fl in outs[g.preds[i][j]]
  {
    assert SolvedAt(body, g, ins, outs, i);
    var src := Dataflow.Sources(g, i, {}, outs);
    if g.IsHead(i) {
      MeetAllHas(src, fl);
      assert fl !in src[0];
    } else if |src| > 0 {
      MeetAllHas(src, fl);
      assert forall j :: 0 <= j < |g.preds[i]| ==> src[j] == outs[g.preds[i][j]];
    }
  }

  function Elems(s: seq<FieldLoad>): Facts
  {
    set fl | fl in s
  }

  lemma ElemsAppend(s: seq<FieldLoad>, x: FieldLoad)
    ensures Elems(s + [x]) == Elems(s) + {x}
  {
  }

  lemma ElemsSnoc(s: seq<FieldLoad>, j: nat)
    requires j < |s|
    ensures Elems(s[..j + 1]) == Elems(s[..j]) + {s[j]}
  {
    assert s[..j + 1] == s[..j] + [s[j]];
  }

  /**
   * flowThrough: copies in to out, then edits out in place; the copy and
   * store rules first collect the facts to add or remove in a list. The
   * second result is whether reportRedundant is called.
   */
  method FlowThrough(inFlow: Facts, u: Unit) returns (out: Facts, redundant: bool)
    ensures out == Transfer(inFlow, u)
    ensures redundant <==> Redundant(inFlow, u)
  {
    out := inFlow;
    redundant := false;
    if ContainsInvokeExpr(u.stmt) {
      out := {};
      return;
    }
    if !u.stmt.AssignStmt? {
      return;
    }
    var lhs, rhs := u.stmt.leftOp, u.stmt.rightOp;
    if lhs.Local? && rhs.Local? {
      var toAdd: seq<FieldLoad> := [];
      var it := inFlow;
      while it != {}
        invariant it <= inFlow
        invariant Elems(toAdd) == Copies(inFlow - it, rhs.name, lhs.name)
        decreases it
      {
        var fl :| fl in it;
        if fl.value == rhs.name {
          toAdd := toAdd + [FieldLoad(fl.base, fl.field, lhs.name)];
        }
        it := it - {fl};
      }
      var j := 0;
      while j < |toAdd|
        invariant j <= |toAdd|
        invariant out == inFlow + Elems(toAdd[..j])
      {
        ElemsSnoc(toAdd, j);
        out := out + {toAdd[j]};
        j := j + 1;
      }
      assert toAdd[..j] == toAdd;
      return;
    }
    if lhs.Local? && rhs.InstanceFieldRef? {
      var base, field := rhs.base, rhs.field;
      var it := inFlow;
      while it != {}
        invariant it <= inFlow
        invariant redundant ==> HasLoad(inFlow, base, field)
        invariant !redundant ==> forall fl :: fl in inFlow - it ==> !(fl.base == base && fl.field == field)
        decreases it
      {
        var fl :| fl in it;
        if fl.base == base && fl.field == field {
          redundant := true;
          break;
        }
        it := it - {fl};
      }
      out := out + {FieldLoad(base, field, lhs.name)};
      return;
    }
    if lhs.InstanceFieldRef? {
      var toRemove: seq<FieldLoad> := [];
      var it := out;
      while it != {}
        invariant it <= inFlow
        invariant Elems(toRemove) == OnField(inFlow - it, lhs.base, lhs.field)
        decreases it
      {
        var fl :| fl in it;
        if fl.base == lhs.base && fl.field == lhs.field {
          ElemsAppend(toRemove, fl);
          toRemove := toRemove + [fl];
        }
        assert inFlow - (it - {fl}) == (inFlow - it) + {fl};
        it := it - {fl};
      }
      var j := 0;
      while j < |toRemove|
        invariant j <= |toRemove|
        invariant out == inFlow - Elems(toRemove[..j])
      {
        ElemsSnoc(toRemove, j);
        out := out - {toRemove[j]};
        j := j + 1;
      }
      assert toRemove[..j] == toRemove;
    }
  }
}
