/**
 * The slice of Soot's Jimple intermediate representation that the analyses
 * inspect. Every `instanceof` test the analyses make on a statement or an
 * operand is a constructor test here; everything they do not distinguish is
 * folded into Opaque / OtherStmt.
 */
module Jimple {
  import Strings

  /** A field, identified by its declaring class, its type and its name. */
  datatype SootField = SootField(declaringClass: string, fieldType: string, name: string)

  /**
   * An operand or expression. Locals are identified by their name; the base
   * of an instance field reference is always a local in Jimple.
   */
  datatype Value =
    | Local(name: string)
    | InstanceFieldRef(base: string, field: SootField)
    | NewExpr(baseType: string)
    | InvokeExpr(signature: string)
    | Opaque(text: string)       // constants, array and static references, other expressions

  datatype Stmt =
    | AssignStmt(leftOp: Value, rightOp: Value)
    | InvokeStmt(call: string)
    | OtherStmt(text: string)    // identity statements, branches, returns, ...

  /** A statement with the source line Soot attached to it (-1 or 0 when none). */
  datatype Unit = Unit(stmt: Stmt, line: int)

  /** Stmt.containsInvokeExpr: an invoke statement, or an assignment whose right side is a call. */
  predicate ContainsInvokeExpr(s: Stmt)
  {
    s.InvokeStmt? || (s.AssignStmt? && s.rightOp.InvokeExpr?)
  }

  /** The detector's isFieldLoad: an assignment whose right side is an instance field reference. */
  predicate IsFieldLoad(s: Stmt)
  {
    s.AssignStmt? && s.rightOp.InstanceFieldRef?
  }

  /** Jimple's rendering of `base.<Class: type name>`. */
  function FieldRefText(base: string, f: SootField): string
  {
    base + ".<" + f.declaringClass + ": " + f.fieldType + " " + f.name + ">"
  }

  /** The descriptor, piece by piece: base, `.<`, declaring class, `: `, type, a space, name, `>`. */
  lemma FieldRefTextParts(base: string, f: SootField)
    ensures var t := FieldRefText(base, f);
      && |t| == |base| + |f.declaringClass| + |f.fieldType| + |f.name| + 6
      && t[..|base|] == base && t[|base|..|base| + 2] == ".<"
      && t[|base| + 2..|base| + 2 + |f.declaringClass|] == f.declaringClass
      && t[|base| + 2 + |f.declaringClass|..|base| + 4 + |f.declaringClass|] == ": "
      && t[|base| + 4 + |f.declaringClass|..|t| - |f.name| - 2] == f.fieldType
      && t[|t| - |f.name| - 2] == ' ' && t[|t| - |f.name| - 1..|t| - 1] == f.name && t[|t| - 1] == '>'
  {
  }

  /** Java int arithmetic: the value of x wrapped into the 32-bit two's complement range. */
  function Int32(x: int): (r: int)
    ensures -0x8000_0000 <= r < 0x8000_0000
    ensures (x - r) % 0x1_0000_0000 == 0
  {
    (x + 0x8000_0000) % 0x1_0000_0000 - 0x8000_0000
  }

  /** Value.toString. */
  function Text(v: Value): string
  {
    match v
    case Local(name) => name
    case InstanceFieldRef(base, f) => FieldRefText(base, f)
    case NewExpr(t) => "new " + t
    case InvokeExpr(sig) => sig
    case Opaque(text) => text
  }
}
