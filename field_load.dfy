/**
 * FieldLoad.java: the immutable fact `value = base.field` of the syntactic
 * available-loads analysis. Unlike the nested class of files/PA2.java, all
 * three parts take part in equality.
 */
module FieldLoads {
  import opened Jimple

  /** The constructor keeps its three arguments as they are; locals are named. */
  datatype FieldLoad = FieldLoad(base: string, field: SootField, value: string)
  {
    /** equals(Object): false for anything that is not a FieldLoad, otherwise all three parts agree. */
    predicate Equals(o: JavaObject)
    {
      o.LoadObject? && base == o.load.base && field == o.load.field && value == o.load.value
    }

    /** base.hashCode() * 31 * 31 + field.hashCode() * 31 + value.hashCode(), in Java int arithmetic. */
    function HashCode(hashLocal: string -> int, hashField: SootField -> int): (h: int)
      ensures -0x8000_0000 <= h < 0x8000_0000
      ensures (h - (hashLocal(base) * 961 + hashField(field) * 31 + hashLocal(value))) % 0x1_0000_0000 == 0
    {
      Int32(hashLocal(base) * 31 * 31 + hashField(field) * 31 + hashLocal(value))
    }

    /** toString: `value = base.name`. */
    function ToString(): (s: string)
      ensures |s| == |value| + |base| + |field.name| + 4
      ensures s[..|value|] == value && s[|value|..|value| + 3] == " = "
      ensures s[|value| + 3..|value| + 3 + |base|] == base && s[|value| + 3 + |base|] == '.'
      ensures s[|s| - |field.name|..] == field.name
    {
      value + " = " + base + "." + field.name
    }
  }

  /** The argument of equals(Object). */
  datatype JavaObject = LoadObject(load: FieldLoad) | OtherObject

  /** equals is exactly equality of the three parts, and never holds for another kind of object. */
  lemma EqualsIsTripleEquality(l: FieldLoad, o: JavaObject)
    ensures l.Equals(o) <==> o == LoadObject(l)
    ensures !l.Equals(OtherObject)
  {
  }

  /** equals is an equivalence relation on FieldLoads. */
  lemma EqualsIsEquivalence(l1: FieldLoad, l2: FieldLoad, l3: FieldLoad)
    ensures l1.Equals(LoadObject(l1))
    ensures l1.Equals(LoadObject(l2)) ==> l2.Equals(LoadObject(l1))
    ensures l1.Equals(LoadObject(l2)) && l2.Equals(LoadObject(l3)) ==> l1.Equals(LoadObject(l3))
  {
  }

  lemma EqualsConsistentWithHashCode(l1: FieldLoad, l2: FieldLoad, hashLocal: string -> int, hashField: SootField -> int)
    requires l1.Equals(LoadObject(l2))
    ensures l1.HashCode(hashLocal, hashField) == l2.HashCode(hashLocal, hashField)
  {
  }

  /** Loads that differ only in the local they were loaded into are different facts. */
  lemma TargetDistinguishesFacts(l: FieldLoad, v: string)
    requires v != l.value
    ensures !l.Equals(LoadObject(FieldLoad(l.base, l.field, v)))
  {
  }
}
