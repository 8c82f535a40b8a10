/** Runtime types and the test that decides whether a catch clause matches a raised error. */
module ErrorTypes {
  import opened Common

  /** A type object: an identity and the base it was derived from (only the root has none). */
  datatype TypeObject = TypeObject(id: nat, base: Option<TypeObject>)

  const OBJECT := TypeObject(0, None)

  /** The types met on the way from `tp` up to its root, `tp` included. */
  function Ancestry(tp: TypeObject): seq<TypeObject> {
    [tp] + if tp.base.None? then [] else Ancestry(tp.base.value)
  }

  predicate IsSameOrDerived(tp: TypeObject, base: TypeObject) {
    base in Ancestry(tp)
  }

  /** From one type to another, each the base of the one before. */
  ghost predicate BasePath(w: seq<TypeObject>, tp: TypeObject, base: TypeObject) {
    && w != [] && w[0] == tp && w[|w| - 1] == base
    && forall i :: 0 <= i < |w| - 1 ==> w[i].base == Some(w[i + 1])
  }

  /** Some number of steps from a type to its base, possibly none, lead to `base`. */
  ghost predicate LeadsTo(tp: TypeObject, base: TypeObject) {
    exists w :: BasePath(w, tp, base)
  }

  /** A type is the same as or derived from exactly those its base pointers lead to. */
  lemma {:induction false} DerivedIff(tp: TypeObject, base: TypeObject)
    ensures IsSameOrDerived(tp, base) <==> LeadsTo(tp, base)
    decreases tp
  {
    if tp == base {
      assert BasePath([tp], tp, base);
      return;
    }
    if LeadsTo(tp, base) {
      var w: seq<TypeObject> :| BasePath(w, tp, base);
      RestOfPath(w, tp, base);
    }
    if tp.base.Some? {
      DerivedIff(tp.base.value, base);
      if LeadsTo(tp.base.value, base) {
        var w: seq<TypeObject> :| BasePath(w, tp.base.value, base);
        assert BasePath([tp] + w, tp, base);
      }
    }
  }

  lemma RestOfPath(w: seq<TypeObject>, tp: TypeObject, base: TypeObject)
    requires BasePath(w, tp, base) && tp != base
    ensures tp.base.Some? && BasePath(w[1..], tp.base.value, base)
  {
    assert w[0].base == Some(w[0 + 1]);
  }

  /** The walk up the base pointers finds exactly what they lead to. */
  method WalkBases(subclass: TypeObject, base: TypeObject) returns (found: bool)
    ensures found <==> exists w :: BasePath(w, subclass, base)
    ensures found == IsSameOrDerived(subclass, base)
  {
    DerivedIff(subclass, base);
    var tp := subclass;
    while true
      invariant base in Ancestry(subclass) <==> base in Ancestry(tp)
      decreases tp
    {
      if base == tp {
        return true;
      }
      if tp.base.None? {
        return false;
      }
      tp := tp.base.value;
    }
  }

  /** Derivation is transitive: a clause for a base also matches everything its subtypes match. */
  lemma {:induction false} DerivedTransitive(a: TypeObject, b: TypeObject, c: TypeObject)
    requires IsSameOrDerived(a, b) && IsSameOrDerived(b, c)
    ensures IsSameOrDerived(a, c)
  {
    if a != b {
      DerivedTransitive(a.base.value, b, c);
    }
  }

  lemma {:induction false} AncestryLength(tp: TypeObject, base: TypeObject)
    requires IsSameOrDerived(tp, base)
    ensures |Ancestry(base)| <= |Ancestry(tp)|
    ensures |Ancestry(base)| == |Ancestry(tp)| ==> base == tp
  {
    if tp != base {
      AncestryLength(tp.base.value, base);
    }
  }

  /** Two types that derive from each other are the same type. */
  lemma DerivedAntisymmetric(a: TypeObject, b: TypeObject)
    requires IsSameOrDerived(a, b) && IsSameOrDerived(b, a)
    ensures a == b
  {
    AncestryLength(a, b);
    AncestryLength(b, a);
  }
}
