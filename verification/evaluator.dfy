/** `CompareStateTrigger.CompareValues`: the decision procedure that relates
    the trigger's `Value` to its `CompareTo`. */
module Evaluator {
  import opened Values

  /** What evaluating a comparison produces: a relationship, or the
      exception a failed conversion raises (the source does not catch it). */
  datatype Evaluation = Compared(kind: Comparison) | Threw(error: ConversionError)

  /** Maps the sign of a three-way compare to a relationship. */
  function Sign(n: int): (r: Comparison)
    ensures r == LessThan <==> n < 0
    ensures r == Equal <==> n == 0
    ensures r == GreaterThan <==> n > 0
    ensures r != NotComparable
  {
    if n < 0 then LessThan
    else if n == 0 then Equal
    else GreaterThan
  }

  /** True when the reference-identity test decides the outcome: the
      two values are the same reference (or both null) and the requested
      comparison is `Equal`. */
  predicate ShortCircuits(value: Value, compareTo: Value, comparison: Comparison)
  {
    value == compareTo && comparison == Equal
  }

  /** Two objects brought to a common type, or the conversion that threw. */
  datatype Coerced = Pair(left: Obj, right: Obj) | Failed(error: ConversionError)

  /** Brings two non-null objects of different runtime types to one type,
      converting the right one toward the left when the left is
      `IComparable`, otherwise the left toward the right when the right is,
      and leaving both alone when neither is. */
  function Coerce(rt: Runtime, a: Obj, b: Obj): (r: Coerced)
  {
    if a.ty == b.ty then Pair(a, b)
    else if a.comparable then
      match rt.changeType(b, a.ty)
      case None => Failed(ConversionError(b, a.ty))
      case Some(b') => Pair(a, b')
    else if b.comparable then
      match rt.changeType(a, b.ty)
      case None => Failed(ConversionError(a, b.ty))
      case Some(a') => Pair(a', b)
    else Pair(a, b)
  }

  /** The relationship of two non-null objects once coercion is done:
      ordered only when their types now agree and the left one is
      `IComparable`. */
  function Order(rt: Runtime, a: Obj, b: Obj): Comparison
  {
    if a.ty == b.ty && a.comparable then Sign(rt.compareTo(a, b)) else NotComparable
  }

  /** The actual relationship between `value` and `compareTo`. The
      requested `comparison` only matters for the identity short-circuit.
      Each ensures clause is one rule of the procedure. */
  function CompareValues(rt: Runtime, value: Value, compareTo: Value, comparison: Comparison): (r: Evaluation)
    // the same reference (or two nulls) is Equal when Equal is asked for
    ensures ShortCircuits(value, compareTo, comparison) ==> r == Compared(Equal)
    // a null on exactly one side is never comparable
    ensures value.Null? != compareTo.Null? ==> r == Compared(NotComparable)
    // two nulls are not comparable unless Equal is asked for
    ensures value.Null? && compareTo.Null? && comparison != Equal ==> r == Compared(NotComparable)
    // same runtime type: IComparable decides by the sign of CompareTo, anything else is not comparable
    ensures value.Ref? && compareTo.Ref? && !ShortCircuits(value, compareTo, comparison) && value.obj.ty == compareTo.obj.ty ==>
              r == Compared(if value.obj.comparable then Sign(rt.compareTo(value.obj, compareTo.obj)) else NotComparable)
    // different runtime types, neither IComparable: not comparable, and nothing is converted
    ensures value.Ref? && compareTo.Ref? && value.obj.ty != compareTo.obj.ty && !value.obj.comparable && !compareTo.obj.comparable ==>
              r == Compared(NotComparable)
    // a thrown conversion is the only error, and it only arises between non-null objects of different types
    ensures r.Threw? ==> value.Ref? && compareTo.Ref? && value.obj.ty != compareTo.obj.ty
    ensures r.Threw? ==> (if value.obj.comparable then r.error == ConversionError(compareTo.obj, value.obj.ty)
                          else compareTo.obj.comparable && r.error == ConversionError(value.obj, compareTo.obj.ty))
  {
    if ShortCircuits(value, compareTo, comparison) then Compared(Equal)
    else if value.Null? || compareTo.Null? then Compared(NotComparable)
    else
      match Coerce(rt, value.obj, compareTo.obj)
      case Failed(e) => Threw(e)
      case Pair(a, b) => Compared(Order(rt, a, b))
  }

  /** When the left value is `IComparable` and the types differ, only the
      conversion of the right value to the left's type is consulted: it
      throws, or the converted value is compared if its type now matches. */
  lemma LeftComparableConvertsRight(rt: Runtime, a: Obj, b: Obj, comparison: Comparison)
    requires a.ty != b.ty && a.comparable
    ensures CompareValues(rt, Ref(a), Ref(b), comparison) ==
              match rt.changeType(b, a.ty)
              case None => Threw(ConversionError(b, a.ty))
              case Some(b') => Compared(if b'.ty == a.ty then Sign(rt.compareTo(a, b')) else NotComparable)
  {
  }

  /** When only the right value is `IComparable` and the types differ, the
      left value is converted to the right's type; the converted value must
      itself be `IComparable` for an ordering to come out. */
  lemma RightComparableConvertsLeft(rt: Runtime, a: Obj, b: Obj, comparison: Comparison)
    requires a.ty != b.ty && !a.comparable && b.comparable
    ensures CompareValues(rt, Ref(a), Ref(b), comparison) ==
              match rt.changeType(a, b.ty)
              case None => Threw(ConversionError(a, b.ty))
              case Some(a') => Compared(if a'.ty == b.ty && a'.comparable then Sign(rt.compareTo(a', b)) else NotComparable)
  {
  }

  /** Coercion goes one way only: two runtimes that agree on converting the
      right value to the left's type, and on comparing with the left value,
      give the same outcome however differently they convert the left value. */
  lemma CoercionIgnoresOtherDirection(rt1: Runtime, rt2: Runtime, a: Obj, b: Obj, comparison: Comparison)
    requires a.ty != b.ty && a.comparable
    requires rt1.changeType(b, a.ty) == rt2.changeType(b, a.ty)
    requires forall x :: rt1.compareTo(a, x) == rt2.compareTo(a, x)
    ensures CompareValues(rt1, Ref(a), Ref(b), comparison) == CompareValues(rt2, Ref(a), Ref(b), comparison)
  {
    LeftComparableConvertsRight(rt1, a, b, comparison);
    LeftComparableConvertsRight(rt2, a, b, comparison);
  }

  /** Between two distinct same-typed `IComparable` objects, exactly one of
      LessThan, Equal and GreaterThan is the outcome, whichever comparison is
      requested, and NotComparable never is. */
  lemma OrderedOutcomesExclusive(rt: Runtime, a: Obj, b: Obj, comparison: Comparison)
    requires a != b && a.ty == b.ty && a.comparable
    ensures var r := CompareValues(rt, Ref(a), Ref(b), comparison);
            r.Compared? && r.kind != NotComparable
            && (r.kind == LessThan <==> rt.compareTo(a, b) < 0)
            && (r.kind == Equal <==> rt.compareTo(a, b) == 0)
            && (r.kind == GreaterThan <==> rt.compareTo(a, b) > 0)
  {
  }
}
