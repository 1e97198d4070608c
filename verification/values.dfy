/** Loosely typed values as the comparison trigger sees them: `object`
    references that may be null, each with a runtime type and possibly
    implementing `IComparable`, plus the two runtime services the
    comparison relies on (type conversion and three-way comparison),
    which are left uninterpreted. */
module Values {

  datatype Option<+T> = None | Some(value: T)

  /** The outcome of a three-way comparison, and also the comparison a
      trigger asks for. */
  datatype Comparison = NotComparable | Equal | LessThan | GreaterThan

  /** A runtime type (`GetType()`), identified by an opaque number. */
  datatype TypeTag = TypeTag(code: nat)

  /** The contents of a boxed value; only the runtime services below look at it. */
  datatype Payload = Number(n: int) | Text(s: string) | Opaque(tag: nat)

  /** One heap object. `id` is its allocation identity: two objects with
      equal contents but different `id`s are different references (two
      boxes holding the same number, say). `comparable` says whether the
      object implements `IComparable`. In .NET `id` determines the whole
      object and `IComparable` is a property of the runtime type; this
      datatype does not force either, and no contract here relies on the
      looser reading. */
  datatype Obj = Obj(id: nat, ty: TypeTag, comparable: bool, payload: Payload)

  /** An `object`-typed property value. Reference equality of two values is
      equality of this datatype: both null, or the same object. */
  datatype Value = Null | Ref(obj: Obj)

  /** Why a conversion threw: the object that could not be converted and
      the type it was asked to become. */
  datatype ConversionError = ConversionError(source: Obj, target: TypeTag)

  /** The runtime services the comparison calls into.
      `changeType(o, t)` is `Convert.ChangeType(o, t, InvariantCulture)`:
      `None` when it throws, otherwise the converted object (whose type the
      caller re-checks). `compareTo(a, b)` is `((IComparable)a).CompareTo(b)`. */
  datatype Runtime = Runtime(changeType: (Obj, TypeTag) -> Option<Obj>, compareTo: (Obj, Obj) -> int)
}
