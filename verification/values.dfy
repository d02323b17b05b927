/** Values, their static types, and the capabilities the structural algorithms
    branch on.

    A value is either atomic (a type that is not an aggregate, such as `int`) or
    an aggregate that decomposes into its fields in decomposition order.  Every
    node carries the name of its type, so two values have the same static type
    exactly when they have the same names and the same shape all the way down.
 */
module Values {

  /** The static type of a value: atomic, or an aggregate whose field types are
      listed in decomposition order. */
  datatype Ty =
    | Atomic(name: string)
    | Aggregate(name: string, fields: seq<Ty>)

  /** A runtime value: an atomic value with its payload, or an aggregate with
      its fields in decomposition order. */
  datatype Val =
    | Leaf(name: string, bits: int)
    | Agg(name: string, fields: seq<Val>)

  /** The static type of `v`. */
  function TypeOf(v: Val): (t: Ty)
    ensures t.Atomic? <==> v.Leaf?
    ensures t.name == v.name
    ensures v.Agg? ==> t.fields == TypesOf(v.fields)
    decreases v
  {
    match v
    case Leaf(n, _) => Atomic(n)
    case Agg(n, fs) => Aggregate(n, TypesOf(fs))
  }

  /** The static type of a tuple of field references, field by field. */
  function TypesOf(vs: seq<Val>): (ts: seq<Ty>)
    ensures |ts| == |vs|
    ensures forall j :: 0 <= j < |vs| ==> ts[j] == TypeOf(vs[j])
    decreases vs
  {
    if |vs| == 0 then [] else [TypeOf(vs[0])] + TypesOf(vs[1..])
  }

  /** Two field sequences of the same tuple type: same arity and pairwise the
      same field types. */
  predicate SameTypes(ls: seq<Val>, rs: seq<Val>)
  {
    TypesOf(ls) == TypesOf(rs)
  }

  /** A native binary operation (`==` or `<`) together with its detection:
      `implemented(t)` is true exactly when the expression `a op b` is
      well-formed for two `t const&` operands, and `apply` is what the
      native operator computes on such operands. */
  datatype Native = Native(implemented: Ty -> bool, apply: (Val, Val) -> bool)

  /** The build-time constraint of the synthesised operation: every type the
      recursion reaches either implements the operation natively or is an
      aggregate.  The fields of a natively capable type are never reached. */
  predicate Supported(n: Native, t: Ty)
    decreases t
  {
    n.implemented(t) || (t.Aggregate? && forall i :: 0 <= i < |t.fields| ==> Supported(n, t.fields[i]))
  }

  /** `Supported` for every field of a tuple. */
  predicate AllSupported(n: Native, fs: seq<Val>)
  {
    forall j :: 0 <= j < |fs| ==> Supported(n, TypeOf(fs[j]))
  }
}
