/** Flat and recursive traversal of aggregates.

    The callback handed to `for_each` and `for_each_recursively` is modelled by
    what it observes: every node it is called on is appended, in call order,
    to a trace.
 */
module Loops {
  import opened Values

  // ---------------------------------------------------------------------------
  // for_each
  // ---------------------------------------------------------------------------

  /** `for_each`: the callback is applied once to each immediate field of an
      aggregate, in decomposition order, without descending into nested
      aggregates. */
  method ForEach(v: Val) returns (visited: seq<Val>)
    requires TypeOf(v).Aggregate?
    ensures |visited| == |v.fields|
    ensures forall i :: 0 <= i < |visited| ==> visited[i] == v.fields[i]
  {
    visited := [];
    var i := 0;
    while i < |v.fields|
      invariant i <= |v.fields|
      invariant visited == v.fields[..i]
    {
      visited := visited + [v.fields[i]];
      i := i + 1;
    }
  }

  // ---------------------------------------------------------------------------
  // Predicates
  // ---------------------------------------------------------------------------

  /** An expression template, known by the types for which it is well-formed. */
  datatype Expression = Expression(wellFormedFor: Ty -> bool)

  /** `is_detected<Expression, T>`. */
  predicate IsDetected(e: Expression, t: Ty)
  {
    e.wellFormedFor(t)
  }

  /** A type-level predicate as it is threaded through the recursion: it
      depends on the static type of a node only, never on its contents. */
  datatype Predicate = Predicate(holds: Ty -> bool)

  /** `make_predicate<Expression>()`: the predicate that holds of a type
      exactly when the expression is detected for it. */
  function MakePredicate(e: Expression): Predicate
  {
    Predicate(t => IsDetected(e, t))
  }

  // ---------------------------------------------------------------------------
  // for_each_recursively
  // ---------------------------------------------------------------------------

  /** The build-time constraint of `for_each_recursively`: every type the
      traversal reaches satisfies the predicate or is an aggregate. */
  predicate Traversable(p: Predicate, t: Ty)
    decreases t
  {
    p.holds(t) || (t.Aggregate? && forall i :: 0 <= i < |t.fields| ==> Traversable(p, t.fields[i]))
  }

  /** `Traversable` for every field of a tuple. */
  predicate AllTraversable(p: Predicate, fs: seq<Val>)
  {
    forall j :: 0 <= j < |fs| ==> Traversable(p, TypeOf(fs[j]))
  }

  /** `for_each_recursively`: the callback is applied to `v` itself when the
      predicate holds for its type; otherwise the traversal descends into the
      fields, in order, with the same predicate.  Only nodes whose type
      satisfies the predicate are ever handed to the callback. */
  function Visit(p: Predicate, v: Val): (trace: seq<Val>)
    requires Traversable(p, TypeOf(v))
    ensures forall k :: 0 <= k < |trace| ==> p.holds(TypeOf(trace[k]))
    decreases v, 1
  {
    if p.holds(TypeOf(v)) then
      [v]
    else
      VisitFrom(p, v.fields, 0)
  }

  /** `for_each_tuple_recursively` at index `i`: the traversal of field `i`
      followed by the traversal of the fields after it. */
  function VisitFrom(p: Predicate, fs: seq<Val>, i: nat): (trace: seq<Val>)
    requires AllTraversable(p, fs)
    requires i <= |fs|
    ensures forall k :: 0 <= k < |trace| ==> p.holds(TypeOf(trace[k]))
    decreases fs, |fs| - i
  {
    if i < |fs| then
      Visit(p, fs[i]) + VisitFrom(p, fs, i + 1)
    else
      []
  }
}
