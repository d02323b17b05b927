/** Laws of the traversals: where `for_each_recursively` stops, in which order
    it visits, how it relates to `for_each`, and what it visits when it stops
    exactly at the non-aggregate types.
 */
module LoopLaws {
  import opened Values
  import opened Loops

  // ---------------------------------------------------------------------------
  // Reference definitions
  // ---------------------------------------------------------------------------

  /** The concatenation of a sequence of traces, first to last. */
  function Concat(ts: seq<seq<Val>>): seq<Val>
  {
    if |ts| == 0 then [] else ts[0] + Concat(ts[1..])
  }

  /** The traversal of each field on its own, in field order. */
  function FieldTraces(p: Predicate, fs: seq<Val>): seq<seq<Val>>
    requires AllTraversable(p, fs)
  {
    seq(|fs|, j requires 0 <= j < |fs| => Visit(p, fs[j]))
  }

  /** The non-aggregate values inside `v`, left to right. */
  function Leaves(v: Val): seq<Val>
    decreases v
  {
    match v
    case Leaf(_, _) => [v]
    case Agg(_, fs) => LeavesOf(fs)
  }

  function LeavesOf(fs: seq<Val>): seq<Val>
    decreases fs
  {
    if |fs| == 0 then [] else Leaves(fs[0]) + LeavesOf(fs[1..])
  }

  /** The number of non-aggregate values inside `v`. */
  function LeafCount(v: Val): nat
    decreases v
  {
    match v
    case Leaf(_, _) => 1
    case Agg(_, fs) => LeafCountOf(fs)
  }

  function LeafCountOf(fs: seq<Val>): nat
    decreases fs
  {
    if |fs| == 0 then 0 else LeafCount(fs[0]) + LeafCountOf(fs[1..])
  }

  /** The predicate that stops at every type that is not an aggregate. */
  function AtLeaves(): Predicate
  {
    Predicate((t: Ty) => t.Atomic?)
  }

  // ---------------------------------------------------------------------------
  // Shape of a traversal
  // ---------------------------------------------------------------------------

  /** At a node whose type satisfies the predicate, the callback is called
      exactly once, on that node, and the traversal does not descend. */
  lemma VisitStopsAtTerminal(p: Predicate, v: Val)
    requires p.holds(TypeOf(v))
    ensures Traversable(p, TypeOf(v))
    ensures Visit(p, v) == [v]
  {
  }

  /** At a node whose type does not satisfy the predicate, the trace is the
      traversal of field 0, then of field 1, and so on: each field's subtree is
      visited completely before the next field is begun. */
  lemma VisitDescends(p: Predicate, v: Val)
    requires Traversable(p, TypeOf(v)) && !p.holds(TypeOf(v))
    ensures v.Agg? && AllTraversable(p, v.fields)
    ensures Visit(p, v) == Concat(FieldTraces(p, v.fields))
  {
    VisitFromConcat(p, v.fields, 0);
  }

  lemma {:induction false} VisitFromConcat(p: Predicate, fs: seq<Val>, i: nat)
    requires AllTraversable(p, fs) && i <= |fs|
    ensures VisitFrom(p, fs, i) == Concat(FieldTraces(p, fs)[i..])
    decreases |fs| - i
  {
    var ts := FieldTraces(p, fs);
    if i < |fs| {
      VisitFromConcat(p, fs, i + 1);
      assert ts[i..][1..] == ts[i + 1..];
    }
  }

  /** When the predicate holds for every field type but not for the aggregate
      itself, the recursive traversal visits exactly what `for_each` visits:
      the immediate fields, in order. */
  lemma VisitOneLevel(p: Predicate, v: Val)
    requires v.Agg? && !p.holds(TypeOf(v))
    requires forall j :: 0 <= j < |v.fields| ==> p.holds(TypeOf(v.fields[j]))
    ensures Traversable(p, TypeOf(v))
    ensures Visit(p, v) == v.fields
  {
    assert AllTraversable(p, v.fields);
    VisitOneLevelFrom(p, v.fields, 0);
  }

  lemma {:induction false} VisitOneLevelFrom(p: Predicate, fs: seq<Val>, i: nat)
    requires forall j :: 0 <= j < |fs| ==> p.holds(TypeOf(fs[j]))
    requires AllTraversable(p, fs) && i <= |fs|
    ensures VisitFrom(p, fs, i) == fs[i..]
    decreases |fs| - i
  {
    if i < |fs| {
      VisitOneLevelFrom(p, fs, i + 1);
      assert fs[i..] == [fs[i]] + fs[i + 1..];
    }
  }

  /** With a predicate built by `make_predicate`, the callback is called only
      on nodes of types the expression is detected for, and a node whose own
      type is detected is handed over whole. */
  lemma VisitOnlyWhereDetected(e: Expression, v: Val)
    requires Traversable(MakePredicate(e), TypeOf(v))
    ensures forall k :: 0 <= k < |Visit(MakePredicate(e), v)| ==>
      IsDetected(e, TypeOf(Visit(MakePredicate(e), v)[k]))
    ensures IsDetected(e, TypeOf(v)) ==> Visit(MakePredicate(e), v) == [v]
  {
  }

  // ---------------------------------------------------------------------------
  // Stopping at the leaves
  // ---------------------------------------------------------------------------

  /** Every type can be traversed down to its non-aggregate types. */
  lemma {:induction false} AtLeavesTraversable(t: Ty)
    ensures Traversable(AtLeaves(), t)
    decreases t
  {
    if t.Aggregate? {
      forall i | 0 <= i < |t.fields|
        ensures Traversable(AtLeaves(), t.fields[i])
      {
        AtLeavesTraversable(t.fields[i]);
      }
    }
  }

  /** Reapplying "is not an aggregate" at every depth, the traversal visits the
      non-aggregate values left to right, one call per value. */
  lemma {:induction false} VisitAtLeaves(v: Val)
    ensures Traversable(AtLeaves(), TypeOf(v))
    ensures Visit(AtLeaves(), v) == Leaves(v)
    ensures |Visit(AtLeaves(), v)| == LeafCount(v)
    decreases v, 1
  {
    AtLeavesTraversable(TypeOf(v));
    if v.Agg? {
      VisitFromAtLeaves(v.fields, 0);
    }
  }

  lemma {:induction false} VisitFromAtLeaves(fs: seq<Val>, i: nat)
    requires i <= |fs|
    ensures AllTraversable(AtLeaves(), fs)
    ensures VisitFrom(AtLeaves(), fs, i) == LeavesOf(fs[i..])
    ensures |VisitFrom(AtLeaves(), fs, i)| == LeafCountOf(fs[i..])
    decreases fs, |fs| - i
  {
    forall j | 0 <= j < |fs|
      ensures Traversable(AtLeaves(), TypeOf(fs[j]))
    {
      AtLeavesTraversable(TypeOf(fs[j]));
    }
    if i < |fs| {
      VisitAtLeaves(fs[i]);
      VisitFromAtLeaves(fs, i + 1);
      assert fs[i..][0] == fs[i];
      assert fs[i..][1..] == fs[i + 1..];
    }
  }
}
