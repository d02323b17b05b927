/** Concrete scenarios: two-field pairs of `int`, a type whose own `==`
    ignores its fields, a type the build rejects, and the nested value
    `{{1, 2}, 3}` walked flat and recursively.
 */
module Scenarios {
  import opened Values
  import opened Comparisons
  import opened Loops
  import opened LoopLaws

  const IntTy: Ty := Atomic("int")

  function Int(x: int): Val
  {
    Leaf("int", x)
  }

  function Pair(x: int, y: int): Val
  {
    Agg("pair", [Int(x), Int(y)])
  }

  /** `int` has native `==`; aggregates do not. */
  function IntEq(): Native
  {
    Native((t: Ty) => t == IntTy, (a: Val, b: Val) => a.Leaf? && b.Leaf? && a.bits == b.bits)
  }

  /** `int` has native `<`; aggregates do not. */
  function IntLess(): Native
  {
    Native((t: Ty) => t == IntTy, (a: Val, b: Val) => a.Leaf? && b.Leaf? && a.bits < b.bits)
  }

  /** The first field decides the order; the second breaks a tie. */
  lemma FieldOrderDecides()
    ensures Supported(IntLess(), TypeOf(Pair(0, 0)))
    ensures Less(IntLess(), Pair(1, 5), Pair(1, 6))
    ensures !Less(IntLess(), Pair(2, 0), Pair(1, 9))
    ensures Less(IntLess(), Pair(1, 9), Pair(2, 0))
  {
    assert TypeOf(Pair(0, 0)).fields == [IntTy, IntTy];
  }

  /** A "loose" aggregate whose own `==` always answers true: structural
      synthesis does not override it, while the field-wise comparison of an
      ordinary one-field aggregate with the same fields reports the difference. */
  lemma NativeEqualityWins()
    ensures var loose := Native((t: Ty) => t == IntTy || t.name == "loose",
                                (a: Val, b: Val) => a.name == "loose" || (a.Leaf? && b.Leaf? && a.bits == b.bits));
            && Supported(loose, TypeOf(Agg("loose", [Int(1)])))
            && Equal(loose, Agg("loose", [Int(1)]), Agg("loose", [Int(2)]))
            && !Equal(loose, Agg("plain", [Int(1)]), Agg("plain", [Int(2)]))
  {
    var loose := Native((t: Ty) => t == IntTy || t.name == "loose",
                        (a: Val, b: Val) => a.name == "loose" || (a.Leaf? && b.Leaf? && a.bits == b.bits));
    assert TypeOf(Agg("plain", [Int(1)])).fields == [IntTy];
    assert !Equal(loose, Int(1), Int(2));
  }

  /** Field 0 already differs, so field 1 is never handed to `==`. */
  lemma FirstMismatchStops()
    ensures SameTypes([Int(0), Int(7)], [Int(1), Int(7)])
    ensures EqualProbes(IntEq(), [Int(0), Int(7)], [Int(1), Int(7)], 0) == [0]
  {
    assert TypesOf([Int(0), Int(7)]) == [IntTy, IntTy];
    assert TypesOf([Int(1), Int(7)]) == [IntTy, IntTy];
  }

  /** An aggregate with a field of a non-aggregate type without `==` cannot
      be compared: the build rejects it. */
  lemma OpaqueFieldRejected()
    ensures !Supported(IntEq(), Aggregate("holder", [Atomic("opaque")]))
  {
    var holder := Aggregate("holder", [Atomic("opaque")]);
    assert !Supported(IntEq(), holder.fields[0]);
  }

  /** `for_each` on `{{1, 2}, 3}` visits the inner aggregate as one item and
      `3`; `for_each_recursively`, stopping at non-aggregates, visits `1`,
      `2`, `3` in that order. */
  method FlatVersusRecursive() returns (flat: seq<Val>, deep: seq<Val>)
    ensures flat == [Agg("inner", [Int(1), Int(2)]), Int(3)]
    ensures deep == [Int(1), Int(2), Int(3)]
  {
    var v := Agg("outer", [Agg("inner", [Int(1), Int(2)]), Int(3)]);
    flat := ForEach(v);
    VisitAtLeaves(v);
    deep := Visit(AtLeaves(), v);
    assert Leaves(v) == [Int(1), Int(2), Int(3)];
  }
}
