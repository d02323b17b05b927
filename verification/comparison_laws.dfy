/** Laws of the synthesised comparisons: short-circuiting of `==`, reflexivity
    and symmetry of structural equality, and trichotomy of structural `<`
    together with the meaning of the derived operators.

    Synthesis adds no ordering properties of its own: each law holds under the
    corresponding assumption about the native operators of the types at which
    the recursion stops.
 */
module ComparisonLaws {
  import opened Values
  import opened Comparisons

  // ---------------------------------------------------------------------------
  // Short-circuit
  // ---------------------------------------------------------------------------

  /** Once a pair of fields differs, the tuples are unequal and no later pair
      is handed to `test_equality`. */
  lemma EqualShortCircuit(eq: Native, ls: seq<Val>, rs: seq<Val>, m: nat)
    requires SameTypes(ls, rs) && AllSupported(eq, ls)
    requires m < |ls| && !Equal(eq, ls[m], rs[m])
    ensures !EqualFrom(eq, ls, rs, 0)
    ensures forall k :: 0 <= k < |EqualProbes(eq, ls, rs, 0)| ==> EqualProbes(eq, ls, rs, 0)[k] <= m
  {
    EqualProbesMatchBeforeLast(eq, ls, rs, 0);
  }

  /** When all fields are equal, `test_equality_tuple` compares every index,
      in order. */
  lemma EqualProbesAll(eq: Native, ls: seq<Val>, rs: seq<Val>)
    requires SameTypes(ls, rs) && AllSupported(eq, ls)
    requires EqualFrom(eq, ls, rs, 0)
    ensures EqualProbes(eq, ls, rs, 0) == seq(|ls|, k => k)
  {
    EqualProbesStopAtMismatch(eq, ls, rs, 0);
  }

  // ---------------------------------------------------------------------------
  // Reflexivity and symmetry of ==
  // ---------------------------------------------------------------------------

  /** Native `==` is reflexive on every type that has it. */
  ghost predicate NativeReflexive(eq: Native)
  {
    forall v :: eq.implemented(TypeOf(v)) ==> eq.apply(v, v)
  }

  /** Native `==` is symmetric on every type that has it. */
  ghost predicate NativeSymmetric(eq: Native)
  {
    forall a, b :: TypeOf(a) == TypeOf(b) && eq.implemented(TypeOf(a)) ==> eq.apply(a, b) == eq.apply(b, a)
  }

  /** Structural equality is reflexive when every native `==` it reaches is. */
  lemma {:induction false} EqualReflexive(eq: Native, v: Val)
    requires Supported(eq, TypeOf(v)) && NativeReflexive(eq)
    ensures Equal(eq, v, v)
    decreases v
  {
    if !eq.implemented(TypeOf(v)) {
      forall j | 0 <= j < |v.fields|
        ensures Equal(eq, v.fields[j], v.fields[j])
      {
        EqualReflexive(eq, v.fields[j]);
      }
    }
  }

  /** Structural equality is symmetric when every native `==` it reaches is. */
  lemma {:induction false} EqualSymmetric(eq: Native, a: Val, b: Val)
    requires TypeOf(a) == TypeOf(b) && Supported(eq, TypeOf(a)) && NativeSymmetric(eq)
    ensures Equal(eq, a, b) == Equal(eq, b, a)
    decreases a
  {
    if !eq.implemented(TypeOf(a)) {
      forall j | 0 <= j < |a.fields|
        ensures Equal(eq, a.fields[j], b.fields[j]) == Equal(eq, b.fields[j], a.fields[j])
      {
        EqualSymmetric(eq, a.fields[j], b.fields[j]);
      }
    }
  }

  // ---------------------------------------------------------------------------
  // Trichotomy
  // ---------------------------------------------------------------------------

  predicate ExactlyOne(x: bool, y: bool, z: bool)
  {
    (x && !y && !z) || (!x && y && !z) || (!x && !y && z)
  }

  /** Every type the recursion reaches either has both native `==` and `<`,
      or has neither and is an aggregate, so that both algorithms stop at the
      same types. */
  predicate Comparable(eq: Native, lt: Native, t: Ty)
    decreases t
  {
    || (eq.implemented(t) && lt.implemented(t))
    || (&& !eq.implemented(t) && !lt.implemented(t) && t.Aggregate?
        && forall i :: 0 <= i < |t.fields| ==> Comparable(eq, lt, t.fields[i]))
  }

  /** At every type with native `==` and `<`, exactly one of `a < b`,
      `a == b`, `b < a` holds. */
  ghost predicate NativeTrichotomy(eq: Native, lt: Native)
  {
    forall a, b :: TypeOf(a) == TypeOf(b) && eq.implemented(TypeOf(a)) && lt.implemented(TypeOf(a)) ==>
      ExactlyOne(lt.apply(a, b), eq.apply(a, b), lt.apply(b, a))
  }

  lemma {:induction false} ComparableSupported(eq: Native, lt: Native, t: Ty)
    requires Comparable(eq, lt, t)
    ensures Supported(eq, t) && Supported(lt, t)
    decreases t
  {
    if !eq.implemented(t) {
      forall i | 0 <= i < |t.fields|
        ensures Supported(eq, t.fields[i]) && Supported(lt, t.fields[i])
      {
        ComparableSupported(eq, lt, t.fields[i]);
      }
    }
  }

  /** Exactly one of `a < b`, `a == b`, `b < a` holds of two values of a
      comparable type, provided the native operators are trichotomous. */
  lemma {:induction false} Trichotomy(eq: Native, lt: Native, a: Val, b: Val)
    requires TypeOf(a) == TypeOf(b) && Comparable(eq, lt, TypeOf(a)) && NativeTrichotomy(eq, lt)
    ensures Supported(eq, TypeOf(a)) && Supported(lt, TypeOf(a))
    ensures ExactlyOne(Less(lt, a, b), Equal(eq, a, b), Less(lt, b, a))
    decreases a
  {
    ComparableSupported(eq, lt, TypeOf(a));
    if !eq.implemented(TypeOf(a)) {
      var ls, rs := a.fields, b.fields;
      forall j | 0 <= j < |ls|
        ensures Supported(eq, TypeOf(ls[j])) && Supported(lt, TypeOf(ls[j]))
        ensures ExactlyOne(Less(lt, ls[j], rs[j]), Equal(eq, ls[j], rs[j]), Less(lt, rs[j], ls[j]))
      {
        Trichotomy(eq, lt, ls[j], rs[j]);
      }
      TrichotomyFrom(eq, lt, ls, rs, 0);
    }
  }

  /** Lexicographic comparison of two tuples is trichotomous when each pair of
      fields is. */
  lemma {:induction false} TrichotomyFrom(eq: Native, lt: Native, ls: seq<Val>, rs: seq<Val>, i: nat)
    requires SameTypes(ls, rs) && AllSupported(eq, ls) && AllSupported(lt, ls)
    requires i <= |ls|
    requires forall j :: i <= j < |ls| ==>
      ExactlyOne(Less(lt, ls[j], rs[j]), Equal(eq, ls[j], rs[j]), Less(lt, rs[j], ls[j]))
    ensures ExactlyOne(LessFrom(lt, ls, rs, i), EqualFrom(eq, ls, rs, i), LessFrom(lt, rs, ls, i))
    decreases |ls| - i
  {
    if i < |ls| {
      TrichotomyFrom(eq, lt, ls, rs, i + 1);
    }
  }

  /** `<` is irreflexive and structural equality reflexive under the same
      assumptions. */
  lemma LessIrreflexive(eq: Native, lt: Native, v: Val)
    requires Comparable(eq, lt, TypeOf(v)) && NativeTrichotomy(eq, lt)
    ensures Supported(eq, TypeOf(v)) && Supported(lt, TypeOf(v))
    ensures !Less(lt, v, v) && Equal(eq, v, v)
  {
    Trichotomy(eq, lt, v, v);
  }

  /** `!=` holds exactly when one side is strictly less than the other, once
      `<` is trichotomous. */
  lemma NotEqualMeansOrdered(eq: Native, lt: Native, a: Val, b: Val)
    requires TypeOf(a) == TypeOf(b) && Comparable(eq, lt, TypeOf(a)) && NativeTrichotomy(eq, lt)
    ensures Supported(eq, TypeOf(a)) && Supported(lt, TypeOf(a))
    ensures NotEqual(eq, a, b) <==> Less(lt, a, b) || Less(lt, b, a)
  {
    Trichotomy(eq, lt, a, b);
  }

  /** The operators derived from `<` alone mean what their names say once `<`
      is trichotomous: `<=` is "less or equal", `>` is "neither less nor
      equal", `>=` is "greater or equal". */
  lemma OrderOperatorsMeaning(eq: Native, lt: Native, a: Val, b: Val)
    requires TypeOf(a) == TypeOf(b) && Comparable(eq, lt, TypeOf(a)) && NativeTrichotomy(eq, lt)
    ensures Supported(eq, TypeOf(a)) && Supported(lt, TypeOf(a))
    ensures LessOrEqual(lt, a, b) <==> Less(lt, a, b) || Equal(eq, a, b)
    ensures Greater(lt, a, b) <==> !(Less(lt, a, b) || Equal(eq, a, b))
    ensures GreaterOrEqual(lt, a, b) <==> Less(lt, b, a) || Equal(eq, a, b)
  {
    Trichotomy(eq, lt, a, b);
  }
}
