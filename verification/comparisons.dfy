/** Structural equality and structural (lexicographic) ordering of aggregates,
    and the public operators derived from them.

    Each algorithm first asks whether the static type implements the operation
    natively; if so the native operator is used verbatim, otherwise the type is
    an aggregate and its fields are compared left to right, one index at a
    time.
 */
module Comparisons {
  import opened Values

  // ---------------------------------------------------------------------------
  // Equality
  // ---------------------------------------------------------------------------

  /** `test_equality`: native `==` when the type has it, otherwise the
      field-by-field comparison of the two decompositions. */
  function Equal(eq: Native, l: Val, r: Val): (b: bool)
    requires TypeOf(l) == TypeOf(r)
    requires Supported(eq, TypeOf(l))
    ensures eq.implemented(TypeOf(l)) ==> b == eq.apply(l, r)
    decreases TypeOf(l), 1
  {
    if eq.implemented(TypeOf(l)) then
      eq.apply(l, r)
    else
      EqualFrom(eq, l.fields, r.fields, 0)
  }

  /** `test_equality_tuple` at index `i`: the left-to-right, short-circuiting
      conjunction of the field comparisons from `i` on.  It holds exactly when
      every remaining pair of fields is structurally equal (vacuously so past
      the last index). */
  function EqualFrom(eq: Native, ls: seq<Val>, rs: seq<Val>, i: nat): (b: bool)
    requires SameTypes(ls, rs) && AllSupported(eq, ls)
    requires i <= |ls|
    ensures b <==> forall j :: i <= j < |ls| ==> Equal(eq, ls[j], rs[j])
    decreases TypesOf(ls), |ls| - i
  {
    if i == |ls| then
      true
    else
      Equal(eq, ls[i], rs[i]) && EqualFrom(eq, ls, rs, i + 1)
  }

  /** On a type without native `==`, two values are equal exactly when
      every pair of corresponding fields is. */
  lemma EqualPointwise(eq: Native, l: Val, r: Val)
    requires TypeOf(l) == TypeOf(r) && Supported(eq, TypeOf(l))
    requires !eq.implemented(TypeOf(l))
    ensures l.Agg? && r.Agg? && |l.fields| == |r.fields|
    ensures Equal(eq, l, r) <==> forall j :: 0 <= j < |l.fields| ==> Equal(eq, l.fields[j], r.fields[j])
  {
  }

  /** The indices, from `i` on, at which `test_equality_tuple` hands a pair of
      fields to `test_equality`: consecutive from `i`, and never past the last
      field.  Where the `&&` stops is stated by `EqualProbesMatchBeforeLast`
      and `EqualProbesStopAtMismatch`. */
  function EqualProbes(eq: Native, ls: seq<Val>, rs: seq<Val>, i: nat): (p: seq<nat>)
    requires SameTypes(ls, rs) && AllSupported(eq, ls)
    requires i <= |ls|
    ensures i + |p| <= |ls|
    ensures forall k :: 0 <= k < |p| ==> p[k] == i + k
    decreases |ls| - i
  {
    if i == |ls| then
      []
    else
      [i] + (if Equal(eq, ls[i], rs[i]) then EqualProbes(eq, ls, rs, i + 1) else [])
  }

  /** The indices, from `i` on, that a left-to-right, short-circuiting `&&`
      evaluates when the operands' outcomes are `m`: each operand in turn,
      until one is false or none is left. */
  function AndProbes(m: seq<bool>, i: nat): (p: seq<nat>)
    requires i <= |m|
    ensures i + |p| <= |m|
    ensures forall k :: 0 <= k < |p| ==> p[k] == i + k
    decreases |m| - i
  {
    if i == |m| then [] else [i] + (if m[i] then AndProbes(m, i + 1) else [])
  }

  /** A short-circuiting `&&` moves on only after a true operand, and stops
      before the end only right after a false one. */
  lemma {:induction false} AndProbesStop(m: seq<bool>, i: nat)
    requires i <= |m|
    ensures forall j :: i <= j < i + |AndProbes(m, i)| - 1 ==> m[j]
    ensures var p := AndProbes(m, i);
      i + |p| < |m| ==> |p| > 0 && !m[p[|p| - 1]]
    decreases |m| - i
  {
    if i < |m| && m[i] {
      AndProbesStop(m, i + 1);
    }
  }

  /** The outcome of `test_equality` on each pair of fields, in field order. */
  function FieldMatches(eq: Native, ls: seq<Val>, rs: seq<Val>): seq<bool>
    requires SameTypes(ls, rs) && AllSupported(eq, ls)
  {
    seq(|ls|, j requires 0 <= j < |ls| => Equal(eq, ls[j], rs[j]))
  }

  /** `test_equality_tuple` probes the fields exactly as a short-circuiting
      `&&` over the field comparisons does. */
  lemma {:induction false} EqualProbesAreAndProbes(eq: Native, ls: seq<Val>, rs: seq<Val>, i: nat)
    requires SameTypes(ls, rs) && AllSupported(eq, ls)
    requires i <= |ls|
    ensures EqualProbes(eq, ls, rs, i) == AndProbes(FieldMatches(eq, ls, rs), i)
    decreases |ls| - i
  {
    if i < |ls| {
      EqualProbesAreAndProbes(eq, ls, rs, i + 1);
    }
  }

  /** Every probe of `test_equality_tuple` but the last found its fields
      equal: the `&&` moves on only after a match. */
  lemma EqualProbesMatchBeforeLast(eq: Native, ls: seq<Val>, rs: seq<Val>, i: nat)
    requires SameTypes(ls, rs) && AllSupported(eq, ls)
    requires i <= |ls|
    ensures forall j :: i <= j < i + |EqualProbes(eq, ls, rs, i)| - 1 ==> Equal(eq, ls[j], rs[j])
  {
    var m, n := FieldMatches(eq, ls, rs), |EqualProbes(eq, ls, rs, i)|;
    EqualProbesAreAndProbes(eq, ls, rs, i);
    AndProbesStop(m, i);
    forall j | i <= j < i + n - 1
      ensures Equal(eq, ls[j], rs[j])
    {
      assert m[j];
    }
  }

  /** The `&&` of `test_equality_tuple` stops at the first mismatch: the
      probes stop before the end only right after a mismatch, so they run to
      the end whenever the remaining fields are all equal. */
  lemma EqualProbesStopAtMismatch(eq: Native, ls: seq<Val>, rs: seq<Val>, i: nat)
    requires SameTypes(ls, rs) && AllSupported(eq, ls)
    requires i <= |ls|
    ensures var p := EqualProbes(eq, ls, rs, i);
      i + |p| < |ls| ==> |p| > 0 && !Equal(eq, ls[p[|p| - 1]], rs[p[|p| - 1]])
  {
    var m := FieldMatches(eq, ls, rs);
    EqualProbesAreAndProbes(eq, ls, rs, i);
    AndProbesStop(m, i);
  }

  // ---------------------------------------------------------------------------
  // Ordering
  // ---------------------------------------------------------------------------

  /** `test_less`: native `<` when the type has it, otherwise the lexicographic
      comparison of the two decompositions. */
  function Less(lt: Native, l: Val, r: Val): (b: bool)
    requires TypeOf(l) == TypeOf(r)
    requires Supported(lt, TypeOf(l))
    ensures lt.implemented(TypeOf(l)) ==> b == lt.apply(l, r)
    decreases TypeOf(l), 1
  {
    if lt.implemented(TypeOf(l)) then
      lt.apply(l, r)
    else
      LessFrom(lt, l.fields, r.fields, 0)
  }

  /** Index `k` is the first index from `i` on at which the fields differ in
      order, and there the left field is the smaller. */
  predicate DecidesLess(lt: Native, ls: seq<Val>, rs: seq<Val>, i: nat, k: nat)
    requires SameTypes(ls, rs) && AllSupported(lt, ls)
    requires i <= k < |ls|
    decreases TypesOf(ls), 0
  {
    && (forall j :: i <= j < k ==> !Less(lt, ls[j], rs[j]) && !Less(lt, rs[j], ls[j]))
    && Less(lt, ls[k], rs[k])
  }

  /** `test_less_tuple` at index `i`: the first index where either side is
      smaller decides; if no index decides, the result is false. */
  function LessFrom(lt: Native, ls: seq<Val>, rs: seq<Val>, i: nat): (b: bool)
    requires SameTypes(ls, rs) && AllSupported(lt, ls)
    requires i <= |ls|
    decreases TypesOf(ls), |ls| - i
  {
    if i == |ls| then
      false
    else if Less(lt, ls[i], rs[i]) then
      true
    else if Less(lt, rs[i], ls[i]) then
      false
    else
      LessFrom(lt, ls, rs, i + 1)
  }

  /** The lexicographic reading of `test_less_tuple`: from index `i` on, the
      result is true exactly when some index decides the comparison in favour
      of the left side.  In particular an exhausted or all-tied tuple is never
      less. */
  lemma {:induction false} LessFromLexicographic(lt: Native, ls: seq<Val>, rs: seq<Val>, i: nat)
    requires SameTypes(ls, rs) && AllSupported(lt, ls)
    requires i <= |ls|
    ensures LessFrom(lt, ls, rs, i) <==> exists k :: i <= k < |ls| && DecidesLess(lt, ls, rs, i, k)
    decreases |ls| - i
  {
    if i == |ls| {
    } else if Less(lt, ls[i], rs[i]) {
      assert DecidesLess(lt, ls, rs, i, i);
    } else if Less(lt, rs[i], ls[i]) {
    } else {
      LessFromLexicographic(lt, ls, rs, i + 1);
      assert forall k :: i < k < |ls| ==>
          (DecidesLess(lt, ls, rs, i, k) <==> DecidesLess(lt, ls, rs, i + 1, k));
      assert LessFrom(lt, ls, rs, i) == LessFrom(lt, ls, rs, i + 1);
      assert !DecidesLess(lt, ls, rs, i, i);
      if LessFrom(lt, ls, rs, i) {
        var k :| i + 1 <= k < |ls| && DecidesLess(lt, ls, rs, i + 1, k);
        assert DecidesLess(lt, ls, rs, i, k);
      }
      if exists k :: i <= k < |ls| && DecidesLess(lt, ls, rs, i, k) {
        var k :| i <= k < |ls| && DecidesLess(lt, ls, rs, i, k);
        assert DecidesLess(lt, ls, rs, i + 1, k);
      }
    }
  }

  // ---------------------------------------------------------------------------
  // Public operators
  // ---------------------------------------------------------------------------

  /** `operators::operator!=`. */
  function NotEqual(eq: Native, l: Val, r: Val): bool
    requires TypeOf(l) == TypeOf(r) && Supported(eq, TypeOf(l))
  {
    !Equal(eq, l, r)
  }

  /** `operators::operator<=`. */
  function LessOrEqual(lt: Native, l: Val, r: Val): bool
    requires TypeOf(l) == TypeOf(r) && Supported(lt, TypeOf(l))
  {
    !Less(lt, r, l)
  }

  /** `operators::operator>`. */
  function Greater(lt: Native, l: Val, r: Val): bool
    requires TypeOf(l) == TypeOf(r) && Supported(lt, TypeOf(l))
  {
    Less(lt, r, l)
  }

  /** `operators::operator>=`. */
  function GreaterOrEqual(lt: Native, l: Val, r: Val): bool
    requires TypeOf(l) == TypeOf(r) && Supported(lt, TypeOf(l))
  {
    !Less(lt, l, r)
  }
}
