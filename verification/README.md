# Structural comparisons and traversals of aggregates, in Dafny

AggregatesToTuples derives equality, ordering and field traversal for plain
product types ("aggregates"). For each type it reaches, an algorithm first asks
whether the type already has the operation natively. If it does, the native
operation is used as is. If not, the type must be an aggregate: it is
decomposed into its fields in decomposition order, and the algorithm recurses
field by field with a compile-time index. A type that is neither is rejected
when the program is built.

This project models that runtime behaviour as recursive functions over a tree
of values:

- `values.dfy` (`Values`): values (`Leaf` / `Agg`) carrying their type name,
  their static type `TypeOf`, and a `Native` record per operation. The record
  holds the detection `implemented(t)` (`has_equality<T>`, `has_less<T>`) and
  what the native operator computes. `Supported` is the build-time constraint
  "natively capable or an aggregate, at every type reached". It is a
  `requires` of every comparison. An atomic type the capability does not cover
  plays the role of the type the build rejects.
- `comparisons.dfy` (`Comparisons`): `test_equality` / `test_equality_tuple`
  (`Equal`, `EqualFrom`, plus `EqualProbes`, which records which field
  indices are compared, and `AndProbes`, the same record for a
  short-circuiting `&&` over known outcomes), `test_less` / `test_less_tuple` (`Less`, `LessFrom`),
  and the public operators `!=`, `<=`, `>`, `>=`.
- `comparison_laws.dfy` (`ComparisonLaws`): short-circuiting, reflexivity and
  symmetry of equality, trichotomy of the order, and what the derived
  operators mean.
- `loops.dfy` (`Loops`): `for_each` (`ForEach`), `make_predicate`
  (`MakePredicate`), `for_each_recursively` / `for_each_tuple_recursively`
  (`Visit`, `VisitFrom`). The callback is modelled by the trace of the nodes
  it is called on.
- `loop_laws.dfy` (`LoopLaws`): the shape of a traversal, its relation to
  `for_each`, and the leaf-order traversal.
- `scenarios.dfy` (`Scenarios`): concrete pairs of `int`, a type with its own
  always-true `==`, a rejected type, and `{{1, 2}, 3}`.

The laws of the comparisons hold only under assumptions about the native
operators at the types where recursion stops. `NativeReflexive`,
`NativeSymmetric` and `NativeTrichotomy` state these assumptions. `Comparable`
requires both `==` and `<` to stop at the same types. Synthesis adds no order
properties of its own.

## Model

| member | source | states |
|---|---|---|
| Comparisons.Equal | include/comparisons.hpp:47-62 | on a type with native `==` the result is exactly the native `==`, without decomposition |
| Comparisons.EqualPointwise | include/comparisons.hpp:56-60 | on a type without native `==`, the value is an aggregate and two values are equal iff every pair of corresponding fields is structurally equal |
| Comparisons.EqualFrom | include/comparisons.hpp:32-45 | from index `i` on, the result holds iff every remaining pair of fields is structurally equal; past the last index it is true |
| Comparisons.EqualProbes | include/comparisons.hpp:37-43 | the indices handed to `test_equality` are consecutive from `i` and never run past the last field |
| Comparisons.AndProbesStop | include/comparisons.hpp:42-43 | a short-circuiting `&&` moves to the next operand only after a true one, and stops before the last operand only after a false one |
| Comparisons.EqualProbesAreAndProbes | include/comparisons.hpp:37-43 | `test_equality_tuple` probes the fields exactly as a short-circuiting `&&` over the per-field outcomes of `test_equality` does |
| Comparisons.EqualProbesMatchBeforeLast | include/comparisons.hpp:42-43 | every probed pair of fields except the last compared equal |
| Comparisons.EqualProbesStopAtMismatch | include/comparisons.hpp:42-43 | if the probes stop before the last field, the last probed pair compared unequal; so when all remaining fields are equal, every field is probed |
| ComparisonLaws.EqualShortCircuit | include/comparisons.hpp:42-43 | if fields at index `m` differ, the tuples are unequal and no index after `m` is compared |
| ComparisonLaws.EqualProbesAll | include/comparisons.hpp:38-43 | when all fields are equal, every index is compared, in order |
| Comparisons.Less | include/comparisons.hpp:119-134 | on a type with native `<` the result is exactly the native `<`, without decomposition |
| Comparisons.LessFromLexicographic | include/comparisons.hpp:100-117 | from index `i` on, the result is true iff some index `k` has all earlier pairs tied (neither side less) and the left field less at `k`; an exhausted or fully tied tuple is not less |
| ComparisonLaws.EqualReflexive | include/comparisons.hpp:47-62 | structural equality is reflexive when every native `==` reached is reflexive |
| ComparisonLaws.EqualSymmetric | include/comparisons.hpp:47-62 | structural equality is symmetric when every native `==` reached is symmetric |
| ComparisonLaws.Trichotomy | include/comparisons.hpp:119-134 | if the native `==`/`<` are trichotomous and both stop at the same types, exactly one of `a < b`, `a == b`, `b < a` holds |
| ComparisonLaws.TrichotomyFrom | include/comparisons.hpp:100-117 | the lexicographic comparison of two tuples is trichotomous when each pair of fields is |
| ComparisonLaws.LessIrreflexive | include/comparisons.hpp:106-115 | under the same assumptions no value is less than itself and every value equals itself |
| ComparisonLaws.NotEqualMeansOrdered | include/comparisons.hpp:72-75 | when the native `==`/`<` are trichotomous and both stop at the same types, `!=` holds iff one side is strictly less than the other |
| ComparisonLaws.OrderOperatorsMeaning | include/comparisons.hpp:144-155 | when the native `==`/`<` are trichotomous and both stop at the same types, `<=` is "less or equal", `>` is "neither less nor equal", `>=` is "greater or equal" |
| ComparisonLaws.ComparableSupported | include/comparisons.hpp:122-123 | a type on which `==` and `<` stop at the same places passes both build-time constraints |
| Loops.ForEach | include/loops.hpp:12-19 | on an aggregate, the callback is called once per immediate field, in field order: the trace is the field sequence and has the arity as length; nested aggregates appear as single items |
| LoopLaws.VisitOnlyWhereDetected | include/loops.hpp:41-53 | with a predicate built by `make_predicate`, the callback is called only on nodes whose type the expression is detected for, and a node whose own type is detected is handed to it whole, without descending |
| Loops.Visit | include/loops.hpp:76-89 | every node handed to the callback has a type that satisfies the predicate |
| Loops.VisitFrom | include/loops.hpp:59-70 | every node visited from field `i` on has a type that satisfies the predicate |
| LoopLaws.VisitStopsAtTerminal | include/loops.hpp:82-83 | where the predicate holds, the callback runs once, on the node itself, and the traversal does not descend |
| LoopLaws.VisitDescends | include/loops.hpp:85-87 | where the predicate fails, the node is an aggregate and the trace is the concatenation of the fields' traces in field order |
| LoopLaws.VisitFromConcat | include/loops.hpp:59-70 | the tuple loop from index `i` produces the concatenation of the traces of fields `i`, `i+1`, ... |
| LoopLaws.VisitOneLevel | include/loops.hpp:76-89 | when the predicate holds at every field type but not at the aggregate, the recursive traversal visits exactly the immediate fields, as `for_each` does |
| LoopLaws.VisitOneLevelFrom | include/loops.hpp:66-68 | with every field terminal, the tuple loop from `i` visits the fields from `i` on, in order |
| LoopLaws.AtLeavesTraversable | include/loops.hpp:79-80 | the predicate "is not an aggregate" satisfies the build-time constraint at every type |
| LoopLaws.VisitAtLeaves | include/loops.hpp:76-89 | reapplying "is not an aggregate" at every depth, the trace is the left-to-right leaf sequence and its length is the leaf count |
| LoopLaws.VisitFromAtLeaves | include/loops.hpp:59-70 | the tuple loop with that predicate yields the leaves of fields `i`, `i+1`, ... in order, as many as they hold |
| Scenarios.FieldOrderDecides | include/comparisons.hpp:106-115 | `{1,5} < {1,6}`, not `{2,0} < {1,9}`, and `{1,9} < {2,0}`: the first field decides |
| Scenarios.NativeEqualityWins | include/comparisons.hpp:53-54 | a type whose own `==` always answers true compares equal whatever its fields hold |
| Scenarios.FirstMismatchStops | include/comparisons.hpp:42-43 | when field 0 differs, only index 0 is compared |
| Scenarios.OpaqueFieldRejected | include/comparisons.hpp:50-51 | an aggregate with a field of a non-aggregate type without `==` fails the build-time constraint |
| Scenarios.FlatVersusRecursive | include/loops.hpp:12-19 | on `{{1,2},3}`, `for_each` visits two items while the leaf-stopping recursive traversal visits `1`, `2`, `3` |

`LessFrom` (`test_less_tuple`), the public operators `NotEqual`, `LessOrEqual`,
`Greater` and `GreaterOrEqual`, and `MakePredicate` (`make_predicate`) have no
row of their own. `LessFromLexicographic`, `NotEqualMeansOrdered`,
`OrderOperatorsMeaning` and `VisitOnlyWhereDetected` state their contracts.

## Left out

- The compile-time machinery (`is_detected`, `value_tag`, `hightype_tag`, `if constexpr`, `static_assert`): detection is a boolean function on types, branching is ordinary `if`, and the build-time rejection is a `requires`.
- `as_tuple` and `is_aggregate`: `core.hpp` is not part of this model. Decomposition is the `Agg(name, fields)` constructor itself, so decomposition order is fixed and stable by construction.
- What the callback of `for_each` / `for_each_recursively` does, including in-place mutation of fields and perfect forwarding: the callback is modelled only by the trace of nodes it is called on.
- Transitivity of the synthesised `<`: the source only builds on native `<`, and the model proves trichotomy and irreflexivity, not transitivity.
- Argument-dependent lookup and `using namespace att::operators`: which types see the public operators depends on C++ name lookup, which is not modelled.
