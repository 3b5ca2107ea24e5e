# value_diff: compile-time offsets between two IR values

A model of Taichi's `value_diff` analysis (`taichi/analysis/value_diff.cpp`).
The analysis answers two questions about statements of the intermediate
representation.

- `value_diff_loop_index(stmt, loop, index_id)` asks how the value of `stmt`
  depends on index `index_id` of a struct-for loop. The answer is a
  `DiffRange (related, coeff, low, high)`. A related answer says that
  `stmt - coeff * index` lies in the half-open range `[low, high)`.
- `value_diff_ptr_index(val1, val2)` asks whether two values differ by a
  constant known at compile time. The answer is `Certain(d)` or `Uncertain`.

The files follow the structure of the source file:

- `diff_range.dfy` (module `DiffRanges`): the `DiffRange` record, its
  constructors, and `operator+` / `operator-`.
- `ir.dfy` (module `IR`): the statements the analyses read. They live in an
  arena keyed by a topological numbering of the operand graph, which stands
  in for `instance_id`. The source relies only on that graph being acyclic,
  and every acyclic graph has such a numbering; since `results` is keyed one
  statement to one entry, renumbering changes nothing. The file also holds
  the guarantees of well-typed IR and a run-time valuation `Env`. The
  valuation is used only to state soundness.
- `loop_index_diff.dfy` (module `LoopDiff`): `LoopFact`, the fact the
  loop-index visitor records for a statement in a lane, and lemmas about it.
  The class `ValueDiffLoopIndex` is the visitor itself. It has a `results` map
  and a `lane` field that every `visit` updates. Each visit is proved to
  record `LoopFact` for the visited statement. Every other entry it changes,
  for a statement with as many lanes as the visited one, holds that
  statement's `LoopFact` in the visit's lane. Entries of statements with
  another lane count may be overwritten, as in the source, where `results`
  is keyed by `instance_id` alone.
- `base_offset.dfy` (module `BaseOffsetDiff`): `Decompose`, the
  base-plus-offset decomposition. The class `FindDirectValueBaseAndOffset`
  overwrites its `result` triple in place, as the source does.
- `analysis.dfy` (module `Analysis`): the two entry points, the functions
  that specify them, and their soundness.
- `scenarios.dfy` (module `Scenarios`): small concrete graphs and the answers
  the entry points give on them.

Termination: in the numbering, every operand the visitors recurse into has a
smaller id than the statement that uses it.

Soundness is stated per query. Its premise speaks only of the statements the
query reads: `LoopDiff.Cone` for the loop-index analysis, and the statement
with its constant right-hand side for the decomposition. A statement elsewhere
in the graph that no run can give a value, such as the index of an empty
range-for, does not make the soundness lemmas vacuous
(`Scenarios.UnreachedEmptyLoopIgnored`).

Lane counts are modelled for two reasons:

- the assertions at `value_diff.cpp:66`, `:130` and `:173` are about them;
- the binary-operation visit reads its left operand's entry after visiting
  the right operand. Both operands have as many lanes as the statement, so
  the right operand's visit can only rewrite that entry with the same fact.
  This is proved by an assertion inside `VisitBinaryOp`, from the contract of
  `Visit`.

Each `TI_ASSERT` is a precondition:

- shuffles reached from the query have one lane (`LoopDiff.NarrowShuffles`);
- constants read by the decomposition have one lane
  (`BaseOffsetDiff.DecomposeReady`);
- the loop kind, and one lane at the root off the fast path
  (`Analysis.LoopQueryReady`).

Three points of the code are easy to misread; the model follows the code on
each:

- `value_diff_loop_index` accepts only struct-for loops, or offloaded tasks of
  type struct-for (`value_diff.cpp:163-167`). No range-for loop can be the
  queried loop. A range-for appears only as the loop of another index.
- An i32 constant is the half-open singleton `[c, c + 1)`, built with the
  three-argument constructor (`value_diff.cpp:76`), not `low = high = c`.
- The tracked index itself is `(true, 1, 0, 1)`: the constant term of `x` is
  exactly 0 (`value_diff.cpp:50`, `:170`). The model reads `[low, high)` as a
  range of the constant term throughout. Under that reading the composition
  rules are proved sound and exact.

## Model

| member | source | states |
|---|---|---|
| DiffRanges.Plus | taichi/analysis/value_diff.cpp:11-14 | `a + b` is related iff both are; its range width is the sum of the widths minus one |
| DiffRanges.Minus | taichi/analysis/value_diff.cpp:16-19 | `a - b` is related iff both are; its range width is the sum of the widths minus one |
| DiffRanges.SingletonsCompose | taichi/analysis/value_diff.cpp:11-19 | two singletons compose to a singleton under `+` and under `-` |
| DiffRanges.PlusSound | taichi/analysis/value_diff.cpp:11-14 | if `a` describes `v1` and `b` describes `v2`, `a + b` describes `v1 + v2` |
| DiffRanges.MinusSound | taichi/analysis/value_diff.cpp:16-19 | if `a` describes `v1` and `b` describes `v2`, `a - b` describes `v1 - v2` |
| DiffRanges.PlusExact | taichi/analysis/value_diff.cpp:11-14 | on non-empty ranges, every constant term `a + b` admits is a sum of terms `a` and `b` admit |
| DiffRanges.MinusExact | taichi/analysis/value_diff.cpp:16-19 | on non-empty ranges, every constant term `a - b` admits is a difference of terms `a` and `b` admit |
| LoopDiff.NarrowShuffles | taichi/analysis/value_diff.cpp:64-72 | every element shuffle reachable through the visits from a statement has one lane, the assertion at line 66; used as a precondition of every visit |
| LoopDiff.LoopFact | taichi/analysis/value_diff.cpp:38-105 | the fact the visitor records for a statement in a lane, one case per `visit` overload; its properties are the `LoopFact…` lemmas below, and every visit method is proved to record it |
| LoopDiff.LoopFactSound | taichi/analysis/value_diff.cpp:38-105 | in every iteration where the tracked index is `x`, a related fact for a statement holds of its value in that lane, provided the values of the statements the visits read (`Cone`) agree with their meaning |
| LoopDiff.LoopFactNonEmpty | taichi/analysis/value_diff.cpp:58-59 | if the range-for bounds and range assumptions the visits read (`Cone`) are non-empty, the related fact has a non-empty range |
| LoopDiff.LoopFactBinaryOp | taichi/analysis/value_diff.cpp:88-105 | an add/sub whose operands are both related gets `lhs + rhs` or `lhs - rhs`; any other operator or an unrelated operand gives `(false, 0, 0, 0)` |
| LoopDiff.LoopFactRangeAssumption | taichi/analysis/value_diff.cpp:82-86 | a range assumption has its base's relatedness and coefficient, with `low` and `high` added to the base's bounds (minus one on `high`) |
| LoopDiff.LoopFactLoopIndex | taichi/analysis/value_diff.cpp:46-62 | the tracked index is `(true, 1, 0, 1)`; an index of a range-for with constant bounds is `(true, 0, begin, end)`; any other index is unrelated |
| LoopDiff.LoopFactLeaves | taichi/analysis/value_diff.cpp:38-44 | an i32 constant is the singleton of its value in the current lane; a non-i32 constant, a global load and any other kind are unrelated |
| LoopDiff.LoopFactShuffle | taichi/analysis/value_diff.cpp:64-72 | a shuffle has the fact of the element it selects, taken in that element's lane |
| LoopDiff.ValueDiffLoopIndex.constructor | taichi/analysis/value_diff.cpp:32-36 | stores the statement, lane, loop and index, with no results yet |
| LoopDiff.ValueDiffLoopIndex.VisitDefault | taichi/analysis/value_diff.cpp:38-44 | records the unrelated fact for the statement and changes nothing else |
| LoopDiff.ValueDiffLoopIndex.VisitLoopIndex | taichi/analysis/value_diff.cpp:46-62 | records the three-case loop-index fact and leaves every other entry and the lane alone |
| LoopDiff.ValueDiffLoopIndex.VisitConst | taichi/analysis/value_diff.cpp:74-80 | records the singleton of the current lane's i32 value, or unrelated for any other type |
| LoopDiff.ValueDiffLoopIndex.VisitElementShuffle | taichi/analysis/value_diff.cpp:64-72 | visits the selected element in its lane and records its fact; the caller's lane is restored, no key is lost, and every entry changed for a one-lane statement holds its `LoopFact` in the caller's lane |
| LoopDiff.ValueDiffLoopIndex.VisitRangeAssumption | taichi/analysis/value_diff.cpp:82-86 | records `LoopFact` for the range assumption after visiting its base; keeps all earlier keys and the lane; every entry changed for a statement with as many lanes holds its `LoopFact` in the visit's lane |
| LoopDiff.ValueDiffLoopIndex.VisitBinaryOp | taichi/analysis/value_diff.cpp:88-105 | records `LoopFact` for the binary operation after visiting both operands of an add/sub; keeps the lane and every key; every entry changed for a statement with as many lanes holds its `LoopFact` in the visit's lane |
| LoopDiff.ValueDiffLoopIndex.Visit | taichi/analysis/value_diff.cpp:38-105 | any visit records `LoopFact` for the statement in the current lane, keeps the lane and every key, and every entry it changes for a statement with as many lanes holds that statement's `LoopFact` in the current lane (with more than one lane, only such statements are written) |
| LoopDiff.ValueDiffLoopIndex.Run | taichi/analysis/value_diff.cpp:107-110 | returns `LoopFact` of the input statement in the starting lane |
| BaseOffsetDiff.DecomposeReady | taichi/analysis/value_diff.cpp:129-138 | every constant the visitor reads, the statement itself or a constant right-hand side, has one lane, the assertion at line 130 |
| BaseOffsetDiff.Decompose | taichi/analysis/value_diff.cpp:125-154 | the `(found, base, offset)` one run of the visitor returns; `DecomposeCases` and `DecomposeSound` state its cases and meaning, and `FindDirectValueBaseAndOffset.Run` is proved to return it |
| BaseOffsetDiff.DecomposeSound | taichi/analysis/value_diff.cpp:113-118 | a found decomposition `(base, offset)` equals the statement's lane-0 value, provided the statement and a constant right-hand side have values that agree with their meaning |
| BaseOffsetDiff.DecomposeCases | taichi/analysis/value_diff.cpp:125-148 | an i32 constant is `(true, null, c)`; add/sub with an i32 constant right side `c` is `(true, lhs, c)` or `(true, lhs, -c)` with `lhs` not decomposed further; every other case is `(false, null, 0)` |
| BaseOffsetDiff.FindDirectValueBaseAndOffset.constructor | taichi/analysis/value_diff.cpp:120-123 | the result starts as `(false, null, 0)` |
| BaseOffsetDiff.FindDirectValueBaseAndOffset.VisitDefault | taichi/analysis/value_diff.cpp:125-127 | resets the result to `(false, null, 0)` |
| BaseOffsetDiff.FindDirectValueBaseAndOffset.VisitConst | taichi/analysis/value_diff.cpp:129-134 | an i32 constant overwrites the result with `(true, null, c)`; any other constant leaves it as it was |
| BaseOffsetDiff.FindDirectValueBaseAndOffset.VisitBinaryOp | taichi/analysis/value_diff.cpp:136-148 | after visiting a constant right side, the result is reset unless it is a bare constant under add/sub; otherwise it is negated for sub and given `lhs` as base |
| BaseOffsetDiff.FindDirectValueBaseAndOffset.Visit | taichi/analysis/value_diff.cpp:125-148 | on a fresh visitor, the result is `Decompose` of the statement |
| BaseOffsetDiff.FindDirectValueBaseAndOffset.Run | taichi/analysis/value_diff.cpp:150-154 | returns `Decompose` of the value |
| Analysis.IsStructForLoop | taichi/analysis/value_diff.cpp:163-167 | the queried loop is a struct-for, or an offloaded task of type struct-for |
| Analysis.IsTrackedIndex | taichi/analysis/value_diff.cpp:168-171 | the statement is the loop index of the queried loop with the queried index number |
| Analysis.LoopQueryReady | taichi/analysis/value_diff.cpp:163-173 | what a caller must guarantee: the loop-kind assertions, and off the fast path one lane at the root (line 173) and one-lane shuffles below it (line 66) |
| Analysis.LoopIndexDiff | taichi/analysis/value_diff.cpp:162-176 | the answer: `(true, 1, 0, 1)` for the tracked index, otherwise the visitor's fact in lane 0; `FastPathAgrees` and `LoopIndexDiffSound` state what it means |
| Analysis.ValueDiffLoopIndex | taichi/analysis/value_diff.cpp:162-176 | returns `LoopIndexDiff`: the tracked index directly, otherwise the visitor's answer in lane 0 |
| Analysis.FastPathAgrees | taichi/analysis/value_diff.cpp:168-171 | the fast path gives the fact the visitor would record for the statement in lane 0, namely `(true, 1, 0, 1)` |
| Analysis.LoopIndexDiffSound | taichi/analysis/value_diff.cpp:162-176 | in every iteration where the tracked index is `x`, a related answer holds of the statement's lane-0 value, with the premise only on the statements the query reads |
| Analysis.PtrQueryReady | taichi/analysis/value_diff.cpp:179-183 | what a caller must guarantee: unless the two statements are the same, both decompositions may run (their one-lane assertions hold) |
| Analysis.PtrDiff | taichi/analysis/value_diff.cpp:178-189 | the answer: certain 0 for one statement, the offset difference when both decompose over the same base, uncertain otherwise; `PtrDiffSound`, `PtrDiffCertainIff` and `PtrDiffAntisymmetric` state what it means |
| Analysis.ValueDiffPtrIndex | taichi/analysis/value_diff.cpp:178-189 | returns `PtrDiff`: certain 0 for one statement; otherwise the offset difference when both decompose over the same base, else uncertain |
| Analysis.PtrDiffSound | taichi/analysis/value_diff.cpp:178-189 | a certain difference is the difference of the two lane-0 values, with the premise only on the statements the two decompositions read |
| Analysis.PtrDiffCertainIff | taichi/analysis/value_diff.cpp:178-189 | the answer is certain iff the statements are the same or both decompose over the same base (both null for two constants); the same statement gives `Certain(0)` |
| Analysis.PtrDiffAntisymmetric | taichi/analysis/value_diff.cpp:178-189 | swapping the arguments negates a certain difference and keeps an uncertain one |
| Scenarios.IndexPlusThree | taichi/analysis/value_diff.cpp:88-105 | `idx + 3` is `(true, 1, 3, 4)` |
| Scenarios.IndexPlusThreeMinusOneFact | taichi/analysis/value_diff.cpp:88-105 | `idx + 3 - 1` is `(true, 1, 2, 3)` |
| Scenarios.IndexPlusThreeMinusOne | taichi/analysis/value_diff.cpp:162-176 | the entry point answers `(true, 1, 2, 3)` for `idx + 3 - 1` |
| Scenarios.LoadPlusIndexUnrelated | taichi/analysis/value_diff.cpp:88-105 | `load + idx` is unrelated although `idx` is fully known |
| Scenarios.ShuffleSelectsLane | taichi/analysis/value_diff.cpp:64-72 | a shuffle selecting lane 1 of `[7, 9]` is the singleton 9 |
| Scenarios.NonI32ConstantUnrelated | taichi/analysis/value_diff.cpp:74-80 | an i64 constant is unrelated |
| Scenarios.OtherRangeForIndex | taichi/analysis/value_diff.cpp:51-61 | the index of a range-for over `[0, 10)` is `(true, 0, 0, 10)` |
| Scenarios.SameBaseOffsets | taichi/analysis/value_diff.cpp:178-189 | `(p + 4)` against `(p + 12)` is `Certain(-8)`, and so are the constants 4 and 12 |
| Scenarios.ShallowDecomposition | taichi/analysis/value_diff.cpp:136-148 | `(p + 4) + 4` against `p + 8` is uncertain, because only one level is peeled |
| Scenarios.BareBaseUncertain | taichi/analysis/value_diff.cpp:125-127 | a bare opaque base against `base + 4` is uncertain, because the default visit leaves the bare base undecomposed |
| Scenarios.EmptyLoopGraphFact | taichi/analysis/value_diff.cpp:88-105 | `idx + 3` is `(true, 1, 3, 4)` in a graph that also holds an unreached index of an empty range-for |
| Scenarios.UnreachedEmptyLoopIgnored | taichi/analysis/value_diff.cpp:46-62 | in that graph the soundness premise for `idx + 3` holds of a run where `idx` is `x` and `idx + 3` is `x + 3`, although the empty loop's index has no possible value |
| Scenarios.UnreachedEmptyLoopNonEmpty | taichi/analysis/value_diff.cpp:46-62 | the premise of `LoopFactNonEmpty` holds for `idx + 3` in a graph that also holds an unreached empty range-for |
| Scenarios.EmptyRangeIndex | taichi/analysis/value_diff.cpp:51-61 | the index of a range-for over `[5, 5)` is `(true, 0, 5, 5)` |
| Scenarios.EmptyRangeSumInverted | taichi/analysis/value_diff.cpp:88-105 | `j + j` over that empty range is `(true, 0, 10, 9)`: related, with `high` below `low` |

## Left out

- The visitor double dispatch (`accept`, `allow_undefined_visitor`,
  `invoke_default_visitor`) is a `match` on the statement kind.
- The real statement hierarchy, `instance_id` allocation and the type system
  are not modelled. Only "is this lane i32?" and lane counts are kept.
  Statement kinds the analyses treat alike share one constructor (`OtherStmt`).
- `TI_ASSERT` aborts are preconditions; the abort path is not modelled.
- The header that defines `DiffRange` and `DiffPtrResult` is not part of this
  model. The four-argument constructor stores its arguments as given, and
  `DiffRange()` and `{false, 0}` are `(false, 0, 0, 0)`. The
  three-argument constructor `DiffRange(related, coeff, low)` is assumed to
  build the half-open singleton `[low, low + 1)` (`DiffRanges.Singleton`);
  every fact about constants and the tracked index rests on that assumption.
- LoopDiff.LoopFactNonEmpty: a related fact need not have `low <= high`
  outside its premise. A range-for with `begin == end`, which the code
  allows, gives inverted facts such as `(true, 0, 10, 9)` for `j + j`
  (`Scenarios.EmptyRangeSumInverted`), so "`low <= high` whenever related"
  is not an invariant of the code.
- DiffRanges.Plus: does not model 32-bit overflow of the C++ `int` fields,
  because the model's integers are unbounded.
- DiffRanges.Minus: does not model 32-bit overflow either, for the same
  reason.
- BaseOffsetDiff.FindDirectValueBaseAndOffset.VisitBinaryOp: the negation of
  the offset does not wrap at the most negative 32-bit integer.
- Analysis.ValueDiffPtrIndex: the offset difference does not wrap on
  overflow.
- IR.NodeRespects: run-time values are unbounded integers, so
  LoopDiff.LoopFactSound, BaseOffsetDiff.DecomposeSound,
  Analysis.LoopIndexDiffSound and Analysis.PtrDiffSound hold only for runs in
  which no i32 add or sub overflows; with wrap-around, the index at
  2^31 - 2 plus 3 is not described by `(true, 1, 3, 4)`.
- `val_int()` of a range-for bound reads the integer payload of lane 0. The
  conversion of non-integer constants is not modelled.
- LoopDiff.LoopFact: the range-for bounds come from the 64-bit `val_int()`
  and are narrowed into the 32-bit `int` fields of `DiffRange`; the model
  keeps them as unbounded integers and does not model that truncation.
- The `reversed` flag of range-for loops is not modelled. It appears only in
  a comment, and the bounds are the same either way.
- LoopDiff.ValueDiffLoopIndex.Visit: it is proved only for queries whose
  reachable shuffles have one lane, which is what the assertion at
  `value_diff.cpp:66` demands. A shuffle therefore always reads element 0.
- `RangeAssumptionStmt`'s `input` is used only in the run-time meaning (the
  value of the statement is its input); neither analysis reads it.
- The downstream passes that consume the answers are not modelled.
