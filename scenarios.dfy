/** Small concrete IR graphs and the answers the two entry points give on
    them. */
module Scenarios {
  import opened DiffRanges
  import opened IR
  import LoopDiff
  import opened BaseOffsetDiff
  import opened Analysis

  function I32Const(c: int): Stmt
  {
    ConstStmt([TypedConstant(I32, c)])
  }

  /** A struct-for (0) with index `idx` (1), `idx + 3` (3) and `idx + 3 - 1`
      (5). */
  function IndexGraph(): Graph
  {
    map[0 := StructForStmt,
        1 := LoopIndexStmt(0, 0, 1),
        2 := I32Const(3),
        3 := BinaryOpStmt(Add, 1, 2, 1),
        4 := I32Const(1),
        5 := BinaryOpStmt(Sub, 3, 4, 1)]
  }

  lemma IndexGraphWellFormed()
    ensures WellFormed(IndexGraph())
  {
    var g := IndexGraph();
    forall id | id in g ensures NodeWellFormed(g, id) {
      assert 0 <= id <= 5;
    }
  }

  /** A struct-for (0) with index `idx` (1); a global load (2) and
      `load + idx` (3); the constant lanes `[7, 9]` (4), a shuffle selecting
      lane 1 of them (5), and an i64 constant (6). */
  function LoopGraph(): Graph
  {
    map[0 := StructForStmt,
        1 := LoopIndexStmt(0, 0, 1),
        2 := GlobalLoadStmt(0, 1),
        3 := BinaryOpStmt(Add, 2, 1, 1),
        4 := ConstStmt([TypedConstant(I32, 7), TypedConstant(I32, 9)]),
        5 := ElementShuffleStmt([VectorElement(4, 1)]),
        6 := ConstStmt([TypedConstant(I64, 5)])]
  }

  lemma LoopGraphWellFormed()
    ensures WellFormed(LoopGraph())
  {
    var g := LoopGraph();
    forall id | id in g ensures NodeWellFormed(g, id) {
      assert 0 <= id <= 6;
    }
  }

  /** `idx + 3` is related to `idx` with coefficient 1 and constant term 3. */
  lemma IndexPlusThree()
    ensures WellFormed(IndexGraph()) && LoopDiff.NarrowShuffles(IndexGraph(), 3)
    ensures LoopDiff.LoopFact(IndexGraph(), 0, 0, 3, 0) == DiffRange(true, 1, 3, 4)
  {
    IndexGraphWellFormed();
    var g := IndexGraph();
    assert LoopDiff.LoopFact(g, 0, 0, 1, 0) == DiffRange(true, 1, 0, 1);
    assert LoopDiff.LoopFact(g, 0, 0, 2, 0) == DiffRange(true, 0, 3, 4);
  }

  /** `idx + 3 - 1` is related to `idx` with coefficient 1 and constant term 2. */
  lemma IndexPlusThreeMinusOneFact()
    ensures WellFormed(IndexGraph()) && LoopDiff.NarrowShuffles(IndexGraph(), 5)
    ensures LoopDiff.LoopFact(IndexGraph(), 0, 0, 5, 0) == DiffRange(true, 1, 2, 3)
  {
    IndexPlusThree();
    var g := IndexGraph();
    assert g[4] == I32Const(1) && g[5] == BinaryOpStmt(Sub, 3, 4, 1);
    var ret1 := LoopDiff.LoopFact(g, 0, 0, 3, 0);
    var ret2 := LoopDiff.LoopFact(g, 0, 0, 4, 0);
    assert ret2 == DiffRange(true, 0, 1, 2);
    assert LoopDiff.LoopFact(g, 0, 0, 5, 0) == Minus(ret1, ret2);
  }

  /** The entry point gives the same fact for `idx + 3 - 1`. */
  lemma IndexPlusThreeMinusOne()
    ensures LoopQueryReady(IndexGraph(), 5, 0, 0)
    ensures LoopIndexDiff(IndexGraph(), 5, 0, 0) == DiffRange(true, 1, 2, 3)
  {
    IndexPlusThreeMinusOneFact();
    assert !IsTrackedIndex(IndexGraph(), 5, 0, 0);
  }

  /** `load + idx` is unrelated although `idx` is fully known. */
  lemma LoadPlusIndexUnrelated()
    ensures LoopQueryReady(LoopGraph(), 3, 0, 0)
    ensures !LoopIndexDiff(LoopGraph(), 3, 0, 0).related
  {
    LoopGraphWellFormed();
    var g := LoopGraph();
    assert !LoopDiff.LoopFact(g, 0, 0, 2, 0).related;
    assert LoopDiff.NarrowShuffles(g, 3);
  }

  /** A shuffle selecting lane 1 of `[7, 9]` is the constant 9. */
  lemma ShuffleSelectsLane()
    ensures LoopQueryReady(LoopGraph(), 5, 0, 0)
    ensures LoopIndexDiff(LoopGraph(), 5, 0, 0) == DiffRange(true, 0, 9, 10)
  {
    LoopGraphWellFormed();
  }

  /** An i64 constant is unrelated. */
  lemma NonI32ConstantUnrelated()
    ensures LoopQueryReady(LoopGraph(), 6, 0, 0)
    ensures !LoopIndexDiff(LoopGraph(), 6, 0, 0).related
  {
    LoopGraphWellFormed();
  }

  /** A struct-for (0) and a range-for over `[0, 10)` (3) with its index (4). */
  function RangeGraph(): Graph
  {
    map[0 := StructForStmt,
        1 := I32Const(0),
        2 := I32Const(10),
        3 := RangeForStmt(1, 2),
        4 := LoopIndexStmt(3, 0, 1)]
  }

  /** The index of a different range-for with constant bounds is a constant
      somewhere in `[0, 10)`. */
  lemma OtherRangeForIndex()
    ensures LoopQueryReady(RangeGraph(), 4, 0, 0)
    ensures LoopIndexDiff(RangeGraph(), 4, 0, 0) == DiffRange(true, 0, 0, 10)
  {
    var g := RangeGraph();
    forall id | id in g ensures NodeWellFormed(g, id) {
      assert 0 <= id <= 4;
    }
  }

  /** An opaque `base_ptr` (0), `base_ptr + 4` (2), `base_ptr + 12` (4),
      `(base_ptr + 4) + 4` (5) and `base_ptr + 8` (7). */
  function PtrGraph(): Graph
  {
    map[0 := OtherStmt(1),
        1 := I32Const(4),
        2 := BinaryOpStmt(Add, 0, 1, 1),
        3 := I32Const(12),
        4 := BinaryOpStmt(Add, 0, 3, 1),
        5 := BinaryOpStmt(Add, 2, 1, 1),
        6 := I32Const(8),
        7 := BinaryOpStmt(Add, 0, 6, 1)]
  }

  lemma PtrGraphWellFormed()
    ensures WellFormed(PtrGraph())
  {
    var g := PtrGraph();
    forall id | id in g ensures NodeWellFormed(g, id) {
      assert 0 <= id <= 7;
    }
  }

  /** `(base_ptr + 4) - (base_ptr + 12)` is certainly -8, and the constants
      4 and 12 differ by -8 as well. */
  lemma SameBaseOffsets()
    ensures PtrQueryReady(PtrGraph(), 2, 4) && PtrDiff(PtrGraph(), 2, 4) == Certain(-8)
    ensures PtrQueryReady(PtrGraph(), 1, 3) && PtrDiff(PtrGraph(), 1, 3) == Certain(-8)
  {
    PtrGraphWellFormed();
  }

  /** Only one level is peeled: `(base_ptr + 4) + 4` has base `base_ptr + 4`,
      so against `base_ptr + 8` the difference is uncertain. */
  lemma ShallowDecomposition()
    ensures PtrQueryReady(PtrGraph(), 5, 7) && PtrDiff(PtrGraph(), 5, 7) == Uncertain
  {
    PtrGraphWellFormed();
  }

  /** A bare opaque `base_ptr` does not decompose at all (the default visit
      resets the result), so against `base_ptr + 4` the difference is
      uncertain rather than -4. */
  lemma BareBaseUncertain()
    ensures PtrQueryReady(PtrGraph(), 0, 2) && PtrDiff(PtrGraph(), 0, 2) == Uncertain
  {
    PtrGraphWellFormed();
  }

  /** A struct-for (0) with index `idx` (1) and `idx + 3` (3), and a
      range-for over the empty range `[5, 5)` (5) with its index (6), which
      statement 3 never reaches. */
  function EmptyLoopGraph(): Graph
  {
    map[0 := StructForStmt,
        1 := LoopIndexStmt(0, 0, 1),
        2 := I32Const(3),
        3 := BinaryOpStmt(Add, 1, 2, 1),
        4 := I32Const(5),
        5 := RangeForStmt(4, 4),
        6 := LoopIndexStmt(5, 0, 1)]
  }

  /** The statements the visits from `idx + 3` read. */
  lemma EmptyLoopGraphCone()
    ensures WellFormed(EmptyLoopGraph())
    ensures LoopDiff.Cone(EmptyLoopGraph(), 3, 0) == {(3, 0), (1, 0), (2, 0)}
  {
    var g := EmptyLoopGraph();
    forall id | id in g ensures NodeWellFormed(g, id) {
      assert 0 <= id <= 6;
    }
    assert LoopDiff.Cone(g, 1, 0) == {(1, 0)};
    assert LoopDiff.Cone(g, 2, 0) == {(2, 0)};
  }

  /** `idx + 3` is `(true, 1, 3, 4)` in this graph too. */
  lemma EmptyLoopGraphFact()
    ensures WellFormed(EmptyLoopGraph()) && LoopDiff.NarrowShuffles(EmptyLoopGraph(), 3)
    ensures LoopDiff.LoopFact(EmptyLoopGraph(), 0, 0, 3, 0) == DiffRange(true, 1, 3, 4)
  {
    EmptyLoopGraphCone();
    var g := EmptyLoopGraph();
    assert g[3] == BinaryOpStmt(Add, 1, 2, 1);
    assert LoopDiff.LoopFact(g, 0, 0, 1, 0) == DiffRange(true, 1, 0, 1);
    assert LoopDiff.LoopFact(g, 0, 0, 2, 0) == DiffRange(true, 0, 3, 4);
  }

  /** The values of `idx`, `3` and `idx + 3` in an iteration where the index
      is `x`; every other statement reads 0. */
  function EmptyLoopEnv(x: int): Env
  {
    (k: NodeId, l: nat) => if k == 1 then x else if k == 2 then 3 else if k == 3 then x + 3 else 0
  }

  /** A loop no iteration can reach elsewhere in the graph does not stop the
      soundness lemma from speaking about `idx + 3`: the premise holds of
      the run `EmptyLoopEnv(x)`, whose value for `idx + 3` is `x + 3`. */
  lemma UnreachedEmptyLoopIgnored(x: int)
    ensures WellFormed(EmptyLoopGraph())
    ensures LoopDiff.ConeRespects(EmptyLoopGraph(), EmptyLoopEnv(x), 0, 0, x, 3, 0)
  {
    EmptyLoopGraphCone();
    var g := EmptyLoopGraph();
    var env := EmptyLoopEnv(x);
    forall k: NodeId, l: nat | (k, l) in LoopDiff.Cone(g, 3, 0)
      ensures k in g && NodeRespects(g, env, k, l) && IndexRespects(g, env, 0, 0, x, k, l)
    {
      assert (k, l) == (3, 0) || (k, l) == (1, 0) || (k, l) == (2, 0);
    }
  }

  /** The unreached empty loop does not stop `LoopFactNonEmpty` either: its
      premise holds for `idx + 3`. */
  lemma UnreachedEmptyLoopNonEmpty()
    ensures WellFormed(EmptyLoopGraph()) && LoopDiff.ConeNonEmpty(EmptyLoopGraph(), 3, 0)
  {
    EmptyLoopGraphCone();
    var g := EmptyLoopGraph();
    forall k: NodeId, l: nat | (k, l) in LoopDiff.Cone(g, 3, 0)
      ensures k in g &&
        (g[k].LoopIndexStmt? && HasConstBounds(g, g[k].loop) ==>
           ValInt(g, g[g[k].loop].begin) < ValInt(g, g[g[k].loop].end)) &&
        (g[k].RangeAssumptionStmt? ==> g[k].low < g[k].high)
    {
      assert (k, l) == (3, 0) || (k, l) == (1, 0) || (k, l) == (2, 0);
    }
  }

  /** A struct-for (0), a range-for over the empty range `[5, 5)` (2), its
      index `j` (3) and `j + j` (4). */
  function EmptyRangeGraph(): Graph
  {
    map[0 := StructForStmt,
        1 := I32Const(5),
        2 := RangeForStmt(1, 1),
        3 := LoopIndexStmt(2, 0, 1),
        4 := BinaryOpStmt(Add, 3, 3, 1)]
  }

  lemma EmptyRangeGraphWellFormed()
    ensures WellFormed(EmptyRangeGraph())
  {
    var g := EmptyRangeGraph();
    forall id | id in g ensures NodeWellFormed(g, id) {
      assert 0 <= id <= 4;
    }
  }

  /** The index `j` of the empty range-for is `(true, 0, 5, 5)`. */
  lemma EmptyRangeIndex()
    ensures WellFormed(EmptyRangeGraph()) && LoopDiff.NarrowShuffles(EmptyRangeGraph(), 3)
    ensures LoopDiff.LoopFact(EmptyRangeGraph(), 0, 0, 3, 0) == DiffRange(true, 0, 5, 5)
  {
    EmptyRangeGraphWellFormed();
    var g := EmptyRangeGraph();
    assert g[3] == LoopIndexStmt(2, 0, 1) && g[2] == RangeForStmt(1, 1);
    assert HasConstBounds(g, 2) && ValInt(g, 1) == 5;
  }

  /** Outside the premise of `LoopFactNonEmpty` a related fact can be
      inverted: `j + j` over the empty range `[5, 5)` is `(true, 0, 10, 9)`,
      whose `high` is below its `low`. */
  lemma EmptyRangeSumInverted()
    ensures WellFormed(EmptyRangeGraph()) && LoopDiff.NarrowShuffles(EmptyRangeGraph(), 4)
    ensures var r := LoopDiff.LoopFact(EmptyRangeGraph(), 0, 0, 4, 0);
      r == DiffRange(true, 0, 10, 9) && r.related && r.high < r.low
  {
    EmptyRangeIndex();
    var g := EmptyRangeGraph();
    assert g[4] == BinaryOpStmt(Add, 3, 3, 1);
    var j := LoopDiff.LoopFact(g, 0, 0, 3, 0);
    assert LoopDiff.LoopFact(g, 0, 0, 4, 0) == Plus(j, j);
  }
}
