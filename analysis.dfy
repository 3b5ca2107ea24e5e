/** The two entry points, `value_diff_loop_index` and `value_diff_ptr_index`,
    the functions that specify them, and what is proved about them. */
module Analysis {
  import opened DiffRanges
  import opened IR
  import LoopDiff
  import opened BaseOffsetDiff

  /** `DiffPtrResult`: the difference of two values is a known constant, or
      unknown. */
  datatype DiffPtrResult = Certain(diff: int) | Uncertain

  /** The loops the loop-index analysis accepts: a struct-for, or an
      offloaded task of type struct-for. */
  predicate IsStructForLoop(g: Graph, loop: NodeId)
  {
    loop in g &&
    (g[loop].StructForStmt? || (g[loop].OffloadedStmt? && g[loop].taskType == StructFor))
  }

  /** `stmt` is the tracked index itself. */
  predicate IsTrackedIndex(g: Graph, stmt: NodeId, loop: NodeId, indexId: int)
  {
    stmt in g && g[stmt].LoopIndexStmt? && g[stmt].loop == loop && g[stmt].index == indexId
  }

  /** What the loop-index analysis may be asked: the loop kind checks, and,
      off the fast path, a one-lane statement whose shuffles are one lane. */
  predicate LoopQueryReady(g: Graph, stmt: NodeId, loop: NodeId, indexId: int)
  {
    WellFormed(g) && stmt in g && IsStructForLoop(g, loop) &&
    (!IsTrackedIndex(g, stmt, loop, indexId) ==> Width(g[stmt]) == 1 && LoopDiff.NarrowShuffles(g, stmt))
  }

  /** The fact `value_diff_loop_index` returns. */
  function LoopIndexDiff(g: Graph, stmt: NodeId, loop: NodeId, indexId: int): (r: DiffRange)
    requires LoopQueryReady(g, stmt, loop, indexId)
  {
    if IsTrackedIndex(g, stmt, loop, indexId) then Singleton(true, 1, 0)
    else LoopDiff.LoopFact(g, loop, indexId, stmt, 0)
  }

  /** `value_diff_loop_index`. */
  method ValueDiffLoopIndex(g: Graph, stmt: NodeId, loop: NodeId, indexId: int)
    returns (r: DiffRange)
    requires LoopQueryReady(g, stmt, loop, indexId)
    ensures r == LoopIndexDiff(g, stmt, loop, indexId)
  {
    if g[stmt].LoopIndexStmt? {
      if g[stmt].loop == loop && g[stmt].index == indexId {
        return Singleton(true, 1, 0);
      }
    }
    var diff := new LoopDiff.ValueDiffLoopIndex(g, stmt, 0, loop, indexId);
    r := diff.Run();
  }

  /** The fast path only saves work: whether or not it is taken, the answer
      is the fact the visitor finds for `stmt` in lane 0. */
  lemma FastPathAgrees(g: Graph, stmt: NodeId, loop: NodeId, indexId: int)
    requires LoopQueryReady(g, stmt, loop, indexId)
    ensures Width(g[stmt]) >= 1 && LoopDiff.NarrowShuffles(g, stmt)
    ensures LoopIndexDiff(g, stmt, loop, indexId) == LoopDiff.LoopFact(g, loop, indexId, stmt, 0)
    ensures IsTrackedIndex(g, stmt, loop, indexId) ==>
              LoopIndexDiff(g, stmt, loop, indexId) == DiffRange(true, 1, 0, 1)
  {
    assert NodeWellFormed(g, stmt);
  }

  /** `value_diff_loop_index` is sound: in every iteration where the tracked
      index is `x`, its related answer holds of the value of `stmt`. */
  lemma LoopIndexDiffSound(g: Graph, stmt: NodeId, loop: NodeId, indexId: int, env: Env, x: int)
    requires LoopQueryReady(g, stmt, loop, indexId)
    requires LoopDiff.ConeRespects(g, env, loop, indexId, x, stmt, 0)
    ensures Describes(LoopIndexDiff(g, stmt, loop, indexId), env(stmt, 0), x)
  {
    assert NodeWellFormed(g, stmt);
    FastPathAgrees(g, stmt, loop, indexId);
    LoopDiff.LoopFactSound(g, loop, indexId, env, x, stmt, 0);
  }

  /** What `value_diff_ptr_index` may be asked: unless the two statements are
      the same, every constant the visitor reads has one lane. */
  predicate PtrQueryReady(g: Graph, val1: NodeId, val2: NodeId)
  {
    WellFormed(g) && val1 in g && val2 in g &&
    (val1 != val2 ==> DecomposeReady(g, val1) && DecomposeReady(g, val2))
  }

  /** The answer `value_diff_ptr_index` gives. */
  function PtrDiff(g: Graph, val1: NodeId, val2: NodeId): (r: DiffPtrResult)
    requires PtrQueryReady(g, val1, val2)
  {
    if val1 == val2 then Certain(0)
    else
      var v1 := Decompose(g, val1);
      var v2 := Decompose(g, val2);
      if !v1.found || !v2.found || v1.base != v2.base then Uncertain
      else Certain(v1.offset - v2.offset)
  }

  /** `value_diff_ptr_index`. */
  method ValueDiffPtrIndex(g: Graph, val1: NodeId, val2: NodeId) returns (r: DiffPtrResult)
    requires PtrQueryReady(g, val1, val2)
    ensures r == PtrDiff(g, val1, val2)
  {
    if val1 == val2 {
      return Certain(0);
    }
    var v1 := FindDirectValueBaseAndOffset.Run(g, val1);
    var v2 := FindDirectValueBaseAndOffset.Run(g, val2);
    if !v1.found || !v2.found || v1.base != v2.base {
      return Uncertain;
    }
    return Certain(v1.offset - v2.offset);
  }

  /** `value_diff_ptr_index` is sound: a certain difference is the difference
      of the two values in lane 0. */
  lemma PtrDiffSound(g: Graph, val1: NodeId, val2: NodeId, env: Env)
    requires PtrQueryReady(g, val1, val2)
    requires val1 != val2 ==> DecomposeRespects(g, env, val1) && DecomposeRespects(g, env, val2)
    ensures PtrDiff(g, val1, val2).Certain? ==>
              env(val1, 0) - env(val2, 0) == PtrDiff(g, val1, val2).diff
  {
    if val1 != val2 {
      DecomposeSound(g, env, val1);
      DecomposeSound(g, env, val2);
    }
  }

  /** The difference is certain exactly when the statements are the same, or
      both decompose over the same base (both null for two constants). */
  lemma PtrDiffCertainIff(g: Graph, val1: NodeId, val2: NodeId)
    requires PtrQueryReady(g, val1, val2)
    ensures PtrDiff(g, val1, val2).Certain? <==>
      val1 == val2 ||
      (Decompose(g, val1).found && Decompose(g, val2).found &&
       Decompose(g, val1).base == Decompose(g, val2).base)
    ensures val1 == val2 ==> PtrDiff(g, val1, val2) == Certain(0)
  {
  }

  /** Swapping the arguments negates a certain difference. */
  lemma PtrDiffAntisymmetric(g: Graph, val1: NodeId, val2: NodeId)
    requires PtrQueryReady(g, val1, val2)
    ensures PtrQueryReady(g, val2, val1)
    ensures match PtrDiff(g, val1, val2)
            case Certain(d) => PtrDiff(g, val2, val1) == Certain(-d)
            case Uncertain => PtrDiff(g, val2, val1) == Uncertain
  {
  }
}
