/** The loop-relative analysis: the fact a value has relative to one index of
    one loop.  `LoopFact` states what the visitor computes for a statement in
    a lane; the class `ValueDiffLoopIndex` is the visitor itself, which stores
    one fact per statement in its `results` map and rebinds its `lane` field
    while it looks through element shuffles. */
module LoopDiff {
  import opened DiffRanges
  import opened IR

  /** Every element shuffle the visitor reaches from `id` has one lane (the
      assertion on shuffles), so the lane it reads is always 0. */
  predicate NarrowShuffles(g: Graph, id: NodeId)
    requires WellFormed(g) && id in g
    decreases id
  {
    assert NodeWellFormed(g, id);
    match g[id]
    case ElementShuffleStmt(elements) =>
      |elements| == 1 && NarrowShuffles(g, elements[0].stmt)
    case RangeAssumptionStmt(_, base, _, _, _) =>
      NarrowShuffles(g, base)
    case BinaryOpStmt(op, lhs, rhs, _) =>
      (op == Add || op == Sub) ==> NarrowShuffles(g, lhs) && NarrowShuffles(g, rhs)
    case _ => true
  }

  /** The fact the visitor records for statement `id` visited in lane `lane`,
      when it tracks index `loopIndex` of loop `loop`. */
  function LoopFact(g: Graph, loop: NodeId, loopIndex: int, id: NodeId, lane: nat): (r: DiffRange)
    requires WellFormed(g) && id in g && lane < Width(g[id]) && NarrowShuffles(g, id)
    decreases id
  {
    assert NodeWellFormed(g, id);
    match g[id]
    case LoopIndexStmt(l, i, _) =>
      if l == loop && i == loopIndex then Singleton(true, 1, 0)
      else if HasConstBounds(g, l) then
        DiffRange(true, 0, ValInt(g, g[l].begin), ValInt(g, g[l].end))
      else Unrelated()
    case ElementShuffleStmt(elements) =>
      LoopFact(g, loop, loopIndex, elements[lane].stmt, elements[lane].index)
    case ConstStmt(val) =>
      if val[lane].dt == I32 then Singleton(true, 0, val[lane].value) else Unrelated()
    case RangeAssumptionStmt(_, base, low, high, _) =>
      Plus(LoopFact(g, loop, loopIndex, base, lane), DiffRange(true, 0, low, high))
    case BinaryOpStmt(op, lhs, rhs, _) =>
      if op == Add || op == Sub then
        var ret1 := LoopFact(g, loop, loopIndex, lhs, lane);
        var ret2 := LoopFact(g, loop, loopIndex, rhs, lane);
        if ret1.related && ret2.related then
          (if op == Add then Plus(ret1, ret2) else Minus(ret1, ret2))
        else Unrelated()
      else Unrelated()
    case _ => Unrelated()
  }

  /** The statements, with their lanes, that the visits starting at `id` in
      `lane` read: the statement itself and the operands `LoopFact` follows. */
  ghost function Cone(g: Graph, id: NodeId, lane: nat): (c: set<(NodeId, nat)>)
    requires WellFormed(g) && id in g
    decreases id
  {
    assert NodeWellFormed(g, id);
    {(id, lane)} +
    match g[id]
    case ElementShuffleStmt(elements) =>
      if lane < |elements| then
        assert elements[lane] in elements;
        Cone(g, elements[lane].stmt, elements[lane].index)
      else {}
    case RangeAssumptionStmt(_, base, _, _, _) =>
      Cone(g, base, lane)
    case BinaryOpStmt(op, lhs, rhs, _) =>
      if op == Add || op == Sub then Cone(g, lhs, lane) + Cone(g, rhs, lane) else {}
    case _ => {}
  }

  /** In one run, in an iteration in which the tracked index has value `x`,
      every statement the visits from `id` read has a value that agrees with
      its meaning.  Statements outside the cone are not constrained. */
  ghost predicate ConeRespects(g: Graph, env: Env, loop: NodeId, loopIndex: int, x: int,
                               id: NodeId, lane: nat)
    requires WellFormed(g) && id in g
  {
    forall k: NodeId, l: nat | (k, l) in Cone(g, id, lane) ::
      k in g && NodeRespects(g, env, k, l) && IndexRespects(g, env, loop, loopIndex, x, k, l)
  }

  /** The analysis is sound: in every iteration in which the tracked index
      has value `x`, a related fact for `id` holds of the value `id` takes. */
  lemma {:induction false} LoopFactSound(g: Graph, loop: NodeId, loopIndex: int,
                                         env: Env, x: int, id: NodeId, lane: nat)
    requires WellFormed(g) && id in g && lane < Width(g[id]) && NarrowShuffles(g, id)
    requires ConeRespects(g, env, loop, loopIndex, x, id, lane)
    ensures Describes(LoopFact(g, loop, loopIndex, id, lane), env(id, lane), x)
    decreases id
  {
    assert NodeWellFormed(g, id);
    assert (id, lane) in Cone(g, id, lane);
    assert NodeRespects(g, env, id, lane);
    assert IndexRespects(g, env, loop, loopIndex, x, id, lane);
    match g[id]
    case ElementShuffleStmt(elements) =>
      LoopFactSound(g, loop, loopIndex, env, x, elements[lane].stmt, elements[lane].index);
    case RangeAssumptionStmt(_, base, low, high, _) =>
      LoopFactSound(g, loop, loopIndex, env, x, base, lane);
      var d := env(id, lane) - env(base, lane);
      PlusSound(LoopFact(g, loop, loopIndex, base, lane), DiffRange(true, 0, low, high),
               env(base, lane), d, x);
    case BinaryOpStmt(op, lhs, rhs, _) =>
      if op == Add || op == Sub {
        LoopFactSound(g, loop, loopIndex, env, x, lhs, lane);
        LoopFactSound(g, loop, loopIndex, env, x, rhs, lane);
        var ret1 := LoopFact(g, loop, loopIndex, lhs, lane);
        var ret2 := LoopFact(g, loop, loopIndex, rhs, lane);
        if op == Add {
          PlusSound(ret1, ret2, env(lhs, lane), env(rhs, lane), x);
        } else {
          MinusSound(ret1, ret2, env(lhs, lane), env(rhs, lane), x);
        }
      }
    case _ =>
  }

  /** Every range-for with constant bounds whose index the visits from `id`
      read runs at least once, and every range assumption they read admits at
      least one offset.  Statements outside the cone are not constrained. */
  ghost predicate ConeNonEmpty(g: Graph, id: NodeId, lane: nat)
    requires WellFormed(g) && id in g
  {
    forall k: NodeId, l: nat | (k, l) in Cone(g, id, lane) ::
      k in g &&
      (g[k].LoopIndexStmt? && HasConstBounds(g, g[k].loop) ==>
         ValInt(g, g[g[k].loop].begin) < ValInt(g, g[g[k].loop].end)) &&
      (g[k].RangeAssumptionStmt? ==> g[k].low < g[k].high)
  }

  /** With non-empty ranges in the cone, a related fact never has an empty
      range: the composition rules keep at least one admitted constant term. */
  lemma {:induction false} LoopFactNonEmpty(g: Graph, loop: NodeId, loopIndex: int,
                                            id: NodeId, lane: nat)
    requires WellFormed(g) && id in g && lane < Width(g[id]) && NarrowShuffles(g, id)
    requires ConeNonEmpty(g, id, lane)
    ensures var r := LoopFact(g, loop, loopIndex, id, lane); r.related ==> r.low < r.high
    decreases id
  {
    assert NodeWellFormed(g, id);
    assert (id, lane) in Cone(g, id, lane);
    match g[id]
    case ElementShuffleStmt(elements) =>
      LoopFactNonEmpty(g, loop, loopIndex, elements[lane].stmt, elements[lane].index);
    case RangeAssumptionStmt(_, base, low, high, _) =>
      LoopFactNonEmpty(g, loop, loopIndex, base, lane);
    case BinaryOpStmt(op, lhs, rhs, _) =>
      if op == Add || op == Sub {
        LoopFactNonEmpty(g, loop, loopIndex, lhs, lane);
        LoopFactNonEmpty(g, loop, loopIndex, rhs, lane);
      }
    case _ =>
  }

  /** An add/sub gets the composition of its operands' facts only when both
      are related; any other operator, or an unrelated operand, is unrelated
      even if the other operand is fully known. */
  lemma LoopFactBinaryOp(g: Graph, loop: NodeId, loopIndex: int, id: NodeId, lane: nat)
    requires WellFormed(g) && id in g && lane < Width(g[id]) && NarrowShuffles(g, id)
    requires g[id].BinaryOpStmt?
    ensures var s := g[id]; var r := LoopFact(g, loop, loopIndex, id, lane);
      NodeWellFormed(g, id) &&
      if (s.opType == Add || s.opType == Sub) &&
         LoopFact(g, loop, loopIndex, s.lhs, lane).related &&
         LoopFact(g, loop, loopIndex, s.rhs, lane).related
      then r.related &&
           r == (if s.opType == Add
                 then Plus(LoopFact(g, loop, loopIndex, s.lhs, lane), LoopFact(g, loop, loopIndex, s.rhs, lane))
                 else Minus(LoopFact(g, loop, loopIndex, s.lhs, lane), LoopFact(g, loop, loopIndex, s.rhs, lane)))
      else r == Unrelated()
  {
    assert NodeWellFormed(g, id);
  }

  /** A range assumption adds `[low, high)` to its base's fact, so it is
      unrelated whenever the base is. */
  lemma LoopFactRangeAssumption(g: Graph, loop: NodeId, loopIndex: int, id: NodeId, lane: nat)
    requires WellFormed(g) && id in g && lane < Width(g[id]) && NarrowShuffles(g, id)
    requires g[id].RangeAssumptionStmt?
    ensures var s := g[id]; var r := LoopFact(g, loop, loopIndex, id, lane);
      NodeWellFormed(g, id) &&
      var b := LoopFact(g, loop, loopIndex, s.base, lane);
      r.related == b.related && r.coeff == b.coeff &&
      r.low == b.low + s.low && r.high == b.high + s.high - 1
  {
    assert NodeWellFormed(g, id);
  }

  /** The three cases of a loop index: the tracked index itself, an index of
      a range-for with constant bounds, anything else. */
  lemma LoopFactLoopIndex(g: Graph, loop: NodeId, loopIndex: int, id: NodeId, lane: nat)
    requires WellFormed(g) && id in g && lane < Width(g[id]) && NarrowShuffles(g, id)
    requires g[id].LoopIndexStmt?
    ensures var s := g[id]; var r := LoopFact(g, loop, loopIndex, id, lane);
      if s.loop == loop && s.index == loopIndex then r == DiffRange(true, 1, 0, 1)
      else if HasConstBounds(g, s.loop) then
        r == DiffRange(true, 0, ValInt(g, g[s.loop].begin), ValInt(g, g[s.loop].end))
      else !r.related
  {
  }

  /** An i32 constant is the singleton of its value in the current lane;
      a constant of any other type, a global load and every statement kind
      the visitor does not handle are unrelated. */
  lemma LoopFactLeaves(g: Graph, loop: NodeId, loopIndex: int, id: NodeId, lane: nat)
    requires WellFormed(g) && id in g && lane < Width(g[id]) && NarrowShuffles(g, id)
    requires !g[id].LoopIndexStmt? && !g[id].ElementShuffleStmt? &&
             !g[id].RangeAssumptionStmt? && !g[id].BinaryOpStmt?
    ensures var r := LoopFact(g, loop, loopIndex, id, lane);
      if g[id].ConstStmt? && g[id].val[lane].dt == I32
      then r == DiffRange(true, 0, g[id].val[lane].value, g[id].val[lane].value + 1)
      else !r.related
  {
  }

  /** A shuffle has the fact of the element it selects, in that element's lane. */
  lemma LoopFactShuffle(g: Graph, loop: NodeId, loopIndex: int, id: NodeId, lane: nat)
    requires WellFormed(g) && id in g && lane < Width(g[id]) && NarrowShuffles(g, id)
    requires g[id].ElementShuffleStmt?
    ensures var e := g[id].elements[lane];
      NodeWellFormed(g, id) && e.stmt in g && e.index < Width(g[e.stmt]) &&
      NarrowShuffles(g, e.stmt) &&
      LoopFact(g, loop, loopIndex, id, lane) == LoopFact(g, loop, loopIndex, e.stmt, e.index)
  {
    assert NodeWellFormed(g, id);
  }

  /** The visitor `ValueDiffLoopIndex`. */
  class ValueDiffLoopIndex {
    var lane: nat
    const inputStmt: NodeId
    const loop: NodeId
    const loopIndex: int
    var results: map<NodeId, DiffRange>
    /** The IR the visitor reads. */
    const g: Graph

    constructor (g: Graph, stmt: NodeId, lane: nat, loop: NodeId, loopIndex: int)
      ensures this.g == g && inputStmt == stmt && this.lane == lane
      ensures this.loop == loop && this.loopIndex == loopIndex && results == map[]
    {
      this.g := g;
      this.lane := lane;
      inputStmt := stmt;
      this.loop := loop;
      this.loopIndex := loopIndex;
      results := map[];
    }

    /** Entry `v` for statement `k`, written by a visit of a statement with
        `w` lanes in lane `lane`: a statement with `w` lanes gets its fact in
        `lane`, and when `w > 1` no statement with another lane count is
        written at all. */
    ghost predicate EntryAgrees(k: NodeId, v: DiffRange, w: nat, lane: nat)
      requires WellFormed(g) && lane < w
    {
      k in g &&
      (w > 1 ==> Width(g[k]) == w) &&
      (Width(g[k]) == w ==> NarrowShuffles(g, k) && v == LoopFact(g, loop, loopIndex, k, lane))
    }

    /** Every entry that changed from `before` to `after` agrees.  An entry
        of a statement with `w` lanes may thus only be rewritten with its own
        `LoopFact` in `lane`; entries of statements with another lane count
        are not constrained when `w == 1`. */
    ghost predicate WritesAgree(before: map<NodeId, DiffRange>, after: map<NodeId, DiffRange>,
                                w: nat, lane: nat)
      requires WellFormed(g) && lane < w
    {
      forall k | k in after && (k in before ==> after[k] != before[k]) ::
        EntryAgrees(k, after[k], w, lane)
    }

    /** `visit(Stmt *)` and `visit(GlobalLoadStmt *)`. */
    method VisitDefault(id: NodeId)
      modifies this
      ensures lane == old(lane)
      ensures results == old(results)[id := Unrelated()]
    {
      results := results[id := Unrelated()];
    }

    /** `visit(LoopIndexStmt *)`. */
    method VisitLoopIndex(id: NodeId)
      requires WellFormed(g) && id in g && g[id].LoopIndexStmt?
      modifies this
      ensures lane == old(lane)
      ensures var s := g[id];
        results == old(results)[id :=
          if s.loop == loop && s.index == loopIndex then Singleton(true, 1, 0)
          else if HasConstBounds(g, s.loop) then
            DiffRange(true, 0, ValInt(g, g[s.loop].begin), ValInt(g, g[s.loop].end))
          else Unrelated()]
    {
      var s := g[id];
      results := results[id := Unrelated()];
      if s.loop == loop && s.index == loopIndex {
        results := results[id := Singleton(true, 1, 0)];
      } else if s.loop in g && g[s.loop].RangeForStmt? {
        var rangeFor := g[s.loop];
        if IsConst(g, rangeFor.begin) && IsConst(g, rangeFor.end) {
          var beginVal := ValInt(g, rangeFor.begin);
          var endVal := ValInt(g, rangeFor.end);
          results := results[id := DiffRange(true, 0, beginVal, endVal)];
        }
      }
    }

    /** `visit(ConstStmt *)`. */
    method VisitConst(id: NodeId)
      requires WellFormed(g) && id in g && g[id].ConstStmt? && lane < Width(g[id])
      modifies this
      ensures lane == old(lane)
      ensures var c := g[id].val[lane];
        results == old(results)[id := if c.dt == I32 then Singleton(true, 0, c.value) else Unrelated()]
    {
      var c := g[id].val[lane];
      if c.dt == I32 {
        results := results[id := Singleton(true, 0, c.value)];
      } else {
        results := results[id := Unrelated()];
      }
    }

    /** `visit(ElementShuffleStmt *)`: visits the selected element in its own
        lane, records its fact, and restores the caller's lane. */
    method VisitElementShuffle(id: NodeId)
      requires WellFormed(g) && id in g && g[id].ElementShuffleStmt?
      requires lane < Width(g[id]) && NarrowShuffles(g, id)
      modifies this
      decreases id, 0
      ensures lane == old(lane)
      ensures old(results).Keys <= results.Keys
      ensures id in results && results[id] == LoopFact(g, loop, loopIndex, id, old(lane))
      ensures WritesAgree(old(results), results, Width(g[id]), old(lane))
    {
      assert NodeWellFormed(g, id);
      var elements := g[id].elements;
      var oldLane := lane;
      assert elements[lane] in elements;
      var src := elements[lane].stmt;
      lane := elements[lane].index;
      ghost var s0 := results;
      Visit(src);
      ghost var s1 := results;
      results := results[id := results[src]];
      lane := oldLane;
      LoopFactShuffle(g, loop, loopIndex, id, lane);
      ShuffleWritesAgree(s0, s1, results, id, Width(g[src]), elements[0].index);
    }

    /** A visit of the selected element in its own lane, followed by the write
        of the one-lane shuffle `id` itself, keeps `WritesAgree` in lane 0. */
    lemma ShuffleWritesAgree(s0: map<NodeId, DiffRange>, s1: map<NodeId, DiffRange>,
                             s2: map<NodeId, DiffRange>, id: NodeId, w: nat, srcLane: nat)
      requires WellFormed(g) && srcLane < w
      requires s0.Keys <= s1.Keys && WritesAgree(s0, s1, w, srcLane)
      requires id in s2 && EntryAgrees(id, s2[id], 1, 0)
      requires s2 == s1[id := s2[id]]
      ensures WritesAgree(s0, s2, 1, 0)
    {
      forall k | k in s2 && (k in s0 ==> s2[k] != s0[k])
        ensures EntryAgrees(k, s2[k], 1, 0)
      {
        if k != id {
          assert EntryAgrees(k, s1[k], w, srcLane);
        }
      }
    }

    /** `visit(RangeAssumptionStmt *)`. */
    method VisitRangeAssumption(id: NodeId)
      requires WellFormed(g) && id in g && g[id].RangeAssumptionStmt?
      requires lane < Width(g[id]) && NarrowShuffles(g, id)
      modifies this
      decreases id, 0
      ensures lane == old(lane)
      ensures old(results).Keys <= results.Keys
      ensures id in results && results[id] == LoopFact(g, loop, loopIndex, id, old(lane))
      ensures WritesAgree(old(results), results, Width(g[id]), old(lane))
    {
      assert NodeWellFormed(g, id);
      var s := g[id];
      Visit(s.base);
      results := results[id := Plus(results[s.base], DiffRange(true, 0, s.low, s.high))];
    }

    /** `visit(BinaryOpStmt *)`: an add/sub visits both operands and composes
        their recorded facts when both are related. */
    method VisitBinaryOp(id: NodeId)
      requires WellFormed(g) && id in g && g[id].BinaryOpStmt?
      requires lane < Width(g[id]) && NarrowShuffles(g, id)
      modifies this
      decreases id, 0
      ensures lane == old(lane)
      ensures old(results).Keys <= results.Keys
      ensures id in results && results[id] == LoopFact(g, loop, loopIndex, id, old(lane))
      ensures WritesAgree(old(results), results, Width(g[id]), old(lane))
    {
      assert NodeWellFormed(g, id);
      var s := g[id];
      if s.opType == Add || s.opType == Sub {
        ghost var s0 := results;
        Visit(s.lhs);
        ghost var s1 := results;
        Visit(s.rhs);
        ghost var s2 := results;
        var ret1 := results[s.lhs];
        var ret2 := results[s.rhs];
        // The right operand's visit rewrote the left operand's entry, if at
        // all, with the same fact: both operands have as many lanes.
        assert ret1 == LoopFact(g, loop, loopIndex, s.lhs, lane);
        if ret1.related && ret2.related {
          if s.opType == Add {
            results := results[id := Plus(ret1, ret2)];
          } else {
            results := results[id := Minus(ret1, ret2)];
          }
          ChainedWritesAgree(s0, s1, s2, results, id, Width(g[id]), lane);
          return;
        }
        results := results[id := Unrelated()];
        ChainedWritesAgree(s0, s1, s2, results, id, Width(g[id]), lane);
        return;
      }
      results := results[id := Unrelated()];
    }

    /** Two operand visits followed by the write of `id` itself keep
        `WritesAgree`. */
    lemma ChainedWritesAgree(s0: map<NodeId, DiffRange>, s1: map<NodeId, DiffRange>,
                             s2: map<NodeId, DiffRange>, s3: map<NodeId, DiffRange>,
                             id: NodeId, w: nat, lane: nat)
      requires WellFormed(g) && lane < w
      requires s0.Keys <= s1.Keys <= s2.Keys
      requires WritesAgree(s0, s1, w, lane) && WritesAgree(s1, s2, w, lane)
      requires id in s3 && EntryAgrees(id, s3[id], w, lane)
      requires s3 == s2[id := s3[id]]
      ensures WritesAgree(s0, s3, w, lane)
    {
      forall k | k in s3 && (k in s0 ==> s3[k] != s0[k])
        ensures EntryAgrees(k, s3[k], w, lane)
      {
        if k != id {
          assert s3[k] == s2[k];
          if k in s1 && s2[k] == s1[k] {
            assert EntryAgrees(k, s1[k], w, lane);
          } else {
            assert EntryAgrees(k, s2[k], w, lane);
          }
        }
      }
    }

    /** `accept`: the dispatch on the statement kind. */
    method Visit(id: NodeId)
      requires WellFormed(g) && id in g && lane < Width(g[id]) && NarrowShuffles(g, id)
      modifies this
      decreases id, 1
      ensures lane == old(lane)
      ensures old(results).Keys <= results.Keys
      ensures id in results && results[id] == LoopFact(g, loop, loopIndex, id, old(lane))
      ensures WritesAgree(old(results), results, Width(g[id]), old(lane))
    {
      match g[id]
      case LoopIndexStmt(_, _, _) => VisitLoopIndex(id);
      case ElementShuffleStmt(_) => VisitElementShuffle(id);
      case ConstStmt(_) => VisitConst(id);
      case RangeAssumptionStmt(_, _, _, _, _) => VisitRangeAssumption(id);
      case BinaryOpStmt(_, _, _, _) => VisitBinaryOp(id);
      case _ => VisitDefault(id);
    }

    /** `run()`: visit the input statement and return its fact. */
    method Run() returns (r: DiffRange)
      requires WellFormed(g) && inputStmt in g && lane < Width(g[inputStmt])
      requires NarrowShuffles(g, inputStmt)
      modifies this
      ensures lane == old(lane)
      ensures r == LoopFact(g, loop, loopIndex, inputStmt, old(lane))
    {
      Visit(inputStmt);
      r := results[inputStmt];
    }
  }
}
