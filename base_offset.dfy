/** The base-plus-offset decomposition: a value is either an i32 constant, or
    one add/sub of an opaque base and an i32 constant.  `Decompose` states
    what one run of the visitor returns; the class
    `FindDirectValueBaseAndOffset` is the visitor, which overwrites its
    `result` triple as it goes. */
module BaseOffsetDiff {
  import opened IR

  /** `(found, base, offset)`; a `None` base is the null pointer. */
  datatype BaseOffset = BaseOffset(found: bool, base: Option<NodeId>, offset: int)

  function NotFound(): BaseOffset
  {
    BaseOffset(false, None, 0)
  }

  /** Every constant the visitor reads (the statement itself, or the
      right-hand side of a binary operation) has one lane. */
  predicate DecomposeReady(g: Graph, v: NodeId)
    requires WellFormed(g) && v in g
  {
    assert NodeWellFormed(g, v);
    match g[v]
    case ConstStmt(val) => |val| == 1
    case BinaryOpStmt(_, _, rhs, _) => IsConst(g, rhs) ==> |g[rhs].val| == 1
    case _ => true
  }

  /** The decomposition one run of the visitor finds for `v`. */
  function Decompose(g: Graph, v: NodeId): (r: BaseOffset)
    requires WellFormed(g) && v in g && DecomposeReady(g, v)
  {
    assert NodeWellFormed(g, v);
    match g[v]
    case ConstStmt(val) =>
      if val[0].dt == I32 then BaseOffset(true, None, val[0].value) else NotFound()
    case BinaryOpStmt(op, lhs, rhs, _) =>
      if (op == Add || op == Sub) && IsConst(g, rhs) && g[rhs].val[0].dt == I32 then
        var c := g[rhs].val[0].value;
        BaseOffset(true, Some(lhs), if op == Sub then -c else c)
      else NotFound()
    case _ => NotFound()
  }

  /** The value `base + offset` stands for, in lane 0. */
  ghost function BaseValue(env: Env, r: BaseOffset): int
  {
    match r.base
    case None => r.offset
    case Some(b) => env(b, 0) + r.offset
  }

  /** In one run, the lane-0 values of `v` and of a constant right-hand side
      the visitor reads agree with their meaning. Other statements are not
      constrained. */
  ghost predicate DecomposeRespects(g: Graph, env: Env, v: NodeId)
    requires v in g
  {
    NodeRespects(g, env, v, 0) &&
    (g[v].BinaryOpStmt? && IsConst(g, g[v].rhs) ==> NodeRespects(g, env, g[v].rhs, 0))
  }

  /** The decomposition is sound: a found `(base, offset)` is the value of `v`
      in lane 0. */
  lemma DecomposeSound(g: Graph, env: Env, v: NodeId)
    requires WellFormed(g) && v in g && DecomposeReady(g, v) && DecomposeRespects(g, env, v)
    ensures Decompose(g, v).found ==> env(v, 0) == BaseValue(env, Decompose(g, v))
  {
    assert NodeWellFormed(g, v);
  }

  /** The cases of the decomposition: an i32 constant is `(true, null, c)`;
      an add/sub with an i32 constant right-hand side `c` is
      `(true, lhs, c)` or `(true, lhs, -c)`, the left-hand side being taken
      as it is; everything else is not found. */
  lemma DecomposeCases(g: Graph, v: NodeId)
    requires WellFormed(g) && v in g && DecomposeReady(g, v)
    ensures var r := Decompose(g, v);
      (r.found && r.base.None? <==> g[v].ConstStmt? && g[v].val[0].dt == I32) &&
      (r.found && r.base.None? ==> r.offset == g[v].val[0].value) &&
      (r.found && r.base.Some? <==>
         g[v].BinaryOpStmt? && (g[v].opType == Add || g[v].opType == Sub) &&
         IsConst(g, g[v].rhs) && g[v].rhs in g && g[g[v].rhs].val[0].dt == I32) &&
      (r.found && r.base.Some? ==>
         g[v].BinaryOpStmt? && r.base.value == g[v].lhs &&
         r.offset == (if g[v].opType == Sub then -g[g[v].rhs].val[0].value
                      else g[g[v].rhs].val[0].value)) &&
      (!r.found ==> r == NotFound())
  {
    assert NodeWellFormed(g, v);
  }

  /** The visitor `FindDirectValueBaseAndOffset`. */
  class FindDirectValueBaseAndOffset {
    var result: BaseOffset
    /** The IR the visitor reads. */
    const g: Graph

    constructor (g: Graph)
      ensures this.g == g && result == NotFound()
    {
      this.g := g;
      result := NotFound();
    }

    /** `visit(Stmt *)`. */
    method VisitDefault()
      modifies this
      ensures result == NotFound()
    {
      result := NotFound();
    }

    /** `visit(ConstStmt *)`: an i32 constant overwrites the result; any
        other constant leaves it as it was. */
    method VisitConst(id: NodeId)
      requires IsConst(g, id) && |g[id].val| == 1
      modifies this
      ensures var c := g[id].val[0];
        result == if c.dt == I32 then BaseOffset(true, None, c.value) else old(result)
    {
      var c := g[id].val[0];
      if c.dt == I32 {
        result := BaseOffset(true, None, c.value);
      }
    }

    /** `visit(BinaryOpStmt *)`: visit a constant right-hand side, keep the
        result only if it is a bare constant and the operator is add/sub,
        negate the offset for sub, then set the base to the left-hand side. */
    method VisitBinaryOp(id: NodeId)
      requires WellFormed(g) && id in g && g[id].BinaryOpStmt? && DecomposeReady(g, id)
      modifies this
      ensures var s := g[id];
        var r0 := if IsConst(g, s.rhs) && g[s.rhs].val[0].dt == I32
                  then BaseOffset(true, None, g[s.rhs].val[0].value) else old(result);
        result == if !r0.found || r0.base.Some? || (s.opType != Add && s.opType != Sub)
                  then NotFound()
                  else BaseOffset(true, Some(s.lhs), if s.opType == Sub then -r0.offset else r0.offset)
    {
      var s := g[id];
      if IsConst(g, s.rhs) {
        VisitConst(s.rhs);
      }
      if !result.found || result.base.Some? || (s.opType != Add && s.opType != Sub) {
        result := NotFound();
        return;
      }
      if s.opType == Sub {
        result := result.(offset := -result.offset);
      }
      result := result.(base := Some(s.lhs));
    }

    /** `accept` on a fresh visitor: the dispatch on the statement kind. */
    method Visit(id: NodeId)
      requires WellFormed(g) && id in g && DecomposeReady(g, id)
      requires result == NotFound()
      modifies this
      ensures result == Decompose(g, id)
    {
      match g[id]
      case ConstStmt(_) => VisitConst(id);
      case BinaryOpStmt(_, _, _, _) => VisitBinaryOp(id);
      case _ => VisitDefault();
    }

    /** `run(val)`: decompose `v` with a fresh visitor. */
    static method Run(g: Graph, v: NodeId) returns (r: BaseOffset)
      requires WellFormed(g) && v in g && DecomposeReady(g, v)
      ensures r == Decompose(g, v)
    {
      var instance := new FindDirectValueBaseAndOffset(g);
      instance.Visit(v);
      r := instance.result;
    }
  }
}
