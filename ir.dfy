/** The part of the IR the two analyses read: an arena of statements keyed by
    a topological numbering that stands in for `instance_id`, the
    well-formedness of well-typed IR, and the values statements take at run
    time (used only to state soundness). */
module IR {

  datatype Option<T> = None | Some(value: T)

  /** A statement's number.  The IR's operand graph is acyclic, so it has a
      topological numbering; the ids of the model are one, standing in for
      `instance_id`.  The visitor's `results` map is keyed one-to-one by
      statement, so renumbering does not change what it computes. */
  type NodeId = nat

  /** Primitive data types; the analyses only ever ask "is this i32?". */
  datatype DataType = I32 | I64 | U32 | F32 | F64

  /** One lane of a constant.  `value` is the integer payload (`val_i32` for
      an i32 constant, `val_int()` for the bounds of a range-for). */
  datatype TypedConstant = TypedConstant(dt: DataType, value: int)

  datatype BinaryOpType = Add | Sub | Mul | Div | Mod | Max | Min

  datatype TaskType = Serial | RangeFor | StructFor | Listgen | Gc

  /** Lane `index` of statement `stmt`. */
  datatype VectorElement = VectorElement(stmt: NodeId, index: nat)

  /** The statement kinds the analyses distinguish.  `width` is the number of
      lanes of the statement's value; a constant and a shuffle have one lane
      per entry of their list. */
  datatype Stmt =
    | LoopIndexStmt(loop: NodeId, index: int, width: nat)
    | ElementShuffleStmt(elements: seq<VectorElement>)
    | ConstStmt(val: seq<TypedConstant>)
    | RangeAssumptionStmt(input: NodeId, base: NodeId, low: int, high: int, width: nat)
    | BinaryOpStmt(opType: BinaryOpType, lhs: NodeId, rhs: NodeId, width: nat)
    | GlobalLoadStmt(src: NodeId, width: nat)
    | RangeForStmt(begin: NodeId, end: NodeId)
    | StructForStmt
    | OffloadedStmt(taskType: TaskType)
    | OtherStmt(width: nat)

  type Graph = map<NodeId, Stmt>

  /** `stmt->width()`. */
  function Width(s: Stmt): nat
  {
    match s
    case LoopIndexStmt(_, _, w) => w
    case ElementShuffleStmt(elements) => |elements|
    case ConstStmt(val) => |val|
    case RangeAssumptionStmt(_, _, _, _, w) => w
    case BinaryOpStmt(_, _, _, w) => w
    case GlobalLoadStmt(_, w) => w
    case RangeForStmt(_, _) => 1
    case StructForStmt => 1
    case OffloadedStmt(_) => 1
    case OtherStmt(w) => w
  }

  /** `k` is a valid operand of statement `id`: it exists and comes earlier. */
  predicate Operand(g: Graph, id: NodeId, k: NodeId)
  {
    k in g && k < id
  }

  /** What well-typed IR gives about one statement: pointers are valid, the
      operands the analyses recurse into come earlier in the numbering (the
      operand graph is acyclic, so recursion ends), and lane counts agree
      between a statement and its operands. */
  predicate NodeWellFormed(g: Graph, id: NodeId)
    requires id in g
  {
    Width(g[id]) >= 1 &&
    match g[id]
    case LoopIndexStmt(loop, _, _) =>
      loop in g
    case ElementShuffleStmt(elements) =>
      forall e | e in elements ::
        Operand(g, id, e.stmt) && e.index < Width(g[e.stmt])
    case RangeAssumptionStmt(input, base, _, _, w) =>
      input in g && Operand(g, id, base) && Width(g[base]) == w
    case BinaryOpStmt(_, lhs, rhs, w) =>
      Operand(g, id, lhs) && Operand(g, id, rhs) &&
      Width(g[lhs]) == w && Width(g[rhs]) == w
    case RangeForStmt(begin, end) =>
      begin in g && end in g
    case _ => true
  }

  predicate WellFormed(g: Graph)
  {
    forall id | id in g :: NodeWellFormed(g, id)
  }

  /** The statement is a constant (`is<ConstStmt>()`). */
  predicate IsConst(g: Graph, id: NodeId)
  {
    id in g && g[id].ConstStmt?
  }

  /** The statement is a range-for whose begin and end are both constants. */
  predicate HasConstBounds(g: Graph, loop: NodeId)
  {
    loop in g && g[loop].RangeForStmt? &&
    IsConst(g, g[loop].begin) && IsConst(g, g[loop].end)
  }

  /** `val[0].val_int()` of a constant. */
  function ValInt(g: Graph, id: NodeId): int
    requires WellFormed(g) && IsConst(g, id)
  {
    ConstHasLane(g, id);
    g[id].val[0].value
  }

  /** The value of statement `id` in lane `lane`, at one point of a run.
      Values are unbounded integers: a run in which an i32 add or sub wraps
      around is not described. */
  type Env = (NodeId, nat) -> int

  /** The meaning of the arithmetic statements: constants, shuffles, range
      assumptions (the value is `input`, and `base + low <= input < base + high`)
      and add/sub. */
  ghost predicate NodeRespects(g: Graph, env: Env, id: NodeId, lane: nat)
    requires id in g
  {
    match g[id]
    case ConstStmt(val) =>
      lane < |val| && val[lane].dt == I32 ==> env(id, lane) == val[lane].value
    case ElementShuffleStmt(elements) =>
      lane < |elements| ==>
        env(id, lane) == env(elements[lane].stmt, elements[lane].index)
    case RangeAssumptionStmt(input, base, low, high, _) =>
      env(id, lane) == env(input, lane) &&
      env(base, lane) + low <= env(id, lane) < env(base, lane) + high
    case BinaryOpStmt(op, lhs, rhs, _) =>
      (op == Add ==> env(id, lane) == env(lhs, lane) + env(rhs, lane)) &&
      (op == Sub ==> env(id, lane) == env(lhs, lane) - env(rhs, lane))
    case _ => true
  }

  /** The meaning of loop-index statements in one iteration in which index
      `index` of loop `loop` has value `x`: that index reads `x`, and an index
      of a range-for with constant bounds lies within them. */
  ghost predicate IndexRespects(g: Graph, env: Env, loop: NodeId, index: int, x: int,
                                id: NodeId, lane: nat)
    requires WellFormed(g) && id in g
  {
    match g[id]
    case LoopIndexStmt(l, i, _) =>
      (l == loop && i == index ==> env(id, lane) == x) &&
      (HasConstBounds(g, l) ==>
         ValInt(g, g[l].begin) <= env(id, lane) < ValInt(g, g[l].end))
    case _ => true
  }

  /** Every constant has at least one lane. */
  lemma ConstHasLane(g: Graph, id: NodeId)
    requires WellFormed(g) && IsConst(g, id)
    ensures |g[id].val| >= 1
  {
    assert NodeWellFormed(g, id);
  }
}
