/** The interval fact shared by both analyses, and its two combinators.

    A related fact `DiffRange(true, k, L, H)` about a value `v` says that, for
    the tracked loop index `x`, the constant term `v - k * x` lies in the
    half-open range `[L, H)`.  An unrelated fact says nothing. */
module DiffRanges {

  /** The record (related, coeff, low, high).  The fields are unbounded
      integers; the wrap-around of Taichi's 32-bit C++ `int` fields is not
      modelled. */
  datatype DiffRange = DiffRange(related: bool, coeff: int, low: int, high: int)

  /** `DiffRange()` and `{false, 0}`: no provable relation, every number zero. */
  function Unrelated(): DiffRange
  {
    DiffRange(false, 0, 0, 0)
  }

  /** The three-argument constructor `DiffRange(related, coeff, low)`,
      assumed to build the half-open singleton `[low, low + 1)`; its
      definition is not part of this model. */
  function Singleton(related: bool, coeff: int, low: int): DiffRange
  {
    DiffRange(related, coeff, low, low + 1)
  }

  /** Number of constant terms a fact admits. */
  function Span(r: DiffRange): int
  {
    r.high - r.low
  }

  /** `operator+`. */
  function Plus(a: DiffRange, b: DiffRange): (r: DiffRange)
    ensures r.related <==> a.related && b.related
    ensures Span(r) == Span(a) + Span(b) - 1
  {
    DiffRange(a.related && b.related, a.coeff + b.coeff,
              a.low + b.low, a.high + b.high - 1)
  }

  /** `operator-`. */
  function Minus(a: DiffRange, b: DiffRange): (r: DiffRange)
    ensures r.related <==> a.related && b.related
    ensures Span(r) == Span(a) + Span(b) - 1
  {
    DiffRange(a.related && b.related, a.coeff - b.coeff,
              a.low - b.high + 1, a.high - b.low)
  }

  /** The range of constant terms `r` admits contains `c`. */
  predicate Admits(r: DiffRange, c: int)
  {
    r.low <= c < r.high
  }

  /** What fact `r` promises about value `v` when the tracked index is `x`. */
  ghost predicate Describes(r: DiffRange, v: int, x: int)
  {
    r.related ==> Admits(r, v - r.coeff * x)
  }

  /** Two singletons compose to a singleton, under either combinator. */
  lemma SingletonsCompose(a: DiffRange, b: DiffRange)
    requires Span(a) == 1 && Span(b) == 1
    ensures Span(Plus(a, b)) == 1 && Span(Minus(a, b)) == 1
  {
  }

  /** `+` is sound: if `a` describes `v1` and `b` describes `v2`, then
      `a + b` describes `v1 + v2`. */
  lemma PlusSound(a: DiffRange, b: DiffRange, v1: int, v2: int, x: int)
    requires Describes(a, v1, x) && Describes(b, v2, x)
    ensures Describes(Plus(a, b), v1 + v2, x)
  {
    assert (a.coeff + b.coeff) * x == a.coeff * x + b.coeff * x;
  }

  /** `-` is sound: if `a` describes `v1` and `b` describes `v2`, then
      `a - b` describes `v1 - v2`. */
  lemma MinusSound(a: DiffRange, b: DiffRange, v1: int, v2: int, x: int)
    requires Describes(a, v1, x) && Describes(b, v2, x)
    ensures Describes(Minus(a, b), v1 - v2, x)
  {
    assert (a.coeff - b.coeff) * x == a.coeff * x - b.coeff * x;
  }

  /** `+` loses nothing: on non-empty ranges every constant term `a + b`
      admits is a sum of one admitted by `a` and one admitted by `b`. */
  lemma PlusExact(a: DiffRange, b: DiffRange, c: int)
    requires a.low < a.high && b.low < b.high
    requires Admits(Plus(a, b), c)
    ensures exists c1, c2 :: Admits(a, c1) && Admits(b, c2) && c == c1 + c2
  {
    var c1 := if c - b.low <= a.high - 1 then c - b.low else a.high - 1;
    var c2 := c - c1;
    assert Admits(a, c1) && Admits(b, c2) && c == c1 + c2;
  }

  /** `-` loses nothing: on non-empty ranges every constant term `a - b`
      admits is a difference of one admitted by `a` and one admitted by `b`. */
  lemma MinusExact(a: DiffRange, b: DiffRange, c: int)
    requires a.low < a.high && b.low < b.high
    requires Admits(Minus(a, b), c)
    ensures exists c1, c2 :: Admits(a, c1) && Admits(b, c2) && c == c1 - c2
  {
    var c1 := if c + b.high - 1 <= a.high - 1 then c + b.high - 1 else a.high - 1;
    var c2 := c1 - c;
    assert Admits(a, c1) && Admits(b, c2) && c == c1 - c2;
  }
}
