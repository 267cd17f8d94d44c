/** The fixed scoring policy of the aligner and the extended-integer costs it
    computes with.  Python's `float(inf)` is only ever used as "unreachable",
    so a cost is either a finite integer or `Inf`. */
module CostModel {

  /** Band half-width of the banded variant. */
  const MAXINDELS: int := 3
  /** Cost of aligning two equal symbols (a reward). */
  const MATCH: int := -3
  /** Cost of one insertion or deletion. */
  const INDEL: int := 5
  /** Cost of aligning two different symbols. */
  const SUB: int := 1

  datatype Cost = Fin(v: int) | Inf

  /** `c + k` with `inf + k == inf`. */
  function Plus(c: Cost, k: int): (r: Cost)
    ensures r.Inf? <==> c.Inf?
    ensures c.Fin? ==> r.v == c.v + k
  {
    match c
    case Fin(x) => Fin(x + k)
    case Inf => Inf
  }

  /** `a <= b` on the extended integers. */
  predicate Le(a: Cost, b: Cost) {
    b.Inf? || (a.Fin? && a.v <= b.v)
  }

  /** `a < b` on the extended integers. */
  predicate Lt(a: Cost, b: Cost) {
    !Le(b, a)
  }

  /** Python's two-argument `min`: the first argument unless the second is
      strictly smaller. */
  function Min(a: Cost, b: Cost): (r: Cost)
    ensures Le(r, a) && Le(r, b)
    ensures r == a || r == b
  {
    if Lt(b, a) then b else a
  }

  /** Python's `min` of two costs does not depend on their order. */
  lemma MinSwap(a: Cost, b: Cost)
    ensures Min(a, b) == Min(b, a)
  {
  }

  /** The cost contribution of aligning symbol `x` against symbol `y`. */
  function Substitution(x: char, y: char): int {
    if x == y then MATCH else SUB
  }

  /** The three ways a cell can be entered. `Left` consumes a symbol of the
      second sequence only, `Top` one of the first only, `Diagonal` one of each. */
  datatype Move = Left | Top | Diagonal

  /** A back-pointer: the predecessor cell and the move that leaves it. */
  datatype Pointer = Pointer(pi: int, pj: int, move: Move)

  /** The cell a move into `(i, j)` comes from. */
  function Prev(i: int, j: int, mv: Move): (r: (int, int))
    ensures i - 1 <= r.0 <= i && j - 1 <= r.1 <= j && r.0 + r.1 < i + j
  {
    match mv
    case Left => (i, j - 1)
    case Top => (i - 1, j)
    case Diagonal => (i - 1, j - 1)
  }

  /** `getMin`: the move whose candidate is minimal, ties going to left, then
      top, then diagonal. `a`, `b`, `c` are the left, top and diagonal
      candidates. */
  function GetMin(a: Cost, b: Cost, c: Cost): (mv: Move)
    ensures mv == Left <==> Le(a, b) && Le(a, c)
    ensures mv == Top <==> !(Le(a, b) && Le(a, c)) && Le(b, c)
    ensures mv == Diagonal <==> Lt(c, a) && Lt(c, b)
  {
    var minimum := Min(Min(a, b), c);
    if minimum == a then Left
    else if minimum == b then Top
    else Diagonal
  }

  /** The candidate `getMin` names is the minimum of the three. */
  lemma MinOfPick(a: Cost, b: Cost, c: Cost)
    ensures GetMin(a, b, c) == Left ==> Min(Min(a, b), c) == a
    ensures GetMin(a, b, c) == Top ==> Min(Min(a, b), c) == b
    ensures GetMin(a, b, c) == Diagonal ==> Min(Min(a, b), c) == c
  {
  }
}
