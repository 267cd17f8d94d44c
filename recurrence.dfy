/** The Needleman-Wunsch recurrence that both matrix builders fill in, as
    functions of the two input sequences.  A cell `(i, j)` stands for the
    prefixes `a[0..i]` and `b[0..j]` (inclusive); index `-1` is the empty
    prefix. */
module Recurrence {
  import opened CostModel

  /** `(i, j)` is a cell of the grid spanned by `a` and `b`. */
  predicate InGrid(a: seq<char>, b: seq<char>, i: int, j: int) {
    -1 <= i < |a| && -1 <= j < |b|
  }

  /** `(i, j)` lies in the diagonal strip the banded variant computes. */
  predicate InBand(i: int, j: int) {
    i - MAXINDELS <= j <= i + MAXINDELS
  }

  /** `p` is a cell of the `m` by `n` table (rows and columns from -1). */
  predicate InTable(p: (int, int), m: int, n: int) {
    -1 <= p.0 < m && -1 <= p.1 < n
  }

  /** The cost of entering `(i, j)` by move `mv`. */
  function StepCost(a: seq<char>, b: seq<char>, i: int, j: int, mv: Move): int
    requires InGrid(a, b, i, j) && Prev(i, j, mv).0 >= -1 && Prev(i, j, mv).1 >= -1
  {
    match mv
    case Diagonal => Substitution(a[i], b[j])
    case _ => INDEL
  }

  /** The cells of the `m` by `n` table. */
  function Cells(m: int, n: int): (s: set<(int, int)>)
    ensures forall p :: p in s <==> InTable(p, m, n)
  {
    set i, j | -1 <= i < m && -1 <= j < n :: (i, j)
  }

  // ---------------------------------------------------------------------
  // Unrestricted table

  /** The least of three integers. */
  function Min3(x: int, y: int, z: int): (r: int)
    ensures r <= x && r <= y && r <= z
    ensures r == x || r == y || r == z
  {
    if x <= y && x <= z then x else if y <= z then y else z
  }

  /** The unrestricted `matrix[i, j]`: gaps only along row -1 and column -1,
      and elsewhere the least of `matrix[i, j-1] + 5`, `matrix[i-1, j] + 5`
      and `matrix[i-1, j-1] + (-3 if equal else 1)`. */
  function Full(a: seq<char>, b: seq<char>, i: int, j: int): int
    requires InGrid(a, b, i, j)
    decreases i + j + 2
  {
    if i == -1 && j == -1 then 0
    else if i == -1 then Full(a, b, i, j - 1) + INDEL
    else if j == -1 then Full(a, b, i - 1, j) + INDEL
    else Min3(Full(a, b, i, j - 1) + INDEL,
              Full(a, b, i - 1, j) + INDEL,
              Full(a, b, i - 1, j - 1) + Substitution(a[i], b[j]))
  }

  /** The move the unrestricted builder records at `(i, j)`: `left` along
      row -1, `top` along column -1, `getMin` of the three candidates
      elsewhere. */
  function FullMove(a: seq<char>, b: seq<char>, i: int, j: int): (mv: Move)
    requires InGrid(a, b, i, j) && (i, j) != (-1, -1)
    ensures InGrid(a, b, Prev(i, j, mv).0, Prev(i, j, mv).1)
  {
    if i == -1 then Left
    else if j == -1 then Top
    else GetMin(Fin(Full(a, b, i, j - 1) + INDEL),
                Fin(Full(a, b, i - 1, j) + INDEL),
                Fin(Full(a, b, i - 1, j - 1) + Substitution(a[i], b[j])))
  }

  /** The unrestricted `back_pointers[i, j]`. */
  function FullPointer(a: seq<char>, b: seq<char>, i: int, j: int): (p: Pointer)
    requires InGrid(a, b, i, j) && (i, j) != (-1, -1)
    ensures (p.pi, p.pj) == Prev(i, j, p.move) && InGrid(a, b, p.pi, p.pj)
  {
    var mv := FullMove(a, b, i, j);
    Pointer(Prev(i, j, mv).0, Prev(i, j, mv).1, mv)
  }

  /** The whole unrestricted cost table for effective lengths `m` and `n`. */
  function FullMatrix(a: seq<char>, b: seq<char>, m: nat, n: nat): (r: map<(int, int), Cost>)
    requires m <= |a| && n <= |b|
    ensures forall p {:trigger p in r} :: p in r <==> InTable(p, m, n)
    ensures forall p {:trigger r[p]} :: p in r ==> InTable(p, m, n) && r[p] == Fin(Full(a, b, p.0, p.1))
  {
    map p | p in Cells(m, n) :: Fin(Full(a, b, p.0, p.1))
  }

  /** The whole unrestricted back-pointer table; `(-1, -1)` has no entry. */
  function FullPointers(a: seq<char>, b: seq<char>, m: nat, n: nat): (r: map<(int, int), Pointer>)
    requires m <= |a| && n <= |b|
    ensures forall p {:trigger p in r} :: p in r <==> InTable(p, m, n) && p != (-1, -1)
    ensures forall p {:trigger r[p]} :: p in r ==> InTable(p, m, n) && p != (-1, -1) && r[p] == FullPointer(a, b, p.0, p.1)
  {
    map p | p in Cells(m, n) && p != (-1, -1) :: FullPointer(a, b, p.0, p.1)
  }

  // ---------------------------------------------------------------------
  // Banded table

  /** The banded `matrix[i, j]`: +infinity outside the band, and inside it
      the unrestricted recurrence with out-of-band neighbours read as
      +infinity. */
  function BandCost(a: seq<char>, b: seq<char>, i: int, j: int): Cost
    requires InGrid(a, b, i, j)
    decreases i + j + 2
  {
    if !InBand(i, j) then Inf
    else if i == -1 && j == -1 then Fin(0)
    else if i == -1 then Plus(BandCost(a, b, i, j - 1), INDEL)
    else if j == -1 then Plus(BandCost(a, b, i - 1, j), INDEL)
    else Min(Min(Plus(BandCost(a, b, i, j - 1), INDEL),
                 Plus(BandCost(a, b, i - 1, j), INDEL)),
             Plus(BandCost(a, b, i - 1, j - 1), Substitution(a[i], b[j])))
  }

  /** The move the banded builder records at an in-band cell. */
  function BandMove(a: seq<char>, b: seq<char>, i: int, j: int): (mv: Move)
    requires InGrid(a, b, i, j) && InBand(i, j) && (i, j) != (-1, -1)
    ensures InGrid(a, b, Prev(i, j, mv).0, Prev(i, j, mv).1)
  {
    if i == -1 then Left
    else if j == -1 then Top
    else GetMin(Plus(BandCost(a, b, i, j - 1), INDEL),
                Plus(BandCost(a, b, i - 1, j), INDEL),
                Plus(BandCost(a, b, i - 1, j - 1), Substitution(a[i], b[j])))
  }

  /** The banded `back_pointers[i, j]` of an in-band cell. */
  function BandPointer(a: seq<char>, b: seq<char>, i: int, j: int): (p: Pointer)
    requires InGrid(a, b, i, j) && InBand(i, j) && (i, j) != (-1, -1)
    ensures (p.pi, p.pj) == Prev(i, j, p.move) && InGrid(a, b, p.pi, p.pj) && InBand(p.pi, p.pj)
  {
    var mv := BandMove(a, b, i, j);
    BandMoveStaysInBand(a, b, i, j);
    Pointer(Prev(i, j, mv).0, Prev(i, j, mv).1, mv)
  }

  /** The whole banded back-pointer table: one entry per in-band cell. */
  function BandPointers(a: seq<char>, b: seq<char>, m: nat, n: nat): (r: map<(int, int), Pointer>)
    requires m <= |a| && n <= |b|
    ensures forall p {:trigger p in r} :: p in r <==> InTable(p, m, n) && InBand(p.0, p.1) && p != (-1, -1)
    ensures forall p {:trigger r[p]} :: p in r ==> InTable(p, m, n) && InBand(p.0, p.1) && p != (-1, -1) && r[p] == BandPointer(a, b, p.0, p.1)
  {
    map p | p in Cells(m, n) && InBand(p.0, p.1) && p != (-1, -1) :: BandPointer(a, b, p.0, p.1)
  }

  /** The out-of-band cells the banded builder's `setdefault` calls fill
      with +infinity: the cell just left of the band in each row that has
      one (its neighbour to the right is then read as `matrix[i, j-1]`),
      and the cell just right of the band in every row but the last (read
      as `matrix[i-1, j]` from the row below). */
  predicate BandFringe(p: (int, int), m: int, n: int) {
    || (p.1 == p.0 - MAXINDELS - 1 && p.1 < n - 1)
    || (p.1 == p.0 + MAXINDELS + 1 && p.0 < m - 1)
  }

  /** The cost table the banded builder leaves behind: the in-band cells,
      the fringe, and the last cell (which a final `setdefault` adds when
      it lies outside the band), each holding its banded cost. */
  function BandMatrix(a: seq<char>, b: seq<char>, m: nat, n: nat): (r: map<(int, int), Cost>)
    requires m <= |a| && n <= |b|
    ensures forall p {:trigger p in r} :: p in r <==> InTable(p, m, n) && (InBand(p.0, p.1) || BandFringe(p, m, n) || p == (m - 1, n - 1))
    ensures forall p {:trigger r[p]} :: p in r ==> InTable(p, m, n) && r[p] == BandCost(a, b, p.0, p.1)
  {
    map p | p in Cells(m, n) && (InBand(p.0, p.1) || BandFringe(p, m, n) || p == (m - 1, n - 1)) :: BandCost(a, b, p.0, p.1)
  }

  // ---------------------------------------------------------------------
  // Properties of the unrestricted table

  /** An interior cell holds the minimum of its left, top and diagonal
      candidates. */
  lemma FullIsMin(a: seq<char>, b: seq<char>, i: int, j: int)
    requires InGrid(a, b, i, j) && i >= 0 && j >= 0
    ensures Full(a, b, i, j) <= Full(a, b, i, j - 1) + INDEL
    ensures Full(a, b, i, j) <= Full(a, b, i - 1, j) + INDEL
    ensures Full(a, b, i, j) <= Full(a, b, i - 1, j - 1) + Substitution(a[i], b[j])
    ensures || Full(a, b, i, j) == Full(a, b, i, j - 1) + INDEL
            || Full(a, b, i, j) == Full(a, b, i - 1, j) + INDEL
            || Full(a, b, i, j) == Full(a, b, i - 1, j - 1) + Substitution(a[i], b[j])
  {
  }

  /** `getMin` picks a minimal candidate, so each cell's cost is its
      recorded predecessor's cost plus the cost of the recorded move. */
  lemma FullStep(a: seq<char>, b: seq<char>, i: int, j: int)
    requires InGrid(a, b, i, j) && (i, j) != (-1, -1)
    ensures var mv := FullMove(a, b, i, j);
            Full(a, b, i, j) == Full(a, b, Prev(i, j, mv).0, Prev(i, j, mv).1) + StepCost(a, b, i, j, mv)
  {
    if i >= 0 && j >= 0 {
      var l, t, d := Full(a, b, i, j - 1) + INDEL, Full(a, b, i - 1, j) + INDEL,
                     Full(a, b, i - 1, j - 1) + Substitution(a[i], b[j]);
      var mv := GetMin(Fin(l), Fin(t), Fin(d));
      assert FullMove(a, b, i, j) == mv;
      assert Full(a, b, i, j) == Min3(l, t, d);
      match mv
      case Left => assert l <= t && l <= d;
      case Top => assert t <= d && (t < l || d < l);
      case Diagonal => assert d < l && d < t;
    }
  }

  /** Row -1 and column -1 are reached by gaps only: `5 * (i + 1)` and
      `5 * (j + 1)`. */
  lemma {:induction false} FullBoundary(a: seq<char>, b: seq<char>, i: int, j: int)
    requires InGrid(a, b, i, j) && (i == -1 || j == -1)
    ensures Full(a, b, i, j) == INDEL * (i + j + 2)
    decreases i + j + 2
  {
    if i == -1 && j >= 0 {
      FullBoundary(a, b, -1, j - 1);
    } else if j == -1 && i >= 0 {
      FullBoundary(a, b, i - 1, -1);
    }
  }

  /** No cell is cheaper than an all-match diagonal of the shorter prefix. */
  lemma {:induction false} FullLowerBound(a: seq<char>, b: seq<char>, i: int, j: int)
    requires InGrid(a, b, i, j)
    ensures Full(a, b, i, j) >= MATCH * ((if i <= j then i else j) + 1)
    decreases i + j + 2
  {
    if i == -1 || j == -1 {
      FullBoundary(a, b, i, j);
    } else {
      var lo := if i <= j then i else j;
      FullLowerBound(a, b, i, j - 1);
      FullLowerBound(a, b, i - 1, j);
      FullLowerBound(a, b, i - 1, j - 1);
      assert Full(a, b, i, j - 1) + INDEL >= MATCH * (lo + 1);
      assert Full(a, b, i - 1, j) + INDEL >= MATCH * (lo + 1);
      assert Full(a, b, i - 1, j - 1) + Substitution(a[i], b[j]) >= MATCH * (lo + 1);
      FullIsMin(a, b, i, j);
    }
  }

  /** Aligning a sequence with itself runs down the diagonal, matching every
      symbol: cost `-3 * (k + 1)` and a diagonal move at `(k, k)`. */
  lemma {:induction false} FullIdentity(a: seq<char>, k: int)
    requires 0 <= k < |a|
    ensures Full(a, a, k, k) == MATCH * (k + 1)
    ensures FullMove(a, a, k, k) == Diagonal
  {
    if k == 0 {
      FullBoundary(a, a, 0, -1);
      FullBoundary(a, a, -1, 0);
    } else {
      FullIdentity(a, k - 1);
      FullLowerBound(a, a, k, k - 1);
      FullLowerBound(a, a, k - 1, k);
    }
  }

  /** The cost model is symmetric: swapping the sequences transposes the
      table without changing any cost. */
  lemma {:induction false} FullSymmetric(a: seq<char>, b: seq<char>, i: int, j: int)
    requires InGrid(a, b, i, j)
    ensures Full(a, b, i, j) == Full(b, a, j, i)
    decreases i + j + 2
  {
    if i == -1 || j == -1 {
      FullBoundary(a, b, i, j);
      FullBoundary(b, a, j, i);
    } else {
      FullSymmetric(a, b, i, j - 1);
      FullSymmetric(a, b, i - 1, j);
      FullSymmetric(a, b, i - 1, j - 1);
      FullIsMin(a, b, i, j);
      FullIsMin(b, a, j, i);
    }
  }

  // ---------------------------------------------------------------------
  // Properties of the banded table

  /** An in-band interior cell holds the least of its three candidates,
      out-of-band neighbours counting as +infinity. */
  lemma BandIsMin(a: seq<char>, b: seq<char>, i: int, j: int)
    requires InGrid(a, b, i, j) && InBand(i, j) && i >= 0 && j >= 0
    ensures Le(BandCost(a, b, i, j), Plus(BandCost(a, b, i, j - 1), INDEL))
    ensures Le(BandCost(a, b, i, j), Plus(BandCost(a, b, i - 1, j), INDEL))
    ensures Le(BandCost(a, b, i, j), Plus(BandCost(a, b, i - 1, j - 1), Substitution(a[i], b[j])))
    ensures || BandCost(a, b, i, j) == Plus(BandCost(a, b, i, j - 1), INDEL)
            || BandCost(a, b, i, j) == Plus(BandCost(a, b, i - 1, j), INDEL)
            || BandCost(a, b, i, j) == Plus(BandCost(a, b, i - 1, j - 1), Substitution(a[i], b[j]))
  {
  }

  /** In the band too, each cell's cost is its recorded predecessor's cost
      plus the cost of the recorded move. */
  lemma BandStep(a: seq<char>, b: seq<char>, i: int, j: int)
    requires InGrid(a, b, i, j) && InBand(i, j) && (i, j) != (-1, -1)
    ensures var mv := BandMove(a, b, i, j);
            BandCost(a, b, i, j) == Plus(BandCost(a, b, Prev(i, j, mv).0, Prev(i, j, mv).1), StepCost(a, b, i, j, mv))
  {
    var mv := BandMove(a, b, i, j);
    if i == -1 {
      assert mv == Left;
    } else if j == -1 {
      assert mv == Top;
    } else {
      var l, t, d := Plus(BandCost(a, b, i, j - 1), INDEL), Plus(BandCost(a, b, i - 1, j), INDEL),
                     Plus(BandCost(a, b, i - 1, j - 1), Substitution(a[i], b[j]));
      assert BandCost(a, b, i, j) == Min(Min(l, t), d);
      assert mv == GetMin(l, t, d);
      MinOfPick(l, t, d);
      match mv {
        case Left => assert BandCost(a, b, i, j) == l;
        case Top => assert BandCost(a, b, i, j) == t;
        case Diagonal => assert BandCost(a, b, i, j) == d;
      }
    }
  }

  /** A banded cell is +infinity exactly when it lies outside the band. */
  lemma {:induction false} BandInfIffOutside(a: seq<char>, b: seq<char>, i: int, j: int)
    requires InGrid(a, b, i, j)
    ensures BandCost(a, b, i, j) == Inf <==> !InBand(i, j)
    decreases i + j + 2
  {
    if InBand(i, j) && (i, j) != (-1, -1) {
      if i == -1 {
        BandInfIffOutside(a, b, -1, j - 1);
      } else if j == -1 {
        BandInfIffOutside(a, b, i - 1, -1);
      } else {
        BandInfIffOutside(a, b, i - 1, j - 1);
        BandIsMin(a, b, i, j);
      }
    }
  }

  /** In the banded table an entry is +infinity exactly when its cell lies
      outside the band: the fringe and an out-of-band last cell. */
  lemma BandMatrixInfIffOutside(a: seq<char>, b: seq<char>, m: nat, n: nat)
    requires m <= |a| && n <= |b|
    ensures forall p :: p in BandMatrix(a, b, m, n) ==> (BandMatrix(a, b, m, n)[p] == Inf <==> !InBand(p.0, p.1))
  {
    var r := BandMatrix(a, b, m, n);
    forall p | p in r
      ensures r[p] == Inf <==> !InBand(p.0, p.1)
    {
      BandInfIffOutside(a, b, p.0, p.1);
    }
  }

  /** The move chosen for an in-band cell never comes from outside the band:
      an out-of-band neighbour costs infinity, while the diagonal one is
      finite. */
  lemma BandMoveStaysInBand(a: seq<char>, b: seq<char>, i: int, j: int)
    requires InGrid(a, b, i, j) && InBand(i, j) && (i, j) != (-1, -1)
    ensures InBand(Prev(i, j, BandMove(a, b, i, j)).0, Prev(i, j, BandMove(a, b, i, j)).1)
  {
    if i >= 0 && j >= 0 {
      var mv := BandMove(a, b, i, j);
      BandInfIffOutside(a, b, i - 1, j - 1);
      match mv
      case Left => BandInfIffOutside(a, b, i, j - 1);
      case Top => BandInfIffOutside(a, b, i - 1, j);
      case Diagonal =>
    }
  }

  /** Restricting the search to the band never finds a cheaper alignment:
      every finite banded cost is at least the unrestricted one. */
  lemma {:induction false} BandNotBelowFull(a: seq<char>, b: seq<char>, i: int, j: int)
    requires InGrid(a, b, i, j) && BandCost(a, b, i, j).Fin?
    ensures BandCost(a, b, i, j).v >= Full(a, b, i, j)
    decreases i + j + 2
  {
    if (i, j) != (-1, -1) {
      if i == -1 {
        BandNotBelowFull(a, b, -1, j - 1);
      } else if j == -1 {
        BandNotBelowFull(a, b, i - 1, -1);
      } else {
        var l, t, d := BandCost(a, b, i, j - 1), BandCost(a, b, i - 1, j), BandCost(a, b, i - 1, j - 1);
        var c := Min(Min(Plus(l, INDEL), Plus(t, INDEL)), Plus(d, Substitution(a[i], b[j])));
        assert BandCost(a, b, i, j) == c;
        FullIsMin(a, b, i, j);
        if c == Plus(l, INDEL) {
          BandNotBelowFull(a, b, i, j - 1);
        } else if c == Plus(t, INDEL) {
          BandNotBelowFull(a, b, i - 1, j);
        } else {
          BandNotBelowFull(a, b, i - 1, j - 1);
        }
      }
    }
  }

  /** Aligning a sequence with itself stays on the diagonal in the banded
      table too: the same cost as unrestricted, and a diagonal move. */
  lemma {:induction false} BandIdentity(a: seq<char>, k: int)
    requires 0 <= k < |a|
    ensures BandCost(a, a, k, k) == Fin(MATCH * (k + 1))
    ensures BandMove(a, a, k, k) == Diagonal
  {
    if k > 0 {
      BandIdentity(a, k - 1);
    }
    BandBesideDiagonal(a, k, k - 1);
    BandBesideDiagonal(a, k - 1, k);
    BandIdentityStep(a, k);
  }

  /** A cell next to the diagonal costs no less than the diagonal cell
      before it: `-3 * min(i, j) - 3`, or +infinity. */
  lemma BandBesideDiagonal(a: seq<char>, i: int, j: int)
    requires InGrid(a, a, i, j) && (i == j + 1 || j == i + 1)
    ensures Le(Fin(MATCH * ((if i <= j then i else j) + 1)), BandCost(a, a, i, j))
  {
    if BandCost(a, a, i, j).Fin? {
      BandNotBelowFull(a, a, i, j);
      FullLowerBound(a, a, i, j);
    }
  }

  /** The step of `BandIdentity`: with the diagonal cell before `(k, k)` at
      `-3 * k` and its two other neighbours no cheaper than that, the
      diagonal candidate wins strictly. */
  lemma BandIdentityStep(a: seq<char>, k: int)
    requires 0 <= k < |a|
    requires BandCost(a, a, k - 1, k - 1) == Fin(MATCH * k)
    requires Le(Fin(MATCH * k), BandCost(a, a, k, k - 1)) && Le(Fin(MATCH * k), BandCost(a, a, k - 1, k))
    ensures BandCost(a, a, k, k) == Fin(MATCH * (k + 1))
    ensures BandMove(a, a, k, k) == Diagonal
  {
    var left, top := Plus(BandCost(a, a, k, k - 1), INDEL), Plus(BandCost(a, a, k - 1, k), INDEL);
    var diagonal := Plus(BandCost(a, a, k - 1, k - 1), Substitution(a[k], a[k]));
    assert diagonal == Fin(MATCH * (k + 1));
    assert Lt(diagonal, left) && Lt(diagonal, top);
    assert BandCost(a, a, k, k) == Min(Min(left, top), diagonal);
    assert BandMove(a, a, k, k) == GetMin(left, top, diagonal);
  }

  /** Swapping the sequences transposes the banded table without changing
      any cost (the band is symmetric about the diagonal). */
  lemma {:induction false} BandSymmetric(a: seq<char>, b: seq<char>, i: int, j: int)
    requires InGrid(a, b, i, j)
    ensures BandCost(a, b, i, j) == BandCost(b, a, j, i)
    decreases i + j + 2, 1
  {
    if !InBand(i, j) {
      assert !InBand(j, i);
    } else if i == -1 && j >= 0 {
      BandSymmetricRow(a, b, j);
    } else if j == -1 && i >= 0 {
      BandSymmetricRow(b, a, i);
    } else if i >= 0 && j >= 0 {
      BandSymmetricInterior(a, b, i, j);
    }
  }

  /** `BandSymmetric` along row -1 (and, swapped, along column -1). */
  lemma {:induction false} BandSymmetricRow(a: seq<char>, b: seq<char>, j: int)
    requires 0 <= j < |b| && InBand(-1, j)
    ensures BandCost(a, b, -1, j) == BandCost(b, a, j, -1)
    ensures BandCost(b, a, j, -1) == BandCost(a, b, -1, j)
    decreases j + 1, 0
  {
    BandSymmetric(a, b, -1, j - 1);
    assert BandCost(a, b, -1, j) == Plus(BandCost(a, b, -1, j - 1), INDEL);
    assert BandCost(b, a, j, -1) == Plus(BandCost(b, a, j - 1, -1), INDEL);
  }

  /** `BandSymmetric` at an interior in-band cell. */
  lemma {:induction false} BandSymmetricInterior(a: seq<char>, b: seq<char>, i: int, j: int)
    requires InGrid(a, b, i, j) && InBand(i, j) && i >= 0 && j >= 0
    ensures BandCost(a, b, i, j) == BandCost(b, a, j, i)
    decreases i + j + 2, 0
  {
    BandSymmetricLeft(a, b, i, j);
    BandSymmetric(a, b, i - 1, j);
    BandSymmetricDiagonal(a, b, i, j);
    BandSymmetricStep(a, b, i, j);
  }

  /** The left neighbour of an interior cell, for `BandSymmetricInterior`. */
  lemma {:induction false} BandSymmetricLeft(a: seq<char>, b: seq<char>, i: int, j: int)
    requires InGrid(a, b, i, j) && i >= 0 && j >= 0
    ensures BandCost(a, b, i, j - 1) == BandCost(b, a, j - 1, i)
    decreases i + j + 1, 2
  {
    BandSymmetric(a, b, i, j - 1);
  }

  /** The diagonal neighbour of an interior cell, for
      `BandSymmetricInterior`. */
  lemma {:induction false} BandSymmetricDiagonal(a: seq<char>, b: seq<char>, i: int, j: int)
    requires InGrid(a, b, i, j) && i >= 0 && j >= 0
    ensures BandCost(a, b, i - 1, j - 1) == BandCost(b, a, j - 1, i - 1)
    decreases i + j, 2
  {
    BandSymmetric(a, b, i - 1, j - 1);
  }

  /** The inductive step of `BandSymmetric` at an interior in-band cell. */
  lemma BandSymmetricStep(a: seq<char>, b: seq<char>, i: int, j: int)
    requires InGrid(a, b, i, j) && InBand(i, j) && i >= 0 && j >= 0
    requires BandCost(a, b, i, j - 1) == BandCost(b, a, j - 1, i)
    requires BandCost(a, b, i - 1, j) == BandCost(b, a, j, i - 1)
    requires BandCost(a, b, i - 1, j - 1) == BandCost(b, a, j - 1, i - 1)
    ensures BandCost(a, b, i, j) == BandCost(b, a, j, i)
  {
    var l, t, d := Plus(BandCost(a, b, i, j - 1), INDEL), Plus(BandCost(a, b, i - 1, j), INDEL),
                   Plus(BandCost(a, b, i - 1, j - 1), Substitution(a[i], b[j]));
    assert BandCost(a, b, i, j) == Min(Min(l, t), d);
    assert BandCost(b, a, j, i) == Min(Min(t, l), d);
    MinSwap(l, t);
  }

}
