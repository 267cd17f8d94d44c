/** What the traceback reconstructs from a back-pointer table: two gapped
    strings, one column per move, read from the origin to the terminal cell.
    Also the yardstick the reconstruction is measured against: the score of
    an arbitrary alignment of two prefixes. */
module Traceback {
  import opened CostModel
  import opened Recurrence

  /** The gap marker written into an alignment. */
  const GAP: char := '-'

  /** A back-pointer table over the `m` by `n` table in which every entry
      names the neighbour its move comes from, and that neighbour is either
      the origin or has an entry itself, so that following pointers always
      ends at `(-1, -1)`. */
  ghost predicate WellFormed(bp: map<(int, int), Pointer>, m: int, n: int) {
    forall p {:trigger LinksBack(bp, p, m, n)} :: p in bp ==> LinksBack(bp, p, m, n)
  }

  /** The column one move emits: `top` gives `(seq1[i], '-')`, `left` gives
      `('-', seq2[j])`, `diagonal` gives `(seq1[i], seq2[j])`. */
  function Column(s1: seq<char>, s2: seq<char>, i: int, j: int, mv: Move): (col: (char, char))
    requires mv != Left ==> 0 <= i < |s1|
    requires mv != Top ==> 0 <= j < |s2|
    ensures col.0 == if mv == Left then GAP else s1[i]
    ensures col.1 == if mv == Top then GAP else s2[j]
  {
    match mv
    case Top => (s1[i], GAP)
    case Left => (GAP, s2[j])
    case Diagonal => (s1[i], s2[j])
  }

  /** The alignment the (corrected) traceback builds for cell `(i, j)`: the
      alignment of the predecessor followed by the column of the recorded
      move, and nothing for the origin. */
  function Aligned(bp: map<(int, int), Pointer>, s1: seq<char>, s2: seq<char>,
                   m: int, n: int, i: int, j: int): (seq<char>, seq<char>)
    requires WellFormed(bp, m, n) && m <= |s1| && n <= |s2|
    requires (i, j) == (-1, -1) || (i, j) in bp
    decreases i + j + 2
  {
    if (i, j) == (-1, -1) then ([], [])
    else
      var p := bp[(i, j)];
      assert LinksBack(bp, (i, j), m, n);
      var rest := Aligned(bp, s1, s2, m, n, p.pi, p.pj);
      var col := Column(s1, s2, i, j, p.move);
      (rest.0 + [col.0], rest.1 + [col.1])
  }

  /** Python's `s[k]`, where a negative `k` counts from the end. */
  function PyIndex(s: seq<char>, k: int): (c: char)
    requires -|s| <= k < |s|
    ensures k >= 0 ==> c == s[k]
    ensures k < 0 ==> c == s[|s| + k]
  {
    if k < 0 then s[|s| + k] else s[k]
  }

  /** The alignment `alignment()` builds as written: every cell but the
      last gets its column, but the last cell (the one whose predecessor is
      the origin) always gets `(seq1[i], seq2[j])` with Python indexing,
      preceded by an extra gap in the second string when its move is
      `top`. */
  function AlignedAsWritten(bp: map<(int, int), Pointer>, s1: seq<char>, s2: seq<char>,
                            m: int, n: int, i: int, j: int): (seq<char>, seq<char>)
    requires WellFormed(bp, m, n) && m <= |s1| && n <= |s2|
    requires |s1| >= 1 && |s2| >= 1
    requires (i, j) in bp
    decreases i + j + 2
  {
    var p := bp[(i, j)];
    assert LinksBack(bp, (i, j), m, n);
    if (p.pi, p.pj) == (-1, -1) then
      ([PyIndex(s1, i)], (if p.move == Top then [GAP] else []) + [PyIndex(s2, j)])
    else
      var rest := AlignedAsWritten(bp, s1, s2, m, n, p.pi, p.pj);
      var col := Column(s1, s2, i, j, p.move);
      (rest.0 + [col.0], rest.1 + [col.1])
  }

  /** The last cell the traceback visits before reaching the origin. */
  function LastCell(bp: map<(int, int), Pointer>, m: int, n: int, i: int, j: int): (c: (int, int))
    requires WellFormed(bp, m, n)
    requires (i, j) in bp
    ensures c in bp && (bp[c].pi, bp[c].pj) == (-1, -1)
    decreases i + j + 2
  {
    var p := bp[(i, j)];
    assert LinksBack(bp, (i, j), m, n);
    if (p.pi, p.pj) == (-1, -1) then (i, j) else LastCell(bp, m, n, p.pi, p.pj)
  }

  /** `s` with every gap marker deleted. */
  function RemoveGaps(s: seq<char>): (r: seq<char>)
    ensures GAP !in r && |r| <= |s|
  {
    if s == [] then []
    else RemoveGaps(s[..|s| - 1]) + (if s[|s| - 1] == GAP then [] else [s[|s| - 1]])
  }

  /** No column of the alignment pairs a gap with a gap. */
  predicate NoGapColumn(x: seq<char>, y: seq<char>)
    requires |x| == |y|
  {
    forall k :: 0 <= k < |x| ==> x[k] != GAP || y[k] != GAP
  }

  /** The cost of one column under the cost model. */
  function ColumnCost(c: char, d: char): int {
    if c == GAP || d == GAP then INDEL else Substitution(c, d)
  }

  /** The total cost of an alignment, column by column. */
  function ColumnScore(x: seq<char>, y: seq<char>): int
    requires |x| == |y|
  {
    if x == [] then 0
    else ColumnScore(x[..|x| - 1], y[..|y| - 1]) + ColumnCost(x[|x| - 1], y[|y| - 1])
  }

  /** An alignment of the prefixes `s1[0..i]` and `s2[0..j]`: two strings of
      equal length, no all-gap column, and deleting the gaps gives back the
      two prefixes. */
  predicate IsAlignment(s1: seq<char>, s2: seq<char>, i: int, j: int, x: seq<char>, y: seq<char>)
    requires InGrid(s1, s2, i, j)
  {
    |x| == |y| && NoGapColumn(x, y) && RemoveGaps(x) == s1[..i + 1] && RemoveGaps(y) == s2[..j + 1]
  }

  // ---------------------------------------------------------------------
  // The tables the builders produce are well formed

  /** `bp[p]` names the neighbour its move comes from, and that neighbour
      is the origin or has an entry itself. */
  ghost predicate LinksBack(bp: map<(int, int), Pointer>, p: (int, int), m: int, n: int)
    requires p in bp
  {
    && InTable(p, m, n) && p != (-1, -1)
    && (bp[p].pi, bp[p].pj) == Prev(p.0, p.1, bp[p].move)
    && bp[p].pi >= -1 && bp[p].pj >= -1
    && ((bp[p].pi, bp[p].pj) == (-1, -1) || (bp[p].pi, bp[p].pj) in bp)
  }

  /** Every unrestricted back-pointer leads back towards the origin. */
  lemma FullPointersWellFormed(s1: seq<char>, s2: seq<char>, m: nat, n: nat)
    requires m <= |s1| && n <= |s2|
    ensures WellFormed(FullPointers(s1, s2, m, n), m, n)
  {
    var bp := FullPointers(s1, s2, m, n);
    forall p | p in bp ensures LinksBack(bp, p, m, n) {
      FullPointerLinksBack(s1, s2, m, n, p);
    }
  }

  lemma FullPointerLinksBack(s1: seq<char>, s2: seq<char>, m: nat, n: nat, p: (int, int))
    requires m <= |s1| && n <= |s2| && p in FullPointers(s1, s2, m, n)
    ensures LinksBack(FullPointers(s1, s2, m, n), p, m, n)
  {
    var bp := FullPointers(s1, s2, m, n);
    var q := FullPointer(s1, s2, p.0, p.1);
    assert bp[p] == q;
    assert InTable((q.pi, q.pj), m, n);
  }

  /** Every banded back-pointer leads back towards the origin without
      leaving the band. */
  lemma BandPointersWellFormed(s1: seq<char>, s2: seq<char>, m: nat, n: nat)
    requires m <= |s1| && n <= |s2|
    ensures WellFormed(BandPointers(s1, s2, m, n), m, n)
  {
    var bp := BandPointers(s1, s2, m, n);
    forall p | p in bp ensures LinksBack(bp, p, m, n) {
      BandPointerLinksBack(s1, s2, m, n, p);
    }
  }

  lemma BandPointerLinksBack(s1: seq<char>, s2: seq<char>, m: nat, n: nat, p: (int, int))
    requires m <= |s1| && n <= |s2| && p in BandPointers(s1, s2, m, n)
    ensures LinksBack(BandPointers(s1, s2, m, n), p, m, n)
  {
    var bp := BandPointers(s1, s2, m, n);
    var q := BandPointer(s1, s2, p.0, p.1);
    assert bp[p] == q;
    assert InTable((q.pi, q.pj), m, n) && InBand(q.pi, q.pj);
  }

  // ---------------------------------------------------------------------
  // Properties of the corrected traceback

  /** Each step emits one symbol-or-gap into each string, so the two
      strings always have equal length. */
  lemma {:induction false} AlignedLengths(bp: map<(int, int), Pointer>, s1: seq<char>, s2: seq<char>,
                                          m: int, n: int, i: int, j: int)
    requires WellFormed(bp, m, n) && m <= |s1| && n <= |s2|
    requires (i, j) == (-1, -1) || (i, j) in bp
    ensures |Aligned(bp, s1, s2, m, n, i, j).0| == |Aligned(bp, s1, s2, m, n, i, j).1|
    decreases i + j + 2
  {
    if (i, j) != (-1, -1) {
      var p := bp[(i, j)];
      assert LinksBack(bp, (i, j), m, n);
      AlignedLengths(bp, s1, s2, m, n, p.pi, p.pj);
    }
  }

  /** When neither input contains the gap marker, the traceback yields an
      alignment of the two prefixes: deleting the gaps gives back
      `seq1[0..i]` and `seq2[0..j]`. */
  lemma {:induction false} AlignedIsAlignment(bp: map<(int, int), Pointer>, s1: seq<char>, s2: seq<char>,
                                              m: int, n: int, i: int, j: int)
    requires WellFormed(bp, m, n) && m <= |s1| && n <= |s2|
    requires GAP !in s1 && GAP !in s2
    requires (i, j) == (-1, -1) || (i, j) in bp
    ensures InGrid(s1, s2, i, j)
    ensures IsAlignment(s1, s2, i, j, Aligned(bp, s1, s2, m, n, i, j).0, Aligned(bp, s1, s2, m, n, i, j).1)
    decreases i + j + 2
  {
    AlignedLengths(bp, s1, s2, m, n, i, j);
    if (i, j) != (-1, -1) {
      var p := bp[(i, j)];
      assert LinksBack(bp, (i, j), m, n);
      AlignedIsAlignment(bp, s1, s2, m, n, p.pi, p.pj);
      AlignedLengths(bp, s1, s2, m, n, p.pi, p.pj);
      var rest := Aligned(bp, s1, s2, m, n, p.pi, p.pj);
      ExtendAlignment(s1, s2, i, j, p.move, rest.0, rest.1);
    }
  }

  /** Appending the column of one move to an alignment of the predecessor's
      prefixes gives an alignment of the cell's prefixes. */
  lemma ExtendAlignment(s1: seq<char>, s2: seq<char>, i: int, j: int, mv: Move, x: seq<char>, y: seq<char>)
    requires GAP !in s1 && GAP !in s2
    requires InGrid(s1, s2, i, j) && (i, j) != (-1, -1)
    requires mv != Left ==> 0 <= i
    requires mv != Top ==> 0 <= j
    requires InGrid(s1, s2, Prev(i, j, mv).0, Prev(i, j, mv).1)
    requires IsAlignment(s1, s2, Prev(i, j, mv).0, Prev(i, j, mv).1, x, y)
    ensures var col := Column(s1, s2, i, j, mv);
            IsAlignment(s1, s2, i, j, x + [col.0], y + [col.1])
  {
    var col := Column(s1, s2, i, j, mv);
    assert col.0 != GAP || col.1 != GAP by {
      if mv != Left { assert s1[i] in s1; } else { assert s2[j] in s2; }
    }
    NoGapColumnSnoc(x, y, col.0, col.1);
    ExtendSide(s1, i, mv != Left, x, col.0);
    ExtendSide(s2, j, mv != Top, y, col.1);
  }

  /** One string of `ExtendAlignment`: appending the symbol `s[i]` to a
      string whose symbols are `s[0..i-1]`, or a gap to one whose symbols
      are already `s[0..i]`, leaves exactly `s[0..i]`. */
  lemma ExtendSide(s: seq<char>, i: int, consumed: bool, x: seq<char>, c: char)
    requires GAP !in s && -1 <= i < |s|
    requires consumed ==> 0 <= i && c == s[i] && RemoveGaps(x) == s[..i]
    requires !consumed ==> c == GAP && RemoveGaps(x) == s[..i + 1]
    ensures RemoveGaps(x + [c]) == s[..i + 1]
  {
    RemoveGapsSnoc(x, c);
    if consumed {
      assert c != GAP by { assert s[i] in s; }
      assert RemoveGaps(x + [c]) == s[..i] + [c];
      assert s[..i] + [c] == s[..i + 1];
    } else {
      assert RemoveGaps(x + [c]) == RemoveGaps(x);
    }
  }

  /** Deleting gaps distributes over appending one symbol. */
  lemma RemoveGapsSnoc(x: seq<char>, c: char)
    ensures RemoveGaps(x + [c]) == RemoveGaps(x) + (if c == GAP then [] else [c])
  {
    assert (x + [c])[..|x|] == x;
  }

  /** Appending a column that is not all gaps keeps an alignment free of
      all-gap columns. */
  lemma NoGapColumnSnoc(x: seq<char>, y: seq<char>, c: char, d: char)
    requires |x| == |y| && NoGapColumn(x, y) && (c != GAP || d != GAP)
    ensures NoGapColumn(x + [c], y + [d])
  {
    forall k | 0 <= k < |x| + 1 ensures (x + [c])[k] != GAP || (y + [d])[k] != GAP {
      if k < |x| {
        assert (x + [c])[k] == x[k] && (y + [d])[k] == y[k];
      }
    }
  }

  /** The alignment traced through the unrestricted table scores exactly the
      table's cost for that cell. */
  lemma {:induction false} AlignedScoresFull(s1: seq<char>, s2: seq<char>, m: nat, n: nat, i: int, j: int)
    requires m <= |s1| && n <= |s2| && GAP !in s1 && GAP !in s2
    requires InTable((i, j), m, n)
    ensures WellFormed(FullPointers(s1, s2, m, n), m, n)
    ensures var al := Aligned(FullPointers(s1, s2, m, n), s1, s2, m, n, i, j);
            |al.0| == |al.1| && ColumnScore(al.0, al.1) == Full(s1, s2, i, j)
    decreases i + j + 2
  {
    var bp := FullPointers(s1, s2, m, n);
    FullPointersWellFormed(s1, s2, m, n);
    if (i, j) != (-1, -1) {
      var p := bp[(i, j)];
      assert LinksBack(bp, (i, j), m, n);
      AlignedScoresFull(s1, s2, m, n, p.pi, p.pj);
      AlignedScoresFullStep(s1, s2, m, n, i, j);
    }
  }

  /** The step of `AlignedScoresFull`: if the alignment traced from a
      cell's predecessor scores the predecessor's cost, the one traced from
      the cell scores the cell's cost. */
  lemma AlignedScoresFullStep(s1: seq<char>, s2: seq<char>, m: nat, n: nat, i: int, j: int)
    requires m <= |s1| && n <= |s2| && GAP !in s1 && GAP !in s2
    requires InTable((i, j), m, n) && (i, j) != (-1, -1)
    requires WellFormed(FullPointers(s1, s2, m, n), m, n)
    requires LinksBack(FullPointers(s1, s2, m, n), (i, j), m, n)
    requires var p := FullPointers(s1, s2, m, n)[(i, j)];
             var al := Aligned(FullPointers(s1, s2, m, n), s1, s2, m, n, p.pi, p.pj);
             |al.0| == |al.1| && ColumnScore(al.0, al.1) == Full(s1, s2, p.pi, p.pj)
    ensures var al := Aligned(FullPointers(s1, s2, m, n), s1, s2, m, n, i, j);
            |al.0| == |al.1| && ColumnScore(al.0, al.1) == Full(s1, s2, i, j)
  {
    var bp := FullPointers(s1, s2, m, n);
    var p := bp[(i, j)];
    assert p == FullPointer(s1, s2, i, j);
    FullStep(s1, s2, i, j);
    AlignedScoreStep(bp, s1, s2, m, n, i, j);
  }

  /** The alignment traced through the banded table scores exactly the
      banded cost of that (in-band) cell. */
  lemma {:induction false} AlignedScoresBand(s1: seq<char>, s2: seq<char>, m: nat, n: nat, i: int, j: int)
    requires m <= |s1| && n <= |s2| && GAP !in s1 && GAP !in s2
    requires InTable((i, j), m, n) && InBand(i, j)
    ensures WellFormed(BandPointers(s1, s2, m, n), m, n)
    ensures BandCost(s1, s2, i, j).Fin?
    ensures var al := Aligned(BandPointers(s1, s2, m, n), s1, s2, m, n, i, j);
            |al.0| == |al.1| && ColumnScore(al.0, al.1) == BandCost(s1, s2, i, j).v
    decreases i + j + 2
  {
    var bp := BandPointers(s1, s2, m, n);
    BandPointersWellFormed(s1, s2, m, n);
    BandInfIffOutside(s1, s2, i, j);
    if (i, j) != (-1, -1) {
      var p := bp[(i, j)];
      assert LinksBack(bp, (i, j), m, n);
      assert p == BandPointer(s1, s2, i, j);
      AlignedScoresBand(s1, s2, m, n, p.pi, p.pj);
      AlignedScoresBandStep(s1, s2, m, n, i, j);
    }
  }

  /** The step of `AlignedScoresBand`, as `AlignedScoresFullStep`. */
  lemma AlignedScoresBandStep(s1: seq<char>, s2: seq<char>, m: nat, n: nat, i: int, j: int)
    requires m <= |s1| && n <= |s2| && GAP !in s1 && GAP !in s2
    requires InTable((i, j), m, n) && InBand(i, j) && (i, j) != (-1, -1)
    requires WellFormed(BandPointers(s1, s2, m, n), m, n)
    requires LinksBack(BandPointers(s1, s2, m, n), (i, j), m, n)
    requires BandCost(s1, s2, i, j).Fin?
    requires var p := BandPointers(s1, s2, m, n)[(i, j)];
             var al := Aligned(BandPointers(s1, s2, m, n), s1, s2, m, n, p.pi, p.pj);
             && BandCost(s1, s2, p.pi, p.pj).Fin?
             && |al.0| == |al.1| && ColumnScore(al.0, al.1) == BandCost(s1, s2, p.pi, p.pj).v
    ensures var al := Aligned(BandPointers(s1, s2, m, n), s1, s2, m, n, i, j);
            |al.0| == |al.1| && ColumnScore(al.0, al.1) == BandCost(s1, s2, i, j).v
  {
    var bp := BandPointers(s1, s2, m, n);
    var p := bp[(i, j)];
    assert p == BandPointer(s1, s2, i, j);
    BandStep(s1, s2, i, j);
    var prev, step := BandCost(s1, s2, p.pi, p.pj), StepCost(s1, s2, i, j, p.move);
    assert BandCost(s1, s2, i, j) == Plus(prev, step);
    AlignedScoreStep(bp, s1, s2, m, n, i, j);
  }

  /** One step of the traceback adds the cost of the cell's move to the
      score of the alignment traced from its predecessor. */
  lemma AlignedScoreStep(bp: map<(int, int), Pointer>, s1: seq<char>, s2: seq<char>, m: int, n: int, i: int, j: int)
    requires WellFormed(bp, m, n) && m <= |s1| && n <= |s2| && GAP !in s1 && GAP !in s2
    requires (i, j) in bp && LinksBack(bp, (i, j), m, n)
    ensures var p := bp[(i, j)];
            var al, rest := Aligned(bp, s1, s2, m, n, i, j), Aligned(bp, s1, s2, m, n, p.pi, p.pj);
            |rest.0| == |rest.1| ==>
              |al.0| == |al.1| && ColumnScore(al.0, al.1) == ColumnScore(rest.0, rest.1) + StepCost(s1, s2, i, j, p.move)
  {
    var p := bp[(i, j)];
    var rest := Aligned(bp, s1, s2, m, n, p.pi, p.pj);
    var col := Column(s1, s2, i, j, p.move);
    var x, y := rest.0 + [col.0], rest.1 + [col.1];
    assert Aligned(bp, s1, s2, m, n, i, j) == (x, y);
    if |rest.0| == |rest.1| {
      assert x[..|x| - 1] == rest.0 && y[..|y| - 1] == rest.1;
      ColumnStepCost(s1, s2, i, j, p.move);
      assert ColumnScore(x, y) == ColumnScore(rest.0, rest.1) + ColumnCost(col.0, col.1);
    }
  }

  /** The column a move emits costs what that move costs in the
      recurrence. */
  lemma ColumnStepCost(s1: seq<char>, s2: seq<char>, i: int, j: int, mv: Move)
    requires GAP !in s1 && GAP !in s2
    requires InGrid(s1, s2, i, j) && Prev(i, j, mv).0 >= -1 && Prev(i, j, mv).1 >= -1
    ensures ColumnCost(Column(s1, s2, i, j, mv).0, Column(s1, s2, i, j, mv).1) == StepCost(s1, s2, i, j, mv)
  {
    match mv {
      case Left => assert Column(s1, s2, i, j, mv).0 == GAP;
      case Top => assert Column(s1, s2, i, j, mv).1 == GAP;
      case Diagonal =>
        assert s1[i] in s1 && s2[j] in s2;
        assert Column(s1, s2, i, j, mv) == (s1[i], s2[j]);
    }
  }

  /** One column costs at least the step it takes in the unrestricted
      table. */
  lemma FullColumnBound(s1: seq<char>, s2: seq<char>, i: int, j: int, i': int, j': int, c: char, d: char)
    requires InGrid(s1, s2, i, j) && InGrid(s1, s2, i', j')
    requires c != GAP ==> i' == i - 1 && c == s1[i]
    requires c == GAP ==> i' == i && d != GAP
    requires d != GAP ==> j' == j - 1 && d == s2[j]
    requires d == GAP ==> j' == j
    ensures Full(s1, s2, i, j) <= Full(s1, s2, i', j') + ColumnCost(c, d)
  {
    if c != GAP && d != GAP {
      FullIsMin(s1, s2, i, j);
    } else if c == GAP {
      if i >= 0 {
        FullIsMin(s1, s2, i, j);
      }
    } else {
      if j >= 0 {
        FullIsMin(s1, s2, i, j);
      }
    }
  }

  /** Needleman-Wunsch optimality: no alignment of `seq1[0..i]` with
      `seq2[0..j]` scores below the unrestricted cost of cell `(i, j)`. */
  lemma {:induction false} FullIsOptimal(s1: seq<char>, s2: seq<char>, i: int, j: int, x: seq<char>, y: seq<char>)
    requires InGrid(s1, s2, i, j) && IsAlignment(s1, s2, i, j, x, y)
    ensures Full(s1, s2, i, j) <= ColumnScore(x, y)
    decreases |x|
  {
    if x == [] {
      assert |s1[..i + 1]| == 0 && |s2[..j + 1]| == 0;
    } else {
      var k := |x| - 1;
      var i', j' := PeelColumn(s1, s2, i, j, x, y);
      FullIsOptimal(s1, s2, i', j', x[..k], y[..k]);
      var c, d := x[k], y[k];
      assert ColumnScore(x, y) == ColumnScore(x[..k], y[..k]) + ColumnCost(c, d);
      FullColumnBound(s1, s2, i, j, i', j', c, d);
    }
  }

  /** Removing the last column of an alignment of `seq1[0..i]` and
      `seq2[0..j]` leaves an alignment of the prefixes that column did not
      consume. */
  lemma PeelColumn(s1: seq<char>, s2: seq<char>, i: int, j: int, x: seq<char>, y: seq<char>)
      returns (i': int, j': int)
    requires InGrid(s1, s2, i, j) && IsAlignment(s1, s2, i, j, x, y) && x != []
    ensures InGrid(s1, s2, i', j') && IsAlignment(s1, s2, i', j', x[..|x| - 1], y[..|y| - 1])
    ensures x[|x| - 1] != GAP ==> i' == i - 1 && x[|x| - 1] == s1[i]
    ensures x[|x| - 1] == GAP ==> i' == i && y[|y| - 1] != GAP
    ensures y[|y| - 1] != GAP ==> j' == j - 1 && y[|y| - 1] == s2[j]
    ensures y[|y| - 1] == GAP ==> j' == j
  {
    var k := |x| - 1;
    var x', y' := x[..k], y[..k];
    var c, d := x[k], y[k];
    assert NoGapColumn(x', y') by {
      forall t | 0 <= t < k ensures x'[t] != GAP || y'[t] != GAP {
        assert x'[t] == x[t] && y'[t] == y[t];
      }
    }
    if c != GAP {
      SnocPrefix(RemoveGaps(x'), c, s1, i);
      i' := i - 1;
    } else {
      i' := i;
    }
    if d != GAP {
      SnocPrefix(RemoveGaps(y'), d, s2, j);
      j' := j - 1;
    } else {
      j' := j;
    }
  }

  /** Peeling the last symbol off a prefix of `s`. */
  lemma SnocPrefix(r: seq<char>, c: char, s: seq<char>, i: int)
    requires -1 <= i < |s| && r + [c] == s[..i + 1]
    ensures i >= 0 && r == s[..i] && c == s[i]
  {
    assert |r| == i;
    assert (r + [c])[..i] == r;
    assert s[..i + 1][..i] == s[..i];
  }

  // ---------------------------------------------------------------------
  // The traceback as written

  /** When the traceback's last cell is `(0, 0)` (whose move is always
      diagonal) the code as written builds exactly the corrected
      alignment. */
  lemma {:induction false} AsWrittenAgreesAtOrigin(bp: map<(int, int), Pointer>, s1: seq<char>, s2: seq<char>,
                                                   m: int, n: int, i: int, j: int)
    requires WellFormed(bp, m, n) && m <= |s1| && n <= |s2|
    requires |s1| >= 1 && |s2| >= 1
    requires (i, j) in bp && LastCell(bp, m, n, i, j) == (0, 0)
    ensures AlignedAsWritten(bp, s1, s2, m, n, i, j) == Aligned(bp, s1, s2, m, n, i, j)
    decreases i + j + 2
  {
    var p := bp[(i, j)];
    assert LinksBack(bp, (i, j), m, n);
    if (p.pi, p.pj) != (-1, -1) {
      AsWrittenAgreesAtOrigin(bp, s1, s2, m, n, p.pi, p.pj);
    } else {
      assert LastCell(bp, m, n, i, j) == (i, j);
      assert p.move == Diagonal by {
        match p.move
        case Left => assert false;
        case Top => assert false;
        case Diagonal =>
      }
      assert Aligned(bp, s1, s2, m, n, -1, -1) == ([], []);
      assert Aligned(bp, s1, s2, m, n, 0, 0) == ([] + [s1[0]], [] + [s2[0]]);
      assert AlignedAsWritten(bp, s1, s2, m, n, 0, 0) == ([s1[0]], [] + [s2[0]]);
      assert [] + [s1[0]] == [s1[0]];
    }
  }

  /** The columns the code as written prepends for the cell `c` where the
      loop stops: `seq1[i]` and `seq2[j]` read with Python indexing, and a
      further gap on the second string when `c` was entered by a `top`
      move. */
  function StopColumns(bp: map<(int, int), Pointer>, s1: seq<char>, s2: seq<char>,
                       m: int, n: int, c: (int, int)): (h: (seq<char>, seq<char>))
    requires WellFormed(bp, m, n) && m <= |s1| && n <= |s2|
    requires |s1| >= 1 && |s2| >= 1
    requires c in bp
    ensures |h.0| == 1 && |h.1| == (if bp[c].move == Top then 2 else 1)
    ensures h.1[|h.1| - 1] == PyIndex(s2, c.1)
  {
    assert LinksBack(bp, c, m, n);
    ([PyIndex(s1, c.0)], (if bp[c].move == Top then [GAP] else []) + [PyIndex(s2, c.1)])
  }

  /** The traceback as written differs from the corrected one only at its
      start: it drops the first column of the corrected alignment (the
      column of the stop cell's move) and puts `StopColumns` in its place. */
  lemma {:induction false} AsWrittenReplacesFirstColumn(bp: map<(int, int), Pointer>, s1: seq<char>, s2: seq<char>,
                                                        m: int, n: int, i: int, j: int)
    requires WellFormed(bp, m, n) && m <= |s1| && n <= |s2|
    requires |s1| >= 1 && |s2| >= 1
    requires (i, j) in bp
    ensures var a, h := Aligned(bp, s1, s2, m, n, i, j), StopColumns(bp, s1, s2, m, n, LastCell(bp, m, n, i, j));
            && |a.0| >= 1 && |a.1| >= 1
            && AlignedAsWritten(bp, s1, s2, m, n, i, j) == (h.0 + a.0[1..], h.1 + a.1[1..])
    decreases i + j + 2
  {
    var p := bp[(i, j)];
    assert LinksBack(bp, (i, j), m, n);
    var col := Column(s1, s2, i, j, p.move);
    if (p.pi, p.pj) == (-1, -1) {
      var h := StopColumns(bp, s1, s2, m, n, (i, j));
      assert Aligned(bp, s1, s2, m, n, -1, -1) == ([], []);
      assert LastCell(bp, m, n, i, j) == (i, j);
      assert AlignedAsWritten(bp, s1, s2, m, n, i, j) == h;
      var a := Aligned(bp, s1, s2, m, n, i, j);
      assert a == ([] + [col.0], [] + [col.1]);
      assert a.0[1..] == [] && a.1[1..] == [];
      assert h.0 + [] == h.0 && h.1 + [] == h.1;
    } else {
      AsWrittenReplacesFirstColumn(bp, s1, s2, m, n, p.pi, p.pj);
      var a := Aligned(bp, s1, s2, m, n, p.pi, p.pj);
      var h := StopColumns(bp, s1, s2, m, n, LastCell(bp, m, n, i, j));
      assert (a.0 + [col.0])[1..] == a.0[1..] + [col.0];
      assert (a.1 + [col.1])[1..] == a.1[1..] + [col.1];
      assert h.0 + (a.0[1..] + [col.0]) == (h.0 + a.0[1..]) + [col.0];
      assert h.1 + (a.1[1..] + [col.1]) == (h.1 + a.1[1..]) + [col.1];
    }
  }

  /** The two strings of the traceback as written have equal length unless
      the loop stops at a cell entered by a `top` move, where the second is
      one longer. */
  lemma AsWrittenLengths(bp: map<(int, int), Pointer>, s1: seq<char>, s2: seq<char>,
                         m: int, n: int, i: int, j: int)
    requires WellFormed(bp, m, n) && m <= |s1| && n <= |s2|
    requires |s1| >= 1 && |s2| >= 1
    requires (i, j) in bp
    ensures var w := AlignedAsWritten(bp, s1, s2, m, n, i, j);
            |w.1| == |w.0| + (if bp[LastCell(bp, m, n, i, j)].move == Top then 1 else 0)
  {
    AsWrittenReplacesFirstColumn(bp, s1, s2, m, n, i, j);
    AlignedLengths(bp, s1, s2, m, n, i, j);
  }

  /** "AB" against "B", unrestricted: the table's path ends at `(0, -1)`
      with a `top` move, and the code as written returns "AB" / "-BB",
      strings of different lengths, where the intended alignment is
      "AB" / "-B". */
  lemma AsWrittenUnequalLengths()
    ensures WellFormed(FullPointers("AB", "B", 2, 1), 2, 1)
    ensures (1, 0) in FullPointers("AB", "B", 2, 1)
    ensures AlignedAsWritten(FullPointers("AB", "B", 2, 1), "AB", "B", 2, 1, 1, 0) == ("AB", "-BB")
    ensures Aligned(FullPointers("AB", "B", 2, 1), "AB", "B", 2, 1, 1, 0) == ("AB", "-B")
  {
    ExamplePointers();
    ExampleTraces(FullPointers("AB", "B", 2, 1));
  }

  /** The two back-pointers on the path from cell `(1, 0)` when "AB" is
      aligned with "B": a diagonal move to `(0, -1)`, then a `top` move to
      the origin. */
  lemma ExamplePointers()
    ensures WellFormed(FullPointers("AB", "B", 2, 1), 2, 1)
    ensures (1, 0) in FullPointers("AB", "B", 2, 1) && (0, -1) in FullPointers("AB", "B", 2, 1)
    ensures FullPointers("AB", "B", 2, 1)[(1, 0)] == Pointer(0, -1, Diagonal)
    ensures FullPointers("AB", "B", 2, 1)[(0, -1)] == Pointer(-1, -1, Top)
  {
    var s1, s2 := "AB", "B";
    var bp := FullPointers(s1, s2, 2, 1);
    FullPointersWellFormed(s1, s2, 2, 1);
    FullBoundary(s1, s2, 0, -1);
    FullBoundary(s1, s2, 1, -1);
    FullBoundary(s1, s2, -1, 0);
    assert FullMove(s1, s2, 0, 0) == Diagonal;
    assert Full(s1, s2, 0, 0) == 1;
    assert FullMove(s1, s2, 1, 0) == Diagonal;
    assert bp[(1, 0)] == FullPointer(s1, s2, 1, 0);
    assert bp[(0, -1)] == FullPointer(s1, s2, 0, -1);
  }

  /** Both tracebacks from `(1, 0)` along the pointers of `ExamplePointers`. */
  lemma ExampleTraces(bp: map<(int, int), Pointer>)
    requires WellFormed(bp, 2, 1)
    requires (1, 0) in bp && (0, -1) in bp
    requires bp[(1, 0)] == Pointer(0, -1, Diagonal) && bp[(0, -1)] == Pointer(-1, -1, Top)
    ensures AlignedAsWritten(bp, "AB", "B", 2, 1, 1, 0) == ("AB", "-BB")
    ensures Aligned(bp, "AB", "B", 2, 1, 1, 0) == ("AB", "-B")
  {
    var s1, s2 := "AB", "B";
    assert PyIndex(s2, -1) == 'B';
    var w := AlignedAsWritten(bp, s1, s2, 2, 1, 0, -1);
    assert w == (['A'], [GAP] + ['B']);
    assert AlignedAsWritten(bp, s1, s2, 2, 1, 1, 0) == (w.0 + ['B'], w.1 + ['B']);
    assert w.0 + ['B'] == "AB" && w.1 + ['B'] == "-BB";
    var r := Aligned(bp, s1, s2, 2, 1, 0, -1);
    assert Aligned(bp, s1, s2, 2, 1, -1, -1) == ([], []);
    assert r == ([] + ['A'], [] + [GAP]);
    assert Aligned(bp, s1, s2, 2, 1, 1, 0) == (r.0 + ['B'], r.1 + ['B']);
    assert r.0 + ['B'] == "AB" && r.1 + ['B'] == "-B";
  }

  /** "B" against "AB", unrestricted: the table's path ends at `(-1, 0)`
      with a `left` move. The code as written puts `seq1[-1]`, the last
      symbol of "B", where the corrected traceback has a gap: "BB" / "AB"
      has equal lengths but is not an alignment of "B" with "AB". The
      corrected traceback gives "-B" / "AB". */
  lemma AsWrittenLeftStop()
    ensures WellFormed(FullPointers("B", "AB", 1, 2), 1, 2)
    ensures (0, 1) in FullPointers("B", "AB", 1, 2)
    ensures AlignedAsWritten(FullPointers("B", "AB", 1, 2), "B", "AB", 1, 2, 0, 1) == ("BB", "AB")
    ensures Aligned(FullPointers("B", "AB", 1, 2), "B", "AB", 1, 2, 0, 1) == ("-B", "AB")
    ensures !IsAlignment("B", "AB", 0, 1, "BB", "AB")
  {
    LeftStopPointers();
    LeftStopTraces(FullPointers("B", "AB", 1, 2));
    assert RemoveGaps("BB") == RemoveGaps("B") + "B";
    assert RemoveGaps("B") == RemoveGaps([]) + "B";
    assert "B"[..0 + 1] == "B";
  }

  /** The two back-pointers on the path from cell `(0, 1)` when "B" is
      aligned with "AB": a diagonal move to `(-1, 0)`, then a `left` move to
      the origin. */
  lemma LeftStopPointers()
    ensures WellFormed(FullPointers("B", "AB", 1, 2), 1, 2)
    ensures (0, 1) in FullPointers("B", "AB", 1, 2) && (-1, 0) in FullPointers("B", "AB", 1, 2)
    ensures FullPointers("B", "AB", 1, 2)[(0, 1)] == Pointer(-1, 0, Diagonal)
    ensures FullPointers("B", "AB", 1, 2)[(-1, 0)] == Pointer(-1, -1, Left)
  {
    var s1, s2 := "B", "AB";
    var bp := FullPointers(s1, s2, 1, 2);
    FullPointersWellFormed(s1, s2, 1, 2);
    FullBoundary(s1, s2, -1, 0);
    FullBoundary(s1, s2, -1, 1);
    FullBoundary(s1, s2, 0, -1);
    assert FullMove(s1, s2, 0, 0) == Diagonal;
    assert Full(s1, s2, 0, 0) == 1;
    assert FullMove(s1, s2, 0, 1) == Diagonal;
    assert bp[(0, 1)] == FullPointer(s1, s2, 0, 1);
    assert bp[(-1, 0)] == FullPointer(s1, s2, -1, 0);
  }

  /** Both tracebacks from `(0, 1)` along the pointers of `LeftStopPointers`. */
  lemma LeftStopTraces(bp: map<(int, int), Pointer>)
    requires WellFormed(bp, 1, 2)
    requires (0, 1) in bp && (-1, 0) in bp
    requires bp[(0, 1)] == Pointer(-1, 0, Diagonal) && bp[(-1, 0)] == Pointer(-1, -1, Left)
    ensures AlignedAsWritten(bp, "B", "AB", 1, 2, 0, 1) == ("BB", "AB")
    ensures Aligned(bp, "B", "AB", 1, 2, 0, 1) == ("-B", "AB")
  {
    var s1, s2 := "B", "AB";
    assert PyIndex(s1, -1) == 'B';
    var w := AlignedAsWritten(bp, s1, s2, 1, 2, -1, 0);
    assert w == (['B'], [] + ['A']);
    assert AlignedAsWritten(bp, s1, s2, 1, 2, 0, 1) == (w.0 + ['B'], w.1 + ['B']);
    assert w.0 + ['B'] == "BB" && w.1 + ['B'] == "AB";
    var r := Aligned(bp, s1, s2, 1, 2, -1, 0);
    assert Aligned(bp, s1, s2, 1, 2, -1, -1) == ([], []);
    assert r == ([] + [GAP], [] + ['A']);
    assert Aligned(bp, s1, s2, 1, 2, 0, 1) == (r.0 + ['B'], r.1 + ['B']);
    assert r.0 + ['B'] == "-B" && r.1 + ['B'] == "AB";
  }
}
