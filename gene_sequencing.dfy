/** The aligner object: it fills its cost and back-pointer tables for two
    sequences, either over the whole table or only inside the diagonal band,
    traces one optimal alignment back from the last cell, and reports the
    cost together with the first 100 columns of that alignment. */
module Sequencing {
  import opened CostModel
  import opened Recurrence
  import opened Traceback

  /** The Python exceptions `align` can end with. */
  datatype PyError = KeyError | IndexError

  datatype Option<T> = None | Some(value: T)

  /** What `align` hands back: the result dictionary, or an exception. */
  datatype Outcome =
    | Returned(cost: Cost, first1: seq<char>, first2: seq<char>)
    | Raised(error: PyError)

  /** What `align` reports in place of an alignment when the banded cost is
      infinite. */
  const NO_ALIGNMENT: string := "No Alignment Possible"

  /** How many columns of the alignment `align` reports. */
  const SHOWN: nat := 100

  /** How many symbols of a sequence are aligned: the sequence's length,
      capped by the requested alignment length. */
  function MinLength(limit: nat, s: seq<char>): (r: nat)
    ensures r <= |s| && r <= limit
    ensures r == |s| || r == limit
  {
    if limit > |s| then |s| else limit
  }

  /** Python's `s[:100]`. */
  function Take(s: seq<char>): (r: seq<char>)
    ensures |r| <= SHOWN
    ensures |s| <= SHOWN ==> r == s
    ensures |s| > SHOWN ==> |r| == SHOWN
    ensures forall k :: 0 <= k < |r| ==> k < |s| && r[k] == s[k]
  {
    if |s| <= SHOWN then s else s[..SHOWN]
  }

  /** Row-major order of the table sweep: `p` has been filled once the
      sweep has reached `(i, j)`. The origin is filled before the sweep. */
  predicate Done(p: (int, int), i: int, j: int) {
    p == (-1, -1) || p.0 < i || (p.0 == i && p.1 < j)
  }

  /** The cost `align` finds for the first `limit` symbols of each sequence. */
  function TableScore(s1: seq<char>, s2: seq<char>, banded: bool, limit: nat): Cost {
    var m, n := MinLength(limit, s1), MinLength(limit, s2);
    if banded then BandCost(s1, s2, m - 1, n - 1) else Fin(Full(s1, s2, m - 1, n - 1))
  }

  /** The back-pointer table `align` builds. */
  function TablePointers(s1: seq<char>, s2: seq<char>, banded: bool, limit: nat): map<(int, int), Pointer> {
    var m, n := MinLength(limit, s1), MinLength(limit, s2);
    if banded then BandPointers(s1, s2, m, n) else FullPointers(s1, s2, m, n)
  }

  lemma TablePointersWellFormed(s1: seq<char>, s2: seq<char>, banded: bool, limit: nat)
    ensures WellFormed(TablePointers(s1, s2, banded, limit), MinLength(limit, s1), MinLength(limit, s2))
  {
    var m, n := MinLength(limit, s1), MinLength(limit, s2);
    if banded {
      BandPointersWellFormed(s1, s2, m, n);
    } else {
      FullPointersWellFormed(s1, s2, m, n);
    }
  }

  /** Whenever the cost is finite and something is aligned, the last cell
      has a back-pointer to trace from. */
  lemma LastCellHasPointer(s1: seq<char>, s2: seq<char>, banded: bool, limit: nat)
    requires TableScore(s1, s2, banded, limit).Fin?
    requires MinLength(limit, s1) > 0 || MinLength(limit, s2) > 0
    ensures (MinLength(limit, s1) - 1, MinLength(limit, s2) - 1) in TablePointers(s1, s2, banded, limit)
  {
    var m: int, n: int := MinLength(limit, s1), MinLength(limit, s2);
    if banded {
      BandInfIffOutside(s1, s2, m - 1, n - 1);
    }
  }

  /** What lines 182-194 of `align` return for given tables, with the
      traceback as written: the sentinel for an infinite cost, `KeyError`
      when the last cell has no back-pointer, `IndexError` when the
      traceback's final step indexes an empty sequence, and otherwise the
      first 100 symbols of each string the traceback builds. */
  function Reported(score: Cost, bp: map<(int, int), Pointer>, s1: seq<char>, s2: seq<char>, m: nat, n: nat): Outcome
    requires m <= |s1| && n <= |s2| && WellFormed(bp, m, n)
  {
    if score.Inf? then Returned(Inf, NO_ALIGNMENT, NO_ALIGNMENT)
    else if (m - 1, n - 1) !in bp then Raised(KeyError)
    else if |s1| == 0 || |s2| == 0 then Raised(IndexError)
    else Returned(score, Take(AlignedAsWritten(bp, s1, s2, m, n, m - 1, n - 1).0),
                         Take(AlignedAsWritten(bp, s1, s2, m, n, m - 1, n - 1).1))
  }

  /** The same report with the corrected traceback, which never indexes
      out of range. */
  function ReportedIntended(score: Cost, bp: map<(int, int), Pointer>, s1: seq<char>, s2: seq<char>, m: nat, n: nat): Outcome
    requires m <= |s1| && n <= |s2| && WellFormed(bp, m, n)
  {
    if score.Inf? then Returned(Inf, NO_ALIGNMENT, NO_ALIGNMENT)
    else if (m - 1, n - 1) !in bp then Raised(KeyError)
    else Returned(score, Take(Aligned(bp, s1, s2, m, n, m - 1, n - 1).0), Take(Aligned(bp, s1, s2, m, n, m - 1, n - 1).1))
  }

  /** What `align(seq1, seq2, banded, align_length)` returns: the report on
      the tables the selected builder fills. */
  function AlignSpec(s1: seq<char>, s2: seq<char>, banded: bool, limit: nat): Outcome {
    TablePointersWellFormed(s1, s2, banded, limit);
    Reported(TableScore(s1, s2, banded, limit), TablePointers(s1, s2, banded, limit), s1, s2, MinLength(limit, s1), MinLength(limit, s2))
  }

  /** What `align` would return with the corrected traceback. */
  function AlignIntended(s1: seq<char>, s2: seq<char>, banded: bool, limit: nat): Outcome {
    TablePointersWellFormed(s1, s2, banded, limit);
    ReportedIntended(TableScore(s1, s2, banded, limit), TablePointers(s1, s2, banded, limit), s1, s2, MinLength(limit, s1), MinLength(limit, s2))
  }

  /** The traceback from the last cell stops at `(0, 0)`, the one stop
      cell where the code as written emits the right column. */
  ghost predicate StopsAtOrigin(bp: map<(int, int), Pointer>, m: int, n: int)
    requires WellFormed(bp, m, n)
  {
    (m - 1, n - 1) in bp && LastCell(bp, m, n, m - 1, n - 1) == (0, 0)
  }

  /** `StopsAtOrigin` for the tables `align` builds. */
  ghost predicate PathStopsAtOrigin(s1: seq<char>, s2: seq<char>, banded: bool, limit: nat) {
    TablePointersWellFormed(s1, s2, banded, limit);
    StopsAtOrigin(TablePointers(s1, s2, banded, limit), MinLength(limit, s1), MinLength(limit, s2))
  }

  /** Moving the sweep on by one cell adds exactly that cell. */
  lemma DoneStep(p: (int, int), i: int, j: int)
    ensures Done(p, i, j + 1) <==> Done(p, i, j) || p == (i, j)
  {
  }

  /** The entries of `spec` a row-major sweep has written once it has
      reached `(i, j)`. */
  function Prefix<V>(spec: map<(int, int), V>, i: int, j: int): (r: map<(int, int), V>)
    ensures forall p {:trigger p in r} :: p in r <==> p in spec && Done(p, i, j)
    ensures forall p {:trigger r[p]} :: p in r ==> r[p] == spec[p]
  {
    map p | p in spec && Done(p, i, j) :: spec[p]
  }

  /** Writing the entry of the current cell moves the sweep one cell on. */
  lemma PrefixStep<V>(spec: map<(int, int), V>, i: int, j: int)
    requires (i, j) in spec
    ensures Prefix(spec, i, j)[(i, j) := spec[(i, j)]] == Prefix(spec, i, j + 1)
  {
    var before, after := Prefix(spec, i, j)[(i, j) := spec[(i, j)]], Prefix(spec, i, j + 1);
    forall p ensures p in before <==> p in after {
      DoneStep(p, i, j);
    }
  }

  /** Cells with no entry in `spec` are passed over without a write. */
  lemma PrefixSkip<V>(spec: map<(int, int), V>, i: int, j: int, j': int)
    requires j <= j'
    requires forall c :: j <= c < j' ==> (i, c) !in spec
    ensures Prefix(spec, i, j) == Prefix(spec, i, j')
  {
    var before, after := Prefix(spec, i, j), Prefix(spec, i, j');
    forall p ensures p in before <==> p in after {
      if p.0 == i && j <= p.1 < j' {
        assert (i, p.1) == p;
      }
    }
  }

  /** Once a row is finished the sweep continues at the start of the next
      one, provided every entry of `spec` lies in columns -1 to `n - 1`. */
  lemma PrefixRow<V>(spec: map<(int, int), V>, i: int, n: int)
    requires forall p :: p in spec ==> -1 <= p.1 < n
    ensures Prefix(spec, i, n) == Prefix(spec, i + 1, -1)
  {
    var before, after := Prefix(spec, i, n), Prefix(spec, i + 1, -1);
    forall p ensures p in before <==> p in after {
    }
  }

  /** After the last row the sweep has written all of `spec`. */
  lemma PrefixAll<V>(spec: map<(int, int), V>, m: int)
    requires forall p :: p in spec ==> p.0 < m
    ensures Prefix(spec, m, -1) == spec
  {
    var all := Prefix(spec, m, -1);
    forall p ensures p in all <==> p in spec {
    }
  }

  /** Before the sweep only the origin is written, and it has no
      back-pointer. */
  lemma FullStart(a: seq<char>, b: seq<char>, m: nat, n: nat)
    requires m <= |a| && n <= |b|
    ensures map[(-1, -1) := Fin(0)] == Prefix(FullMatrix(a, b, m, n), -1, -1)
    ensures map[] == Prefix(FullPointers(a, b, m, n), -1, -1)
  {
    var start := Prefix(FullMatrix(a, b, m, n), -1, -1);
    assert (-1, -1) in start;
    assert Prefix(FullPointers(a, b, m, n), -1, -1) == map[];
  }

  /** A finished row hands over to the next one. */
  lemma FullRow(a: seq<char>, b: seq<char>, m: nat, n: nat, i: int)
    requires m <= |a| && n <= |b|
    ensures Prefix(FullMatrix(a, b, m, n), i, n) == Prefix(FullMatrix(a, b, m, n), i + 1, -1)
    ensures Prefix(FullPointers(a, b, m, n), i, n) == Prefix(FullPointers(a, b, m, n), i + 1, -1)
  {
    PrefixRow(FullMatrix(a, b, m, n), i, n);
    PrefixRow(FullPointers(a, b, m, n), i, n);
  }

  /** After the last row the sweep has written both whole tables, the last
      cell included. */
  lemma FullFinished(a: seq<char>, b: seq<char>, m: nat, n: nat)
    requires m <= |a| && n <= |b|
    ensures Prefix(FullMatrix(a, b, m, n), m, -1) == FullMatrix(a, b, m, n)
    ensures Prefix(FullPointers(a, b, m, n), m, -1) == FullPointers(a, b, m, n)
  {
    PrefixAll(FullMatrix(a, b, m, n), m);
    PrefixAll(FullPointers(a, b, m, n), m);
  }

  /** The last cell is in the finished table and holds the cost of the
      whole alignment. */
  lemma FullLast(a: seq<char>, b: seq<char>, m: nat, n: nat)
    requires m <= |a| && n <= |b|
    ensures var last := (m as int - 1, n as int - 1);
            last in FullMatrix(a, b, m, n) && FullMatrix(a, b, m, n)[last] == Fin(Full(a, b, m - 1, n - 1))
  {
  }

  /** The origin is written before the sweep and has no back-pointer, so
      the sweep passes over it. */
  lemma FullOrigin(a: seq<char>, b: seq<char>, m: nat, n: nat)
    requires m <= |a| && n <= |b|
    ensures Prefix(FullMatrix(a, b, m, n), -1, -1) == Prefix(FullMatrix(a, b, m, n), -1, 0)
    ensures Prefix(FullPointers(a, b, m, n), -1, -1) == Prefix(FullPointers(a, b, m, n), -1, 0)
  {
    var fm := FullMatrix(a, b, m, n);
    PrefixStep(fm, -1, -1);
    assert Prefix(fm, -1, -1)[(-1, -1) := fm[(-1, -1)]] == Prefix(fm, -1, -1);
    PrefixSkip(FullPointers(a, b, m, n), -1, -1, 0);
  }

  /** Writing the cost and back-pointer of a cell other than the origin
      moves both sweeps one cell on. */
  lemma FullWrite(a: seq<char>, b: seq<char>, m: nat, n: nat, i: int, j: int)
    requires m <= |a| && n <= |b| && -1 <= i < m && -1 <= j < n && (i, j) != (-1, -1)
    ensures Prefix(FullMatrix(a, b, m, n), i, j)[(i, j) := Fin(Full(a, b, i, j))] == Prefix(FullMatrix(a, b, m, n), i, j + 1)
    ensures Prefix(FullPointers(a, b, m, n), i, j)[(i, j) := FullPointer(a, b, i, j)] == Prefix(FullPointers(a, b, m, n), i, j + 1)
  {
    PrefixStep(FullMatrix(a, b, m, n), i, j);
    PrefixStep(FullPointers(a, b, m, n), i, j);
  }

  /** When the sweep reaches `(i, j)`, the neighbours the recurrence reads
      are written and hold their final costs. */
  lemma FullNeighbours(a: seq<char>, b: seq<char>, m: nat, n: nat, i: int, j: int)
    requires m <= |a| && n <= |b| && -1 <= i < m && -1 <= j < n
    ensures var done := Prefix(FullMatrix(a, b, m, n), i, j);
            && (j >= 0 ==> (i, j - 1) in done && done[(i, j - 1)] == Fin(Full(a, b, i, j - 1)))
            && (i >= 0 ==> (i - 1, j) in done && done[(i - 1, j)] == Fin(Full(a, b, i - 1, j)))
            && (i >= 0 && j >= 0 ==> (i - 1, j - 1) in done && done[(i - 1, j - 1)] == Fin(Full(a, b, i - 1, j - 1)))
  {
  }

  /** Along row -1 and column -1 the cost grows by one gap per cell and the
      back-pointer points along the edge. */
  lemma FullEdge(a: seq<char>, b: seq<char>, i: int, j: int)
    requires InGrid(a, b, i, j) && (i == -1 || j == -1) && (i, j) != (-1, -1)
    ensures i == -1 ==> Fin(Full(a, b, i, j)) == Plus(Fin(Full(a, b, i, j - 1)), INDEL)
                        && FullPointer(a, b, i, j) == Pointer(-1, j - 1, Left)
    ensures j == -1 ==> Fin(Full(a, b, i, j)) == Plus(Fin(Full(a, b, i - 1, j)), INDEL)
                        && FullPointer(a, b, i, j) == Pointer(i - 1, -1, Top)
  {
  }

  /** Inside the table, `getMin` of the three candidates is the recorded
      move, and the candidate it names is the cell's cost. */
  lemma FullChoice(a: seq<char>, b: seq<char>, i: int, j: int, left: Cost, top: Cost, diagonal: Cost)
    requires InGrid(a, b, i, j) && i >= 0 && j >= 0
    requires left == Fin(Full(a, b, i, j - 1) + INDEL)
    requires top == Fin(Full(a, b, i - 1, j) + INDEL)
    requires diagonal == Fin(Full(a, b, i - 1, j - 1) + Substitution(a[i], b[j]))
    ensures GetMin(left, top, diagonal) == Left ==> Fin(Full(a, b, i, j)) == left && FullPointer(a, b, i, j) == Pointer(i, j - 1, Left)
    ensures GetMin(left, top, diagonal) == Top ==> Fin(Full(a, b, i, j)) == top && FullPointer(a, b, i, j) == Pointer(i - 1, j, Top)
    ensures GetMin(left, top, diagonal) == Diagonal ==> Fin(Full(a, b, i, j)) == diagonal && FullPointer(a, b, i, j) == Pointer(i - 1, j - 1, Diagonal)
  {
    FullStep(a, b, i, j);
  }

  // ---------------------------------------------------------------------
  // The banded sweep

  /** Python's `d.setdefault(k, v)`, as the change it makes to `d`: `k`
      gets `v` only when it has no entry yet. */
  function SetDefault(d: map<(int, int), Cost>, k: (int, int), v: Cost): (r: map<(int, int), Cost>)
    ensures forall x {:trigger x in r} :: x in r <==> x in d || x == k
    ensures forall x {:trigger r[x]} :: x in d ==> r[x] == d[x]
    ensures k !in d ==> r[k] == v
  {
    if k in d then d else d[k := v]
  }

  /** The cell of the banded sweep at which the entry for `p` is written:
      a fringe cell left of the band when the sweep reaches its neighbour
      to the right, a fringe cell right of the band when the sweep reaches
      the cell below it, and any other cell when the sweep reaches it. */
  function Slot(p: (int, int)): (r: (int, int))
    ensures InBand(p.0, p.1) ==> r == p
    ensures BandFringe(p, p.0 + 2, p.1 + 2) ==> InBand(r.0, r.1) && r != p
  {
    if p.1 == p.0 - MAXINDELS - 1 then (p.0, p.1 + 1)
    else if p.1 == p.0 + MAXINDELS + 1 then (p.0 + 1, p.1)
    else p
  }

  /** The entries the two loops of `banded_alignment` write: the in-band
      cells and the fringe. */
  function BandWritten(a: seq<char>, b: seq<char>, m: nat, n: nat): (r: map<(int, int), Cost>)
    requires m <= |a| && n <= |b|
    ensures forall p {:trigger p in r} :: p in r <==> InTable(p, m, n) && (InBand(p.0, p.1) || BandFringe(p, m, n))
    ensures forall p {:trigger r[p]} :: p in r ==> InTable(p, m, n) && r[p] == BandCost(a, b, p.0, p.1)
  {
    map p | p in Cells(m, n) && (InBand(p.0, p.1) || BandFringe(p, m, n)) :: BandCost(a, b, p.0, p.1)
  }

  /** The entries of `spec` the banded sweep has written once it has
      reached `(i, j)`. */
  function Sweep<V>(spec: map<(int, int), V>, i: int, j: int): (r: map<(int, int), V>)
    ensures forall p {:trigger p in r} :: p in r <==> p in spec && Done(Slot(p), i, j)
    ensures forall p {:trigger r[p]} :: p in r ==> r[p] == spec[p]
  {
    map p | p in spec && Done(Slot(p), i, j) :: spec[p]
  }

  /** What `Slot` gives for an entry of the banded table: an in-band cell
      of the table, in the same row as the entry or the row below, and at
      the entry itself exactly when the entry is in band. */
  lemma SlotInTable(p: (int, int), m: int, n: int)
    requires InTable(p, m, n) && (InBand(p.0, p.1) || BandFringe(p, m, n))
    ensures InTable(Slot(p), m, n) && InBand(Slot(p).0, Slot(p).1)
    ensures Slot(p) == p <==> InBand(p.0, p.1)
    ensures Slot(p).0 == p.0 || (Slot(p).0 == p.0 + 1 && Slot(p).1 == p.1 && p.1 == p.0 + MAXINDELS + 1)
    ensures Slot(p).0 == p.0 ==> Slot(p).1 == p.1 || (Slot(p).1 == p.1 + 1 && p.1 == p.0 - MAXINDELS - 1)
  {
  }

  /** Before the banded sweep only the origin is written. */
  lemma BandStart(a: seq<char>, b: seq<char>, m: nat, n: nat)
    requires m <= |a| && n <= |b|
    ensures map[(-1, -1) := Fin(0)] == Sweep(BandWritten(a, b, m, n), -1, -1)
    ensures map[] == Prefix(BandPointers(a, b, m, n), -1, -1)
  {
    var start := Sweep(BandWritten(a, b, m, n), -1, -1);
    assert (-1, -1) in start;
    forall p | p in start ensures p == (-1, -1) {
      SlotInTable(p, m, n);
    }
    var none := Prefix(BandPointers(a, b, m, n), -1, -1);
    assert none == map[];
  }

  /** The origin is written before the sweep; the sweep passes over it. */
  lemma BandOrigin(a: seq<char>, b: seq<char>, m: nat, n: nat)
    requires m <= |a| && n <= |b|
    ensures Sweep(BandWritten(a, b, m, n), -1, -1) == Sweep(BandWritten(a, b, m, n), -1, 0)
    ensures Prefix(BandPointers(a, b, m, n), -1, -1) == Prefix(BandPointers(a, b, m, n), -1, 0)
  {
    var bw := BandWritten(a, b, m, n);
    var before, after := Sweep(bw, -1, -1), Sweep(bw, -1, 0);
    forall p | p in bw ensures p in before <==> p in after {
      SlotInTable(p, m, n);
    }
    PrefixSkip(BandPointers(a, b, m, n), -1, -1, 0);
  }

  /** Every entry of row `i` is written at or after column `jStart`, the
      first column `banded_alignment` visits in that row. */
  lemma BandRowStart(a: seq<char>, b: seq<char>, m: nat, n: nat, i: int, jStart: int)
    requires m <= |a| && n <= |b| && -1 <= i < m
    requires jStart == if -1 >= i - MAXINDELS then -1 else i - MAXINDELS
    ensures Sweep(BandWritten(a, b, m, n), i, -1) == Sweep(BandWritten(a, b, m, n), i, jStart)
    ensures Prefix(BandPointers(a, b, m, n), i, -1) == Prefix(BandPointers(a, b, m, n), i, jStart)
  {
    var bw := BandWritten(a, b, m, n);
    var before, after := Sweep(bw, i, -1), Sweep(bw, i, jStart);
    forall p | p in bw ensures p in before <==> p in after {
      SlotInTable(p, m, n);
    }
    PrefixSkip(BandPointers(a, b, m, n), i, -1, jStart);
  }

  /** Every entry of row `i` is written before column `j` once `j` has
      reached `jEnd`, where `banded_alignment` leaves that row. */
  lemma BandRowEnd(a: seq<char>, b: seq<char>, m: nat, n: nat, i: int, j: int)
    requires m <= |a| && n <= |b| && -1 <= i < m
    requires j >= if n <= i + MAXINDELS then n else i + MAXINDELS + 1
    ensures Sweep(BandWritten(a, b, m, n), i, j) == Sweep(BandWritten(a, b, m, n), i + 1, -1)
    ensures Prefix(BandPointers(a, b, m, n), i, j) == Prefix(BandPointers(a, b, m, n), i + 1, -1)
  {
    var bw := BandWritten(a, b, m, n);
    var before, after := Sweep(bw, i, j), Sweep(bw, i + 1, -1);
    forall p | p in bw ensures p in before <==> p in after {
      SlotInTable(p, m, n);
    }
    var bp := BandPointers(a, b, m, n);
    if j <= n {
      PrefixSkip(bp, i, j, n);
    } else {
      PrefixSkip(bp, i, n, j);
    }
    PrefixRow(bp, i, n);
  }

  /** After the last row the banded sweep has written all its entries. */
  lemma BandFinished(a: seq<char>, b: seq<char>, m: nat, n: nat)
    requires m <= |a| && n <= |b|
    ensures Sweep(BandWritten(a, b, m, n), m, -1) == BandWritten(a, b, m, n)
    ensures Prefix(BandPointers(a, b, m, n), m, -1) == BandPointers(a, b, m, n)
  {
    var bw := BandWritten(a, b, m, n);
    var all := Sweep(bw, m, -1);
    forall p | p in bw ensures p in all {
      SlotInTable(p, m, n);
    }
    PrefixAll(BandPointers(a, b, m, n), m);
  }

  /** The final `setdefault` on the last cell completes the banded table;
      the last cell then holds its banded cost. */
  lemma BandLast(a: seq<char>, b: seq<char>, m: nat, n: nat)
    requires m <= |a| && n <= |b|
    ensures var last := (m as int - 1, n as int - 1);
            && SetDefault(BandWritten(a, b, m, n), last, Inf) == BandMatrix(a, b, m, n)
            && last in BandMatrix(a, b, m, n)
            && BandMatrix(a, b, m, n)[last] == BandCost(a, b, m - 1, n - 1)
  {
    var last := (m as int - 1, n as int - 1);
    BandInfIffOutside(a, b, m - 1, n - 1);
    var r := SetDefault(BandWritten(a, b, m, n), last, Inf);
    forall p ensures p in r <==> p in BandMatrix(a, b, m, n) {
    }
  }

  /** Along row -1 and column -1 of the band the cost grows by one gap per
      cell and the back-pointer points along the edge. */
  lemma BandBorder(a: seq<char>, b: seq<char>, i: int, j: int)
    requires InGrid(a, b, i, j) && InBand(i, j) && (i == -1 || j == -1) && (i, j) != (-1, -1)
    ensures i == -1 ==> BandCost(a, b, i, j) == Plus(BandCost(a, b, i, j - 1), INDEL)
                        && BandPointer(a, b, i, j) == Pointer(-1, j - 1, Left)
    ensures j == -1 ==> BandCost(a, b, i, j) == Plus(BandCost(a, b, i - 1, j), INDEL)
                        && BandPointer(a, b, i, j) == Pointer(i - 1, -1, Top)
  {
  }

  /** A map holding the entries of `spec` swept before `(i, j)` together
      with those whose slot is `(i, j)` is the sweep one cell on. */
  lemma SweepStep<V>(spec: map<(int, int), V>, i: int, j: int, next: map<(int, int), V>)
    requires forall p {:trigger p in next} :: p in next <==> p in Sweep(spec, i, j) || (p in spec && Slot(p) == (i, j))
    requires forall p {:trigger next[p]} :: p in next ==> p in spec && next[p] == spec[p]
    ensures next == Sweep(spec, i, j + 1)
  {
    var after := Sweep(spec, i, j + 1);
    forall p ensures p in next <==> p in after {
      DoneStep(Slot(p), i, j);
    }
  }

  /** `SweepStep` when the entries whose slot is `(i, j)` are among three
      given cells, each of which is either swept already or has that slot. */
  lemma SweepStepThree<V>(spec: map<(int, int), V>, i: int, j: int, next: map<(int, int), V>, c: (int, int), l: (int, int), t: (int, int))
    requires forall p {:trigger p in next} :: p in next <==> p in Sweep(spec, i, j) || p == c || p == l || p == t
    requires forall p {:trigger next[p]} :: p in next ==> p in spec && next[p] == spec[p]
    requires forall p {:trigger Slot(p)} :: p in spec && Slot(p) == (i, j) ==> p == c || p == l || p == t
    requires c in Sweep(spec, i, j) || (c in spec && Slot(c) == (i, j))
    requires l in Sweep(spec, i, j) || (l in spec && Slot(l) == (i, j))
    requires t in Sweep(spec, i, j) || (t in spec && Slot(t) == (i, j))
    ensures next == Sweep(spec, i, j + 1)
  {
    forall p ensures p in next <==> p in Sweep(spec, i, j) || (p in spec && Slot(p) == (i, j)) {
    }
    SweepStep(spec, i, j, next);
  }

  /** The entries whose slot is the in-band cell `(i, j)`: the cell itself
      and, inside the table, the fringe cells to its left and above it. */
  lemma BandSlotKeys(a: seq<char>, b: seq<char>, m: nat, n: nat, i: int, j: int)
    requires m <= |a| && n <= |b| && -1 <= i < m && -1 <= j < n && InBand(i, j)
    ensures forall p {:trigger Slot(p)} :: p in BandWritten(a, b, m, n) && Slot(p) == (i, j) ==>
              p == (i, j) || (p == (i, j - 1) && !InBand(i, j - 1)) || (p == (i - 1, j) && !InBand(i - 1, j))
  {
    forall p | p in BandWritten(a, b, m, n) && Slot(p) == (i, j)
      ensures p == (i, j) || (p == (i, j - 1) && !InBand(i, j - 1)) || (p == (i - 1, j) && !InBand(i - 1, j))
    {
      SlotInTable(p, m, n);
    }
  }

  /** What the sweep holds when it reaches an interior in-band cell: the
      cell itself is not written yet, its diagonal neighbour is, and its
      left and top neighbours are written exactly when they lie in the
      band; otherwise they are fringe entries whose slot is this cell. */
  lemma BandInteriorNeighbours(a: seq<char>, b: seq<char>, m: nat, n: nat, i: int, j: int)
    requires m <= |a| && n <= |b| && 0 <= i < m && 0 <= j < n && InBand(i, j)
    ensures var bw, done := BandWritten(a, b, m, n), Sweep(BandWritten(a, b, m, n), i, j);
            && (i, j) in bw && Slot((i, j)) == (i, j) && (i, j) !in done
            && (i - 1, j - 1) in done
            && ((i, j - 1) in done <==> InBand(i, j - 1))
            && ((i - 1, j) in done <==> InBand(i - 1, j))
            && (!InBand(i, j - 1) ==> (i, j - 1) in bw && Slot((i, j - 1)) == (i, j) && BandCost(a, b, i, j - 1) == Inf)
            && (!InBand(i - 1, j) ==> (i - 1, j) in bw && Slot((i - 1, j)) == (i, j) && BandCost(a, b, i - 1, j) == Inf)
  {
    var bw, c, d := BandWritten(a, b, m, n), (i, j), (i - 1, j - 1);
    assert c in bw && Slot(c) == c && !Done(c, i, j);
    assert d in bw && Slot(d) == d && Done(d, i, j);
    BandLeftNeighbour(a, b, m, n, i, j);
    BandTopNeighbour(a, b, m, n, i, j);
  }

  /** The left neighbour of an interior in-band cell is swept already when
      it lies in the band, and is otherwise the fringe entry whose slot is
      the cell. */
  lemma BandLeftNeighbour(a: seq<char>, b: seq<char>, m: nat, n: nat, i: int, j: int)
    requires m <= |a| && n <= |b| && 0 <= i < m && 0 <= j < n && InBand(i, j)
    ensures var bw, done := BandWritten(a, b, m, n), Sweep(BandWritten(a, b, m, n), i, j);
            && ((i, j - 1) in done <==> InBand(i, j - 1))
            && (!InBand(i, j - 1) ==> (i, j - 1) in bw && Slot((i, j - 1)) == (i, j) && BandCost(a, b, i, j - 1) == Inf)
  {
    var bw, l := BandWritten(a, b, m, n), (i, j - 1);
    BandInfIffOutside(a, b, i, j - 1);
    if InBand(i, j - 1) {
      assert l in bw && Slot(l) == l && Done(l, i, j);
    } else {
      assert BandFringe(l, m, n);
      assert l in bw && Slot(l) == (i, j) && !Done(Slot(l), i, j);
    }
  }

  /** The top neighbour of an interior in-band cell is swept already when
      it lies in the band, and is otherwise the fringe entry whose slot is
      the cell. */
  lemma BandTopNeighbour(a: seq<char>, b: seq<char>, m: nat, n: nat, i: int, j: int)
    requires m <= |a| && n <= |b| && 0 <= i < m && 0 <= j < n && InBand(i, j)
    ensures var bw, done := BandWritten(a, b, m, n), Sweep(BandWritten(a, b, m, n), i, j);
            && ((i - 1, j) in done <==> InBand(i - 1, j))
            && (!InBand(i - 1, j) ==> (i - 1, j) in bw && Slot((i - 1, j)) == (i, j) && BandCost(a, b, i - 1, j) == Inf)
  {
    var bw, t := BandWritten(a, b, m, n), (i - 1, j);
    BandInfIffOutside(a, b, i - 1, j);
    if InBand(i - 1, j) {
      assert t in bw && Slot(t) == t && Done(t, i, j);
    } else {
      assert BandFringe(t, m, n);
      assert t in bw && Slot(t) == (i, j) && !Done(Slot(t), i, j);
    }
  }

  /** At an interior in-band cell, the two `setdefault` calls supply the
      fringe entries this cell reads, after which all three neighbours
      hold their banded costs. */
  lemma BandInteriorRead(a: seq<char>, b: seq<char>, m: nat, n: nat, i: int, j: int)
    requires m <= |a| && n <= |b| && 0 <= i < m && 0 <= j < n && InBand(i, j)
    ensures var done := SetDefault(SetDefault(Sweep(BandWritten(a, b, m, n), i, j), (i, j - 1), Inf), (i - 1, j), Inf);
            && (i, j - 1) in done && done[(i, j - 1)] == BandCost(a, b, i, j - 1)
            && (i - 1, j) in done && done[(i - 1, j)] == BandCost(a, b, i - 1, j)
            && (i - 1, j - 1) in done && done[(i - 1, j - 1)] == BandCost(a, b, i - 1, j - 1)
  {
    BandInteriorNeighbours(a, b, m, n, i, j);
  }

  /** The cell and its left and top neighbours are each swept already or
      written at this cell. */
  lemma BandInteriorSlots(a: seq<char>, b: seq<char>, m: nat, n: nat, i: int, j: int)
    requires m <= |a| && n <= |b| && 0 <= i < m && 0 <= j < n && InBand(i, j)
    ensures var bw := BandWritten(a, b, m, n);
            && ((i, j) in Sweep(bw, i, j) || ((i, j) in bw && Slot((i, j)) == (i, j)))
            && ((i, j - 1) in Sweep(bw, i, j) || ((i, j - 1) in bw && Slot((i, j - 1)) == (i, j)))
            && ((i - 1, j) in Sweep(bw, i, j) || ((i - 1, j) in bw && Slot((i - 1, j)) == (i, j)))
  {
    BandInteriorNeighbours(a, b, m, n, i, j);
  }

  /** After the two `setdefault` calls and the write of an interior
      in-band cell, the table holds what it held before plus the cell and
      its left and top neighbours, each with its banded cost. */
  lemma BandInteriorNext(a: seq<char>, b: seq<char>, m: nat, n: nat, i: int, j: int)
    requires m <= |a| && n <= |b| && 0 <= i < m && 0 <= j < n && InBand(i, j)
    ensures var bw, done := BandWritten(a, b, m, n), Sweep(BandWritten(a, b, m, n), i, j);
            var next := SetDefault(SetDefault(done, (i, j - 1), Inf), (i - 1, j), Inf)[(i, j) := BandCost(a, b, i, j)];
            && (forall p {:trigger p in next} :: p in next <==> p in done || p == (i, j) || p == (i, j - 1) || p == (i - 1, j))
            && (forall p {:trigger next[p]} :: p in next ==> p in bw && next[p] == bw[p])
  {
    BandInteriorNeighbours(a, b, m, n, i, j);
    var bw := BandWritten(a, b, m, n);
    var c, l, t := (i, j), (i, j - 1), (i - 1, j);
    var done := Sweep(bw, i, j);
    var next := SetDefault(SetDefault(done, l, Inf), t, Inf)[c := BandCost(a, b, i, j)];
    forall p | p in next ensures p in bw && next[p] == bw[p] {
      if p == c {
      } else if p in done {
        assert next[p] == done[p];
      } else if p == t {
        assert next[p] == Inf;
      } else {
        assert p == l && next[p] == Inf;
      }
    }
  }

  /** Writing an interior in-band cell, after the two `setdefault` calls,
      moves the banded cost sweep one cell on. */
  lemma BandInteriorWrite(a: seq<char>, b: seq<char>, m: nat, n: nat, i: int, j: int)
    requires m <= |a| && n <= |b| && 0 <= i < m && 0 <= j < n && InBand(i, j)
    ensures SetDefault(SetDefault(Sweep(BandWritten(a, b, m, n), i, j), (i, j - 1), Inf), (i - 1, j), Inf)[(i, j) := BandCost(a, b, i, j)]
            == Sweep(BandWritten(a, b, m, n), i, j + 1)
  {
    var bw := BandWritten(a, b, m, n);
    BandSlotKeys(a, b, m, n, i, j);
    BandInteriorSlots(a, b, m, n, i, j);
    BandInteriorNext(a, b, m, n, i, j);
    var next := SetDefault(SetDefault(Sweep(bw, i, j), (i, j - 1), Inf), (i - 1, j), Inf)[(i, j) := BandCost(a, b, i, j)];
    SweepStepThree(bw, i, j, next, (i, j), (i, j - 1), (i - 1, j));
  }

  /** Writing an in-band border cell moves the banded cost sweep one cell
      on; the neighbour it reads is already written. */
  lemma BandBorderWrite(a: seq<char>, b: seq<char>, m: nat, n: nat, i: int, j: int)
    requires m <= |a| && n <= |b| && -1 <= i < m && -1 <= j < n
    requires InBand(i, j) && (i == -1 || j == -1) && (i, j) != (-1, -1)
    ensures var done := Sweep(BandWritten(a, b, m, n), i, j);
            && (i == -1 ==> (i, j - 1) in done && done[(i, j - 1)] == BandCost(a, b, i, j - 1))
            && (j == -1 ==> (i - 1, j) in done && done[(i - 1, j)] == BandCost(a, b, i - 1, j))
            && done[(i, j) := BandCost(a, b, i, j)] == Sweep(BandWritten(a, b, m, n), i, j + 1)
  {
    BandBorderNext(a, b, m, n, i, j);
    BandBorderNeighbour(a, b, m, n, i, j);
  }

  /** Writing a border cell advances the banded sweep by one cell. */
  lemma BandBorderNext(a: seq<char>, b: seq<char>, m: nat, n: nat, i: int, j: int)
    requires m <= |a| && n <= |b| && -1 <= i < m && -1 <= j < n
    requires InBand(i, j) && (i == -1 || j == -1) && (i, j) != (-1, -1)
    ensures Sweep(BandWritten(a, b, m, n), i, j)[(i, j) := BandCost(a, b, i, j)] == Sweep(BandWritten(a, b, m, n), i, j + 1)
  {
    var bw := BandWritten(a, b, m, n);
    var c := (i, j);
    BandSlotKeys(a, b, m, n, i, j);
    assert c in bw && Slot(c) == c;
    SweepStep(bw, i, j, Sweep(bw, i, j)[c := BandCost(a, b, i, j)]);
  }

  /** The neighbour a border cell reads has already been written. */
  lemma BandBorderNeighbour(a: seq<char>, b: seq<char>, m: nat, n: nat, i: int, j: int)
    requires m <= |a| && n <= |b| && -1 <= i < m && -1 <= j < n
    requires InBand(i, j) && (i == -1 || j == -1) && (i, j) != (-1, -1)
    ensures var done := Sweep(BandWritten(a, b, m, n), i, j);
            && (i == -1 ==> (i, j - 1) in done && done[(i, j - 1)] == BandCost(a, b, i, j - 1))
            && (j == -1 ==> (i - 1, j) in done && done[(i - 1, j)] == BandCost(a, b, i - 1, j))
  {
    var bw := BandWritten(a, b, m, n);
    var p := if i == -1 then (i, j - 1) else (i - 1, j);
    assert InTable(p, m, n) && InBand(p.0, p.1);
    assert p in bw && Slot(p) == p && Done(p, i, j);
    assert p in Sweep(bw, i, j);
  }

  /** Inside the band, `getMin` of the three candidates is the recorded
      move, and the candidate it names is the cell's banded cost. */
  lemma BandChoice(a: seq<char>, b: seq<char>, i: int, j: int, left: Cost, top: Cost, diagonal: Cost)
    requires InGrid(a, b, i, j) && InBand(i, j) && i >= 0 && j >= 0
    requires left == Plus(BandCost(a, b, i, j - 1), INDEL)
    requires top == Plus(BandCost(a, b, i - 1, j), INDEL)
    requires diagonal == Plus(BandCost(a, b, i - 1, j - 1), Substitution(a[i], b[j]))
    ensures GetMin(left, top, diagonal) == Left ==> BandCost(a, b, i, j) == left && BandPointer(a, b, i, j) == Pointer(i, j - 1, Left)
    ensures GetMin(left, top, diagonal) == Top ==> BandCost(a, b, i, j) == top && BandPointer(a, b, i, j) == Pointer(i - 1, j, Top)
    ensures GetMin(left, top, diagonal) == Diagonal ==> BandCost(a, b, i, j) == diagonal && BandPointer(a, b, i, j) == Pointer(i - 1, j - 1, Diagonal)
  {
    BandStep(a, b, i, j);
  }

  // ---------------------------------------------------------------------
  // The traceback loop

  /** One step of the traceback from cell `(i, j)`: the indices its column
      reads are in range, and the traced alignment is the predecessor's
      followed by that column. */
  lemma AlignedStep(bp: map<(int, int), Pointer>, s1: seq<char>, s2: seq<char>, m: int, n: int, i: int, j: int)
    requires WellFormed(bp, m, n) && m <= |s1| && n <= |s2|
    requires (i, j) in bp
    ensures var p := bp[(i, j)];
            && (p.move != Left ==> 0 <= i < |s1|)
            && (p.move != Top ==> 0 <= j < |s2|)
            && LinksBack(bp, (i, j), m, n)
            && ((p.pi, p.pj) != (-1, -1) ==> LinksBack(bp, (p.pi, p.pj), m, n))
    ensures var p := bp[(i, j)];
            var rest := Aligned(bp, s1, s2, m, n, p.pi, p.pj);
            var col := Column(s1, s2, i, j, p.move);
            Aligned(bp, s1, s2, m, n, i, j) == (rest.0 + [col.0], rest.1 + [col.1])
  {
    assert LinksBack(bp, (i, j), m, n);
    var p := bp[(i, j)];
    if (p.pi, p.pj) != (-1, -1) {
      assert LinksBack(bp, (p.pi, p.pj), m, n);
    }
  }

  /** One step of the traceback as written: an inner cell contributes its
      column, the last cell its Python-indexed symbols and, for `top`, the
      extra gap. */
  lemma AsWrittenStep(bp: map<(int, int), Pointer>, s1: seq<char>, s2: seq<char>, m: int, n: int, i: int, j: int)
    requires WellFormed(bp, m, n) && m <= |s1| && n <= |s2|
    requires (i, j) in bp
    ensures var p := bp[(i, j)];
            && (p.move != Left ==> 0 <= i < |s1|)
            && (p.move != Top ==> 0 <= j < |s2|)
            && LinksBack(bp, (i, j), m, n)
            && ((p.pi, p.pj) != (-1, -1) ==> LinksBack(bp, (p.pi, p.pj), m, n))
            && -1 <= i < |s1| && -1 <= j < |s2|
    ensures |s1| >= 1 && |s2| >= 1 ==>
              var p := bp[(i, j)];
              var here := AlignedAsWritten(bp, s1, s2, m, n, i, j);
              if (p.pi, p.pj) == (-1, -1) then
                here == ([PyIndex(s1, i)], (if p.move == Top then [GAP] else []) + [PyIndex(s2, j)])
              else
                var rest := AlignedAsWritten(bp, s1, s2, m, n, p.pi, p.pj);
                var col := Column(s1, s2, i, j, p.move);
                here == (rest.0 + [col.0], rest.1 + [col.1])
  {
    assert LinksBack(bp, (i, j), m, n);
    var p := bp[(i, j)];
    if (p.pi, p.pj) != (-1, -1) {
      assert LinksBack(bp, (p.pi, p.pj), m, n);
    }
  }

  /** Prepending a column to the accumulated suffix keeps the whole
      string the same. */
  lemma PrependColumn(rest: seq<char>, c: char, acc: seq<char>)
    ensures (rest + [c]) + acc == rest + ([c] + acc)
  {
  }

  /** The corrected last step: once the loop has stopped at `(i, j)`, whose
      predecessor is the origin, prepending the column of its move to the
      suffix `a1`/`a2` gives the whole traced alignment. */
  lemma AlignedFinish(bp: map<(int, int), Pointer>, s1: seq<char>, s2: seq<char>, m: int, n: int,
                      i0: int, j0: int, i: int, j: int, a1: seq<char>, a2: seq<char>)
    requires WellFormed(bp, m, n) && m <= |s1| && n <= |s2|
    requires (i0, j0) in bp && (i, j) in bp && (bp[(i, j)].pi, bp[(i, j)].pj) == (-1, -1)
    requires Aligned(bp, s1, s2, m, n, i0, j0).0 == Aligned(bp, s1, s2, m, n, i, j).0 + a1
    requires Aligned(bp, s1, s2, m, n, i0, j0).1 == Aligned(bp, s1, s2, m, n, i, j).1 + a2
    ensures bp[(i, j)].move != Left ==> 0 <= i < |s1|
    ensures bp[(i, j)].move != Top ==> 0 <= j < |s2|
    ensures Aligned(bp, s1, s2, m, n, i0, j0).0 == [Column(s1, s2, i, j, bp[(i, j)].move).0] + a1
    ensures Aligned(bp, s1, s2, m, n, i0, j0).1 == [Column(s1, s2, i, j, bp[(i, j)].move).1] + a2
  {
    AlignedStep(bp, s1, s2, m, n, i, j);
    assert Aligned(bp, s1, s2, m, n, -1, -1) == ([], []);
    var col := Column(s1, s2, i, j, bp[(i, j)].move);
    PrependColumn([], col.0, a1);
    PrependColumn([], col.1, a2);
  }

  /** The last step as written: the last cell contributes `seq1[i]`, then
      `seq2[j]` preceded by a gap for `top`. */
  lemma AsWrittenFinish(bp: map<(int, int), Pointer>, s1: seq<char>, s2: seq<char>, m: int, n: int,
                        i0: int, j0: int, i: int, j: int, a1: seq<char>, a2: seq<char>)
    requires WellFormed(bp, m, n) && m <= |s1| && n <= |s2|
    requires (i0, j0) in bp && (i, j) in bp && (bp[(i, j)].pi, bp[(i, j)].pj) == (-1, -1)
    requires |s1| >= 1 && |s2| >= 1 ==>
               AlignedAsWritten(bp, s1, s2, m, n, i0, j0).0 == AlignedAsWritten(bp, s1, s2, m, n, i, j).0 + a1
    requires |s1| >= 1 && |s2| >= 1 ==>
               AlignedAsWritten(bp, s1, s2, m, n, i0, j0).1 == AlignedAsWritten(bp, s1, s2, m, n, i, j).1 + a2
    ensures -1 <= i < |s1| && -1 <= j < |s2|
    ensures |s1| >= 1 && |s2| >= 1 ==>
              && AlignedAsWritten(bp, s1, s2, m, n, i0, j0).0 == [PyIndex(s1, i)] + a1
              && AlignedAsWritten(bp, s1, s2, m, n, i0, j0).1
                 == (if bp[(i, j)].move == Top then [GAP] + ([PyIndex(s2, j)] + a2) else [PyIndex(s2, j)] + a2)
  {
    AsWrittenStep(bp, s1, s2, m, n, i, j);
    if |s1| >= 1 && |s2| >= 1 {
      var gap: seq<char> := if bp[(i, j)].move == Top then [GAP] else [];
      PrependColumn([], PyIndex(s1, i), a1);
      PrependColumn(gap, PyIndex(s2, j), a2);
      assert gap + ([PyIndex(s2, j)] + a2)
             == (if bp[(i, j)].move == Top then [GAP] + ([PyIndex(s2, j)] + a2) else [PyIndex(s2, j)] + a2);
    }
  }

  /** Once the cost is finite, the last cell has a back-pointer exactly when
      something is aligned: with both lengths zero the last cell is the
      origin, which never has one. */
  lemma LastCellKey(s1: seq<char>, s2: seq<char>, banded: bool, limit: nat)
    requires TableScore(s1, s2, banded, limit).Fin?
    ensures var m, n := MinLength(limit, s1), MinLength(limit, s2);
            (m - 1, n - 1) in TablePointers(s1, s2, banded, limit) <==> m > 0 || n > 0
  {
    var m, n := MinLength(limit, s1), MinLength(limit, s2);
    var bp := TablePointers(s1, s2, banded, limit);
    if m > 0 || n > 0 {
      LastCellHasPointer(s1, s2, banded, limit);
    } else {
      TablePointersWellFormed(s1, s2, banded, limit);
      if (-1, -1) in bp {
        assert false;
      }
    }
  }

  class GeneSequencing {
    var maxCharactersToAlign: nat
    var banded: bool
    /** Cost table, keyed by cell; row and column -1 stand for the empty
        prefixes. */
    var matrix: map<(int, int), Cost>
    /** Back-pointer table: for each cell, the cell it was entered from and
        the move. */
    var backPointers: map<(int, int), Pointer>
    var score: Cost
    var minLength1: nat
    var minLength2: nat
    var alignment1: seq<char>
    var alignment2: seq<char>

    /** The source's constructor sets nothing; every field starts empty. */
    constructor()
      ensures matrix == map[] && backPointers == map[]
      ensures alignment1 == [] && alignment2 == []
    {
      maxCharactersToAlign := 0;
      banded := false;
      matrix := map[];
      backPointers := map[];
      score := Fin(0);
      minLength1 := 0;
      minLength2 := 0;
      alignment1 := [];
      alignment2 := [];
    }

    /** `unrestricted`: fills every cell of the table in row-major order
        and records the cost of the last cell. */
    method Unrestricted(seq1: seq<char>, seq2: seq<char>)
      requires matrix == map[] && backPointers == map[]
      modifies this
      ensures minLength1 == MinLength(maxCharactersToAlign, seq1)
      ensures minLength2 == MinLength(maxCharactersToAlign, seq2)
      ensures matrix == FullMatrix(seq1, seq2, minLength1, minLength2)
      ensures backPointers == FullPointers(seq1, seq2, minLength1, minLength2)
      ensures score == Fin(Full(seq1, seq2, minLength1 - 1, minLength2 - 1))
      ensures maxCharactersToAlign == old(maxCharactersToAlign) && banded == old(banded)
      ensures alignment1 == old(alignment1) && alignment2 == old(alignment2)
    {
      score := Fin(0);
      matrix := matrix[(-1, -1) := Fin(0)];
      if maxCharactersToAlign > |seq1| {
        minLength1 := |seq1|;
      } else {
        minLength1 := maxCharactersToAlign;
      }
      if maxCharactersToAlign > |seq2| {
        minLength2 := |seq2|;
      } else {
        minLength2 := maxCharactersToAlign;
      }
      var m, n := minLength1, minLength2;
      FullStart(seq1, seq2, m, n);
      UnrestrictedRows(seq1, seq2, m, n);
      var last: (int, int) := (m as int - 1, n as int - 1);
      FullLast(seq1, seq2, m, n);
      score := matrix[last];
    }

    /** The unrestricted tables as they stand when the sweep reaches cell
        `(i, j)`: every cell before it in row-major order written. */
    ghost predicate FullSwept(seq1: seq<char>, seq2: seq<char>, m: nat, n: nat, i: int, j: int)
      reads this
    {
      && m <= |seq1| && n <= |seq2|
      && matrix == Prefix(FullMatrix(seq1, seq2, m, n), i, j)
      && backPointers == Prefix(FullPointers(seq1, seq2, m, n), i, j)
    }

    /** The two nested loops of `unrestricted`, rows -1 to `m - 1`. */
    method UnrestrictedRows(seq1: seq<char>, seq2: seq<char>, m: nat, n: nat)
      requires m <= |seq1| && n <= |seq2|
      requires FullSwept(seq1, seq2, m, n, -1, -1)
      modifies this`matrix, this`backPointers
      ensures matrix == FullMatrix(seq1, seq2, m, n)
      ensures backPointers == FullPointers(seq1, seq2, m, n)
    {
      for i := -1 to m
        invariant FullSwept(seq1, seq2, m, n, i, -1)
      {
        UnrestrictedRow(seq1, seq2, m, n, i);
      }
      FullFinished(seq1, seq2, m, n);
    }

    /** One pass of `unrestricted`'s outer loop: row `i`, columns -1 to
        `n - 1`. */
    method UnrestrictedRow(seq1: seq<char>, seq2: seq<char>, m: nat, n: nat, i: int)
      requires -1 <= i < m
      requires FullSwept(seq1, seq2, m, n, i, -1)
      modifies this`matrix, this`backPointers
      ensures FullSwept(seq1, seq2, m, n, i + 1, -1)
    {
      for j := -1 to n
        invariant FullSwept(seq1, seq2, m, n, i, j)
      {
        UnrestrictedCell(seq1, seq2, m, n, i, j);
      }
      FullRow(seq1, seq2, m, n, i);
    }

    /** The body of `unrestricted`'s inner loop: fills cell `(i, j)` from
        the neighbours already filled. */
    method UnrestrictedCell(seq1: seq<char>, seq2: seq<char>, m: nat, n: nat, i: int, j: int)
      requires -1 <= i < m && -1 <= j < n
      requires FullSwept(seq1, seq2, m, n, i, j)
      modifies this`matrix, this`backPointers
      ensures FullSwept(seq1, seq2, m, n, i, j + 1)
    {
      if i == -1 && j == -1 {
        FullOrigin(seq1, seq2, m, n);
        return;
      }
      FullWrite(seq1, seq2, m, n, i, j);
      FullNeighbours(seq1, seq2, m, n, i, j);
      if i == -1 && j > -1 {
        FullEdge(seq1, seq2, i, j);
        matrix := matrix[(-1, j) := Plus(matrix[(-1, j - 1)], INDEL)];
        backPointers := backPointers[(-1, j) := Pointer(-1, j - 1, Left)];
        return;
      }
      if i > -1 && j == -1 {
        FullEdge(seq1, seq2, i, j);
        matrix := matrix[(i, -1) := Plus(matrix[(i - 1, -1)], INDEL)];
        backPointers := backPointers[(i, -1) := Pointer(i - 1, -1, Top)];
        return;
      }
      var value, pointer := UnrestrictedChoice(seq1, seq2, i, j);
      matrix := matrix[(i, j) := value];
      backPointers := backPointers[(i, j) := pointer];
    }

    /** Lines 92-109 of the unrestricted step for an interior cell: the
        cost and back-pointer written for `(i, j)`, chosen by `getMin`. */
    method UnrestrictedChoice(seq1: seq<char>, seq2: seq<char>, i: int, j: int) returns (value: Cost, pointer: Pointer)
      requires InGrid(seq1, seq2, i, j) && i >= 0 && j >= 0
      requires (i, j - 1) in matrix && matrix[(i, j - 1)] == Fin(Full(seq1, seq2, i, j - 1))
      requires (i - 1, j) in matrix && matrix[(i - 1, j)] == Fin(Full(seq1, seq2, i - 1, j))
      requires (i - 1, j - 1) in matrix && matrix[(i - 1, j - 1)] == Fin(Full(seq1, seq2, i - 1, j - 1))
      ensures value == Fin(Full(seq1, seq2, i, j))
      ensures pointer == FullPointer(seq1, seq2, i, j)
    {
      var diagonal, direction;
      if seq1[i] == seq2[j] {
        diagonal := Plus(matrix[(i - 1, j - 1)], MATCH);
        direction := GetMin(Plus(matrix[(i, j - 1)], INDEL), Plus(matrix[(i - 1, j)], INDEL), diagonal);
      } else {
        diagonal := Plus(matrix[(i - 1, j - 1)], SUB);
        direction := GetMin(Plus(matrix[(i, j - 1)], INDEL), Plus(matrix[(i - 1, j)], INDEL), diagonal);
      }
      FullChoice(seq1, seq2, i, j, Plus(matrix[(i, j - 1)], INDEL), Plus(matrix[(i - 1, j)], INDEL), diagonal);
      match direction {
        case Left =>
          value, pointer := Plus(matrix[(i, j - 1)], INDEL), Pointer(i, j - 1, Left);
        case Top =>
          value, pointer := Plus(matrix[(i - 1, j)], INDEL), Pointer(i - 1, j, Top);
        case Diagonal =>
          value, pointer := diagonal, Pointer(i - 1, j - 1, Diagonal);
      }
    }

    /** `banded_alignment`: fills only the cells within `MAXINDELS` of the
        diagonal, row by row, and records the cost of the last cell, which
        is +infinity when that cell lies outside the band. */
    method BandedAlignment(seq1: seq<char>, seq2: seq<char>)
      requires matrix == map[] && backPointers == map[]
      modifies this
      ensures minLength1 == MinLength(maxCharactersToAlign, seq1)
      ensures minLength2 == MinLength(maxCharactersToAlign, seq2)
      ensures matrix == BandMatrix(seq1, seq2, minLength1, minLength2)
      ensures backPointers == BandPointers(seq1, seq2, minLength1, minLength2)
      ensures score == BandCost(seq1, seq2, minLength1 - 1, minLength2 - 1)
      ensures maxCharactersToAlign == old(maxCharactersToAlign) && banded == old(banded)
      ensures alignment1 == old(alignment1) && alignment2 == old(alignment2)
    {
      score := Fin(0);
      matrix := matrix[(-1, -1) := Fin(0)];
      if maxCharactersToAlign > |seq1| {
        minLength1 := |seq1|;
      } else {
        minLength1 := maxCharactersToAlign;
      }
      if maxCharactersToAlign > |seq2| {
        minLength2 := |seq2|;
      } else {
        minLength2 := maxCharactersToAlign;
      }
      BandedFill(seq1, seq2, minLength1, minLength2);
    }

    /** The rest of `banded_alignment` once the origin and the effective
        lengths `m` and `n` are set: the two loops, then the `setdefault`
        on the last cell and the score. */
    method BandedFill(seq1: seq<char>, seq2: seq<char>, m: nat, n: nat)
      requires m <= |seq1| && n <= |seq2|
      requires matrix == map[(-1, -1) := Fin(0)] && backPointers == map[]
      modifies this`matrix, this`backPointers, this`score
      ensures matrix == BandMatrix(seq1, seq2, m, n)
      ensures backPointers == BandPointers(seq1, seq2, m, n)
      ensures score == BandCost(seq1, seq2, m as int - 1, n as int - 1)
    {
      BandStart(seq1, seq2, m, n);
      BandedRows(seq1, seq2, m, n);
      var last: (int, int) := (m as int - 1, n as int - 1);
      BandLast(seq1, seq2, m, n);
      matrix := SetDefault(matrix, last, Inf);
      score := matrix[last];
    }

    /** The banded tables as they stand when the sweep reaches cell
        `(i, j)`: every swept cell written, nothing else. */
    ghost predicate BandSwept(seq1: seq<char>, seq2: seq<char>, m: nat, n: nat, i: int, j: int)
      reads this
    {
      && m <= |seq1| && n <= |seq2|
      && matrix == Sweep(BandWritten(seq1, seq2, m, n), i, j)
      && backPointers == Prefix(BandPointers(seq1, seq2, m, n), i, j)
    }

    /** The outer loop of `banded_alignment`: for each row, the band's
        first column and the column after its last. */
    method BandedRows(seq1: seq<char>, seq2: seq<char>, m: nat, n: nat)
      requires m <= |seq1| && n <= |seq2|
      requires BandSwept(seq1, seq2, m, n, -1, -1)
      modifies this`matrix, this`backPointers
      ensures matrix == BandWritten(seq1, seq2, m, n)
      ensures backPointers == BandPointers(seq1, seq2, m, n)
    {
      for i := -1 to m
        invariant BandSwept(seq1, seq2, m, n, i, -1)
      {
        BandedRowPass(seq1, seq2, m, n, i);
      }
      BandFinished(seq1, seq2, m, n);
    }

    /** One pass of the outer loop of `banded_alignment`: row `i` from the
        band's first column up to, not including, `jEnd`. */
    method BandedRowPass(seq1: seq<char>, seq2: seq<char>, m: nat, n: nat, i: int)
      requires -1 <= i < m
      requires BandSwept(seq1, seq2, m, n, i, -1)
      modifies this`matrix, this`backPointers
      ensures BandSwept(seq1, seq2, m, n, i + 1, -1)
    {
      var jStart, jEnd;
      if -1 >= i - MAXINDELS {
        jStart := -1;
      } else {
        jStart := i - MAXINDELS;
      }
      if n <= i + MAXINDELS {
        jEnd := n;
      } else {
        jEnd := i + MAXINDELS + 1;
      }
      BandRowStart(seq1, seq2, m, n, i, jStart);
      var j := BandedRow(seq1, seq2, m, n, i, jStart, jEnd);
      BandRowEnd(seq1, seq2, m, n, i, j);
    }

    /** The inner loop of `banded_alignment`: `range(jStart, jEnd)`, which
        is empty when `jStart >= jEnd`. Returns the column it stopped at. */
    method BandedRow(seq1: seq<char>, seq2: seq<char>, m: nat, n: nat, i: int, jStart: int, jEnd: int)
      returns (j: int)
      requires m <= |seq1| && n <= |seq2| && -1 <= i < m
      requires -1 <= jStart && i - MAXINDELS <= jStart
      requires jEnd <= n && jEnd <= i + MAXINDELS + 1
      requires BandSwept(seq1, seq2, m, n, i, jStart)
      modifies this`matrix, this`backPointers
      ensures j == if jStart <= jEnd then jEnd else jStart
      ensures BandSwept(seq1, seq2, m, n, i, j)
    {
      j := jStart;
      while j < jEnd
        invariant jStart <= j && (jStart <= jEnd ==> j <= jEnd) && (jStart > jEnd ==> j == jStart)
        invariant BandSwept(seq1, seq2, m, n, i, j)
      {
        BandedCell(seq1, seq2, m, n, i, j);
        j := j + 1;
      }
    }

    /** The body of `banded_alignment`'s inner loop for the in-band cell
        `(i, j)`: like the unrestricted step, except that a neighbour with
        no entry yet is first given +infinity with `setdefault`. */
    method BandedCell(seq1: seq<char>, seq2: seq<char>, m: nat, n: nat, i: int, j: int)
      requires m <= |seq1| && n <= |seq2| && -1 <= i < m && -1 <= j < n && InBand(i, j)
      requires BandSwept(seq1, seq2, m, n, i, j)
      modifies this`matrix, this`backPointers
      ensures BandSwept(seq1, seq2, m, n, i, j + 1)
    {
      if i == -1 && j == -1 {
        BandOrigin(seq1, seq2, m, n);
      } else if i == -1 || j == -1 {
        BandedBorderCell(seq1, seq2, m, n, i, j);
      } else {
        BandedInteriorCell(seq1, seq2, m, n, i, j);
      }
    }

    /** The branches of the banded step for row -1 and column -1. */
    method BandedBorderCell(seq1: seq<char>, seq2: seq<char>, m: nat, n: nat, i: int, j: int)
      requires m <= |seq1| && n <= |seq2| && -1 <= i < m && -1 <= j < n && InBand(i, j)
      requires (i == -1 || j == -1) && (i, j) != (-1, -1)
      requires BandSwept(seq1, seq2, m, n, i, j)
      modifies this`matrix, this`backPointers
      ensures BandSwept(seq1, seq2, m, n, i, j + 1)
    {
      PrefixStep(BandPointers(seq1, seq2, m, n), i, j);
      BandBorderWrite(seq1, seq2, m, n, i, j);
      BandBorder(seq1, seq2, i, j);
      if i == -1 && j > -1 {
        matrix := matrix[(-1, j) := Plus(matrix[(-1, j - 1)], INDEL)];
        backPointers := backPointers[(-1, j) := Pointer(-1, j - 1, Left)];
      } else {
        matrix := matrix[(i, -1) := Plus(matrix[(i - 1, -1)], INDEL)];
        backPointers := backPointers[(i, -1) := Pointer(i - 1, -1, Top)];
      }
    }

    /** The interior branch of the banded step: the two `setdefault` calls,
        then the same choice as in the unrestricted step. */
    method BandedInteriorCell(seq1: seq<char>, seq2: seq<char>, m: nat, n: nat, i: int, j: int)
      requires m <= |seq1| && n <= |seq2| && 0 <= i < m && 0 <= j < n && InBand(i, j)
      requires BandSwept(seq1, seq2, m, n, i, j)
      modifies this`matrix, this`backPointers
      ensures BandSwept(seq1, seq2, m, n, i, j + 1)
    {
      ghost var bw, bp := BandWritten(seq1, seq2, m, n), BandPointers(seq1, seq2, m, n);
      PrefixStep(bp, i, j);
      BandedSetDefaults(seq1, seq2, m, n, i, j);
      var value, pointer := BandedChoice(seq1, seq2, i, j);
      matrix := matrix[(i, j) := value];
      backPointers := backPointers[(i, j) := pointer];
      assert matrix == Sweep(bw, i, j + 1);
      assert backPointers == Prefix(bp, i, j + 1);
    }

    /** Lines 144-145: the left and top neighbours of an in-band cell get
        +infinity if nothing was written for them.  Afterwards the three
        neighbours hold their banded costs, and writing the cell's own cost
        completes the sweep up to it. */
    method BandedSetDefaults(seq1: seq<char>, seq2: seq<char>, m: nat, n: nat, i: int, j: int)
      requires m <= |seq1| && n <= |seq2| && 0 <= i < m && 0 <= j < n && InBand(i, j)
      requires matrix == Sweep(BandWritten(seq1, seq2, m, n), i, j)
      modifies this`matrix
      ensures HoldsBandNeighbours(seq1, seq2, i, j)
      ensures matrix[(i, j) := BandCost(seq1, seq2, i, j)] == Sweep(BandWritten(seq1, seq2, m, n), i, j + 1)
    {
      BandInteriorRead(seq1, seq2, m, n, i, j);
      BandInteriorWrite(seq1, seq2, m, n, i, j);
      matrix := SetDefault(matrix, (i, j - 1), Inf);
      matrix := SetDefault(matrix, (i - 1, j), Inf);
    }

    /** The left, top and diagonal neighbours of the interior cell `(i, j)`
        hold their banded costs. */
    ghost predicate HoldsBandNeighbours(seq1: seq<char>, seq2: seq<char>, i: int, j: int)
      reads this
    {
      && InGrid(seq1, seq2, i, j) && i >= 0 && j >= 0
      && (i, j - 1) in matrix && matrix[(i, j - 1)] == BandCost(seq1, seq2, i, j - 1)
      && (i - 1, j) in matrix && matrix[(i - 1, j)] == BandCost(seq1, seq2, i - 1, j)
      && (i - 1, j - 1) in matrix && matrix[(i - 1, j - 1)] == BandCost(seq1, seq2, i - 1, j - 1)
    }

    /** Lines 146-163 of the banded step once both neighbours are present:
        the cost and back-pointer written for the in-band cell `(i, j)`. */
    method BandedChoice(seq1: seq<char>, seq2: seq<char>, i: int, j: int) returns (value: Cost, pointer: Pointer)
      requires InBand(i, j) && HoldsBandNeighbours(seq1, seq2, i, j)
      ensures value == BandCost(seq1, seq2, i, j)
      ensures pointer == BandPointer(seq1, seq2, i, j)
    {
      var diagonal, direction;
      if seq1[i] == seq2[j] {
        diagonal := Plus(matrix[(i - 1, j - 1)], MATCH);
        direction := GetMin(Plus(matrix[(i, j - 1)], INDEL), Plus(matrix[(i - 1, j)], INDEL), diagonal);
      } else {
        diagonal := Plus(matrix[(i - 1, j - 1)], SUB);
        direction := GetMin(Plus(matrix[(i, j - 1)], INDEL), Plus(matrix[(i - 1, j)], INDEL), diagonal);
      }
      BandChoice(seq1, seq2, i, j, Plus(matrix[(i, j - 1)], INDEL), Plus(matrix[(i - 1, j)], INDEL), diagonal);
      match direction {
        case Left =>
          value, pointer := Plus(matrix[(i, j - 1)], INDEL), Pointer(i, j - 1, Left);
        case Top =>
          value, pointer := Plus(matrix[(i - 1, j)], INDEL), Pointer(i - 1, j, Top);
        case Diagonal =>
          value, pointer := diagonal, Pointer(i - 1, j - 1, Diagonal);
      }
    }

    /** The alignment strings hold the (corrected) traceback from `(i0, j0)`. */
    ghost predicate Traced(seq1: seq<char>, seq2: seq<char>, i0: int, j0: int)
      reads this
      requires minLength1 <= |seq1| && minLength2 <= |seq2|
      requires WellFormed(backPointers, minLength1, minLength2)
      requires (i0, j0) in backPointers
    {
      && alignment1 == Aligned(backPointers, seq1, seq2, minLength1, minLength2, i0, j0).0
      && alignment2 == Aligned(backPointers, seq1, seq2, minLength1, minLength2, i0, j0).1
    }

    /** The alignment strings hold the traceback from `(i0, j0)` as written. */
    ghost predicate TracedAsWritten(seq1: seq<char>, seq2: seq<char>, i0: int, j0: int)
      reads this
      requires minLength1 <= |seq1| && minLength2 <= |seq2| && |seq1| >= 1 && |seq2| >= 1
      requires WellFormed(backPointers, minLength1, minLength2)
      requires (i0, j0) in backPointers
    {
      && alignment1 == AlignedAsWritten(backPointers, seq1, seq2, minLength1, minLength2, i0, j0).0
      && alignment2 == AlignedAsWritten(backPointers, seq1, seq2, minLength1, minLength2, i0, j0).1
    }

    /** `alignment`, with the last step corrected: walks the back-pointers
        from the last cell to the origin, prepending the column of each
        move, so the result is the traced alignment. A missing last cell
        raises `KeyError` (line 33). */
    method Alignment(seq1: seq<char>, seq2: seq<char>) returns (error: Option<PyError>)
      requires minLength1 <= |seq1| && minLength2 <= |seq2|
      requires WellFormed(backPointers, minLength1, minLength2)
      modifies this`alignment1, this`alignment2
      ensures (minLength1 - 1, minLength2 - 1) !in backPointers ==> error == Some(KeyError)
      ensures (minLength1 - 1, minLength2 - 1) in backPointers ==>
                error == None && Traced(seq1, seq2, minLength1 - 1, minLength2 - 1)
    {
      if (minLength1 - 1, minLength2 - 1) !in backPointers {
        alignment1, alignment2 := [], [];
        return Some(KeyError);
      }
      TraceFrom(seq1, seq2, minLength1 - 1, minLength2 - 1);
      return None;
    }

    /** The corrected traceback from cell `(i0, j0)`: the loop, then the
        column of the last cell's own move. */
    method TraceFrom(seq1: seq<char>, seq2: seq<char>, i0: int, j0: int)
      requires minLength1 <= |seq1| && minLength2 <= |seq2|
      requires WellFormed(backPointers, minLength1, minLength2)
      requires (i0, j0) in backPointers
      modifies this`alignment1, this`alignment2
      ensures Traced(seq1, seq2, i0, j0)
    {
      var i, j, current, suffix1, suffix2 := TraceLoop(seq1, seq2, i0, j0);
      AlignedFinish(backPointers, seq1, seq2, minLength1, minLength2, i0, j0, i, j, suffix1, suffix2);
      var col := Column(seq1, seq2, i, j, current.move);
      alignment1 := [col.0] + suffix1;
      alignment2 := [col.1] + suffix2;
    }

    /** `alignment` as written. The loop is the same; after it, the last
        cell always gets `seq1[i]` and `seq2[j]` with Python indexing (so
        `i == -1` reads the last symbol), and a `top` move adds a further
        gap to the second string. The test on line 53 compares an integer
        with a string and never holds, so it adds nothing. Indexing an
        empty sequence raises `IndexError`. */
    method AlignmentAsWritten(seq1: seq<char>, seq2: seq<char>) returns (error: Option<PyError>)
      requires minLength1 <= |seq1| && minLength2 <= |seq2|
      requires WellFormed(backPointers, minLength1, minLength2)
      modifies this`alignment1, this`alignment2
      ensures (minLength1 - 1, minLength2 - 1) !in backPointers ==> error == Some(KeyError)
      ensures (minLength1 - 1, minLength2 - 1) in backPointers && (|seq1| == 0 || |seq2| == 0) ==> error == Some(IndexError)
      ensures (minLength1 - 1, minLength2 - 1) in backPointers && |seq1| >= 1 && |seq2| >= 1 ==>
                error == None && TracedAsWritten(seq1, seq2, minLength1 - 1, minLength2 - 1)
    {
      if (minLength1 - 1, minLength2 - 1) !in backPointers {
        alignment1, alignment2 := [], [];
        return Some(KeyError);
      }
      if |seq1| == 0 || |seq2| == 0 {
        TraceFromEmpty(seq1, seq2, minLength1 - 1, minLength2 - 1);
        return Some(IndexError);
      }
      TraceFromAsWritten(seq1, seq2, minLength1 - 1, minLength2 - 1);
      return None;
    }

    /** The traceback as written from cell `(i0, j0)` when both sequences
        are non-empty: the loop, then the Python-indexed symbols of the
        last cell and the extra gap for `top`. */
    method TraceFromAsWritten(seq1: seq<char>, seq2: seq<char>, i0: int, j0: int)
      requires minLength1 <= |seq1| && minLength2 <= |seq2| && |seq1| >= 1 && |seq2| >= 1
      requires WellFormed(backPointers, minLength1, minLength2)
      requires (i0, j0) in backPointers
      modifies this`alignment1, this`alignment2
      ensures TracedAsWritten(seq1, seq2, i0, j0)
    {
      var i, j, current, suffix1, suffix2 := TraceLoop(seq1, seq2, i0, j0);
      AsWrittenFinish(backPointers, seq1, seq2, minLength1, minLength2, i0, j0, i, j, suffix1, suffix2);
      alignment1, alignment2 := suffix1, suffix2;
      alignment1 := [PyIndex(seq1, i)] + alignment1;
      alignment2 := [PyIndex(seq2, j)] + alignment2;
      if current.move == Top {
        alignment2 := [GAP] + alignment2;
      }
    }

    /** The traceback as written when a sequence is empty: the loop runs,
        then `seq1[i]` or `seq2[j]` indexes the empty sequence. */
    method TraceFromEmpty(seq1: seq<char>, seq2: seq<char>, i0: int, j0: int)
      requires minLength1 <= |seq1| && minLength2 <= |seq2| && (|seq1| == 0 || |seq2| == 0)
      requires WellFormed(backPointers, minLength1, minLength2)
      requires (i0, j0) in backPointers
      modifies this`alignment1, this`alignment2
    {
      var i, j, current, suffix1, suffix2 := TraceLoop(seq1, seq2, i0, j0);
      AsWrittenFinish(backPointers, seq1, seq2, minLength1, minLength2, i0, j0, i, j, suffix1, suffix2);
      alignment1, alignment2 := suffix1, suffix2;
      if |seq1| != 0 {
        alignment1 := [PyIndex(seq1, i)] + alignment1;
      }
    }

    /** The `while` loop of `alignment` (lines 36-48), shared by both
        versions: starting from `(i0, j0)` with empty strings, it prepends
        the column of every cell whose predecessor is not the origin, and
        stops at the cell whose predecessor is. What it builds is the
        suffix that both tracebacks put after that cell. */
    method TraceLoop(seq1: seq<char>, seq2: seq<char>, i0: int, j0: int)
      returns (i: int, j: int, current: Pointer, suffix1: seq<char>, suffix2: seq<char>)
      requires minLength1 <= |seq1| && minLength2 <= |seq2|
      requires WellFormed(backPointers, minLength1, minLength2)
      requires (i0, j0) in backPointers
      ensures (i, j) in backPointers && current == backPointers[(i, j)]
      ensures (current.pi, current.pj) == (-1, -1)
      ensures var whole, rest := Aligned(backPointers, seq1, seq2, minLength1, minLength2, i0, j0),
                                Aligned(backPointers, seq1, seq2, minLength1, minLength2, i, j);
              whole.0 == rest.0 + suffix1 && whole.1 == rest.1 + suffix2
      ensures |seq1| >= 1 && |seq2| >= 1 ==>
                var whole, rest := AlignedAsWritten(backPointers, seq1, seq2, minLength1, minLength2, i0, j0),
                                   AlignedAsWritten(backPointers, seq1, seq2, minLength1, minLength2, i, j);
                whole.0 == rest.0 + suffix1 && whole.1 == rest.1 + suffix2
    {
      var bp, m, n := backPointers, minLength1, minLength2;
      suffix1, suffix2 := [], [];
      current := backPointers[(i0, j0)];
      i, j := i0, j0;
      while current.pi > -1 || current.pj > -1
        invariant (i, j) in bp && current == bp[(i, j)]
        invariant Aligned(bp, seq1, seq2, m, n, i0, j0).0 == Aligned(bp, seq1, seq2, m, n, i, j).0 + suffix1
        invariant Aligned(bp, seq1, seq2, m, n, i0, j0).1 == Aligned(bp, seq1, seq2, m, n, i, j).1 + suffix2
        invariant |seq1| >= 1 && |seq2| >= 1 ==>
                    AlignedAsWritten(bp, seq1, seq2, m, n, i0, j0).0 == AlignedAsWritten(bp, seq1, seq2, m, n, i, j).0 + suffix1
        invariant |seq1| >= 1 && |seq2| >= 1 ==>
                    AlignedAsWritten(bp, seq1, seq2, m, n, i0, j0).1 == AlignedAsWritten(bp, seq1, seq2, m, n, i, j).1 + suffix2
        decreases i + j
      {
        AlignedStep(bp, seq1, seq2, m, n, i, j);
        AsWrittenStep(bp, seq1, seq2, m, n, i, j);
        ghost var col, a1, a2 := Column(seq1, seq2, i, j, current.move), suffix1, suffix2;
        if current.move == Top {
          suffix2 := [GAP] + suffix2;
          suffix1 := [seq1[i]] + suffix1;
        }
        if current.move == Left {
          suffix1 := [GAP] + suffix1;
          suffix2 := [seq2[j]] + suffix2;
        }
        if current.move == Diagonal {
          suffix1 := [seq1[i]] + suffix1;
          suffix2 := [seq2[j]] + suffix2;
        }
        assert suffix1 == [col.0] + a1 && suffix2 == [col.1] + a2;
        PrependColumn(Aligned(bp, seq1, seq2, m, n, current.pi, current.pj).0, col.0, a1);
        PrependColumn(Aligned(bp, seq1, seq2, m, n, current.pi, current.pj).1, col.1, a2);
        if |seq1| >= 1 && |seq2| >= 1 {
          PrependColumn(AlignedAsWritten(bp, seq1, seq2, m, n, current.pi, current.pj).0, col.0, a1);
          PrependColumn(AlignedAsWritten(bp, seq1, seq2, m, n, current.pi, current.pj).1, col.1, a2);
        }
        i, j := current.pi, current.pj;
        current := bp[(current.pi, current.pj)];
      }
      assert LinksBack(bp, (i, j), m, n);
    }

    /** `align`: resets the tables, runs the banded or the unrestricted
        builder, and reports the cost with the first 100 columns of the
        alignment `alignment` builds, or "No Alignment Possible" when the
        cost is infinite. */
    method Align(seq1: seq<char>, seq2: seq<char>, banded: bool, alignLength: nat) returns (result: Outcome)
      modifies this
      ensures result == AlignSpec(seq1, seq2, banded, alignLength)
    {
      this.banded := banded;
      maxCharactersToAlign := alignLength;
      backPointers := map[];
      matrix := map[];
      BuildTables(seq1, seq2);
      TablePointersWellFormed(seq1, seq2, banded, alignLength);
      result := Report(seq1, seq2);
    }

    /** `align` with the corrected traceback in place of `alignment`. */
    method AlignCorrected(seq1: seq<char>, seq2: seq<char>, banded: bool, alignLength: nat) returns (result: Outcome)
      modifies this
      ensures result == AlignIntended(seq1, seq2, banded, alignLength)
    {
      this.banded := banded;
      maxCharactersToAlign := alignLength;
      backPointers := map[];
      matrix := map[];
      BuildTables(seq1, seq2);
      TablePointersWellFormed(seq1, seq2, banded, alignLength);
      result := ReportCorrected(seq1, seq2);
    }

    /** Lines 178-181 of `align`: the builder the `banded` flag selects. */
    method BuildTables(seq1: seq<char>, seq2: seq<char>)
      requires matrix == map[] && backPointers == map[]
      modifies this
      ensures minLength1 == MinLength(maxCharactersToAlign, seq1)
      ensures minLength2 == MinLength(maxCharactersToAlign, seq2)
      ensures score == TableScore(seq1, seq2, banded, maxCharactersToAlign)
      ensures backPointers == TablePointers(seq1, seq2, banded, maxCharactersToAlign)
      ensures maxCharactersToAlign == old(maxCharactersToAlign) && banded == old(banded)
    {
      if banded {
        BandedAlignment(seq1, seq2);
      } else {
        Unrestricted(seq1, seq2);
      }
    }

    /** Lines 182-194 of `align`: the sentinel for an infinite cost,
        otherwise `alignment` as written, whose exception propagates, and
        the first 100 symbols of the two lists it builds. */
    method Report(seq1: seq<char>, seq2: seq<char>) returns (result: Outcome)
      requires minLength1 <= |seq1| && minLength2 <= |seq2|
      requires WellFormed(backPointers, minLength1, minLength2)
      modifies this`alignment1, this`alignment2
      ensures result == Reported(score, backPointers, seq1, seq2, minLength1, minLength2)
    {
      if score == Inf {
        return Returned(score, NO_ALIGNMENT, NO_ALIGNMENT);
      }
      var error := AlignmentAsWritten(seq1, seq2);
      if error.Some? {
        return Raised(error.value);
      }
      return Returned(score, Take(alignment1), Take(alignment2));
    }

    /** `Report` with the corrected traceback. */
    method ReportCorrected(seq1: seq<char>, seq2: seq<char>) returns (result: Outcome)
      requires minLength1 <= |seq1| && minLength2 <= |seq2|
      requires WellFormed(backPointers, minLength1, minLength2)
      modifies this`alignment1, this`alignment2
      ensures result == ReportedIntended(score, backPointers, seq1, seq2, minLength1, minLength2)
    {
      if score == Inf {
        return Returned(score, NO_ALIGNMENT, NO_ALIGNMENT);
      }
      var error := Alignment(seq1, seq2);
      if error.Some? {
        return Raised(error.value);
      }
      return Returned(score, Take(alignment1), Take(alignment2));
    }
  }
}
