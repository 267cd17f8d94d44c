/** What `align` promises its caller, stated on `AlignSpec`, the function
    the `align` method is proved to compute: when it reports that no
    alignment is possible, when it raises `KeyError` and when `IndexError`,
    when the two strings it returns are the start of a real alignment
    scoring the reported cost (exactly when the traceback stops at the
    first cell of both sequences, where the code as written agrees with
    the corrected traceback `AlignIntended`), that the unrestricted cost is
    optimal and the banded one never lower, and how it treats swapped and
    identical sequences. */
module AlignProperties {
  import opened CostModel
  import opened Recurrence
  import opened Traceback
  import opened Sequencing

  /** "No Alignment Possible" is reported exactly when the banded variant
      is asked for and the two aligned lengths differ by more than
      `MAXINDELS`; the unrestricted variant always finds an alignment. */
  lemma NoAlignmentIffOutsideBand(s1: seq<char>, s2: seq<char>, banded: bool, limit: nat)
    ensures var m: int, n: int := MinLength(limit, s1), MinLength(limit, s2);
            AlignSpec(s1, s2, banded, limit) == Returned(Inf, NO_ALIGNMENT, NO_ALIGNMENT) <==>
              banded && (m > n + MAXINDELS || n > m + MAXINDELS)
  {
    TablePointersWellFormed(s1, s2, banded, limit);
    ReportInf(TableScore(s1, s2, banded, limit), TablePointers(s1, s2, banded, limit),
              s1, s2, MinLength(limit, s1), MinLength(limit, s2));
    ScoreInfIffOutsideBand(s1, s2, banded, limit);
  }

  /** `align` raises `KeyError` exactly when nothing is aligned: both
      effective lengths are zero, so the last cell is the origin, which has
      no back-pointer (line 33). */
  lemma KeyErrorIffNothingAligned(s1: seq<char>, s2: seq<char>, banded: bool, limit: nat)
    ensures AlignSpec(s1, s2, banded, limit) == Raised(KeyError) <==> MinLength(limit, s1) == 0 && MinLength(limit, s2) == 0
  {
    TablePointersWellFormed(s1, s2, banded, limit);
    ReportRaised(TableScore(s1, s2, banded, limit), TablePointers(s1, s2, banded, limit),
                 s1, s2, MinLength(limit, s1), MinLength(limit, s2));
    LastCellMissingIff(s1, s2, banded, limit);
  }

  /** `align` raises `IndexError` exactly when one sequence is empty, the
      other contributes at least one symbol, and the cost is finite: the
      traceback then stops on row or column -1, and lines 49-50 index the
      empty sequence. */
  lemma IndexErrorIffOneEmpty(s1: seq<char>, s2: seq<char>, banded: bool, limit: nat)
    ensures var m: int, n: int := MinLength(limit, s1), MinLength(limit, s2);
            AlignSpec(s1, s2, banded, limit) == Raised(IndexError) <==>
              && (|s1| == 0 || |s2| == 0) && (m > 0 || n > 0)
              && !(banded && (m > n + MAXINDELS || n > m + MAXINDELS))
  {
    TablePointersWellFormed(s1, s2, banded, limit);
    ReportRaised(TableScore(s1, s2, banded, limit), TablePointers(s1, s2, banded, limit),
                 s1, s2, MinLength(limit, s1), MinLength(limit, s2));
    LastCellMissingIff(s1, s2, banded, limit);
    ScoreInfIffOutsideBand(s1, s2, banded, limit);
  }

  /** The two strings `align` returns hold at most 100 symbols each, and
      have the same length when the traceback stops at `(0, 0)`. */
  lemma ReportedStringsBounded(s1: seq<char>, s2: seq<char>, banded: bool, limit: nat)
    ensures var r := AlignSpec(s1, s2, banded, limit);
            r.Returned? ==> |r.first1| <= SHOWN && |r.first2| <= SHOWN
    ensures var r := AlignSpec(s1, s2, banded, limit);
            r.Returned? && PathStopsAtOrigin(s1, s2, banded, limit) ==> |r.first1| == |r.first2|
  {
    TablePointersWellFormed(s1, s2, banded, limit);
    ReportBounded(TableScore(s1, s2, banded, limit), TablePointers(s1, s2, banded, limit),
                  s1, s2, MinLength(limit, s1), MinLength(limit, s2));
  }

  /** With a finite cost and a traceback that stops at `(0, 0)`, the two
      strings `align` returns are the first 100 columns of an alignment of
      the two aligned prefixes, and that alignment scores exactly the
      reported cost. (The inputs must not contain the gap symbol '-'
      itself, or gaps and symbols could not be told apart.) */
  lemma ReportedIsAlignment(s1: seq<char>, s2: seq<char>, banded: bool, limit: nat)
    requires GAP !in s1 && GAP !in s2
    ensures var r, m: int, n: int := AlignSpec(s1, s2, banded, limit), MinLength(limit, s1), MinLength(limit, s2);
            r.Returned? && r.cost.Fin? && PathStopsAtOrigin(s1, s2, banded, limit) ==>
              exists x, y :: && IsAlignment(s1, s2, m - 1, n - 1, x, y)
                             && ColumnScore(x, y) == r.cost.v
                             && r.first1 == Take(x) && r.first2 == Take(y)
  {
    AsWrittenMatchesIntended(s1, s2, banded, limit);
    IntendedIsAlignment(s1, s2, banded, limit);
  }

  /** `align` as written returns what the corrected `align` returns except
      when the corrected one returns a finite cost with an alignment whose
      traceback does not stop at `(0, 0)`; whenever it returns at all, the
      corrected one returns the same cost. */
  lemma AsWrittenMatchesIntended(s1: seq<char>, s2: seq<char>, banded: bool, limit: nat)
    ensures var r, q := AlignSpec(s1, s2, banded, limit), AlignIntended(s1, s2, banded, limit);
            r.Returned? ==> q.Returned? && r.cost == q.cost
    ensures var r, q := AlignSpec(s1, s2, banded, limit), AlignIntended(s1, s2, banded, limit);
            r != q ==> q.Returned? && q.cost.Fin? && !PathStopsAtOrigin(s1, s2, banded, limit)
  {
    TablePointersWellFormed(s1, s2, banded, limit);
    ReportAgrees(TableScore(s1, s2, banded, limit), TablePointers(s1, s2, banded, limit),
                 s1, s2, MinLength(limit, s1), MinLength(limit, s2));
  }

  /** The corrected `align` returns two strings of the same length, at
      most 100. */
  lemma IntendedStringsEqual(s1: seq<char>, s2: seq<char>, banded: bool, limit: nat)
    ensures var r := AlignIntended(s1, s2, banded, limit);
            r.Returned? ==> |r.first1| == |r.first2| <= SHOWN
  {
    TablePointersWellFormed(s1, s2, banded, limit);
    IntendedBounded(TableScore(s1, s2, banded, limit), TablePointers(s1, s2, banded, limit),
                    s1, s2, MinLength(limit, s1), MinLength(limit, s2));
  }

  /** With a finite cost, the corrected `align` returns the first 100
      columns of an alignment of the two aligned prefixes that scores
      exactly that cost. */
  lemma IntendedIsAlignment(s1: seq<char>, s2: seq<char>, banded: bool, limit: nat)
    requires GAP !in s1 && GAP !in s2
    ensures var r, m: int, n: int := AlignIntended(s1, s2, banded, limit), MinLength(limit, s1), MinLength(limit, s2);
            r.Returned? && r.cost.Fin? ==>
              exists x, y :: && IsAlignment(s1, s2, m - 1, n - 1, x, y)
                             && ColumnScore(x, y) == r.cost.v
                             && r.first1 == Take(x) && r.first2 == Take(y)
  {
    TablePointersWellFormed(s1, s2, banded, limit);
    TracedScore(s1, s2, banded, limit);
    IntendedAlignment(TableScore(s1, s2, banded, limit), TablePointers(s1, s2, banded, limit),
                      s1, s2, MinLength(limit, s1), MinLength(limit, s2));
  }

  /** The unrestricted variant, once something is aligned, returns a
      finite cost exactly when neither sequence is empty (otherwise it
      raises `IndexError`), and no alignment of the two aligned prefixes
      scores below that cost: the reported cost is optimal. */
  lemma UnrestrictedIsOptimal(s1: seq<char>, s2: seq<char>, limit: nat)
    ensures var r, m: int, n: int := AlignSpec(s1, s2, false, limit), MinLength(limit, s1), MinLength(limit, s2);
            (m > 0 || n > 0) ==> (r.Returned? && r.cost.Fin? <==> |s1| > 0 && |s2| > 0)
    ensures var r, m: int, n: int := AlignSpec(s1, s2, false, limit), MinLength(limit, s1), MinLength(limit, s2);
            r.Returned? ==> r.cost == Fin(Full(s1, s2, m - 1, n - 1))
    ensures var r, m: int, n: int := AlignSpec(s1, s2, false, limit), MinLength(limit, s1), MinLength(limit, s2);
            r.Returned? ==> forall x, y :: IsAlignment(s1, s2, m - 1, n - 1, x, y) ==> r.cost.v <= ColumnScore(x, y)
  {
    var m: int, n: int := MinLength(limit, s1), MinLength(limit, s2);
    KeyErrorIffNothingAligned(s1, s2, false, limit);
    IndexErrorIffOneEmpty(s1, s2, false, limit);
    ReportedCost(s1, s2, false, limit);
    VariantScores(s1, s2, limit);
    FullIsMinimum(s1, s2, m - 1, n - 1);
  }

  /** `FullIsOptimal` for every alignment at once. */
  lemma FullIsMinimum(s1: seq<char>, s2: seq<char>, i: int, j: int)
    requires InGrid(s1, s2, i, j)
    ensures forall x, y :: IsAlignment(s1, s2, i, j, x, y) ==> Full(s1, s2, i, j) <= ColumnScore(x, y)
  {
    forall x, y | IsAlignment(s1, s2, i, j, x, y)
      ensures Full(s1, s2, i, j) <= ColumnScore(x, y)
    {
      FullIsOptimal(s1, s2, i, j, x, y);
    }
  }

  /** Restricting the search to the band never finds a cheaper alignment:
      whenever the banded variant reports a cost, the unrestricted one
      reports a cost no higher. */
  lemma BandedNeverCheaper(s1: seq<char>, s2: seq<char>, limit: nat)
    ensures var rb, rf := AlignSpec(s1, s2, true, limit), AlignSpec(s1, s2, false, limit);
            rb.Returned? && rb.cost.Fin? ==> rf.Returned? && rf.cost.Fin? && rf.cost.v <= rb.cost.v
  {
    KeyErrorIffNothingAligned(s1, s2, true, limit);
    KeyErrorIffNothingAligned(s1, s2, false, limit);
    IndexErrorIffOneEmpty(s1, s2, true, limit);
    IndexErrorIffOneEmpty(s1, s2, false, limit);
    ReportedCost(s1, s2, true, limit);
    ReportedCost(s1, s2, false, limit);
    BandedScoreNotBelow(s1, s2, limit);
  }

  /** The banded cost, when finite, is never below the (always finite)
      unrestricted one. */
  lemma BandedScoreNotBelow(s1: seq<char>, s2: seq<char>, limit: nat)
    ensures TableScore(s1, s2, false, limit).Fin?
    ensures TableScore(s1, s2, true, limit).Fin? ==>
              TableScore(s1, s2, false, limit).v <= TableScore(s1, s2, true, limit).v
  {
    var m: int, n: int := MinLength(limit, s1), MinLength(limit, s2);
    VariantScores(s1, s2, limit);
    BandAtLeastFull(s1, s2, m - 1, n - 1);
  }

  /** `BandNotBelowFull`, for every cell. */
  lemma BandAtLeastFull(a: seq<char>, b: seq<char>, i: int, j: int)
    requires InGrid(a, b, i, j)
    ensures BandCost(a, b, i, j).Fin? ==> Full(a, b, i, j) <= BandCost(a, b, i, j).v
  {
    if BandCost(a, b, i, j).Fin? {
      BandNotBelowFull(a, b, i, j);
    }
  }

  /** Swapping the two sequences changes neither the kind of outcome, nor
      the exception raised, nor the reported cost. */
  lemma SwappedSequences(s1: seq<char>, s2: seq<char>, banded: bool, limit: nat)
    ensures var r, q := AlignSpec(s1, s2, banded, limit), AlignSpec(s2, s1, banded, limit);
            && r.Returned? == q.Returned?
            && (r.Raised? ==> r == q)
            && (r.Returned? ==> r.cost == q.cost)
  {
    KeyErrorIffNothingAligned(s1, s2, banded, limit);
    KeyErrorIffNothingAligned(s2, s1, banded, limit);
    IndexErrorIffOneEmpty(s1, s2, banded, limit);
    IndexErrorIffOneEmpty(s2, s1, banded, limit);
    ReportedCost(s1, s2, banded, limit);
    ReportedCost(s2, s1, banded, limit);
    ScoreSymmetric(s1, s2, banded, limit);
  }

  /** Aligning a sequence with itself matches every aligned symbol: the
      cost is `-3` per symbol and both strings are the aligned prefix
      itself, in either variant. The traceback runs down the diagonal and
      stops at `(0, 0)`, so the code as written gets this right. */
  lemma SelfAlignment(s: seq<char>, banded: bool, limit: nat)
    requires MinLength(limit, s) > 0
    ensures var m: int := MinLength(limit, s);
            AlignSpec(s, s, banded, limit) == Returned(Fin(MATCH * m), Take(s[..m]), Take(s[..m]))
  {
    SelfAlignmentIntended(s, banded, limit);
    SelfStopsAtOrigin(s, banded, limit);
    AsWrittenMatchesIntended(s, s, banded, limit);
  }

  /** `SelfAlignment` for the corrected `align`. */
  lemma SelfAlignmentIntended(s: seq<char>, banded: bool, limit: nat)
    requires MinLength(limit, s) > 0
    ensures var m: int := MinLength(limit, s);
            AlignIntended(s, s, banded, limit) == Returned(Fin(MATCH * m), Take(s[..m]), Take(s[..m]))
  {
    var m: int := MinLength(limit, s);
    var bp := TablePointers(s, s, banded, limit);
    DiagonalPointers(s, banded, limit);
    SelfScore(s, banded, limit);
    DiagonalTrace(bp, s, m, m - 1);
    assert s[..m - 1 + 1] == s[..m];
    IntendedCases(TableScore(s, s, banded, limit), bp, s, s, m, m);
  }

  /** Against itself, the traceback from the last cell stops at `(0, 0)`. */
  lemma SelfStopsAtOrigin(s: seq<char>, banded: bool, limit: nat)
    requires MinLength(limit, s) > 0
    ensures PathStopsAtOrigin(s, s, banded, limit)
  {
    var m: int := MinLength(limit, s);
    var bp := TablePointers(s, s, banded, limit);
    DiagonalPointers(s, banded, limit);
    DiagonalStop(bp, m, m - 1);
  }

  // ---------------------------------------------------------------------
  // Facts about the tables, without the traceback

  /** The selected variant's cost is infinite exactly when the banded
      variant is asked for and the last cell lies outside the band. */
  lemma ScoreInfIffOutsideBand(s1: seq<char>, s2: seq<char>, banded: bool, limit: nat)
    ensures var m: int, n: int := MinLength(limit, s1), MinLength(limit, s2);
            TableScore(s1, s2, banded, limit).Inf? <==> banded && (m > n + MAXINDELS || n > m + MAXINDELS)
  {
    var m: int, n: int := MinLength(limit, s1), MinLength(limit, s2);
    if banded {
      BandInfIffOutside(s1, s2, m - 1, n - 1);
    }
  }

  /** With a finite cost, the last cell lacks a back-pointer exactly when
      nothing is aligned. */
  lemma LastCellMissingIff(s1: seq<char>, s2: seq<char>, banded: bool, limit: nat)
    ensures var m: int, n: int := MinLength(limit, s1), MinLength(limit, s2);
            TableScore(s1, s2, banded, limit).Fin? && (m - 1, n - 1) !in TablePointers(s1, s2, banded, limit) <==>
              m == 0 && n == 0
  {
    var m: int, n: int := MinLength(limit, s1), MinLength(limit, s2);
    if m == 0 && n == 0 {
      assert TableScore(s1, s2, banded, limit) == Fin(0);
    }
    if TableScore(s1, s2, banded, limit).Fin? {
      LastCellKey(s1, s2, banded, limit);
    }
  }

  /** The cost each variant selects, for the aligned prefixes. */
  lemma VariantScores(s1: seq<char>, s2: seq<char>, limit: nat)
    ensures var m: int, n: int := MinLength(limit, s1), MinLength(limit, s2);
            && TableScore(s1, s2, false, limit) == Fin(Full(s1, s2, m - 1, n - 1))
            && TableScore(s1, s2, true, limit) == BandCost(s1, s2, m - 1, n - 1)
  {
  }

  /** The selected variant's cost does not change when the sequences are
      swapped. */
  lemma ScoreSymmetric(s1: seq<char>, s2: seq<char>, banded: bool, limit: nat)
    ensures TableScore(s1, s2, banded, limit) == TableScore(s2, s1, banded, limit)
  {
    var m: int, n: int := MinLength(limit, s1), MinLength(limit, s2);
    VariantScores(s1, s2, limit);
    VariantScores(s2, s1, limit);
    if banded {
      BandSymmetric(s1, s2, m - 1, n - 1);
    } else {
      FullSymmetric(s1, s2, m - 1, n - 1);
    }
  }

  /** Either variant's cost for a sequence against itself. */
  lemma SelfScore(s: seq<char>, banded: bool, limit: nat)
    requires MinLength(limit, s) > 0
    ensures TableScore(s, s, banded, limit) == Fin(MATCH * MinLength(limit, s))
  {
    var m: int := MinLength(limit, s);
    if banded {
      BandIdentity(s, m - 1);
    } else {
      FullIdentity(s, m - 1);
    }
  }

  /** Both tables record a diagonal move along the diagonal when a
      sequence is aligned with itself. */
  lemma DiagonalPointers(s: seq<char>, banded: bool, limit: nat)
    ensures WellFormed(TablePointers(s, s, banded, limit), MinLength(limit, s), MinLength(limit, s))
    ensures forall d :: 0 <= d < MinLength(limit, s) ==> DiagonalAt(TablePointers(s, s, banded, limit), d)
  {
    var m: int := MinLength(limit, s);
    var bp := TablePointers(s, s, banded, limit);
    TablePointersWellFormed(s, s, banded, limit);
    forall d | 0 <= d < m
      ensures DiagonalAt(bp, d)
    {
      if banded {
        BandIdentity(s, d);
        assert bp[(d, d)] == BandPointer(s, s, d, d);
      } else {
        FullIdentity(s, d);
        assert bp[(d, d)] == FullPointer(s, s, d, d);
      }
    }
  }

  /** The alignment traced back from the last cell through `bp` scores
      `score`, whenever there is something to trace. */
  ghost predicate TracesScore(score: Cost, bp: map<(int, int), Pointer>, s1: seq<char>, s2: seq<char>, m: int, n: int) {
    m <= |s1| && n <= |s2| && WellFormed(bp, m, n) && score.Fin? && (m - 1, n - 1) in bp ==>
      var al := Aligned(bp, s1, s2, m, n, m - 1, n - 1);
      |al.0| == |al.1| && ColumnScore(al.0, al.1) == score.v
  }

  /** The alignment traced from the last cell scores the selected
      variant's cost. */
  lemma TracedScore(s1: seq<char>, s2: seq<char>, banded: bool, limit: nat)
    requires GAP !in s1 && GAP !in s2
    ensures TracesScore(TableScore(s1, s2, banded, limit), TablePointers(s1, s2, banded, limit),
                        s1, s2, MinLength(limit, s1), MinLength(limit, s2))
  {
    var m: nat, n: nat := MinLength(limit, s1), MinLength(limit, s2);
    if banded {
      assert TablePointers(s1, s2, banded, limit) == BandPointers(s1, s2, m, n);
      assert TableScore(s1, s2, banded, limit) == BandCost(s1, s2, m - 1, n - 1);
      TracedScoreBand(s1, s2, m, n);
    } else {
      assert TablePointers(s1, s2, banded, limit) == FullPointers(s1, s2, m, n);
      assert TableScore(s1, s2, banded, limit) == Fin(Full(s1, s2, m - 1, n - 1));
      TracedScoreFull(s1, s2, m, n);
    }
  }

  /** `TracedScore` for the unrestricted table. */
  lemma TracedScoreFull(s1: seq<char>, s2: seq<char>, m: nat, n: nat)
    requires m <= |s1| && n <= |s2| && GAP !in s1 && GAP !in s2
    ensures TracesScore(Fin(Full(s1, s2, m as int - 1, n as int - 1)), FullPointers(s1, s2, m, n), s1, s2, m, n)
  {
    AlignedScoresFull(s1, s2, m, n, m - 1, n - 1);
  }

  /** `TracedScore` for the banded table. */
  lemma TracedScoreBand(s1: seq<char>, s2: seq<char>, m: nat, n: nat)
    requires m <= |s1| && n <= |s2| && GAP !in s1 && GAP !in s2
    ensures TracesScore(BandCost(s1, s2, m as int - 1, n as int - 1), BandPointers(s1, s2, m, n), s1, s2, m, n)
  {
    if InBand(m - 1, n - 1) {
      AlignedScoresBand(s1, s2, m, n, m - 1, n - 1);
    } else {
      BandInfIffOutside(s1, s2, m - 1, n - 1);
    }
  }

  /** Whatever cost `align` returns is the selected variant's cost. */
  lemma ReportedCost(s1: seq<char>, s2: seq<char>, banded: bool, limit: nat)
    ensures var r := AlignSpec(s1, s2, banded, limit);
            r.Returned? ==> r.cost == TableScore(s1, s2, banded, limit)
  {
    TablePointersWellFormed(s1, s2, banded, limit);
    ReportCases(TableScore(s1, s2, banded, limit), TablePointers(s1, s2, banded, limit),
                s1, s2, MinLength(limit, s1), MinLength(limit, s2));
  }

  // ---------------------------------------------------------------------
  // Facts about the report, for any well-formed back-pointer table

  /** `Reported`, case by case. */
  lemma ReportCases(score: Cost, bp: map<(int, int), Pointer>, s1: seq<char>, s2: seq<char>, m: nat, n: nat)
    requires m <= |s1| && n <= |s2| && WellFormed(bp, m, n)
    ensures var r := Reported(score, bp, s1, s2, m, n);
            && (score.Inf? ==> r == Returned(Inf, NO_ALIGNMENT, NO_ALIGNMENT))
            && (score.Fin? && (m - 1, n - 1) !in bp ==> r == Raised(KeyError))
            && (score.Fin? && (m - 1, n - 1) in bp && (|s1| == 0 || |s2| == 0) ==> r == Raised(IndexError))
            && (score.Fin? && (m - 1, n - 1) in bp && |s1| >= 1 && |s2| >= 1 ==>
                  r == Returned(score, Take(AlignedAsWritten(bp, s1, s2, m, n, m - 1, n - 1).0),
                                       Take(AlignedAsWritten(bp, s1, s2, m, n, m - 1, n - 1).1)))
  {
  }

  /** The sentinel result appears exactly for an infinite cost. */
  lemma ReportInf(score: Cost, bp: map<(int, int), Pointer>, s1: seq<char>, s2: seq<char>, m: nat, n: nat)
    requires m <= |s1| && n <= |s2| && WellFormed(bp, m, n)
    ensures Reported(score, bp, s1, s2, m, n) == Returned(Inf, NO_ALIGNMENT, NO_ALIGNMENT) <==> score.Inf?
  {
  }

  /** `KeyError` is raised exactly for a finite cost whose last cell has no
      back-pointer, `IndexError` exactly for a finite cost whose last cell
      has one while a sequence is empty. */
  lemma ReportRaised(score: Cost, bp: map<(int, int), Pointer>, s1: seq<char>, s2: seq<char>, m: nat, n: nat)
    requires m <= |s1| && n <= |s2| && WellFormed(bp, m, n)
    ensures var r := Reported(score, bp, s1, s2, m, n);
            && (r == Raised(KeyError) <==> score.Fin? && (m as int - 1, n as int - 1) !in bp)
            && (r == Raised(IndexError) <==> score.Fin? && (m as int - 1, n as int - 1) in bp && (|s1| == 0 || |s2| == 0))
  {
  }

  /** Both reported strings hold at most 100 symbols. Before the cut to
      100, they have equal length unless the traceback stops at a cell
      entered by a `top` move, where the second is one longer; in
      particular, they have equal length when it stops at `(0, 0)`. */
  lemma ReportBounded(score: Cost, bp: map<(int, int), Pointer>, s1: seq<char>, s2: seq<char>, m: nat, n: nat)
    requires m <= |s1| && n <= |s2| && WellFormed(bp, m, n)
    ensures var r := Reported(score, bp, s1, s2, m, n);
            r.Returned? ==> |r.first1| <= SHOWN && |r.first2| <= SHOWN
    ensures score.Fin? && (m - 1, n - 1) in bp && |s1| >= 1 && |s2| >= 1 ==>
              var w := AlignedAsWritten(bp, s1, s2, m, n, m - 1, n - 1);
              |w.1| == |w.0| + (if bp[LastCell(bp, m, n, m - 1, n - 1)].move == Top then 1 else 0)
    ensures var r := Reported(score, bp, s1, s2, m, n);
            r.Returned? && StopsAtOrigin(bp, m, n) ==> |r.first1| == |r.first2|
  {
    if score.Fin? && (m - 1, n - 1) in bp && |s1| >= 1 && |s2| >= 1 {
      AsWrittenLengths(bp, s1, s2, m, n, m - 1, n - 1);
      if StopsAtOrigin(bp, m, n) {
        assert LinksBack(bp, (0, 0), m, n);
      }
    }
    if score.Fin? && StopsAtOrigin(bp, m, n) {
      assert LinksBack(bp, (0, 0), m, n);
    }
  }

  /** The report as written equals the corrected one, except for a finite
      cost whose traceback does not stop at `(0, 0)`; and whenever it
      returns, the corrected one returns the same cost. */
  lemma ReportAgrees(score: Cost, bp: map<(int, int), Pointer>, s1: seq<char>, s2: seq<char>, m: nat, n: nat)
    requires m <= |s1| && n <= |s2| && WellFormed(bp, m, n)
    ensures var r, q := Reported(score, bp, s1, s2, m, n), ReportedIntended(score, bp, s1, s2, m, n);
            r.Returned? ==> q.Returned? && r.cost == q.cost
    ensures var r, q := Reported(score, bp, s1, s2, m, n), ReportedIntended(score, bp, s1, s2, m, n);
            r != q ==> q.Returned? && q.cost.Fin? && !StopsAtOrigin(bp, m, n)
  {
    if score.Fin? && StopsAtOrigin(bp, m, n) {
      assert LinksBack(bp, (0, 0), m, n);
      AsWrittenAgreesAtOrigin(bp, s1, s2, m, n, m - 1, n - 1);
    }
  }

  /** `ReportedIntended`, case by case. */
  lemma IntendedCases(score: Cost, bp: map<(int, int), Pointer>, s1: seq<char>, s2: seq<char>, m: nat, n: nat)
    requires m <= |s1| && n <= |s2| && WellFormed(bp, m, n)
    ensures var r := ReportedIntended(score, bp, s1, s2, m, n);
            && (score.Inf? ==> r == Returned(Inf, NO_ALIGNMENT, NO_ALIGNMENT))
            && (score.Fin? && (m - 1, n - 1) !in bp ==> r == Raised(KeyError))
            && (score.Fin? && (m - 1, n - 1) in bp ==>
                  r == Returned(score, Take(Aligned(bp, s1, s2, m, n, m - 1, n - 1).0), Take(Aligned(bp, s1, s2, m, n, m - 1, n - 1).1)))
  {
  }

  /** Both strings of the corrected report have the same length, at most
      100. */
  lemma IntendedBounded(score: Cost, bp: map<(int, int), Pointer>, s1: seq<char>, s2: seq<char>, m: nat, n: nat)
    requires m <= |s1| && n <= |s2| && WellFormed(bp, m, n)
    ensures var r := ReportedIntended(score, bp, s1, s2, m, n);
            r.Returned? ==> |r.first1| == |r.first2| <= SHOWN
  {
    if score.Fin? && (m - 1, n - 1) in bp {
      AlignedLengths(bp, s1, s2, m, n, m - 1, n - 1);
      var al := Aligned(bp, s1, s2, m, n, m - 1, n - 1);
      assert ReportedIntended(score, bp, s1, s2, m, n) == Returned(score, Take(al.0), Take(al.1));
    }
  }

  /** When the traced alignment scores the cost, a finite cost in the
      corrected report comes with the first 100 columns of an alignment
      scoring it. */
  lemma IntendedAlignment(score: Cost, bp: map<(int, int), Pointer>, s1: seq<char>, s2: seq<char>, m: nat, n: nat)
    requires m <= |s1| && n <= |s2| && WellFormed(bp, m, n) && GAP !in s1 && GAP !in s2
    requires TracesScore(score, bp, s1, s2, m, n)
    ensures var r := ReportedIntended(score, bp, s1, s2, m, n);
            r.Returned? && r.cost.Fin? ==>
              exists x, y :: && IsAlignment(s1, s2, m as int - 1, n as int - 1, x, y)
                             && ColumnScore(x, y) == r.cost.v
                             && r.first1 == Take(x) && r.first2 == Take(y)
  {
    var r := ReportedIntended(score, bp, s1, s2, m, n);
    if r.Returned? && r.cost.Fin? {
      var al := Aligned(bp, s1, s2, m, n, m - 1, n - 1);
      AlignedIsAlignment(bp, s1, s2, m, n, m - 1, n - 1);
      assert r == Returned(score, Take(al.0), Take(al.1));
      assert IsAlignment(s1, s2, m - 1, n - 1, al.0, al.1);
    }
  }

  /** Cell `(d, d)` points diagonally back to `(d - 1, d - 1)`. */
  ghost predicate DiagonalAt(bp: map<(int, int), Pointer>, d: int) {
    (d, d) in bp && bp[(d, d)] == Pointer(d - 1, d - 1, Diagonal)
  }

  /** Tracing back along diagonal pointers from `(k, k)` yields the prefix
      `a[..k + 1]` on both sides. */
  lemma {:induction false} DiagonalTrace(bp: map<(int, int), Pointer>, a: seq<char>, m: nat, k: int)
    requires WellFormed(bp, m, m) && m <= |a| && -1 <= k < m
    requires forall d :: 0 <= d <= k ==> DiagonalAt(bp, d)
    ensures (k, k) == (-1, -1) || (k, k) in bp
    ensures Aligned(bp, a, a, m, m, k, k) == (a[..k + 1], a[..k + 1])
    decreases k + 1
  {
    if k >= 0 {
      assert DiagonalAt(bp, k);
      assert LinksBack(bp, (k, k), m, m);
      DiagonalTrace(bp, a, m, k - 1);
      assert a[..k + 1] == a[..k] + [a[k]];
    }
  }

  /** Tracing back along diagonal pointers from `(k, k)` stops at `(0, 0)`. */
  lemma {:induction false} DiagonalStop(bp: map<(int, int), Pointer>, m: nat, k: int)
    requires WellFormed(bp, m, m) && 0 <= k < m
    requires forall d :: 0 <= d <= k ==> DiagonalAt(bp, d)
    ensures (k, k) in bp && LastCell(bp, m, m, k, k) == (0, 0)
    decreases k
  {
    assert DiagonalAt(bp, k);
    if k > 0 {
      DiagonalStop(bp, m, k - 1);
    }
  }
}
