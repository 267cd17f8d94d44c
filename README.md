# Gene sequencing alignment, modelled in Dafny

This project models the alignment engine of `GeneSequencing.py`. The engine is a
Needleman-Wunsch global alignment of two DNA strings with a fixed integer cost
model: a match costs -3, a substitution 1 and an insertion or deletion 5. The
banded variant only looks at cells within `MAXINDELS = 3` of the diagonal.

The model follows the shape of the source:

- `cost_model.dfy` (module `CostModel`) holds the constants and the extended cost
  `Fin(v) | Inf`, which stands for Python's `float(inf)`. It also holds `getMin`,
  with its tie-break: left, then top, then diagonal.
- `recurrence.dfy` (module `Recurrence`) holds the recursive specifications of both
  tables: the unrestricted cost `Full`, the banded cost `BandCost` (infinite outside
  the band), the move each cell's back-pointer records, and the whole tables as maps
  keyed by cell. Row and column -1 are the empty prefixes, as in the source's
  dictionaries. The recurrence lemmas (optimality of each step, boundary values,
  symmetry, identity, band versus full) live here.
- `traceback.dfy` (module `Traceback`) holds the traceback as a function over any
  well-formed back-pointer table. It comes in two versions:
  - `Aligned` is the corrected traceback.
  - `AlignedAsWritten` is the code as written, with Python's negative indexing and
    the extra gap.

  This module also defines what an alignment of two prefixes is (`IsAlignment`) and
  its score (`ColumnScore`). It proves that the traced alignment is an alignment,
  that it scores the table's cost, and that no alignment scores below the
  unrestricted cost.
- `gene_sequencing.dfy` (module `Sequencing`) holds the class `GeneSequencing`. Its
  fields are the source's attributes:
  - `matrix` and `backPointers` are maps the methods reassign.
  - `score`, `minLength1` and `minLength2` are plain fields.
  - `alignment1` and `alignment2` are the lists the traceback grows.

  `unrestricted` and `banded_alignment` are nested loops. They are proved to leave
  `matrix` and `backPointers` equal to the specification tables, and `score` equal
  to the specified cost of the last cell. `alignment` is a `while` loop, proved to
  build the traced alignment, in both versions. `align` (the method `Align`) runs
  `alignment` as written and is proved to return `AlignSpec`, a function of its
  inputs. `AlignCorrected` runs the corrected traceback and returns `AlignIntended`.
- `properties.dfy` (module `AlignProperties`) states what `align` promises in terms
  of `AlignSpec`:
  - when "No Alignment Possible" is reported;
  - when it raises `KeyError` and when `IndexError`;
  - that the returned strings are the first 100 columns of a real alignment scoring
    the returned cost whenever the traceback stops at `(0, 0)`, where the code as
    written agrees with the corrected traceback, and how the two differ otherwise;
  - that the unrestricted cost is optimal and the banded one never lower;
  - how it treats swapped and identical sequences.

`align` returns either a `Returned(cost, first1, first2)` outcome or, where Python
raises, `Raised(KeyError)` (line 33) or `Raised(IndexError)` (lines 49-50).
`align_length` is a natural number, and the inputs are strings of characters.
Properties that read the gap symbol back out of an alignment require that the
inputs do not themselves contain `'-'`.

The substantial proofs are the optimality of the unrestricted cost
(`Traceback.FullIsOptimal`), the band-versus-full bound (`Recurrence.BandNotBelowFull`),
the symmetry of both tables (`Recurrence.FullSymmetric`, `Recurrence.BandSymmetric`),
the loop invariants of `UnrestrictedRows`, `BandedRows` and `TraceLoop`, and the
comparison of the two tracebacks (`Traceback.AsWrittenReplacesFirstColumn`).

## Model

| member | source | states |
|---|---|---|
| CostModel.Plus | GeneSequencing.py:144-151 | Definition of Python's `inf + k` and integer addition; its contract spells out the two cases and adds nothing beyond them. |
| CostModel.Min | GeneSequencing.py:60 | The minimum of two costs is one of them and is no greater than either, with +infinity above every finite cost. |
| CostModel.MinSwap | GeneSequencing.py:60 | The minimum does not depend on the order of its arguments. |
| CostModel.Prev | GeneSequencing.py:86-108 | The predecessor a move names: left steps back in `j`, top in `i`, diagonal in both, and `i + j` strictly decreases. |
| CostModel.GetMin | GeneSequencing.py:59-66 | `getMin` returns left exactly when the first candidate is a minimum; otherwise top exactly when the second is no greater than the third; otherwise diagonal exactly when the third is strictly below both others. |
| CostModel.MinOfPick | GeneSequencing.py:59-66 | The candidate `getMin` picks is the minimum of the three. |
| Recurrence.Cells | GeneSequencing.py:80-81 | The cells the two loops visit are exactly the pairs `(i, j)` with `-1 <= i < m` and `-1 <= j < n`. |
| Recurrence.Min3 | GeneSequencing.py:60 | Python's `min(a, b, c)` on integers: no greater than each argument and equal to one of them. |
| Recurrence.FullMove | GeneSequencing.py:84-108 | The move recorded for a cell leads to a cell of the grid. |
| Recurrence.FullPointer | GeneSequencing.py:86-108 | The unrestricted back-pointer names the predecessor of its move, inside the grid. |
| Recurrence.FullMatrix | GeneSequencing.py:69-110 | The unrestricted cost table has a key for every cell of the grid, including row and column -1, holding the finite cost `Full` of that cell. |
| Recurrence.FullPointers | GeneSequencing.py:69-110 | The unrestricted back-pointer table has a key for every cell except the origin, holding `FullPointer`. |
| Recurrence.BandMove | GeneSequencing.py:136-163 | The move recorded for an in-band cell leads to a cell of the grid. |
| Recurrence.BandPointer | GeneSequencing.py:136-163 | The banded back-pointer names the predecessor of its move, which is inside the grid and the band. |
| Recurrence.BandPointers | GeneSequencing.py:124-163 | The banded back-pointer table has a key for exactly the in-band cells other than the origin. |
| Recurrence.BandMatrix | GeneSequencing.py:124-165 | The banded cost dictionary has keys for the in-band cells, for the out-of-band cells `setdefault` fills, and for the last cell. Each holds `BandCost`. |
| Recurrence.FullIsMin | GeneSequencing.py:92-109 | For `i, j >= 0` the unrestricted cost is no greater than the left, top and diagonal candidates and equals one of them. |
| Recurrence.FullStep | GeneSequencing.py:84-109 | Each cell's cost is its back-pointer's predecessor's cost plus the cost of the recorded move. The move is the one `getMin` picks from the three candidates. |
| Recurrence.FullBoundary | GeneSequencing.py:71-91 | Row and column -1 cost 5 per symbol: `matrix[-1, j] = 5(j + 1)` and `matrix[i, -1] = 5(i + 1)`. |
| Recurrence.FullLowerBound | GeneSequencing.py:92-109 | No cell costs less than -3 per symbol of the shorter prefix. |
| Recurrence.FullIdentity | GeneSequencing.py:92-109 | Against itself, a sequence's diagonal cell `(k, k)` costs `-3(k + 1)` and is entered diagonally. |
| Recurrence.FullSymmetric | GeneSequencing.py:69-110 | Swapping the sequences transposes the unrestricted table without changing any cost. |
| Recurrence.BandIsMin | GeneSequencing.py:144-163 | An interior in-band cell costs no more than each of its three candidates (out-of-band neighbours read as +infinity) and equals one of them. |
| Recurrence.BandStep | GeneSequencing.py:136-163 | An in-band cell's cost is its predecessor's cost plus the recorded move's cost. The move is `getMin`'s pick. |
| Recurrence.BandInfIffOutside | GeneSequencing.py:124-145 | The banded cost of a cell is +infinity exactly when the cell lies outside the band. |
| Recurrence.BandMatrixInfIffOutside | GeneSequencing.py:144-164 | Every entry of the banded dictionary is +infinity exactly when its cell lies outside the band. |
| Recurrence.BandMoveStaysInBand | GeneSequencing.py:136-163 | A banded back-pointer never leaves the band. |
| Recurrence.BandNotBelowFull | GeneSequencing.py:113-165 | Every finite banded cost is at least the unrestricted cost of the same cell. |
| Recurrence.BandIdentity | GeneSequencing.py:144-163 | Against itself, a sequence's banded diagonal cell `(k, k)` costs `-3(k + 1)` and is entered diagonally. |
| Recurrence.BandBesideDiagonal | GeneSequencing.py:144-163 | Against itself, a cell next to the diagonal costs at least -3 per symbol of the shorter prefix. |
| Recurrence.BandIdentityStep | GeneSequencing.py:146-162 | If the previous diagonal cell costs `-3k` and its two neighbours no less, the diagonal move is picked and costs `-3(k + 1)`. |
| Recurrence.BandSymmetric | GeneSequencing.py:113-165 | Swapping the sequences transposes the banded table without changing any cost. |
| Recurrence.BandSymmetricRow | GeneSequencing.py:136-143 | `BandSymmetric` along row -1 and column -1. |
| Recurrence.BandSymmetricInterior | GeneSequencing.py:144-163 | `BandSymmetric` at an interior in-band cell. |
| Recurrence.BandSymmetricStep | GeneSequencing.py:146-163 | If the three neighbours are symmetric, so is the cell. |
| Traceback.Column | GeneSequencing.py:37-45 | Definition of the column each move emits: a top move emits `(seq1[i], '-')`, a left move `('-', seq2[j])`, and a diagonal move `(seq1[i], seq2[j])`. |
| Traceback.PyIndex | GeneSequencing.py:49-50 | Definition of Python indexing, where a negative index counts from the end. |
| Traceback.LastCell | GeneSequencing.py:36-48 | The traceback loop stops at a cell whose back-pointer names the origin. |
| Traceback.FullPointersWellFormed | GeneSequencing.py:86-108 | Every unrestricted back-pointer links back to the origin or to another recorded cell. |
| Traceback.BandPointersWellFormed | GeneSequencing.py:138-162 | Every banded back-pointer links back to the origin or to another recorded cell. |
| Traceback.AlignedLengths | GeneSequencing.py:36-48 | The corrected traceback gives two strings of equal length. |
| Traceback.AlignedIsAlignment | GeneSequencing.py:36-50 | The corrected traceback is an alignment of `seq1[0..i]` and `seq2[0..j]`: deleting the gaps gives back each prefix, and no column is two gaps. |
| Traceback.AlignedScoresFull | GeneSequencing.py:36-48 | The alignment traced through the unrestricted table scores that table's cost. |
| Traceback.AlignedScoresBand | GeneSequencing.py:36-48 | The alignment traced through the banded table from an in-band cell scores that cell's finite banded cost. |
| Traceback.AlignedScoreStep | GeneSequencing.py:36-48 | One traceback step adds exactly the recorded move's cost to the score. |
| Traceback.ColumnStepCost | GeneSequencing.py:37-45 | The column a move emits costs what the recurrence charges for that move. |
| Traceback.FullColumnBound | GeneSequencing.py:92-109 | The unrestricted cost of a cell is at most any predecessor's cost plus the cost of the column joining them. |
| Traceback.FullIsOptimal | GeneSequencing.py:69-110 | No alignment of `seq1[0..i]` with `seq2[0..j]` scores below the unrestricted cost of `(i, j)`. |
| Traceback.PeelColumn | GeneSequencing.py:36-48 | Removing the last column of an alignment leaves an alignment of the shorter prefixes. |
| Traceback.AsWrittenAgreesAtOrigin | GeneSequencing.py:36-54 | When the loop stops at `(0, 0)`, the traceback as written equals the corrected one. |
| Traceback.AsWrittenReplacesFirstColumn | GeneSequencing.py:36-54 | The traceback as written is the corrected traceback with its first column (the stop cell's move) replaced by `seq1[i]` over `seq2[j]` with Python indexing, and an extra gap above for a top move. |
| Traceback.AsWrittenLengths | GeneSequencing.py:36-54 | The second string of the traceback as written is one longer than the first exactly when the loop stops at a cell entered by a top move; otherwise both have equal length. |
| Traceback.AsWrittenUnequalLengths | GeneSequencing.py:49-54 | For "AB" against "B", the traceback as written gives "AB" and "-BB", while the corrected one gives "AB" and "-B". |
| Traceback.ExamplePointers | GeneSequencing.py:84-108 | The unrestricted back-pointers of "AB" against "B": `(1, 0)` is diagonal from `(0, -1)`, which is top from the origin. |
| Traceback.ExampleTraces | GeneSequencing.py:30-55 | The two tracebacks over those pointers. |
| Traceback.AsWrittenLeftStop | GeneSequencing.py:49-50 | For "B" against "AB", the traceback as written gives "BB" and "AB", equal in length but not an alignment of the inputs, while the corrected one gives "-B" and "AB". |
| Traceback.LeftStopPointers | GeneSequencing.py:84-108 | The unrestricted back-pointers of "B" against "AB": `(0, 1)` is diagonal from `(-1, 0)`, which is left from the origin. |
| Traceback.LeftStopTraces | GeneSequencing.py:30-55 | The two tracebacks over those pointers. |
| Sequencing.MinLength | GeneSequencing.py:72-79 | The aligned length is `min(align_length, len(seq))`. |
| Sequencing.Take | GeneSequencing.py:187-188 | `s[:100]` is the first `min(100, len(s))` symbols of `s`. |
| Sequencing.TablePointersWellFormed | GeneSequencing.py:178-181 | Whichever builder runs, its back-pointers link back to the origin. |
| Sequencing.LastCellHasPointer | GeneSequencing.py:33 | When the cost is finite and something is aligned, the last cell has a back-pointer. |
| Sequencing.LastCellKey | GeneSequencing.py:33 | With a finite cost, the last cell has a back-pointer exactly when something is aligned. |
| Sequencing.FullEdge | GeneSequencing.py:84-91 | Row and column -1 cost their neighbour's cost plus 5. |
| Sequencing.FullChoice | GeneSequencing.py:92-109 | The value and pointer written for the move `getMin` picks are the specified cost and back-pointer. |
| Sequencing.BandBorder | GeneSequencing.py:136-143 | In-band cells of row and column -1 cost their neighbour's cost plus 5. |
| Sequencing.BandChoice | GeneSequencing.py:146-163 | The banded value and pointer written for `getMin`'s pick are the specified cost and back-pointer. |
| Sequencing.SetDefault | GeneSequencing.py:144-145 | `setdefault` adds the key with the default only when it is absent. It changes no existing entry. |
| Sequencing.BandInteriorRead | GeneSequencing.py:144-151 | After the two `setdefault` calls, the left, top and diagonal neighbours of an in-band cell hold their banded costs. |
| Sequencing.BandBorderNeighbour | GeneSequencing.py:136-143 | The neighbour a row -1 or column -1 cell reads has already been written with its banded cost. |
| Sequencing.GeneSequencing.constructor | GeneSequencing.py:26-27 | A new engine starts with empty tables and alignments. |
| Sequencing.GeneSequencing.Unrestricted | GeneSequencing.py:69-110 | Sets the aligned lengths to `min(align_length, len)` and the tables to the unrestricted specification, and sets the score to the last cell's cost. |
| Sequencing.GeneSequencing.UnrestrictedRows | GeneSequencing.py:80-109 | The two loops leave both tables equal to the unrestricted specification. |
| Sequencing.GeneSequencing.UnrestrictedRow | GeneSequencing.py:81-109 | One pass of the outer loop writes row `i`, in order, and nothing else. |
| Sequencing.GeneSequencing.UnrestrictedCell | GeneSequencing.py:82-109 | One pass of the inner loop writes cell `(i, j)` with its specified cost and pointer (or skips the origin). |
| Sequencing.GeneSequencing.UnrestrictedChoice | GeneSequencing.py:92-109 | From the three filled neighbours, computes the specified cost and back-pointer of an interior cell. |
| Sequencing.GeneSequencing.BandedAlignment | GeneSequencing.py:113-165 | Sets the aligned lengths and the dictionaries (band, `setdefault` fringe and last cell) to the banded specification, and sets the score to the last cell's banded cost (+infinity outside the band). |
| Sequencing.GeneSequencing.BandedFill | GeneSequencing.py:124-165 | The loops, the final `setdefault` and the score. |
| Sequencing.GeneSequencing.BandedRows | GeneSequencing.py:124-163 | The banded loops write exactly the in-band cells and the fringe `setdefault` reaches, with their banded costs. |
| Sequencing.GeneSequencing.BandedRowPass | GeneSequencing.py:125-163 | One pass of the outer loop: the column range `max(-1, i-3)` to `min(n-1, i+3)`, then row `i` in order. |
| Sequencing.GeneSequencing.BandedRow | GeneSequencing.py:133-163 | The inner loop over `j_start..j_end` writes those in-band cells of row `i` in order. |
| Sequencing.GeneSequencing.BandedCell | GeneSequencing.py:134-163 | One pass of the inner loop writes cell `(i, j)` with its banded cost and pointer. |
| Sequencing.GeneSequencing.BandedBorderCell | GeneSequencing.py:136-143 | Row -1 and column -1 in-band cells get their neighbour's cost plus 5 and a left or top pointer. |
| Sequencing.GeneSequencing.BandedInteriorCell | GeneSequencing.py:144-163 | An interior in-band cell gets its banded cost and pointer, after the two `setdefault` calls. |
| Sequencing.GeneSequencing.BandedSetDefaults | GeneSequencing.py:144-145 | The two `setdefault` calls make the three neighbours readable with their banded costs, adding exactly the out-of-band keys the specification expects. |
| Sequencing.GeneSequencing.BandedChoice | GeneSequencing.py:146-163 | From the three neighbours, computes the specified banded cost and back-pointer. |
| Sequencing.GeneSequencing.Alignment | GeneSequencing.py:30-55 | The corrected `alignment`: raises `KeyError` when the last cell has no pointer, and otherwise leaves the two lists equal to the corrected traceback. |
| Sequencing.GeneSequencing.TraceFrom | GeneSequencing.py:31-55 | The lists end up holding the corrected traceback from the given cell. |
| Sequencing.GeneSequencing.AlignmentAsWritten | GeneSequencing.py:30-55 | `alignment` as written: `KeyError` for a missing last cell, `IndexError` when a sequence is empty, and otherwise the traceback as written (negative indexing, extra gap). |
| Sequencing.GeneSequencing.TraceFromAsWritten | GeneSequencing.py:31-55 | The lists end up holding the traceback as written from the given cell. |
| Sequencing.GeneSequencing.TraceLoop | GeneSequencing.py:34-48 | The `while` loop stops at the cell whose pointer names the origin. The strings it has built are the traceback from the start with that cell's column removed, in both versions. |
| Sequencing.GeneSequencing.Align | GeneSequencing.py:170-194 | `align`, with `alignment` as written, returns `AlignSpec` of its inputs. |
| Sequencing.GeneSequencing.AlignCorrected | GeneSequencing.py:170-194 | `align` with the corrected traceback returns `AlignIntended` of its inputs. |
| Sequencing.GeneSequencing.BuildTables | GeneSequencing.py:178-181 | The `banded` flag selects the builder. The score and back-pointers are the selected variant's. |
| Sequencing.GeneSequencing.Report | GeneSequencing.py:182-194 | The sentinel for an infinite score. Otherwise it runs `alignment` as written, returns its `KeyError` or `IndexError`, or returns the score with the first 100 symbols of each string. |
| Sequencing.GeneSequencing.ReportCorrected | GeneSequencing.py:182-194 | The same report with the corrected traceback, which raises only `KeyError`. |
| AlignProperties.NoAlignmentIffOutsideBand | GeneSequencing.py:164-183 | "No Alignment Possible" is reported exactly when the banded variant runs and the aligned lengths differ by more than 3. |
| AlignProperties.KeyErrorIffNothingAligned | GeneSequencing.py:30-35 | `align` raises `KeyError` exactly when both aligned lengths are 0. |
| AlignProperties.IndexErrorIffOneEmpty | GeneSequencing.py:49-50 | `align` raises `IndexError` exactly when one sequence is empty, the other contributes a symbol, and the cost is finite. |
| AlignProperties.ReportedStringsBounded | GeneSequencing.py:187-188 | The two returned strings hold at most 100 symbols each, and have equal length when the traceback stops at `(0, 0)`. |
| AlignProperties.ReportedIsAlignment | GeneSequencing.py:182-194 | When the traceback stops at `(0, 0)`, a returned finite cost comes with the first 100 columns of an alignment of the two aligned prefixes that scores exactly that cost. |
| AlignProperties.AsWrittenMatchesIntended | GeneSequencing.py:30-55 | `align` as written returns what the corrected `align` returns, except when the corrected one returns a finite cost and the traceback does not stop at `(0, 0)`; whenever it returns, the cost is the same. |
| AlignProperties.IntendedStringsEqual | GeneSequencing.py:187-188 | The corrected `align` returns two strings of equal length, at most 100. |
| AlignProperties.IntendedIsAlignment | GeneSequencing.py:182-194 | With a finite cost, the corrected `align` returns the first 100 columns of an alignment of the aligned prefixes that scores exactly that cost. |
| AlignProperties.UnrestrictedIsOptimal | GeneSequencing.py:69-110 | Once something is aligned, the unrestricted variant returns a finite cost exactly when neither sequence is empty. That cost is `Full` of the last cell, and no alignment scores below it. |
| AlignProperties.FullIsMinimum | GeneSequencing.py:69-110 | `Traceback.FullIsOptimal` for every alignment at once. |
| AlignProperties.BandedNeverCheaper | GeneSequencing.py:113-165 | Whenever the banded variant returns a finite cost, the unrestricted one returns a finite cost that is no higher. |
| AlignProperties.BandedScoreNotBelow | GeneSequencing.py:164-165 | The unrestricted score is finite, and no higher than a finite banded score. |
| AlignProperties.BandAtLeastFull | GeneSequencing.py:113-165 | `Recurrence.BandNotBelowFull` as an implication for any cell. |
| AlignProperties.SwappedSequences | GeneSequencing.py:170-194 | Swapping the sequences changes neither the kind of outcome, nor the exception raised, nor the returned cost. |
| AlignProperties.SelfAlignment | GeneSequencing.py:170-194 | Aligning a non-empty prefix with itself returns cost -3 per symbol, with the prefix itself (first 100 symbols) on both sides, from `align` as written. |
| AlignProperties.SelfAlignmentIntended | GeneSequencing.py:170-194 | The same, for the corrected `align`. |
| AlignProperties.SelfStopsAtOrigin | GeneSequencing.py:36-48 | Against itself, the traceback from the last cell stops at `(0, 0)`. |
| AlignProperties.ScoreInfIffOutsideBand | GeneSequencing.py:164-165 | The selected score is +infinity exactly when the banded variant runs and the last cell lies outside the band. |
| AlignProperties.LastCellMissingIff | GeneSequencing.py:33 | With a finite score, the last cell lacks a back-pointer exactly when nothing is aligned. |
| AlignProperties.VariantScores | GeneSequencing.py:178-181 | The score each variant stores for the aligned prefixes. |
| AlignProperties.ScoreSymmetric | GeneSequencing.py:178-181 | The selected score does not change when the sequences are swapped. |
| AlignProperties.SelfScore | GeneSequencing.py:178-181 | Against itself, a prefix scores -3 per symbol in either variant. |
| AlignProperties.DiagonalPointers | GeneSequencing.py:106-108 | Against itself, every diagonal cell's back-pointer is a diagonal move. |
| AlignProperties.TracedScore | GeneSequencing.py:36-48 | The alignment traced from the last cell scores the selected score. |
| AlignProperties.TracedScoreFull | GeneSequencing.py:36-48 | The same, for the unrestricted table. |
| AlignProperties.TracedScoreBand | GeneSequencing.py:36-48 | The same, for the banded table when its cost is finite. |
| AlignProperties.ReportedCost | GeneSequencing.py:182-194 | Whatever cost `align` returns is the selected variant's score. |
| AlignProperties.ReportCases | GeneSequencing.py:182-194 | The report, case by case: the sentinel, `KeyError`, `IndexError` when a sequence is empty, or the score with the first 100 symbols of the traceback as written. |
| AlignProperties.ReportInf | GeneSequencing.py:182-183 | The sentinel appears exactly for an infinite score. |
| AlignProperties.ReportRaised | GeneSequencing.py:30-50 | `KeyError` exactly for a finite score whose last cell has no pointer; `IndexError` exactly for a finite score whose last cell has one while a sequence is empty. |
| AlignProperties.ReportBounded | GeneSequencing.py:49-54 | Both returned strings hold at most 100 symbols. Before the cut, the second is one longer than the first when the traceback stops at a cell entered by a top move, and they have equal length otherwise, in particular when it stops at `(0, 0)`. |
| AlignProperties.ReportAgrees | GeneSequencing.py:30-55 | For any well-formed table, the report as written equals the corrected one except for a finite score whose traceback does not stop at `(0, 0)`; whenever it returns, the corrected report returns the same cost. |
| AlignProperties.IntendedCases | GeneSequencing.py:182-194 | The corrected report, case by case: the sentinel, `KeyError`, or the score with the first 100 columns of the corrected traceback. |
| AlignProperties.IntendedBounded | GeneSequencing.py:187-188 | Both strings of the corrected report have equal length, at most 100, for any well-formed table. |
| AlignProperties.IntendedAlignment | GeneSequencing.py:182-194 | For any well-formed table whose traceback scores the cost, the corrected report's strings start an alignment that scores it. |
| AlignProperties.DiagonalTrace | GeneSequencing.py:36-48 | Tracing back along diagonal pointers from `(k, k)` gives `seq[0..k]` on both sides. |
| AlignProperties.DiagonalStop | GeneSequencing.py:36-48 | Tracing back along diagonal pointers from `(k, k)` stops at `(0, 0)`. |

## Left out

- The PyQt version check and imports (lines 3-10) and the unused `math`, `time` and `random` imports: GUI and library plumbing.
- `print` (lines 191-193): output only.
- The `no_of_calls` counter and its reset on the input `'polynomial'` (lines 171-173). The counter affects no result. It is never initialised in `__init__`, so in Python a first call with other inputs raises `AttributeError`; the model does not reproduce that.
- `cmath.inf` as a float: every finite cost is an integer, so +infinity is the constructor `Inf`, and finite costs are unbounded integers.
- The result dictionary becomes the `Returned(cost, first1, first2)` outcome, and the Python exceptions become `Raised(KeyError)` and `Raised(IndexError)`. The lists `alignment1`/`alignment2` become `seq<char>`, and `''.join` is the identity on them.
- The `getMin` fall-through that returns `None` when no comparison holds cannot happen with integer or infinite costs, so the model's `GetMin` always returns a move.
- Sequencing.GeneSequencing.TraceFromEmpty: the traceback as written on an empty sequence. Only the `IndexError` it ends in is stated, via `AlignmentAsWritten`; the model does not state the partial lists left behind by the exception.
- ReportedStringsBounded: promises equal lengths only when the traceback stops at `(0, 0)`, because the code as written returns strings of different lengths when it stops at a cell entered by a top move (see Findings); `ReportBounded` states the exact lengths in every case.
- ReportedIsAlignment: promises an alignment only when the traceback stops at `(0, 0)`, because the code as written returns something that is not an alignment otherwise (see Findings); `IntendedIsAlignment` states it without that condition for the corrected traceback.
- AlignProperties.ReportedIsAlignment: requires that the inputs contain no `'-'`. Otherwise a gap in the output could not be told apart from a symbol, and "deleting the gaps gives back the input" would not hold for any alignment.
- AlignProperties.SelfAlignment: requires a non-empty aligned prefix, because with nothing aligned `align` raises `KeyError` (stated by `KeyErrorIffNothingAligned`).

## Findings

| source | as written | input that shows it | evidently intended | confidence | as-written member | corrected member |
|---|---|---|---|---|---|---|
| GeneSequencing.py:49-54 | After the loop, `seq1[i]` and `seq2[j]` are always prepended, and a `top` move adds a further `'-'`. The test on line 53 compares an integer with `'left'` and never holds. When the loop stops at `(0, -1)` (a top move), this yields strings of unequal length. | unrestricted, `seq1 = "AB"`, `seq2 = "B"`, length 2: the as-written traceback gives "AB" / "-BB" | prepend the column of the last move, as the loop does for every other move: "AB" / "-B" | not executed | Traceback.AsWrittenUnequalLengths | Traceback.AlignedIsAlignment |
| GeneSequencing.py:49-50 | When the loop stops at `(-1, 0)` (a left move), `seq1[-1]` reads the last symbol of the first sequence where a gap belongs. The strings have equal length but are not an alignment of the inputs. | unrestricted, `seq1 = "B"`, `seq2 = "AB"`, length 2: the as-written traceback gives "BB" / "AB" | "-B" / "AB" | not executed | Traceback.AsWrittenLeftStop | Traceback.AlignedIsAlignment |
| GeneSequencing.py:49-50 | With one sequence empty and the other not, the last cell is on row or column -1. `seq1[i]` or `seq2[j]` then indexes the empty sequence and raises `IndexError`. | unrestricted, `seq1 = ""`, `seq2 = "A"`, length 1 | the alignment "-" / "A" with cost 5 | not executed | Sequencing.GeneSequencing.AlignmentAsWritten | Sequencing.GeneSequencing.Alignment |

`Align` runs the traceback as written, so `AlignSpec` and the properties stated on it
describe the program as it is, exceptions and all. `AlignCorrected` and `AlignIntended`
describe the corrected program. `AlignProperties.AsWrittenMatchesIntended` shows that
the two agree except when the traceback stops at a cell other than `(0, 0)`.
