# Emittance calculator: histograms, emittance and input manifest

This project is a Dafny model of the analysis core of a small FLUKA
post-processing tool. Each simulation *case* has several *cycles*. A cycle is
a table of the particle records read from that cycle's file, with the columns
`id, kinE, x, y, z, cx, cy, cz`. The calculator computes three things over
the cycles of a case:

- a weighted histogram of a column, averaged bin by bin over the cycles,
  with `np.std(...) / np.sqrt(n - 1)` as its error (`get_histogram`,
  `_add_histogram_single_cycle`);
- the RMS emittance: the fourth root of the determinant of the 4×4 sample
  covariance of (x, x', y, y'). It is computed per kinetic-energy interval of
  `pd.cut`, packed into a zero-filled array, and averaged over the cycles
  (`rmsEmittance`, `get_emittance_hist`, `get_emittance_cycles`);
- the number of rows each cycle keeps, averaged the same way
  (`get_total_counts`).

The helper script `fill_json.py` is modelled too. It appends every listed
file whose basename starts with a case's `prefix` to that case's `inputs`.

Modules, one per file:

- `Numerics` and `Outcomes` (`numerics.dfy`): NaN as `Value.Undefined`, the
  square and fourth roots as a parameter, and the exceptions as a `Result`.
- `Statistics` (`statistics.dfy`): the mean/error pair every aggregator
  applies over the cycle axis.
- `Tables` (`tables.dfy`): rows, and `df.query` as a row predicate.
- `Histograms` (`histogram.dfy`): `np.histogram`, one cycle, and the batch.
  `GetHistogram` fills the cycles-by-bins matrix row by row, as the source
  does, holding it as an array of rows.
- `Counting` (`counts.dfy`): `get_total_counts`, as a loop over an array.
- `Emittance` (`emittance.dfy`): covariance, determinant, `rmsEmittance`.
- `EmittanceHistograms` (`emittance_hist.dfy`): `pd.cut` grouping, the
  packed emittance array (a loop over an `array`), and the batch over cycles.
- `Manifest` (`manifest.dfy`): the nested prefix-matching loop of
  `fill_json.py`. It updates an array of cases in place.

Numbers are exact reals. A result NumPy would make NaN is `Undefined`. The
square root and the fourth root are a `Roots` value whose predicates
`SqrtExact` and `Root4Exact` say they return the non-negative real root.

### Behaviour of the code worth knowing

- The errors use `np.std` with its default divisor n (ddof = 0).
  `SummaryOfTwoFourSix` works this out on the counts 2, 4, 6.
- In `get_histogram`, decreasing edges are rejected by `np.histogram`.
  Besides them, only an empty edge list is an error. One edge gives zero bins.
- A small energy group raises nothing. Fewer than two rows make `np.cov` NaN.
  A group that does not spread in every direction has a zero determinant,
  and line 147 turns the zero into NaN.
- `get_emittance_cycles` sizes its matrix with the module-level `x_bins`
  (line 189). Its only caller (line 229) passes that same array as
  `ene_bins`, so the model sizes the matrix by `ene_bins`.
- `get_emittance_cycles` accepts `weight_fun` but never uses it. The model
  has no such parameter.
- With no cycle, `get_emittance_cycles` and `get_total_counts` raise nothing.
  Every result is NaN.
- `get_emittance_hist` packs the emittances of the non-empty intervals from
  slot 0 on. `get_emittance_cycles` then averages slot k over the cycles, so
  when the cycles have different empty intervals, slot k mixes different
  energy intervals (`EmptyIntervalShifts` shows the shift).

## Model

| member | source | states |
|---|---|---|
| Statistics.Variance | src/emittance_calculator/emittance_calculator.py:122 | definition: the variance of `np.std`, whose divisor is the number of cycles; proved non-negative |
| Statistics.Mean | src/emittance_calculator/emittance_calculator.py:121 | definition: `np.mean`, the sum over the number of cycles |
| Statistics.Summary | src/emittance_calculator/emittance_calculator.py:121-122 | the mean is defined exactly when there is at least one cycle, the error exactly when there are at least two |
| Statistics.SummaryOf | src/emittance_calculator/emittance_calculator.py:196-197 | definition: a NaN anywhere in a column makes both its mean and its error NaN; a column of numbers gets the ordinary summary |
| Statistics.ColumnSummaries | src/emittance_calculator/emittance_calculator.py:121-122 | definition: the `axis = 0` reduction: one value and one error per bin, each the summary of that bin's column over the cycles |
| Statistics.ColumnSummariesOf | src/emittance_calculator/emittance_calculator.py:196-197 | definition: the same reduction over a matrix that may hold NaN, column by column |
| Statistics.SummaryError | src/emittance_calculator/emittance_calculator.py:122 | with two or more cycles the error is the standard error sqrt(sum (x - mean)^2 / (n (n - 1))) times the normalization |
| Statistics.StandardErrorSquared | src/emittance_calculator/emittance_calculator.py:122 | the squared error is norm^2 sum (x - mean)^2 / (n (n - 1)), and the error has the sign of the normalization |
| Statistics.SummaryOfIdentical | src/emittance_calculator/emittance_calculator.py:121-122 | cycles that all give the same number c have mean c × norm and error exactly 0 |
| Statistics.IdenticalRowsSummaries | src/emittance_calculator/emittance_calculator.py:121-122 | a matrix of identical rows gives that row, normalized, as values and 0 as every error |
| Statistics.SummaryOfTwoFourSix | src/emittance_calculator/emittance_calculator.py:122 | counts 2, 4, 6 give mean 4 and error sqrt(4/3), not the sqrt(2) a divisor of n - 1 in the std would give |
| Tables.Select | src/emittance_calculator/emittance_calculator.py:75 | `df.query` keeps exactly the rows that satisfy the condition, and no more rows than there were |
| Tables.SelectMultiplicity | src/emittance_calculator/emittance_calculator.py:75 | a query keeps every copy of a row that satisfies it and no copy of one that does not |
| Tables.Filter | src/emittance_calculator/emittance_calculator.py:74-75 | an empty condition leaves the table unchanged; otherwise a row is kept exactly when it satisfies the query |
| Tables.FilterMultiplicity | src/emittance_calculator/emittance_calculator.py:74-75 | each row keeps its number of copies when the condition selects it and loses all of them otherwise |
| Tables.Project | src/emittance_calculator/emittance_calculator.py:76-78 | definition: `func_df(df)` and `weight_fun(df)` give one entry per row, computed from that row |
| Tables.FilterLength | src/emittance_calculator/emittance_calculator.py:253-255 | the number of rows a cycle keeps is all of them without a condition, and the number that satisfy the query otherwise |
| Histograms.Monotonic | src/emittance_calculator/emittance_calculator.py:76-78 | definition: the edge check of `np.histogram`: no edge is smaller than the one before it |
| Histograms.InBin | src/emittance_calculator/emittance_calculator.py:76-78 | definition: bin b of `np.histogram` is [e[b], e[b+1]), and the last bin also holds its right edge |
| Histograms.BinOf | src/emittance_calculator/emittance_calculator.py:76-78 | a value gets a bin exactly when it lies between the first and the last edge, and it then lies in that bin |
| Histograms.BinUnique | src/emittance_calculator/emittance_calculator.py:76-78 | with non-decreasing edges a value lies in at most one bin, the one BinOf finds |
| Histograms.LastEdgeCounted | src/emittance_calculator/emittance_calculator.py:76-78 | a value equal to the last edge is counted, in the last bin |
| Histograms.Histogram | src/emittance_calculator/emittance_calculator.py:76-78 | `np.histogram` gives one count per bin: n edges make n - 1 bins |
| Histograms.AddToOneBin | src/emittance_calculator/emittance_calculator.py:76-78 | a sample in range adds its weight to its own bin and to no other; a sample out of range changes nothing |
| Histograms.HistogramConservesWeight | src/emittance_calculator/emittance_calculator.py:76-78 | the counts add up to the total weight of the samples in range |
| Histograms.UnitWeightsCount | src/emittance_calculator/emittance_calculator.py:72 | with the default unit weights, the in-range weight is the number of samples in range |
| Histograms.CycleCounts | src/emittance_calculator/emittance_calculator.py:73-78 | one cycle's counts have one entry per bin |
| Histograms.Scale | src/emittance_calculator/emittance_calculator.py:79 | definition: each count is multiplied by the normalization |
| Histograms.AddHistogramSingleCycle | src/emittance_calculator/emittance_calculator.py:67-79 | fails exactly on decreasing edges; otherwise values and error are the same array, each bin the cycle's count times the normalization |
| Histograms.CycleConservesWeight | src/emittance_calculator/emittance_calculator.py:73-78 | a cycle's counts add up to the weight of the rows that pass the condition and lie between the first and the last edge |
| Histograms.UnitWeightCycle | src/emittance_calculator/emittance_calculator.py:73-78 | with unit weights a cycle's counts add up to the number of kept rows in range, at most the number of kept rows |
| Histograms.CycleTable | src/emittance_calculator/emittance_calculator.py:112-120 | definition: row k of `tot_counts` is cycle k's histogram |
| Histograms.HistogramOutcome | src/emittance_calculator/emittance_calculator.py:104-122 | no cycle raises "Empty cycle list", no edge raises "Empty x_bins", decreasing edges make `np.histogram` raise, and these are the only errors; success gives n - 1 values and errors |
| Histograms.GetHistogram | src/emittance_calculator/emittance_calculator.py:81-123 | the method that fills the cycles-by-bins array returns exactly HistogramOutcome |
| Histograms.SingleCycleHistogram | src/emittance_calculator/emittance_calculator.py:109-110 | with one cycle the values and the errors are the same array, the cycle's counts times the normalization |
| Histograms.BatchHistogram | src/emittance_calculator/emittance_calculator.py:112-122 | with two or more cycles each bin holds the mean count times the normalization, with its standard error as the error |
| Histograms.IdenticalCyclesHistogram | src/emittance_calculator/emittance_calculator.py:121-122 | cycles with the same counts give those counts, normalized, and error 0 in every bin |
| Counting.RowCounts | src/emittance_calculator/emittance_calculator.py:250-255 | definition: entry k is the number of rows cycle k keeps under the condition |
| Counting.GetTotalCounts | src/emittance_calculator/emittance_calculator.py:239-258 | the loop's result is the summary of the per-cycle row counts: the mean is defined from one cycle, the error from two, and the error is then the standard error |
| Counting.RowCountsMeaning | src/emittance_calculator/emittance_calculator.py:252-255 | a cycle counts all its rows without a condition, and the rows satisfying the query otherwise |
| Emittance.Covariance | src/emittance_calculator/emittance_calculator.py:144 | definition: an entry of `np.cov`, the cross deviation over N - 1 |
| Emittance.Det | src/emittance_calculator/emittance_calculator.py:145 | definition: the determinant `np.linalg.det` computes, by cofactor expansion along the first row |
| Emittance.CovarianceMatrix | src/emittance_calculator/emittance_calculator.py:143-144 | definition: `np.cov` of the stacked coordinates is square, with entry (i, j) the sample covariance of variables i and j |
| Emittance.ConstantCrossDeviation | src/emittance_calculator/emittance_calculator.py:144 | a coordinate that does not vary has covariance 0 with every coordinate |
| Emittance.ZeroRowDeterminant | src/emittance_calculator/emittance_calculator.py:145 | a matrix with a zero first row has determinant 0 |
| Emittance.RmsEmittance | src/emittance_calculator/emittance_calculator.py:127-148 | defined exactly when there are at least two samples and the covariance determinant is positive; it is then the positive number whose fourth power is the determinant; it is never exactly 0 |
| Emittance.FixedPositionUndefined | src/emittance_calculator/emittance_calculator.py:143-147 | a beam whose horizontal position does not vary has emittance NaN |
| Emittance.Positions | src/emittance_calculator/emittance_calculator.py:165-166 | definition: position k is row k's x (or y) converted from cm to m |
| Emittance.Slopes | src/emittance_calculator/emittance_calculator.py:165-166 | definition: slope k times row k's cz is row k's cx (or cy): the direction cosine over cz |
| Emittance.GroupEmittance | src/emittance_calculator/emittance_calculator.py:165-166 | a group of fewer than two rows, or one with a row whose cz is 0, has emittance NaN; no group has emittance exactly 0 |
| Emittance.GroupEmittanceValue | src/emittance_calculator/emittance_calculator.py:165-166 | a group of two or more rows, none with cz = 0, has emittance defined exactly when the covariance determinant of its converted coordinates is positive, and then equal to its positive fourth root |
| Emittance.IdenticalRowsUndefined | src/emittance_calculator/emittance_calculator.py:165-166 | a group of identical rows has emittance NaN |
| EmittanceHistograms.CutEdges | src/emittance_calculator/emittance_calculator.py:164 | definition: the edges `pd.cut` accepts: non-decreasing, and without a repeated edge unless there are exactly two |
| EmittanceHistograms.InCut | src/emittance_calculator/emittance_calculator.py:164 | definition: interval j of `pd.cut` is (e[j], e[j+1]], open on the left and closed on the right |
| EmittanceHistograms.CutGroup | src/emittance_calculator/emittance_calculator.py:164 | a group holds no more rows than the table |
| EmittanceHistograms.CutGroupMembers | src/emittance_calculator/emittance_calculator.py:164 | interval j's group holds exactly the rows whose kinetic energy lies in (e[j], e[j+1]], with as many copies of each as the table has |
| EmittanceHistograms.Observed | src/emittance_calculator/emittance_calculator.py:164 | `groupby(observed=True)` visits at most one group per interval |
| EmittanceHistograms.ObservedMeaning | src/emittance_calculator/emittance_calculator.py:164 | the visited intervals are exactly the non-empty ones, each once, in increasing order |
| EmittanceHistograms.ObservedPrefix | src/emittance_calculator/emittance_calculator.py:164 | looking at more intervals only appends to the visited ones |
| EmittanceHistograms.ObservedEverything | src/emittance_calculator/emittance_calculator.py:164 | when no interval is empty, every interval is visited, in order |
| EmittanceHistograms.CutUnique | src/emittance_calculator/emittance_calculator.py:164 | with non-decreasing edges a value lies in at most one interval |
| EmittanceHistograms.CutPartition | src/emittance_calculator/emittance_calculator.py:164 | the intervals cover (e[0], e[last]] without overlap and nothing else |
| EmittanceHistograms.LowestEdgeConventions | src/emittance_calculator/emittance_calculator.py:164 | a value equal to the lowest edge is counted in bin 0 by `np.histogram` but falls in no interval of `pd.cut` |
| EmittanceHistograms.Packed | src/emittance_calculator/emittance_calculator.py:164-168 | at most one emittance per interval is written |
| EmittanceHistograms.PackedObserved | src/emittance_calculator/emittance_calculator.py:164-168 | entry k of the packed values is the emittance of the k-th visited interval |
| EmittanceHistograms.EmittanceValues | src/emittance_calculator/emittance_calculator.py:162-169 | the returned array has one slot per interval |
| EmittanceHistograms.ZeroMarksPadding | src/emittance_calculator/emittance_calculator.py:162-168 | slot k holds 0 exactly when it lies after the emittances of all the non-empty intervals |
| EmittanceHistograms.EmittanceHist | src/emittance_calculator/emittance_calculator.py:150-169 | no edge makes `np.zeros` raise, decreasing edges and repeated edges (beyond two) make `pd.cut` raise, each exactly then; otherwise one value per interval |
| EmittanceHistograms.GetEmittanceHist | src/emittance_calculator/emittance_calculator.py:150-169 | the loop that writes into the zero-filled array returns exactly EmittanceHist |
| EmittanceHistograms.AllIntervalsOccupied | src/emittance_calculator/emittance_calculator.py:164-168 | when every interval holds a row, slot j holds interval j's emittance |
| EmittanceHistograms.EmptyIntervalShifts | src/emittance_calculator/emittance_calculator.py:164-168 | an empty first interval leaves no gap: slot 0 holds the second interval's emittance |
| EmittanceHistograms.CycleEmittances | src/emittance_calculator/emittance_calculator.py:190-195 | definition: row k of the matrix is the emittance array of cycle k's kept rows |
| EmittanceHistograms.EmittanceCycles | src/emittance_calculator/emittance_calculator.py:171-198 | no edge raises even without cycles; the `pd.cut` errors occur exactly when there is a cycle to check; no other error is raised; otherwise one value and one error per interval, all NaN without cycles |
| EmittanceHistograms.GetEmittanceCycles | src/emittance_calculator/emittance_calculator.py:171-198 | the loop over cycles returns exactly EmittanceCycles |
| EmittanceHistograms.CyclesFromHistograms | src/emittance_calculator/emittance_calculator.py:190-197 | with edges `pd.cut` accepts, every cycle's `get_emittance_hist` succeeds with its row of the matrix, and bin b of the batch is the summary of column b (NaN-aware) |
| EmittanceHistograms.RejectedEdges | src/emittance_calculator/emittance_calculator.py:194 | edges one cycle rejects make the whole batch fail with the same error |
| EmittanceHistograms.SingleCycleEmittance | src/emittance_calculator/emittance_calculator.py:196-197 | with one cycle each value is its emittance times the normalization (NaN stays NaN) and every error is NaN |
| EmittanceHistograms.BatchEmittance | src/emittance_calculator/emittance_calculator.py:196-197 | with two or more cycles each value is the mean emittance times the normalization, with its standard error; one NaN makes both NaN |
| Manifest.Basename | src/emittance_calculator/fill_json.py:33 | definition: `os.path.basename`, the text after the last '/' |
| Manifest.BasenameShape | src/emittance_calculator/fill_json.py:33 | the basename is the end of the path, holds no '/', and is preceded by '/' unless it is the whole path |
| Manifest.BasenameOfJoin | src/emittance_calculator/fill_json.py:26-33 | a file found in a folder has the file's own name as its basename |
| Manifest.Matches | src/emittance_calculator/fill_json.py:32-34 | no more files match than are listed |
| Manifest.MatchesMembers | src/emittance_calculator/fill_json.py:32-35 | a file is appended exactly when it is listed and its basename starts with the prefix |
| Manifest.MatchesConcat | src/emittance_calculator/fill_json.py:32-35 | appended files keep the listing order |
| Manifest.EmptyPrefixMatchesAll | src/emittance_calculator/fill_json.py:34 | the empty prefix matches every listed file |
| Manifest.FillCase | src/emittance_calculator/fill_json.py:31-35 | a case without a prefix raises KeyError('prefix'); a case with both keys always succeeds; a case without inputs raises KeyError('inputs') exactly when a file matches; otherwise the matches are appended to the inputs, and every other key of the case is kept |
| Manifest.FilledInputs | src/emittance_calculator/fill_json.py:32-35 | a case gains exactly the listed files whose basename starts with its prefix |
| Manifest.FillAll | src/emittance_calculator/fill_json.py:30-35 | the manifest keeps its number of cases |
| Manifest.FillAllAt | src/emittance_calculator/fill_json.py:30-35 | the cases before the first failing one are filled, it and the later ones are unchanged, and its error is reported |
| Manifest.FillAllIndependent | src/emittance_calculator/fill_json.py:30-35 | without a failing case each case is filled on its own, so a file can be appended to several cases |
| Manifest.AppendMatches | src/emittance_calculator/fill_json.py:32-35 | the inner loop leaves case i as FillCase describes it, or unchanged on KeyError('inputs'), and touches no other case |
| Manifest.MatchFound | src/emittance_calculator/fill_json.py:34-35 | a listed file whose basename starts with the prefix makes the matches non-empty |
| Manifest.FillInputs | src/emittance_calculator/fill_json.py:30-35 | the nested loop, run in place on the manifest, leaves it as FillAll describes and reports FillAll's error |

## Left out

- Reading CSV and JSON, building `Case` and `Cycle` objects, the plots and
  the module-level driver code: these are I/O. A cycle is given as a table of
  rows.
- The `df.query` expression language is abstracted to a predicate on rows.
  `func_df` and `weight_fun` are functions from a row to a number.
- `glob.glob` and `sys.argv` in `fill_json.py`, and the JSON read and write:
  the file list is an input and the manifest is an array of cases.
- Square and fourth roots are a parameter: exact real roots cannot be
  computed in the model.
- Floating point is not modelled: numbers are exact reals. In particular a
  determinant that rounding makes slightly non-zero is not captured, nor is
  NumPy's `np.linalg.det`, which works by LU factorization; the model uses
  cofactor expansion. Infinite slopes from `cz == 0` are folded into NaN.
- Emittance.GroupEmittance: treats a row with `cz == 0` as making the
  emittance NaN; the exact IEEE outcome of an infinite slope is not modelled.
- EmittanceHistograms.EmittanceCycles: does not model a call where
  `len(x_bins) != len(ene_bins)` (line 189). With a cycle, the row assignment
  at line 195 then raises numpy's broadcast ValueError, except that the single
  value of a two-edge `ene_bins` is copied into every slot. With no cycle, the
  source returns `len(x_bins) - 1` NaNs, also for an empty `ene_bins`, where
  the model fails with NegativeDimensions. Edges of the same length but other
  values behave as modelled, since only the length sizes the matrix.
- Manifest.FillCase: the values of a case's other keys are kept as opaque
  JSON text; the loop never reads them.
- Manifest.FillCase: a `prefix` that is not a string or an `inputs` that is
  not a list (TypeError, AttributeError) is not modelled; the cases are typed.
- `pd.cut` edges that contain NaN, and NaN values in the data, are not
  modelled.
