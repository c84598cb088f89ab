# A verified model of a teaching simplex solver

This project models the computational core of a small PyQt tool that
teaches linear programming, and proves properties of that model in Dafny.
The tool reads a problem (maximise or minimise `c·x` subject to `A x ≤ b`,
every row given a slack variable) from two tables. It solves the problem
with the tableau simplex method, keeps a history of every tableau it
pivoted, ranges the right-hand sides and the costs on the final tableau,
and plots the feasible region of two-variable problems.

The model has five modules:

- `Common` (`common.dfy`) holds the shared pieces:
  - the two tolerances, 1e-9 for pivot, optimality and ranging decisions and 1e-5 for the geometry;
  - extended reals `Ext` for the infinite ranging limits;
  - table cells (`Blank`, `Number`, `Unparsable`), where blank cells read as 0.0;
  - Python's `max`, `min` and `list.index`.
- `TableauBuilder` (`tableau.dfy`) covers:
  - `get_simplex_data`, a method with the source's nested loops that packs the tables into the matrix `[[0, c..], [b_i, a_i..]..]`;
  - the unpacking of that matrix into the initial tableau. It is modelled twice: the flip/reverse construction of the source as written, and the standard initial-tableau layout `[-c, 0, 0]` / `[a_i, e_i, b_i]` under the slack basis `E, X(N+1)..X(N+M)` (the slack-basis layout). A lemma proves that the two agree.
- `SimplexIterator` (`simplex.dfy`) is the pivoting loop of `calculate_simplex`:
  - one pass of the loop body is the function `Step`, and a run of at most 100 passes is `Run`;
  - `Solve`/`Simplex` give the five results;
  - the methods `Pass`, `Iterate`, `ReadOut` and `CalculateSimplex` run the loop as the source does, and are proved equal to those functions;
  - lemmas prove canonical form, distinct labels, the tie-breaks, the shape of the history, and feasibility under the ratio test.
- `Sensitivity` (`sensitivity.dfy`) covers `perform_sensitivity_analysis`:
  - the `d_min`/`d_max` accumulators are folds (`RhsBounds`, `CostBounds`) and loops (`RhsRange`, `CostRange`);
  - lemmas show that every change D inside a reported range keeps each counted inequality satisfied, that each finite bound is attained by a counted row (column), and that a D outside the range breaks some counted inequality;
  - the report text is not modelled.
- `Vertices` (`vertices.dfy`) covers lines 48-99 and 165-169 of `plot_constraints`:
  - the constraint records, the line list and the pairwise intersections by Cramer's rule;
  - the sign-aware feasibility filter and the order-preserving removal of near-duplicates, as methods with the source's loops and breaks;
  - lemmas that every kept vertex is a feasible crossing of two lines, that no two kept vertices are close, and that every feasible crossing is close to a kept vertex.

All arithmetic is on Dafny's exact `real`, and `float('inf')` is `Ext`.
The Qt tables are replaced by already-split cells:
- `get_simplex_data` takes the objective row and the constraint table as `Cell`s;
- `plot_constraints` takes one `TableRow` per table row, with the sign selector's text.

Behaviour of the code that a reader might not expect, which the model follows:
- **Unparsable cells:** `float()` raises on text it cannot parse, and the caller's handler reports the exception, so an unparsable cell is an error (`UnparsableCell`, `None`). It is not coerced to 0.0. Only blank cells read as 0.0.
- **Shadow price:** it is the objective-row entry at the slack column, with no absolute value in minimise mode.
- **Non-basic variable ranging:** a non-basic decision variable always gets `allow_increase = reduced cost` and an unlimited decrease. `is_max` is not used.
- **Basic variable ranging:** it scans every column but the solution column, slack columns included. `d_max` is the least `rc/a` over `a > 1e-9`, and `d_min` is the largest `rc/a` over `a < -1e-9`.
- **Constraint ranging:** `d_min` is the largest `-v/a` over rows with `a > 0`, and `d_max` is the least `-v/a` over rows with `a < 0`. A row counts when `|a| ≥ 1e-9`. `allow_decrease` is `|d_min|`.
- **Objective value:** the final objective value is the RHS of the objective row as it stands. It is not sign-adjusted.
- **History length:** each of the at most 100 passes appends at most one snapshot, so the history has between 1 and 100 entries. At the cap, the last entry is the pre-pivot snapshot of the 100th pivot, and that pivot's result is dropped.
- **Empty tables:** with no constraint rows, numpy cannot concatenate the RHS column, and `get_simplex_data` fails (`NoConstraints`). When the objective width differs from the constraint width, `vstack` fails (`WidthMismatch`). With no variables and no constraints, `max([])` raises and `calculate_simplex` reports its calculation error.

Some members are definitions that the lemmas below are stated in, not
properties in their own right:
- `Common.CellValue`: the value of a cell, where a blank reads as 0.0 (simplex_core.py:11, gui_utils.py:53-55).
- `TableauBuilder.UnitRow`: the unit vector e_q of the slack columns (simplex_core.py:51).
- `TableauBuilder.InitialLabels`: the slack basis `E, X(N+1)..X(N+M)` (simplex_core.py:67-77).
- `SimplexIterator.Headers`: the column headers `X1..X(N+M)` and the solution column (simplex_core.py:68-71).
- `Sensitivity.Decrease` and `Sensitivity.Negated`: `allow_decrease` as `abs(d_min)`, and negation on extended reals (simplex_core.py:254).
- `Vertices.RecordOf`: one constraint record (gui_utils.py:53-60).
- `Vertices.Lines`: the constraint lines followed by the two axes (gui_utils.py:62-66).

## Model

| member | source | states |
|---|---|---|
| TableauBuilder.GetSimplexData | simplex_core.py:7-38 | it fails with `UnparsableCell` exactly when a read objective or constraint cell is unparsable. Otherwise it fails with `NoConstraints` exactly when there are no rows, and with `WidthMismatch` exactly when the two widths differ. Otherwise row 0 of the matrix is `[0, c_j..]`, row i+1 is `[b_i, a_ij..]` with blanks as 0.0, `rhs` is column 0 below row 0, and `obj_coeffs` is row 0 without its first entry |
| TableauBuilder.ValidHasDistinctLabels | simplex_core.py:74-77 | a tableau in canonical form has pairwise distinct labels, so the dictionary holds every row |
| TableauBuilder.FlipRow | simplex_core.py:43 | row i of `np.flip` is row M-i of the packed matrix, reversed |
| TableauBuilder.FlipObjectiveRow | simplex_core.py:54-65 | the construction's objective row is `-[c, 0..0, 0]` |
| TableauBuilder.FlipConstraintRow | simplex_core.py:51-62 | the construction's constraint row i is `[a_i, e_i, b_i]`, with e_i the i-th unit vector |
| TableauBuilder.FlipConstructionRows | simplex_core.py:43-65 | every row of the flip construction has the form of a slack-basis layout row |
| TableauBuilder.RowsLayout | simplex_core.py:54-65 | the rows in that form have the slack-basis layout's entries, position by position |
| TableauBuilder.FlipConstructionLayout | simplex_core.py:43-65 | the flip construction as written gives objective row `[-c, 0, 0]` and constraint rows `[a_i, e_i, b_i]`, entry by entry |
| TableauBuilder.LayoutValid | simplex_core.py:67-77 | the slack-basis layout under the slack basis is in canonical form |
| TableauBuilder.InitialTableau | simplex_core.py:43-77 | the initial tableau is in canonical form and carries the slack basis |
| TableauBuilder.InitialTableauLayout | simplex_core.py:43-77 | the initial tableau's matrix is the slack-basis layout |
| Common.MaxIsGreatest | simplex_core.py:94 | no entry exceeds `max(s)` |
| Common.MinIsLeast | simplex_core.py:96 | no entry is below `min(s)` |
| Common.IndexOfFirst | simplex_core.py:106 | no position before `s.index(v)` holds v |
| SimplexIterator.OptimalTestMeans | simplex_core.py:92-96 | the max/min test passes exactly when every objective entry is ≤ 1e-9 (minimise) or ≥ -1e-9 (maximise) |
| SimplexIterator.EnteringColumnBest | simplex_core.py:105-106 | the entering column holds the largest (minimise) or smallest (maximise) entry, and no earlier column holds an entry as good |
| SimplexIterator.RatiosAt | simplex_core.py:108-118 | `ratios[i]` belongs to constraint row i+1 |
| SimplexIterator.ComputeRatios | simplex_core.py:108-118 | the loop yields one ratio per constraint row: rhs/a when a > 1e-9, +∞ otherwise |
| SimplexIterator.FiniteValuesMembers | simplex_core.py:120 | the valid ratios are exactly the finite entries of `ratios` |
| SimplexIterator.LeavingIndex | simplex_core.py:120-126 | a found leaving index is in range and holds a finite ratio |
| SimplexIterator.LeavingIndexProps | simplex_core.py:120-126 | there is no leaving row exactly when no ratio is finite. Otherwise the leaving ratio is at most every finite ratio, and no earlier position holds the same ratio |
| SimplexIterator.PivotRowsEntry | simplex_core.py:141-151 | after a pivot, the pivot row is divided by the pivot element, and every other row loses its pivot-column multiple of it |
| SimplexIterator.PivotRowsUnit | simplex_core.py:141-151 | the pivot column becomes 1 in the pivot row and 0 in every other row, the objective row included |
| SimplexIterator.PivotKeepsValid | simplex_core.py:141-161 | a pivot keeps canonical form |
| SimplexIterator.PivotRelabels | simplex_core.py:153-161 | the row count is unchanged, only the pivot row's label changes (to `X(pc+1)`), and the labels stay pairwise distinct |
| SimplexIterator.EnteringIsNonBasic | simplex_core.py:128 | a column with a non-zero objective entry is not basic, so the entering variable is never already a key |
| SimplexIterator.Step | simplex_core.py:89-162 | a pass that pivots keeps the row count and shape |
| SimplexIterator.StepStops | simplex_core.py:92-103 | a pass stops with a terminal snapshot of the table exactly when the optimality test passes |
| SimplexIterator.StepUnbounded | simplex_core.py:120-122 | a pass finds no finite ratio only when the test fails and every ratio is +∞ |
| SimplexIterator.StepAdvances | simplex_core.py:124-161 | a pass that pivots records the table before it, and the pivot it records is the one the source computes |
| SimplexIterator.StepNoFinite | simplex_core.py:120-122 | a failing test with no finite ratio ends the pass as unbounded |
| SimplexIterator.StepPivots | simplex_core.py:124-151 | a failing test with a finite ratio pivots on row `ratios.index(min(valid_ratios)) + 1`, whose pivot element exceeds 1e-9 |
| SimplexIterator.Run | simplex_core.py:89-162 | a run of at most `fuel` passes records at most `fuel` snapshots, and at least one unless it ends unbounded |
| SimplexIterator.RunPass | simplex_core.py:89-162 | the same bounds for a run whose first pass is made |
| SimplexIterator.RunUnfold | simplex_core.py:89-162 | a run is its first pass followed by the run from the tableau that pass produces |
| SimplexIterator.RunHead | simplex_core.py:89-162 | the first pass of a run is one of three: an optimal stop, the unbounded situation, or a pivot followed by the rest of the run, which keeps canonical form |
| SimplexIterator.RunShape | simplex_core.py:89-162 | the first pass as a terminal snapshot, an unbounded stop, or a pivot step followed by the rest of the run |
| SimplexIterator.RunHeadRecords | simplex_core.py:132-161 | a first pass that pivots records that pivot, and the rest of the run starts from its result |
| SimplexIterator.PrependOne | simplex_core.py:99-139 | appending before the rest of a run adds one entry at the front and keeps the last entry |
| SimplexIterator.RunStart | simplex_core.py:84-100 | a history starts with the table the run started from |
| SimplexIterator.RunAllValid | simplex_core.py:89-162 | every table in the history is in canonical form with M constraint rows |
| SimplexIterator.RunValid | simplex_core.py:89-162 | the same, index by index |
| SimplexIterator.RunLastValid | simplex_core.py:164 | the last table of a history is in canonical form |
| SimplexIterator.RunLinked | simplex_core.py:132-161 | every entry but the last is a recorded pivot whose result is the next entry's table |
| SimplexIterator.RunLinks | simplex_core.py:132-161 | the same, index by index |
| SimplexIterator.RunEndsOptimal | simplex_core.py:98-103 | a terminal entry is last, and its table passes the optimality test |
| SimplexIterator.RunEndsTerminal | simplex_core.py:89-103 | a run that is neither unbounded nor out of passes ends at a terminal entry |
| SimplexIterator.RunLastRecorded | simplex_core.py:132-139 | a last entry that is a pivot step records that pivot |
| SimplexIterator.RunEndsAtCap | simplex_core.py:81-89 | a bounded run whose last entry is a pivot step used all 100 passes |
| SimplexIterator.RunEndsUnbounded | simplex_core.py:120-122 | an unbounded run stops at the starting table, or at the result of its last recorded pivot, where the test fails and every ratio is +∞ |
| SimplexIterator.FinalVarsUpToKeys | simplex_core.py:165-167 | with distinct keys, the final-variable map holds exactly the non-`E` labels, each mapped to its own row's RHS |
| SimplexIterator.FinalVarsOfValid | simplex_core.py:165-167 | on a canonical table, exactly the constraint-row labels become keys, each mapped to its row's RHS |
| SimplexIterator.SimplexFailures | simplex_core.py:120-122 | the calculation error occurs exactly when N + M = 0. The unbounded error occurs exactly when the run stops at a ratio test with no finite ratio |
| SimplexIterator.SolvedHistoryOfRun | simplex_core.py:89-162 | the facts proved about a bounded run make up a solved history |
| SimplexIterator.SolveHistory | simplex_core.py:79-169 | a solved history has 1 to 100 entries and starts at the initial table. Every entry but the last is a recorded pivot leading to the next. The last entry is an optimal terminal, or the recorded 100th pivot. Every table has M rows, and the headers are `X1..X(N+M)` plus the solution column |
| SimplexIterator.SolveLast | simplex_core.py:164-169 | the outputs are read from the last snapshot's table, which is canonical |
| SimplexIterator.SolveReadOut | simplex_core.py:164-167 | `final_z` is the objective RHS of the last snapshot, and `final_vars` maps exactly its constraint-row labels to their RHS |
| SimplexIterator.SimplexHistory | simplex_core.py:40-169 | for the packed matrix, a solved history is a solved run from the initial tableau with M constraint rows throughout |
| SimplexIterator.RhsStaysNonNegative | simplex_core.py:150 | subtracting theta times the pivot row keeps a non-negative RHS when the ratio test allowed theta |
| SimplexIterator.PivotRowStaysFeasible | simplex_core.py:141-151 | one row's RHS stays non-negative through the pivot |
| SimplexIterator.LeavingRatioIsLeast | simplex_core.py:115-126 | the leaving row's pivot element exceeds 1e-9, and its ratio is at most every counted row's ratio |
| SimplexIterator.PivotKeepsFeasibility | simplex_core.py:115-151 | if every constraint RHS is ≥ 0 before a pivot, every row with pivot-column entry ≤ 0 or > 1e-9 has RHS ≥ 0 after it |
| SimplexIterator.RebuildDict | simplex_core.py:153-158 | rebuilding the dictionary with a fresh entering key keeps every row in place and relabels only the pivot row |
| SimplexIterator.Pass | simplex_core.py:90-162 | one pass of the loop body equals `Step` |
| SimplexIterator.Iterate | simplex_core.py:81-162 | the while loop yields the history and the unbounded flag of `Run` with 100 passes |
| SimplexIterator.ReadOut | simplex_core.py:164-167 | the read-out equals the objective RHS and the final-variable map |
| SimplexIterator.CalculateSimplex | simplex_core.py:40-172 | `calculate_simplex` returns `Simplex(raw, operation, num_vars)` |
| Sensitivity.RaiseLo | simplex_core.py:223 | the new `d_min` is the larger of the old one and the limit |
| Sensitivity.LowerHi | simplex_core.py:227 | the new `d_max` is the smaller of the old one and the limit |
| Sensitivity.LowerLimitHolds | simplex_core.py:220-223 | a > 0 and D ≥ -v/a give v + aD ≥ 0 |
| Sensitivity.UpperLimitHolds | simplex_core.py:224-227 | a < 0 and D ≤ -v/a give v + aD ≥ 0 |
| Sensitivity.RhsBoundsSound | simplex_core.py:202-227 | every D in [d_min, d_max] keeps every counted constraint row at v + aD ≥ 0 |
| Sensitivity.RhsBoundsTight | simplex_core.py:202-227 | `d_min` is the largest -v/a over rows with a > 0 (or -∞ when there is none), and `d_max` is the least -v/a over rows with a < 0 (or +∞) |
| Sensitivity.RhsBoundsExact | simplex_core.py:202-227 | D lies in [d_min, d_max] if and only if every counted constraint row keeps v + aD ≥ 0, so a D outside the range breaks some counted row |
| Sensitivity.RhsBoundsHoldZero | simplex_core.py:202-227 | d_min ≤ 0 ≤ d_max when every counted row has v ≥ 0 |
| Sensitivity.RhsRange | simplex_core.py:202-227 | the loop over the dictionary computes `RhsBounds` |
| Sensitivity.CostUpperHolds | simplex_core.py:295-297 | a > 0 and D ≤ rc/a give rc - aD ≥ 0 |
| Sensitivity.CostLowerHolds | simplex_core.py:298-300 | a < 0 and D ≥ rc/a give rc - aD ≥ 0 |
| Sensitivity.CostBoundsStep | simplex_core.py:284-300 | a D within the range over k columns is within the range over k-1 columns, and on the right side of the bound column k-1 sets |
| Sensitivity.CostBoundsSound | simplex_core.py:284-300 | every D in [d_min, d_max] keeps every counted column at rc - aD ≥ 0 |
| Sensitivity.CostBoundsHoldZero | simplex_core.py:284-300 | d_min ≤ 0 ≤ d_max when every counted reduced cost is ≥ 0 |
| Sensitivity.CostBoundsTight | simplex_core.py:284-300 | `d_max` is the least rc/a over a > 1e-9 (or +∞), and `d_min` is the largest rc/a over a < -1e-9 (or -∞) |
| Sensitivity.CostBoundsExact | simplex_core.py:284-300 | D lies in [d_min, d_max] if and only if every counted column keeps rc - aD ≥ 0, so a D outside the range breaks some counted column |
| Sensitivity.CostRange | simplex_core.py:284-300 | the loop over the columns computes `CostBounds` |
| Sensitivity.ZRowOf | simplex_core.py:180-183 | a present, non-empty `E` row has a solution column |
| Sensitivity.BasicRow | simplex_core.py:284 | a basic variable's row has the objective row's width and is a row of the tableau |
| Sensitivity.Analyze | simplex_core.py:180-328 | the result is the empty result exactly when `E` is missing or empty, and the handler's empty result exactly when an index runs out. Otherwise the lists have lengths `num_dec_vars` and `num_constrs`, in index order with names, coefficients and RHS values, and each entry is the variable or constraint entry of its index |
| Sensitivity.PerformSensitivityAnalysis | simplex_core.py:175-332 | the two loops compute `Analyze` |
| Sensitivity.ConstraintRangeSound | simplex_core.py:192-255 | on a table feasible in the counted rows, changing `b_i` by any D from -`allow_decrease` to `allow_increase` keeps every counted row at v + aD ≥ 0 |
| Sensitivity.BasicCostRangeSound | simplex_core.py:263-326 | for a basic variable with non-negative counted reduced costs, changing its cost by any such D keeps every counted rc - aD ≥ 0 |
| Sensitivity.NonBasicCostRange | simplex_core.py:269-282 | a non-basic variable has final value 0 and `allow_increase` equal to its reduced cost, with an unlimited decrease, whatever `is_max` is |
| Vertices.ParseAll | gui_utils.py:48-60 | reading fails exactly when some row has an unparsable cell. Otherwise it gives one record per row, in row order |
| Vertices.ParseRows | gui_utils.py:48-60 | the loop computes `ParseAll` |
| Vertices.NoneExtends | gui_utils.py:48-60 | once a row fails to parse, the whole table fails |
| Vertices.BuildLines | gui_utils.py:62-66 | the loop computes `Lines` |
| Vertices.CrossingsFrom | gui_utils.py:70-77 | the inner loop yields the crossing points of line i with the later lines it crosses |
| Vertices.Intersections | gui_utils.py:68-77 | the nested loops yield the candidate points in pair order |
| Vertices.MeetOnBoth | gui_utils.py:73-76 | a crossing point with \|det\| > 1e-9 lies exactly on both lines |
| Vertices.PairPointsMembers | gui_utils.py:70-77 | a point comes from line i exactly when it is the meet of line i with a later line it crosses |
| Vertices.CandidateSource | gui_utils.py:68-77 | every candidate is the meet of a crossing pair i < j |
| Vertices.CandidateOfPair | gui_utils.py:68-77 | every crossing pair i < j contributes its meet |
| Vertices.CandidatesUpToMembers | gui_utils.py:68-77 | a point is a candidate of the first i lines exactly when it is the meet of a crossing pair whose first index is below i |
| Vertices.CandidatesAreCrossings | gui_utils.py:68-77 | a point is a candidate exactly when it is the meet of a crossing pair, and every candidate lies on two distinct lines |
| Vertices.SatisfiesAll | gui_utils.py:83-89 | the loop with its breaks is true exactly when every constraint holds within 1e-5 for its sign |
| Vertices.FilterFeasible | gui_utils.py:79-91 | the filter loop keeps the feasible points in order |
| Vertices.FilterMembers | gui_utils.py:79-91 | a point is kept exactly when it is a candidate with both coordinates ≥ -1e-5 that satisfies every constraint |
| Vertices.IsUnique | gui_utils.py:95-97 | `is_unique` holds exactly when no kept point is within 1e-5 in both coordinates |
| Vertices.Deduplicate | gui_utils.py:93-99 | the loop computes `Dedup` |
| Vertices.DedupSubsequence | gui_utils.py:93-99 | the kept points are a subsequence of the valid points |
| Vertices.DedupSeparated | gui_utils.py:95-98 | no two kept points are within 1e-5 in both coordinates |
| Vertices.DedupPrefix | gui_utils.py:94-98 | processing one more point leaves the earlier kept points in place |
| Vertices.CoversEarlier | gui_utils.py:94-98 | a point before the last stays close to a kept point no later than itself |
| Vertices.CoversLast | gui_utils.py:94-98 | the last point is close to a kept point no later than itself |
| Vertices.DedupCovers | gui_utils.py:93-99 | every valid point is close to a point kept from a position no later than its own, so first occurrences are kept |
| Vertices.VerticesCorrect | gui_utils.py:62-99 | every vertex is feasible and is the crossing of two distinct lines of the list. No two vertices are close. Every feasible crossing is close to some vertex |
| Vertices.PlotConstraints | gui_utils.py:48-99 | the function returns the parsed records and the region's vertices, or `[]` when a cell does not parse |

## Left out

- Qt: reading the cells of the Qt tables, the spin boxes and the sign selector widget. The model takes already-split cells and the sign text as inputs. A `Blank` cell is a present item whose text is empty or only blanks.
- Missing table items in `get_simplex_data`: `.item(...).text()` at simplex_core.py:10, 25 and 32 raises `AttributeError` on a cell the user never filled, and the caller reports it as an error. The model's cells are always present, so this failure is not modelled. Only `plot_constraints` (gui_utils.py:53-55) reads a missing item as 0.0, which `Blank` covers there.
- `AttributeError` from a missing sign widget, and any other exception the Qt or numpy calls could raise, are not modelled. The modelled failures are unparsable cells, empty constraint lists, width mismatches, an empty objective row and index errors in the ranging.
- Floating point: every computation is over exact reals. Rounding, NaN and overflow are not modelled.
- The report text of `perform_sensitivity_analysis`: its equations and its `%.2f` strings.
- Both entry types hold `allow_increase` as the unformatted bound `d_max` (an `Ext`), not its `%.2f` text.
- The printed message of each exception handler. The model returns an error value instead.
- `calculate_simplex`'s other exception paths (a ragged matrix, for example). `RawShaped` requires the rectangular matrix that `get_simplex_data` produces, and `num_vars` equal to its width minus one, as the caller passes it.
- SimplexIterator.Pass: requires canonical form, which every table in the loop has (`RunAllValid`). On a table outside canonical form, a repeated entering key would overwrite a row of the dictionary, and the model does not follow that case.
- Copy semantics: the deep copies of the dictionary in the history are values here, so aliasing is not modelled.
- The plot itself (gui_utils.py:101-163): the centroid and `atan2` ordering of the vertices, the axis limits, the constraint lines and the optimum marker.
- Headers are a datatype (`Variable(X(k))`, `SolutionColumn`), not the strings `'X1'` and `'Решение'`.
