/** The simplex iterator of `calculate_simplex`: from the initial tableau it
    pivots until the objective row passes the optimality test, the ratio
    test finds no finite ratio, or 100 pivots have been made, recording a
    snapshot of the tableau before every pivot and at the optimum. */
module SimplexIterator {
  import opened Common
  import opened TableauBuilder

  /** The operation text that selects minimisation; any other text maximises. */
  const Minimize: string := "Минимизация"

  /** The iteration cap of the pivoting loop. */
  const MaxIter: nat := 100

  /** The objective row without its RHS entry. */
  function ZRow(t: Tableau): seq<real>
    requires |t.rows| >= 1 && |t.rows[0]| >= 1
  {
    t.rows[0][..|t.rows[0]| - 1]
  }

  /** The RHS entry (last column) of row `i`. */
  function Rhs(t: Tableau, i: nat): real
    requires i < |t.rows| && |t.rows[i]| >= 1
  {
    t.rows[i][|t.rows[i]| - 1]
  }

  /** The optimality test of lines 92-96, computed from max/min as the source
      does: when minimising, every objective-row entry is at most 1e-9; when
      maximising, every entry is at least -1e-9. */
  predicate OptimalTest(z: seq<real>, isMin: bool)
    requires |z| > 0
  {
    if isMin then Max(z) <= Eps else Min(z) >= -Eps
  }

  /** What the test means entry by entry. */
  lemma OptimalTestMeans(z: seq<real>, isMin: bool)
    requires |z| > 0
    ensures OptimalTest(z, isMin) <==>
      forall k :: 0 <= k < |z| ==> if isMin then z[k] <= Eps else z[k] >= -Eps
  {
    MaxIsGreatest(z);
    MinIsLeast(z);
  }

  /** The entering column of lines 105-106: the first index of the largest
      entry (minimising) or of the smallest entry (maximising). */
  function EnteringColumn(z: seq<real>, isMin: bool): (k: nat)
    requires |z| > 0
    ensures k < |z|
  {
    IndexOf(z, if isMin then Max(z) else Min(z))
  }

  /** The entering column holds the best entry, and no earlier column holds
      one as good. */
  lemma EnteringColumnBest(z: seq<real>, isMin: bool)
    requires |z| > 0
    ensures var k := EnteringColumn(z, isMin);
      && (isMin ==> forall j :: 0 <= j < |z| ==> z[j] <= z[k])
      && (!isMin ==> forall j :: 0 <= j < |z| ==> z[k] <= z[j])
      && (isMin ==> forall j :: 0 <= j < k ==> z[j] < z[k])
      && (!isMin ==> forall j :: 0 <= j < k ==> z[k] < z[j])
  {
    MaxIsGreatest(z);
    MinIsLeast(z);
    IndexOfFirst(z, if isMin then Max(z) else Min(z));
  }

  /** The ratio of one constraint row for pivot column `pc`. */
  function RatioOf(row: seq<real>, pc: nat): Ext
    requires pc < |row|
  {
    if row[pc] > Eps then Finite(row[|row| - 1] / row[pc]) else PosInf
  }

  /** The ratios of constraint rows 1..i. */
  function RatiosUpTo(t: Tableau, pc: nat, i: nat): (rs: seq<Ext>)
    requires i < |t.rows| && forall r :: 0 <= r < |t.rows| ==> pc < |t.rows[r]|
    ensures |rs| == i
  {
    if i == 0 then [] else RatiosUpTo(t, pc, i - 1) + [RatioOf(t.rows[i], pc)]
  }

  /** The ratio list of lines 108-118, one entry per constraint row. */
  function Ratios(t: Tableau, pc: nat): (rs: seq<Ext>)
    requires |t.rows| >= 1 && forall i :: 0 <= i < |t.rows| ==> pc < |t.rows[i]|
    ensures |rs| == |t.rows| - 1
  {
    RatiosUpTo(t, pc, |t.rows| - 1)
  }

  lemma {:induction false} RatiosUpToAt(t: Tableau, pc: nat, i: nat, j: nat)
    requires i < |t.rows| && forall r :: 0 <= r < |t.rows| ==> pc < |t.rows[r]|
    requires j < i
    ensures RatiosUpTo(t, pc, i)[j] == RatioOf(t.rows[j + 1], pc)
  {
    if j < i - 1 {
      RatiosUpToAt(t, pc, i - 1, j);
    }
  }

  /** `ratios[i]` belongs to constraint row i + 1. */
  lemma RatiosAt(t: Tableau, pc: nat, i: nat)
    requires |t.rows| >= 1 && forall r :: 0 <= r < |t.rows| ==> pc < |t.rows[r]|
    requires i < |t.rows| - 1
    ensures Ratios(t, pc)[i] == RatioOf(t.rows[i + 1], pc)
  {
    RatiosUpToAt(t, pc, |t.rows| - 1, i);
  }

  /** Lines 108-118 as a loop: `ratios[i]` belongs to constraint row i + 1,
      rhs / a when its pivot-column entry a exceeds 1e-9 and infinite otherwise. */
  method ComputeRatios(t: Tableau, pc: nat) returns (ratios: seq<Ext>)
    requires |t.rows| >= 1 && forall i :: 0 <= i < |t.rows| ==> pc < |t.rows[i]|
    ensures |ratios| == |t.rows| - 1
    ensures forall i :: 0 <= i < |ratios| && t.rows[i + 1][pc] > Eps ==>
      ratios[i] == Finite(Rhs(t, i + 1) / t.rows[i + 1][pc])
    ensures forall i :: 0 <= i < |ratios| && t.rows[i + 1][pc] <= Eps ==> ratios[i] == PosInf
    ensures ratios == Ratios(t, pc)
  {
    ratios := [];
    var i := 1;
    while i < |t.rows|
      invariant 1 <= i <= |t.rows|
      invariant ratios == RatiosUpTo(t, pc, i - 1)
    {
      var row := t.rows[i];
      var val := row[pc];
      var rhs := row[|row| - 1];
      if val > Eps {
        ratios := ratios + [Finite(rhs / val)];
      } else {
        ratios := ratios + [PosInf];
      }
      i := i + 1;
    }
    forall i | 0 <= i < |ratios|
      ensures ratios[i] == RatioOf(t.rows[i + 1], pc)
    {
      RatiosAt(t, pc, i);
    }
  }

  /** The finite ratios, in order (line 120). */
  function FiniteValues(rs: seq<Ext>): seq<real>
  {
    if rs == [] then []
    else (if rs[0].Finite? then [rs[0].v] else []) + FiniteValues(rs[1..])
  }

  /** FiniteValues keeps exactly the finite ratios. */
  lemma {:induction false} FiniteValuesMembers(rs: seq<Ext>)
    ensures forall x :: x in FiniteValues(rs) <==> Finite(x) in rs
  {
    if rs != [] {
      FiniteValuesMembers(rs[1..]);
      assert rs == [rs[0]] + rs[1..];
    }
  }

  /** Lines 120-125: no leaving row when no ratio is finite; otherwise the
      first ratio position holding the least finite ratio. */
  function LeavingIndex(rs: seq<Ext>): (k: Option<nat>)
    ensures k.Some? ==> k.value < |rs| && rs[k.value].Finite?
  {
    var f := FiniteValues(rs);
    if f == [] then None
    else
      FiniteValuesMembers(rs);
      Some(IndexOf(rs, Finite(Min(f))))
  }

  /** No leaving row exactly when no ratio is finite; otherwise the leaving
      ratio is the least finite one, and no earlier position holds it. */
  lemma LeavingIndexProps(rs: seq<Ext>)
    ensures var k := LeavingIndex(rs);
      && (k.None? <==> forall i :: 0 <= i < |rs| ==> !rs[i].Finite?)
      && (k.Some? ==> forall i :: 0 <= i < |rs| && rs[i].Finite? ==> rs[k.value].v <= rs[i].v)
      && (k.Some? ==> forall i :: 0 <= i < k.value ==> rs[i] != rs[k.value])
  {
    FiniteValuesMembers(rs);
    var f := FiniteValues(rs);
    assert forall i :: 0 <= i < |rs| && rs[i].Finite? ==> rs[i].v in f;
    if f != [] {
      MinIsLeast(f);
      IndexOfFirst(rs, Finite(Min(f)));
    }
  }

  /** The Gauss-Jordan pivot of lines 141-151: the pivot row divided by the
      pivot element, every other row minus its pivot-column multiple of it. */
  ghost predicate PivotArgs(rows: seq<seq<real>>, pr: nat, pc: nat)
  {
    && pr < |rows|
    && (forall i :: 0 <= i < |rows| ==> |rows[i]| == |rows[pr]|)
    && pc < |rows[pr]| && rows[pr][pc] != 0.0
  }

  /** Row i after the pivot: `new_pivot_row = pivot_row / pivot_val` for the
      pivot row, `row - row[pc] * new_pivot_row` for every other row. */
  function PivotedRow(rows: seq<seq<real>>, pr: nat, pc: nat, i: nat): (r: seq<real>)
    requires PivotArgs(rows, pr, pc) && i < |rows|
    ensures |r| == |rows[pr]|
  {
    var w := |rows[pr]|;
    var pv := rows[pr][pc];
    if i == pr then seq(w, k requires 0 <= k < w => rows[pr][k] / pv)
    else seq(w, k requires 0 <= k < w => rows[i][k] - rows[i][pc] * (rows[pr][k] / pv))
  }

  /** The first i rows after the pivot. */
  function PivotRowsUpTo(rows: seq<seq<real>>, pr: nat, pc: nat, i: nat): (r: seq<seq<real>>)
    requires PivotArgs(rows, pr, pc) && i <= |rows|
    ensures |r| == i
    ensures forall j :: 0 <= j < i ==> |r[j]| == |rows[pr]|
  {
    if i == 0 then [] else PivotRowsUpTo(rows, pr, pc, i - 1) + [PivotedRow(rows, pr, pc, i - 1)]
  }

  /** The Gauss-Jordan pivot of lines 141-151: the pivot row divided by the
      pivot element, every other row minus its pivot-column multiple of it. */
  function PivotRows(rows: seq<seq<real>>, pr: nat, pc: nat): (r: seq<seq<real>>)
    requires PivotArgs(rows, pr, pc)
    ensures |r| == |rows|
    ensures forall i :: 0 <= i < |r| ==> |r[i]| == |rows[pr]|
  {
    PivotRowsUpTo(rows, pr, pc, |rows|)
  }

  lemma {:induction false} PivotRowsUpToAt(rows: seq<seq<real>>, pr: nat, pc: nat, i: nat, j: nat)
    requires PivotArgs(rows, pr, pc) && i <= |rows| && j < i
    ensures PivotRowsUpTo(rows, pr, pc, i)[j] == PivotedRow(rows, pr, pc, j)
  {
    if j < i - 1 {
      PivotRowsUpToAt(rows, pr, pc, i - 1, j);
    }
  }

  /** The entries of row i after the pivot. */
  lemma PivotRowsEntry(rows: seq<seq<real>>, pr: nat, pc: nat, i: nat, k: nat)
    requires PivotArgs(rows, pr, pc) && i < |rows| && k < |rows[pr]|
    ensures i == pr ==> PivotRows(rows, pr, pc)[i][k] == rows[pr][k] / rows[pr][pc]
    ensures i != pr ==> PivotRows(rows, pr, pc)[i][k] == rows[i][k] - rows[i][pc] * (rows[pr][k] / rows[pr][pc])
  {
    PivotRowsUpToAt(rows, pr, pc, |rows|, i);
  }

  /** The pivot row is divided by the pivot element, and the pivot column
      becomes the unit column of the pivot row. */
  lemma PivotRowsUnit(rows: seq<seq<real>>, pr: nat, pc: nat)
    requires PivotArgs(rows, pr, pc)
    ensures var r := PivotRows(rows, pr, pc);
      && (forall k :: 0 <= k < |rows[pr]| ==> r[pr][k] == rows[pr][k] / rows[pr][pc])
      && r[pr][pc] == 1.0
      && (forall i :: 0 <= i < |r| && i != pr ==> r[i][pc] == 0.0)
  {
    var r := PivotRows(rows, pr, pc);
    forall k | 0 <= k < |rows[pr]|
      ensures r[pr][k] == rows[pr][k] / rows[pr][pc]
    {
      PivotRowsEntry(rows, pr, pc, pr, k);
    }
    forall i | 0 <= i < |r| && i != pr
      ensures r[i][pc] == 0.0
    {
      PivotRowsEntry(rows, pr, pc, i, pc);
    }
    PivotRowsEntry(rows, pr, pc, pr, pc);
    assert rows[pr][pc] / rows[pr][pc] == 1.0;
  }

  /** The tableau after pivoting on (pr, pc): the rows pivoted and the
      label of the pivot row replaced by the entering variable X(pc+1). */
  function PivotOn(t: Tableau, pr: nat, pc: nat): Tableau
    requires pr < |t.rows| && |t.labels| == |t.rows|
    requires forall i :: 0 <= i < |t.rows| ==> |t.rows[i]| == |t.rows[pr]|
    requires pc < |t.rows[pr]| && t.rows[pr][pc] != 0.0
  {
    Tableau(t.labels[pr := X(pc + 1)], PivotRows(t.rows, pr, pc))
  }

  /** A pivot on a non-zero element keeps canonical form: the pivot column
      becomes the unit column of the pivot row, and every other basic column,
      being 0 in the pivot row, is left as it was. */
  lemma PivotKeepsValid(t: Tableau, n: nat, pr: nat, pc: nat)
    requires Valid(t, n) && 1 <= pr < |t.rows| && pc < n + NumRows(t) && t.rows[pr][pc] != 0.0
    ensures Valid(PivotOn(t, pr, pc), n)
  {
    var t' := PivotOn(t, pr, pc);
    PivotRowsUnit(t.rows, pr, pc);
    forall r, i | 1 <= r < |t'.rows| && 0 <= i < |t'.rows|
      ensures t'.rows[i][Col(t'.labels[r])] == if i == r then 1.0 else 0.0
    {
      if r != pr {
        var c := Col(t.labels[r]);
        assert t.rows[pr][c] == 0.0;
        PivotRowsEntry(t.rows, pr, pc, pr, c);
        assert t'.rows[pr][c] == 0.0;
        if i != pr {
          PivotRowsEntry(t.rows, pr, pc, i, c);
        }
      }
    }
  }

  /** A pivot relabels only the pivot row, with the entering variable, and
      on a canonical tableau the labels stay pairwise distinct. */
  lemma PivotRelabels(t: Tableau, n: nat, pr: nat, pc: nat)
    requires Valid(t, n) && 1 <= pr < |t.rows| && pc < n + NumRows(t) && t.rows[pr][pc] != 0.0
    ensures var t' := PivotOn(t, pr, pc);
      && |t'.labels| == |t.labels| && |t'.rows| == |t.rows|
      && t'.labels[pr] == X(pc + 1)
      && (forall i :: 0 <= i < |t.labels| && i != pr ==> t'.labels[i] == t.labels[i])
      && DistinctLabels(t'.labels)
  {
    PivotKeepsValid(t, n, pr, pc);
    ValidHasDistinctLabels(PivotOn(t, pr, pc), n);
  }

  /** A column whose objective-row entry is non-zero is not basic, so the
      entering variable never already labels a row. */
  lemma EnteringIsNonBasic(t: Tableau, n: nat, pc: nat)
    requires Valid(t, n) && pc < n + NumRows(t) && t.rows[0][pc] != 0.0
    ensures X(pc + 1) !in t.labels
  {
    forall r | 0 <= r < |t.labels|
      ensures t.labels[r] != X(pc + 1)
    {
      if r > 0 {
        assert t.rows[0][Col(t.labels[r])] == 0.0;
      }
    }
  }

  /** One entry of the solution history: the tableau as it was at the
      optimum, or before a pivot together with the pivot's data. */
  datatype Snapshot =
    | Terminal(table: Tableau)
    | PivotStep(table: Tableau, pivotCol: nat, pivotRow: nat, ratios: seq<Ext>, entering: Label, leaving: Label)

  /** What one pass of the loop body does. */
  datatype StepOutcome =
    | Stop(snapshot: Snapshot)
    | NoFiniteRatio
    | Advance(snapshot: Snapshot, next: Tableau)

  /** One pass of the loop body (lines 90-162) as a function of the tableau. */
  function Step(t: Tableau, n: nat, isMin: bool): (o: StepOutcome)
    requires Shaped(t, n) && n + NumRows(t) > 0
    ensures o.Advance? ==> Shaped(o.next, n) && NumRows(o.next) == NumRows(t)
  {
    var z := ZRow(t);
    if OptimalTest(z, isMin) then Stop(Terminal(t))
    else
      var pc := EnteringColumn(z, isMin);
      var rs := Ratios(t, pc);
      match LeavingIndex(rs)
      case None => NoFiniteRatio
      case Some(k) =>
        var pr := k + 1;
        RatiosAt(t, pc, k);
        Advance(PivotStep(t, pc, pr, rs, X(pc + 1), t.labels[pr]), PivotOn(t, pr, pc))
  }

  /** The history and the unboundedness flag of a run. */
  datatype RunResult = RunResult(history: seq<Snapshot>, unbounded: bool)

  function Prepend(h: seq<Snapshot>, r: RunResult): RunResult
  {
    RunResult(h + r.history, r.unbounded)
  }

  lemma PrependTwice(h: seq<Snapshot>, s: Snapshot, r: RunResult)
    ensures Prepend(h, Prepend([s], r)) == Prepend(h + [s], r)
  {
    assert h + ([s] + r.history) == (h + [s]) + r.history;
  }

  /** At most `fuel` passes of the loop starting from `t`. */
  function Run(t: Tableau, n: nat, isMin: bool, fuel: nat): (r: RunResult)
    requires Shaped(t, n) && n + NumRows(t) > 0
    ensures |r.history| <= fuel
    ensures fuel > 0 && !r.unbounded ==> |r.history| > 0
    decreases fuel, 1
  {
    if fuel == 0 then RunResult([], false) else RunPass(t, n, isMin, fuel)
  }

  /** One pass of the loop from `t`, then the remaining `fuel - 1` passes
      from the tableau it produces. */
  function RunPass(t: Tableau, n: nat, isMin: bool, fuel: nat): (r: RunResult)
    requires Shaped(t, n) && n + NumRows(t) > 0 && fuel > 0
    ensures |r.history| <= fuel
    ensures !r.unbounded ==> |r.history| > 0
    decreases fuel, 0
  {
    match Step(t, n, isMin)
    case Stop(s) => RunResult([s], false)
    case NoFiniteRatio => RunResult([], true)
    case Advance(s, t') => Prepend([s], Run(t', n, isMin, fuel - 1))
  }

  /** A column header: a variable, or the trailing solution column. */
  datatype Header = Variable(name: Label) | SolutionColumn

  /** Line 71: X1..X(N+M), then the solution column. */
  function Headers(n: nat, m: nat): (h: seq<Header>)
    ensures |h| == n + m + 1 && h[n + m] == SolutionColumn
    ensures forall k :: 0 <= k < n + m ==> h[k] == Variable(X(k + 1))
  {
    seq(n + m, k requires 0 <= k < n + m => Variable(X(k + 1))) + [SolutionColumn]
  }

  /** Lines 165-167 over the first `i` dictionary items: every key but "E"
      mapped to the last entry of its row. */
  function FinalVarsUpTo(t: Tableau, i: nat): map<Label, real>
    requires i <= |t.labels| == |t.rows|
    requires forall r :: 0 <= r < |t.rows| ==> |t.rows[r]| >= 1
  {
    if i == 0 then map[]
    else
      var m := FinalVarsUpTo(t, i - 1);
      if t.labels[i - 1] == E then m else m[t.labels[i - 1] := Rhs(t, i - 1)]
  }

  /** With distinct labels, the first `i` items give exactly their non-"E"
      keys, each mapped to its own row's RHS (no later row overwrites it). */
  lemma {:induction false} FinalVarsUpToKeys(t: Tableau, i: nat)
    requires i <= |t.labels| == |t.rows| && DistinctLabels(t.labels)
    requires forall r :: 0 <= r < |t.rows| ==> |t.rows[r]| >= 1
    ensures var m := FinalVarsUpTo(t, i);
      && (forall l :: l in m <==> exists r :: 0 <= r < i && t.labels[r] != E && t.labels[r] == l)
      && (forall r :: 0 <= r < i && t.labels[r] != E ==> m[t.labels[r]] == Rhs(t, r))
  {
    if i > 0 {
      FinalVarsUpToKeys(t, i - 1);
      var prev := FinalVarsUpTo(t, i - 1);
      var m := FinalVarsUpTo(t, i);
      forall l
        ensures l in m <==> exists r :: 0 <= r < i && t.labels[r] != E && t.labels[r] == l
      {
        if l in m && l != t.labels[i - 1] {
          assert l in prev;
          var r :| 0 <= r < i - 1 && t.labels[r] != E && t.labels[r] == l;
          assert 0 <= r < i && t.labels[r] != E && t.labels[r] == l;
        } else if l in m {
          assert t.labels[i - 1] != E;
        }
      }
      forall r | 0 <= r < i && t.labels[r] != E
        ensures m[t.labels[r]] == Rhs(t, r)
      {
        if r < i - 1 {
          assert t.labels[r] != t.labels[i - 1];
        }
      }
    }
  }

  /** Why `calculate_simplex` produced no solution: the ratio test found no
      finite ratio (the "unbounded" message), or an exception was raised and
      caught (`max` of an empty objective row when N + M = 0). */
  datatype SimplexError = Unbounded | CalculationError

  /** The five results of `calculate_simplex`; the error case stands for the
      four None results next to the error message. */
  datatype SimplexOutcome =
    | Solved(finalZ: real, history: seq<Snapshot>, finalVars: map<Label, real>, headers: seq<Header>)
    | Failed(error: SimplexError)

  /** Lines 79-170 from a canonical tableau on: the calculation error when
      the objective row is empty (N + M = 0), the unbounded message when the
      run stops at a ratio test with no finite ratio, and otherwise the
      results read out of the last snapshot. */
  function Solve(t0: Tableau, n: nat, isMin: bool): SimplexOutcome
    requires Valid(t0, n)
  {
    if n + NumRows(t0) == 0 then Failed(CalculationError)
    else
      var run := Run(t0, n, isMin, MaxIter);
      if run.unbounded then Failed(Unbounded)
      else
        RunLastValid(t0, n, isMin, MaxIter);
        var last := Last(run.history).table;
        ValidHasDistinctLabels(last, n);
        Solved(Rhs(last, 0), run.history, FinalVarsUpTo(last, |last.rows|), Headers(n, NumRows(t0)))
  }

  /** `calculate_simplex` as a function of its inputs. */
  function Simplex(raw: seq<seq<real>>, operation: string, numVars: nat): SimplexOutcome
    requires RawShaped(raw) && numVars == |raw[0]| - 1
  {
    Solve(InitialTableau(raw), numVars, operation == Minimize)
  }

  /** A pivot snapshot records what the source computed before pivoting: an
      objective row that fails the optimality test, the first best entering
      column, its ratio column, the first least finite ratio's row (whose
      pivot element therefore exceeds 1e-9), and the entering and leaving
      labels. */
  ghost predicate RecordsPivot(s: Snapshot, n: nat, isMin: bool)
  {
    && s.PivotStep?
    && Shaped(s.table, n) && n + NumRows(s.table) > 0
    && var t := s.table;
       var z := ZRow(t);
       && !OptimalTest(z, isMin)
       && s.pivotCol == EnteringColumn(z, isMin)
       && s.ratios == Ratios(t, s.pivotCol)
       && 1 <= s.pivotRow <= NumRows(t)
       && LeavingIndex(s.ratios) == Some(s.pivotRow - 1)
       && t.rows[s.pivotRow][s.pivotCol] > Eps
       && s.entering == X(s.pivotCol + 1)
       && s.leaving == t.labels[s.pivotRow]
  }

  /** The tableau that follows a recorded pivot. */
  function After(s: Snapshot): Tableau
    requires s.PivotStep? && |s.table.rows| >= 1 && |s.table.labels| == |s.table.rows|
    requires s.pivotRow < |s.table.rows|
    requires forall i :: 0 <= i < |s.table.rows| ==> |s.table.rows[i]| == |s.table.rows[s.pivotRow]|
    requires s.pivotCol < |s.table.rows[s.pivotRow]| && s.table.rows[s.pivotRow][s.pivotCol] != 0.0
  {
    PivotOn(s.table, s.pivotRow, s.pivotCol)
  }

  /** One pass of the loop stops, with a terminal snapshot of the tableau,
      exactly when the optimality test passes. */
  lemma StepStops(t: Tableau, n: nat, isMin: bool)
    requires Shaped(t, n) && n + NumRows(t) > 0
    ensures Step(t, n, isMin).Stop? <==> OptimalTest(ZRow(t), isMin)
    ensures Step(t, n, isMin).Stop? ==> Step(t, n, isMin).snapshot == Terminal(t)
  {
  }

  /** One pass reports no finite ratio only for a tableau that fails the
      optimality test and whose ratio column is infinite in every row. */
  lemma StepUnbounded(t: Tableau, n: nat, isMin: bool)
    requires Shaped(t, n) && n + NumRows(t) > 0
    requires Step(t, n, isMin).NoFiniteRatio?
    ensures !OptimalTest(ZRow(t), isMin)
    ensures forall i :: 0 <= i < NumRows(t) ==> Ratios(t, EnteringColumn(ZRow(t), isMin))[i] == PosInf
  {
    var z := ZRow(t);
    var pc := EnteringColumn(z, isMin);
    var rs := Ratios(t, pc);
    assert LeavingIndex(rs).None?;
    LeavingIndexProps(rs);
    forall i | 0 <= i < NumRows(t) ensures rs[i] == PosInf {
      RatiosAt(t, pc, i);
    }
  }

  /** A pass that pivots records that pivot as the source does and moves on
      to the tableau the pivot produces. */
  lemma StepAdvances(t: Tableau, n: nat, isMin: bool)
    requires Shaped(t, n) && n + NumRows(t) > 0
    requires Step(t, n, isMin).Advance?
    ensures var s := Step(t, n, isMin).snapshot;
      s.table == t && RecordsPivot(s, n, isMin) && Step(t, n, isMin).next == After(s)
  {
    var z := ZRow(t);
    var pc := EnteringColumn(z, isMin);
    var rs := Ratios(t, pc);
    var k := LeavingIndex(rs).value;
    var pr := k + 1;
    RatiosAt(t, pc, k);
    var s := PivotStep(t, pc, pr, rs, X(pc + 1), t.labels[pr]);
    assert Step(t, n, isMin) == Advance(s, PivotOn(t, pr, pc));
  }

  /** A pass over a tableau that fails the optimality test and has no
      finite ratio stops the run as unbounded. */
  lemma StepNoFinite(t: Tableau, n: nat, isMin: bool)
    requires Shaped(t, n) && n + NumRows(t) > 0
    requires !OptimalTest(ZRow(t), isMin)
    requires FiniteValues(Ratios(t, EnteringColumn(ZRow(t), isMin))) == []
    ensures Step(t, n, isMin) == NoFiniteRatio
  {
    assert LeavingIndex(Ratios(t, EnteringColumn(ZRow(t), isMin))) == None;
  }

  /** A pass over a tableau that fails the optimality test and has a finite
      ratio pivots on the row of the first least finite ratio, found as the
      source finds it (`ratios.index(min(valid_ratios))`). */
  lemma StepPivots(t: Tableau, n: nat, isMin: bool)
    requires Shaped(t, n) && n + NumRows(t) > 0
    requires !OptimalTest(ZRow(t), isMin)
    requires FiniteValues(Ratios(t, EnteringColumn(ZRow(t), isMin))) != []
    ensures var pc := EnteringColumn(ZRow(t), isMin);
      var rs := Ratios(t, pc);
      && LeavingIndex(rs).Some?
      && var pr := LeavingIndex(rs).value + 1;
      && 1 <= pr < |t.rows| && t.rows[pr][pc] > Eps
      && Step(t, n, isMin) == Advance(PivotStep(t, pc, pr, rs, X(pc + 1), t.labels[pr]), PivotOn(t, pr, pc))
  {
    var pc := EnteringColumn(ZRow(t), isMin);
    var rs := Ratios(t, pc);
    var k := LeavingIndex(rs).value;
    RatiosAt(t, pc, k);
    var pr := k + 1;
    assert Step(t, n, isMin) == Advance(PivotStep(t, pc, pr, rs, X(pc + 1), t.labels[pr]), PivotOn(t, pr, pc));
  }

  /** A run of positive fuel is its first pass followed by the rest. */
  lemma RunUnfold(t: Tableau, n: nat, isMin: bool, fuel: nat)
    requires Shaped(t, n) && n + NumRows(t) > 0 && fuel > 0
    ensures Step(t, n, isMin).Stop? ==> Run(t, n, isMin, fuel) == RunResult([Step(t, n, isMin).snapshot], false)
    ensures Step(t, n, isMin).NoFiniteRatio? ==> Run(t, n, isMin, fuel) == RunResult([], true)
    ensures Step(t, n, isMin).Advance? ==>
      Run(t, n, isMin, fuel) == Prepend([Step(t, n, isMin).snapshot], Run(Step(t, n, isMin).next, n, isMin, fuel - 1))
  {
  }

  /** A pass that pivots a canonical tableau yields a canonical tableau. */
  lemma AdvanceKeepsValid(t: Tableau, n: nat, isMin: bool)
    requires Valid(t, n) && n + NumRows(t) > 0
    requires Step(t, n, isMin).Advance?
    ensures Valid(Step(t, n, isMin).next, n)
  {
    var s := Step(t, n, isMin).snapshot;
    StepAdvances(t, n, isMin);
    PivotKeepsValid(t, n, s.pivotRow, s.pivotCol);
  }

  /** The first pass of a run, as an outcome `o` of the loop body: a
      terminal snapshot of an optimal tableau, the unbounded situation, or
      a recorded pivot followed by the run from the tableau it produces. */
  lemma RunHead(t: Tableau, n: nat, isMin: bool, fuel: nat) returns (o: StepOutcome)
    requires Shaped(t, n) && n + NumRows(t) > 0 && fuel > 0
    ensures o.Stop? ==>
      && o.snapshot == Terminal(t) && OptimalTest(ZRow(t), isMin)
      && Run(t, n, isMin, fuel) == RunResult([o.snapshot], false)
    ensures o.NoFiniteRatio? ==> UnboundedAt(t, n, isMin) && Run(t, n, isMin, fuel) == RunResult([], true)
    ensures o.Advance? ==>
      && o.snapshot.PivotStep? && o.snapshot.table == t
      && Shaped(o.next, n) && NumRows(o.next) == NumRows(t)
      && Run(t, n, isMin, fuel) == Prepend([o.snapshot], Run(o.next, n, isMin, fuel - 1))
    ensures o.Advance? && Valid(t, n) ==> Valid(o.next, n)
  {
    o := Step(t, n, isMin);
    RunUnfold(t, n, isMin, fuel);
    if o.Stop? {
      StepStops(t, n, isMin);
    } else if o.NoFiniteRatio? {
      StepUnbounded(t, n, isMin);
    } else {
      StepAdvances(t, n, isMin);
      if Valid(t, n) {
        AdvanceKeepsValid(t, n, isMin);
      }
    }
  }

  /** The first pass of a run, reduced to the shape of what it records. */
  lemma RunShape(t: Tableau, n: nat, isMin: bool, fuel: nat) returns (o: StepOutcome)
    requires Shaped(t, n) && n + NumRows(t) > 0 && fuel > 0
    ensures o.Stop? ==> o.snapshot == Terminal(t) && Run(t, n, isMin, fuel) == RunResult([o.snapshot], false)
    ensures o.NoFiniteRatio? ==> Run(t, n, isMin, fuel) == RunResult([], true)
    ensures o.Advance? ==>
      && o.snapshot.PivotStep? && o.snapshot.table == t
      && Shaped(o.next, n) && NumRows(o.next) == NumRows(t)
      && Run(t, n, isMin, fuel) == Prepend([o.snapshot], Run(o.next, n, isMin, fuel - 1))
  {
    o := RunHead(t, n, isMin, fuel);
  }

  /** A first pass that pivots is a recorded pivot whose result the rest of
      the run starts from. */
  lemma RunHeadRecords(t: Tableau, n: nat, isMin: bool, fuel: nat) returns (o: StepOutcome)
    requires Shaped(t, n) && n + NumRows(t) > 0 && fuel > 0
    ensures o.Stop? ==> o.snapshot == Terminal(t) && Run(t, n, isMin, fuel) == RunResult([o.snapshot], false)
    ensures o.NoFiniteRatio? ==> UnboundedAt(t, n, isMin) && Run(t, n, isMin, fuel) == RunResult([], true)
    ensures o.Advance? ==>
      && RecordsPivot(o.snapshot, n, isMin) && o.snapshot.table == t && o.next == After(o.snapshot)
      && Shaped(o.next, n) && NumRows(o.next) == NumRows(t)
      && Run(t, n, isMin, fuel) == Prepend([o.snapshot], Run(o.next, n, isMin, fuel - 1))
  {
    o := Step(t, n, isMin);
    RunUnfold(t, n, isMin, fuel);
    if o.Stop? {
      StepStops(t, n, isMin);
    } else if o.NoFiniteRatio? {
      StepUnbounded(t, n, isMin);
    } else {
      StepAdvances(t, n, isMin);
    }
  }

  /** The history of a pass followed by a run. */
  lemma PrependOne(s: Snapshot, r': RunResult)
    ensures var r := Prepend([s], r');
      && r.unbounded == r'.unbounded
      && |r.history| == 1 + |r'.history|
      && r.history[0] == s
      && r.history[1..] == r'.history
      && (r'.history == [] ==> Last(r.history) == s)
      && (r'.history != [] ==> Last(r.history) == Last(r'.history))
  {
    assert Prepend([s], r').history[1..] == r'.history;
  }

  /** Every run starts from its own tableau. */
  lemma RunStart(t: Tableau, n: nat, isMin: bool, fuel: nat)
    requires Shaped(t, n) && n + NumRows(t) > 0
    ensures var h := Run(t, n, isMin, fuel).history; |h| > 0 ==> h[0].table == t
  {
    if fuel > 0 {
      var o := RunShape(t, n, isMin, fuel);
      if o.Advance? {
        PrependOne(o.snapshot, Run(o.next, n, isMin, fuel - 1));
      }
    }
  }

  /** The last entry of a history. */
  function Last(h: seq<Snapshot>): Snapshot
    requires |h| > 0
  {
    h[|h| - 1]
  }

  /** Every entry of `h` holds a canonical tableau with `m` constraint rows. */
  ghost predicate AllValid(h: seq<Snapshot>, n: nat, m: nat)
    decreases |h|
  {
    |h| == 0 || (Valid(h[0].table, n) && NumRows(h[0].table) == m && AllValid(h[1..], n, m))
  }

  lemma AllValidCons(h: seq<Snapshot>, s: Snapshot, rest: seq<Snapshot>, n: nat, m: nat)
    requires |h| == |rest| + 1 && h[0] == s && h[1..] == rest
    requires Valid(s.table, n) && NumRows(s.table) == m && AllValid(rest, n, m)
    ensures AllValid(h, n, m)
  {
  }

  lemma {:induction false} AllValidAt(h: seq<Snapshot>, n: nat, m: nat, k: nat)
    requires AllValid(h, n, m) && k < |h|
    ensures Valid(h[k].table, n) && NumRows(h[k].table) == m
    decreases k
  {
    if k > 0 {
      AllValidAt(h[1..], n, m, k - 1);
    }
  }

  lemma AllValidEvery(h: seq<Snapshot>, n: nat, m: nat)
    requires AllValid(h, n, m)
    ensures forall k :: 0 <= k < |h| ==> Valid(h[k].table, n) && NumRows(h[k].table) == m
  {
    forall k | 0 <= k < |h|
      ensures Valid(h[k].table, n) && NumRows(h[k].table) == m
    {
      AllValidAt(h, n, m, k);
    }
  }

  /** A run from a canonical tableau passes only canonical tableaux of the
      same size. */
  lemma {:induction false} RunAllValid(t: Tableau, n: nat, isMin: bool, fuel: nat)
    requires Valid(t, n) && n + NumRows(t) > 0
    ensures AllValid(Run(t, n, isMin, fuel).history, n, NumRows(t))
    decreases fuel
  {
    if fuel > 0 {
      var o := RunHead(t, n, isMin, fuel);
      var h := Run(t, n, isMin, fuel).history;
      if o.Advance? {
        var r' := Run(o.next, n, isMin, fuel - 1);
        PrependOne(o.snapshot, r');
        RunAllValid(o.next, n, isMin, fuel - 1);
        AllValidCons(h, o.snapshot, r'.history, n, NumRows(t));
      } else if o.Stop? {
        AllValidCons(h, o.snapshot, [], n, NumRows(t));
      }
    }
  }

  /** Every tableau a run from a canonical tableau passes is canonical and
      of the starting size. */
  lemma RunValid(t: Tableau, n: nat, isMin: bool, fuel: nat)
    requires Valid(t, n) && n + NumRows(t) > 0
    ensures var h := Run(t, n, isMin, fuel).history;
      forall k :: 0 <= k < |h| ==> Valid(h[k].table, n) && NumRows(h[k].table) == NumRows(t)
  {
    RunAllValid(t, n, isMin, fuel);
    AllValidEvery(Run(t, n, isMin, fuel).history, n, NumRows(t));
  }

  lemma AllValidLast(h: seq<Snapshot>, n: nat, m: nat)
    requires AllValid(h, n, m) && h != []
    ensures Valid(Last(h).table, n) && NumRows(Last(h).table) == m
  {
    AllValidAt(h, n, m, |h| - 1);
  }

  /** The last entry of a run from a canonical tableau is canonical. */
  lemma RunLastValid(t: Tableau, n: nat, isMin: bool, fuel: nat)
    requires Valid(t, n) && n + NumRows(t) > 0
    ensures var h := Run(t, n, isMin, fuel).history;
      h != [] ==> Valid(Last(h).table, n) && NumRows(Last(h).table) == NumRows(t)
  {
    var h := Run(t, n, isMin, fuel).history;
    RunAllValid(t, n, isMin, fuel);
    if h != [] {
      AllValidLast(h, n, NumRows(t));
    }
  }

  /** Every entry of `h` but the last is a recorded pivot whose successor
      entry holds the tableau the pivot produces. */
  ghost predicate Linked(h: seq<Snapshot>, n: nat, isMin: bool)
    decreases |h|
  {
    |h| <= 1 || (RecordsPivot(h[0], n, isMin) && h[1].table == After(h[0]) && Linked(h[1..], n, isMin))
  }

  lemma LinkedCons(h: seq<Snapshot>, s: Snapshot, rest: seq<Snapshot>, n: nat, isMin: bool)
    requires |h| == |rest| + 1 && h[0] == s && h[1..] == rest
    requires RecordsPivot(s, n, isMin) && Linked(rest, n, isMin)
    requires rest != [] ==> rest[0].table == After(s)
    ensures Linked(h, n, isMin)
  {
    if rest != [] {
      assert h[1] == rest[0];
    }
  }

  lemma LinkedPrepend(s: Snapshot, r': RunResult, n: nat, isMin: bool)
    requires RecordsPivot(s, n, isMin) && Linked(r'.history, n, isMin)
    requires r'.history != [] ==> r'.history[0].table == After(s)
    ensures Linked(Prepend([s], r').history, n, isMin)
  {
    PrependOne(s, r');
    LinkedCons(Prepend([s], r').history, s, r'.history, n, isMin);
  }

  lemma {:induction false} LinkedAt(h: seq<Snapshot>, n: nat, isMin: bool, k: nat)
    requires Linked(h, n, isMin) && k < |h| - 1
    ensures RecordsPivot(h[k], n, isMin) && h[k + 1].table == After(h[k])
    decreases k
  {
    if k > 0 {
      LinkedAt(h[1..], n, isMin, k - 1);
    }
  }

  lemma LinkedEvery(h: seq<Snapshot>, n: nat, isMin: bool)
    requires Linked(h, n, isMin)
    ensures forall k :: 0 <= k < |h| - 1 ==> RecordsPivot(h[k], n, isMin) && h[k + 1].table == After(h[k])
  {
    forall k | 0 <= k < |h| - 1
      ensures RecordsPivot(h[k], n, isMin) && h[k + 1].table == After(h[k])
    {
      LinkedAt(h, n, isMin, k);
    }
  }

  lemma {:induction false} RunLinked(t: Tableau, n: nat, isMin: bool, fuel: nat)
    requires Shaped(t, n) && n + NumRows(t) > 0
    ensures Linked(Run(t, n, isMin, fuel).history, n, isMin)
    decreases fuel
  {
    if fuel > 0 {
      var o := RunHeadRecords(t, n, isMin, fuel);
      if o.Advance? {
        RunLinked(o.next, n, isMin, fuel - 1);
        RunStart(o.next, n, isMin, fuel - 1);
        LinkedPrepend(o.snapshot, Run(o.next, n, isMin, fuel - 1), n, isMin);
      }
    }
  }

  /** Every entry of a run but the last is a recorded pivot, and the entry
      after it holds the tableau that pivot produces. */
  lemma RunLinks(t: Tableau, n: nat, isMin: bool, fuel: nat)
    requires Shaped(t, n) && n + NumRows(t) > 0
    ensures var h := Run(t, n, isMin, fuel).history;
      forall k :: 0 <= k < |h| - 1 ==> RecordsPivot(h[k], n, isMin) && h[k + 1].table == After(h[k])
  {
    RunLinked(t, n, isMin, fuel);
    LinkedEvery(Run(t, n, isMin, fuel).history, n, isMin);
  }

  /** A terminal last entry closes a run that is not unbounded, at a
      tableau that passes the optimality test. */
  ghost predicate EndsOptimal(r: RunResult, n: nat, isMin: bool)
  {
    |r.history| > 0 && Last(r.history).Terminal? ==>
      var u := Last(r.history).table;
      !r.unbounded && Shaped(u, n) && n + NumRows(u) > 0 && OptimalTest(ZRow(u), isMin)
  }

  /** A terminal entry can only be the last one of a run, and it passes the
      optimality test. */
  lemma {:induction false} RunEndsOptimal(t: Tableau, n: nat, isMin: bool, fuel: nat)
    requires Shaped(t, n) && n + NumRows(t) > 0
    ensures EndsOptimal(Run(t, n, isMin, fuel), n, isMin)
    decreases fuel
  {
    if fuel > 0 {
      var o := RunHead(t, n, isMin, fuel);
      if o.Advance? {
        var r' := Run(o.next, n, isMin, fuel - 1);
        PrependOne(o.snapshot, r');
        RunEndsOptimal(o.next, n, isMin, fuel - 1);
      }
    }
  }

  /** A run that is not unbounded and did not use all its fuel ends at a
      terminal entry. */
  ghost predicate EndsTerminal(r: RunResult, fuel: nat)
  {
    !r.unbounded && |r.history| < fuel ==> |r.history| > 0 && Last(r.history).Terminal?
  }

  lemma {:induction false} RunEndsTerminal(t: Tableau, n: nat, isMin: bool, fuel: nat)
    requires Shaped(t, n) && n + NumRows(t) > 0
    ensures EndsTerminal(Run(t, n, isMin, fuel), fuel)
    decreases fuel
  {
    if fuel > 0 {
      var o := RunShape(t, n, isMin, fuel);
      if o.Advance? {
        var r' := Run(o.next, n, isMin, fuel - 1);
        PrependOne(o.snapshot, r');
        RunEndsTerminal(o.next, n, isMin, fuel - 1);
      }
    }
  }

  /** A last entry that is a pivot is a recorded pivot. */
  ghost predicate EndsRecorded(h: seq<Snapshot>, n: nat, isMin: bool)
  {
    |h| > 0 && Last(h).PivotStep? ==> RecordsPivot(Last(h), n, isMin)
  }

  lemma EndsRecordedPrepend(s: Snapshot, r': RunResult, r: RunResult, n: nat, isMin: bool)
    requires r == Prepend([s], r')
    requires RecordsPivot(s, n, isMin) && EndsRecorded(r'.history, n, isMin)
    ensures EndsRecorded(r.history, n, isMin)
  {
    PrependOne(s, r');
  }

  lemma {:induction false} RunLastRecorded(t: Tableau, n: nat, isMin: bool, fuel: nat)
    requires Shaped(t, n) && n + NumRows(t) > 0
    ensures EndsRecorded(Run(t, n, isMin, fuel).history, n, isMin)
    decreases fuel
  {
    if fuel > 0 {
      var o := RunHeadRecords(t, n, isMin, fuel);
      if o.Advance? {
        RunLastRecorded(o.next, n, isMin, fuel - 1);
        EndsRecordedPrepend(o.snapshot, Run(o.next, n, isMin, fuel - 1), Run(t, n, isMin, fuel), n, isMin);
      }
    }
  }

  /** Unless the ratio test cut the run short, a run whose last entry is a
      pivot used all its fuel. */
  ghost predicate PivotEndsAtCap(r: RunResult, fuel: nat)
  {
    |r.history| > 0 && Last(r.history).PivotStep? && !r.unbounded ==> |r.history| == fuel
  }

  lemma {:induction false} RunEndsAtCap(t: Tableau, n: nat, isMin: bool, fuel: nat)
    requires Shaped(t, n) && n + NumRows(t) > 0
    ensures PivotEndsAtCap(Run(t, n, isMin, fuel), fuel)
    decreases fuel
  {
    if fuel > 0 {
      var o := RunShape(t, n, isMin, fuel);
      if o.Advance? {
        var r' := Run(o.next, n, isMin, fuel - 1);
        PrependOne(o.snapshot, r');
        RunEndsAtCap(o.next, n, isMin, fuel - 1);
      }
    }
  }

  /** The tableau is not optimal and its ratio column is infinite in every
      constraint row: the situation the source reports as unbounded. */
  ghost predicate UnboundedAt(u: Tableau, n: nat, isMin: bool)
  {
    && Shaped(u, n) && n + NumRows(u) > 0
    && !OptimalTest(ZRow(u), isMin)
    && forall i :: 0 <= i < NumRows(u) ==> Ratios(u, EnteringColumn(ZRow(u), isMin))[i] == PosInf
  }

  /** An unbounded run stops where the ratio test finds no finite ratio:
      at the starting tableau when it records nothing, otherwise at the one
      its last recorded pivot produces. */
  ghost predicate EndsUnbounded(t: Tableau, r: RunResult, n: nat, isMin: bool)
  {
    && (r.unbounded && r.history == [] ==> UnboundedAt(t, n, isMin))
    && (r.unbounded && r.history != [] ==>
          RecordsPivot(Last(r.history), n, isMin) && UnboundedAt(After(Last(r.history)), n, isMin))
  }

  lemma {:induction false} RunEndsUnbounded(t: Tableau, n: nat, isMin: bool, fuel: nat)
    requires Shaped(t, n) && n + NumRows(t) > 0
    ensures EndsUnbounded(t, Run(t, n, isMin, fuel), n, isMin)
    decreases fuel
  {
    if fuel > 0 {
      var o := RunHeadRecords(t, n, isMin, fuel);
      if o.Advance? {
        var r' := Run(o.next, n, isMin, fuel - 1);
        PrependOne(o.snapshot, r');
        RunEndsUnbounded(o.next, n, isMin, fuel - 1);
      }
    }
  }

  /** `calculate_simplex` fails with the calculation error exactly when the
      problem has no variables and no constraints, and fails as unbounded
      exactly when its run stops at a ratio test with no finite ratio. */
  lemma SimplexFailures(raw: seq<seq<real>>, operation: string, numVars: nat)
    requires RawShaped(raw) && numVars == |raw[0]| - 1
    ensures var o := Simplex(raw, operation, numVars);
      && (o == Failed(CalculationError) <==> numVars + (|raw| - 1) == 0)
      && (o == Failed(Unbounded) <==>
            numVars + (|raw| - 1) > 0 && Run(InitialTableau(raw), numVars, operation == Minimize, MaxIter).unbounded)
  {
  }

  /** The history of a solved run: between 1 and 100 snapshots, the first
      of the starting tableau, every one but the last a recorded pivot
      leading to the next, and the last either a terminal snapshot that
      passes the optimality test or, after exactly 100 pivots, a recorded
      pivot whose result was never shown. */
  ghost predicate SolvedHistory(h: seq<Snapshot>, t0: Tableau, n: nat, isMin: bool)
  {
    && 1 <= |h| <= MaxIter
    && h[0].table == t0
    && (forall k :: 0 <= k < |h| - 1 ==> RecordsPivot(h[k], n, isMin) && h[k + 1].table == After(h[k]))
    && (Last(h).Terminal? ==>
          Shaped(Last(h).table, n) && n + NumRows(Last(h).table) > 0 && OptimalTest(ZRow(Last(h).table), isMin))
    && (Last(h).PivotStep? ==> RecordsPivot(Last(h), n, isMin) && |h| == MaxIter)
  }

  lemma SolvedHistoryOfRun(r: RunResult, t0: Tableau, n: nat, isMin: bool)
    requires !r.unbounded && 1 <= |r.history| <= MaxIter && r.history[0].table == t0
    requires forall k :: 0 <= k < |r.history| - 1 ==>
      RecordsPivot(r.history[k], n, isMin) && r.history[k + 1].table == After(r.history[k])
    requires EndsOptimal(r, n, isMin) && EndsTerminal(r, MaxIter)
    requires EndsRecorded(r.history, n, isMin) && PivotEndsAtCap(r, MaxIter)
    ensures SolvedHistory(r.history, t0, n, isMin)
  {
  }

  /** A solved problem's history is a solved run of the loop from the
      starting tableau, and its headers are X1..X(N+M) and the solution
      column. */
  lemma SolveHistory(t0: Tableau, n: nat, isMin: bool)
    requires Valid(t0, n)
    ensures var o := Solve(t0, n, isMin);
      o.Solved? ==>
        && SolvedHistory(o.history, t0, n, isMin)
        && (forall k :: 0 <= k < |o.history| ==> NumRows(o.history[k].table) == NumRows(t0))
        && o.headers == Headers(n, NumRows(t0))
  {
    if n + NumRows(t0) > 0 {
      var r := Run(t0, n, isMin, MaxIter);
      RunValid(t0, n, isMin, MaxIter);
      RunStart(t0, n, isMin, MaxIter);
      RunLinks(t0, n, isMin, MaxIter);
      RunEndsOptimal(t0, n, isMin, MaxIter);
      RunEndsTerminal(t0, n, isMin, MaxIter);
      RunLastRecorded(t0, n, isMin, MaxIter);
      RunEndsAtCap(t0, n, isMin, MaxIter);
      if !r.unbounded {
        SolvedHistoryOfRun(r, t0, n, isMin);
      }
    }
  }

  /** The last snapshot of a solved problem holds a canonical tableau of the
      starting size, and the outputs are read from it. */
  lemma SolveLast(t0: Tableau, n: nat, isMin: bool)
    requires Valid(t0, n)
    ensures var o := Solve(t0, n, isMin);
      o.Solved? ==>
        var last := Last(o.history).table;
        && Valid(last, n) && NumRows(last) == NumRows(t0) && DistinctLabels(last.labels)
        && o.finalZ == Rhs(last, 0)
        && o.finalVars == FinalVarsUpTo(last, |last.rows|)
  {
    if n + NumRows(t0) > 0 {
      RunLastValid(t0, n, isMin, MaxIter);
      var h := Run(t0, n, isMin, MaxIter).history;
      if h != [] {
        ValidHasDistinctLabels(Last(h).table, n);
      }
    }
  }

  /** The read-out of a solved problem: the objective value is the RHS of
      the objective row of the last snapshot, and the final variables map
      the label of every constraint row of that snapshot, and nothing else,
      to its RHS. */
  lemma SolveReadOut(t0: Tableau, n: nat, isMin: bool)
    requires Valid(t0, n)
    ensures var o := Solve(t0, n, isMin);
      o.Solved? ==>
        var last := Last(o.history).table;
        && Valid(last, n) && NumRows(last) == NumRows(t0)
        && o.finalZ == Rhs(last, 0)
        && (forall r :: 1 <= r < |last.rows| ==> last.labels[r] in o.finalVars && o.finalVars[last.labels[r]] == Rhs(last, r))
        && (forall l :: l in o.finalVars ==> exists r :: 1 <= r < |last.rows| && last.labels[r] == l)
  {
    var o := Solve(t0, n, isMin);
    SolveLast(t0, n, isMin);
    if o.Solved? {
      FinalVarsOfValid(Last(o.history).table, n);
    }
  }

  /** A solved problem's history starts at the initial tableau of the packed
      matrix, and every snapshot holds M constraint rows. */
  lemma SimplexHistory(raw: seq<seq<real>>, operation: string, numVars: nat)
    requires RawShaped(raw) && numVars == |raw[0]| - 1
    ensures var o := Simplex(raw, operation, numVars);
      o.Solved? ==>
        && SolvedHistory(o.history, InitialTableau(raw), numVars, operation == Minimize)
        && o.headers == Headers(numVars, |raw| - 1)
        && forall k :: 0 <= k < |o.history| ==> NumRows(o.history[k].table) == |raw| - 1
  {
    var t0 := InitialTableau(raw);
    var isMin := operation == Minimize;
    SolveHistory(t0, numVars, isMin);
  }

  /** Lines 165-167 on a canonical tableau: exactly the constraint-row
      labels become keys, each mapped to its row's RHS. */
  lemma FinalVarsOfValid(t: Tableau, n: nat)
    requires Valid(t, n) && DistinctLabels(t.labels)
    ensures var m := FinalVarsUpTo(t, |t.rows|);
      && (forall r :: 1 <= r < |t.rows| ==> t.labels[r] in m && m[t.labels[r]] == Rhs(t, r))
      && (forall l :: l in m ==> exists r :: 1 <= r < |t.rows| && t.labels[r] == l)
  {
    var m := FinalVarsUpTo(t, |t.rows|);
    FinalVarsUpToKeys(t, |t.rows|);
    forall r | 1 <= r < |t.rows| ensures t.labels[r] != E {
    }
  }

  /** A non-negative RHS stays non-negative when a non-negative multiple
      theta of the pivot row is subtracted, if the row's pivot-column entry
      a is not positive, or, being positive, its ratio is at least theta. */
  lemma RhsStaysNonNegative(rhs: real, a: real, theta: real)
    requires rhs >= 0.0 && theta >= 0.0
    requires a <= 0.0 || (a > 0.0 && theta <= rhs / a)
    ensures rhs - a * theta >= 0.0
  {
    if a > 0.0 {
      assert a * theta <= a * (rhs / a);
    }
  }

  /** One constraint row of the feasibility argument below: its new RHS is
      its old RHS minus its pivot-column entry times the leaving ratio. */
  lemma PivotRowStaysFeasible(rows: seq<seq<real>>, pr: nat, pc: nat, i: nat)
    requires pr < |rows| && |rows[pr]| >= 1
    requires forall i :: 0 <= i < |rows| ==> |rows[i]| == |rows[pr]|
    requires pc < |rows[pr]| && rows[pr][pc] > 0.0
    requires i < |rows|
    requires var last := |rows[pr]| - 1;
      && rows[pr][last] >= 0.0 && rows[i][last] >= 0.0
      && (rows[i][pc] <= 0.0 || (rows[i][pc] > 0.0 && rows[pr][last] / rows[pr][pc] <= rows[i][last] / rows[i][pc]))
    ensures var p := PivotRows(rows, pr, pc); p[i][|p[i]| - 1] >= 0.0
  {
    var last := |rows[pr]| - 1;
    var theta := rows[pr][last] / rows[pr][pc];
    PivotRowsEntry(rows, pr, pc, i, last);
    if i == pr {
      assert theta >= 0.0;
    } else {
      RhsStaysNonNegative(rows[i][last], rows[i][pc], theta);
    }
  }

  /** The leaving row's ratio is the least one: no lower than that of any
      row whose pivot-column entry exceeds 1e-9; its pivot element exceeds
      1e-9 too. */
  lemma LeavingRatioIsLeast(t: Tableau, n: nat, pr: nat, pc: nat, i: nat)
    requires Shaped(t, n) && 1 <= pr < |t.rows| && pc < n + NumRows(t)
    requires LeavingIndex(Ratios(t, pc)) == Some(pr - 1)
    requires 1 <= i < |t.rows|
    ensures t.rows[pr][pc] > Eps
    ensures t.rows[i][pc] > Eps ==> Rhs(t, pr) / t.rows[pr][pc] <= Rhs(t, i) / t.rows[i][pc]
  {
    var rs := Ratios(t, pc);
    LeavingIndexProps(rs);
    RatiosAt(t, pc, pr - 1);
    RatiosAt(t, pc, i - 1);
  }

  /** The ratio test protects feasibility: when every constraint RHS is
      non-negative before the pivot, afterwards every row whose pivot-column
      entry is at most 0 or above 1e-9 still has a non-negative RHS. (Rows
      with an entry in (0, 1e-9] take no part in the ratio test and are not
      protected.) */
  lemma PivotKeepsFeasibility(t: Tableau, n: nat, pr: nat, pc: nat)
    requires Shaped(t, n) && 1 <= pr < |t.rows| && pc < n + NumRows(t)
    requires LeavingIndex(Ratios(t, pc)) == Some(pr - 1)
    requires forall i :: 1 <= i < |t.rows| ==> Rhs(t, i) >= 0.0
    ensures t.rows[pr][pc] > Eps
    ensures var p := PivotRows(t.rows, pr, pc);
      forall i :: 1 <= i < |t.rows| && (t.rows[i][pc] <= 0.0 || t.rows[i][pc] > Eps) ==>
        p[i][|p[i]| - 1] >= 0.0
  {
    LeavingRatioIsLeast(t, n, pr, pc, pr);
    var p := PivotRows(t.rows, pr, pc);
    forall i | 1 <= i < |t.rows| && (t.rows[i][pc] <= 0.0 || t.rows[i][pc] > Eps)
      ensures p[i][|p[i]| - 1] >= 0.0
    {
      LeavingRatioIsLeast(t, n, pr, pc, i);
      assert Rhs(t, i) >= 0.0 && Rhs(t, pr) >= 0.0;
      PivotRowStaysFeasible(t.rows, pr, pc, i);
    }
  }

  /** Lines 153-158: the new dictionary built from the old keys and the
      pivoted rows, assigning the entering variable at the pivot row. */
  function Put(d: Tableau, k: Label, v: seq<real>): (d': Tableau)
    requires |d.labels| == |d.rows|
  {
    if k in d.labels then Tableau(d.labels, d.rows[IndexOf(d.labels, k) := v])
    else Tableau(d.labels + [k], d.rows + [v])
  }

  /** Rebuilding the dictionary keeps every row in place and relabels only the
      pivot row, because the entering label is not already a key (when it
      is, a Python dictionary would overwrite an earlier row and lose one). */
  method RebuildDict(oldKeys: seq<Label>, newTable: seq<seq<real>>, pr: nat, entering: Label)
    returns (d: Tableau)
    requires |oldKeys| == |newTable| && pr < |oldKeys|
    requires DistinctLabels(oldKeys) && entering !in oldKeys
    ensures d == Tableau(oldKeys[pr := entering], newTable)
  {
    d := Tableau([], []);
    var i := 0;
    while i < |newTable|
      invariant 0 <= i <= |newTable|
      invariant d.rows == newTable[..i]
      invariant |d.labels| == i
      invariant forall j :: 0 <= j < i ==> d.labels[j] == if j == pr then entering else oldKeys[j]
    {
      var key := if i == pr then entering else oldKeys[i];
      assert key !in d.labels by {
        forall j | 0 <= j < i ensures d.labels[j] != key {
          if j != pr && i != pr { assert oldKeys[j] != oldKeys[i]; }
        }
      }
      d := Put(d, key, newTable[i]);
      i := i + 1;
    }
    assert d.labels == oldKeys[pr := entering];
  }

  /** One pass of the loop body of lines 90-162 on the current tableau. */
  method Pass(curr: Tableau, n: nat, isMin: bool) returns (o: StepOutcome)
    requires Valid(curr, n) && n + NumRows(curr) > 0
    ensures o == Step(curr, n, isMin)
  {
    StepStops(curr, n, isMin);
    var z := ZRow(curr);
    var isOptimal := false;
    if isMin {
      if Max(z) <= Eps { isOptimal := true; }
    } else {
      if Min(z) >= -Eps { isOptimal := true; }
    }
    if isOptimal {
      return Stop(Terminal(curr));
    }
    var limit := if isMin then Max(z) else Min(z);
    var pc := IndexOf(z, limit);
    assert pc == EnteringColumn(z, isMin);
    var ratios := ComputeRatios(curr, pc);
    var validRatios := FiniteValues(ratios);
    if validRatios == [] {
      StepNoFinite(curr, n, isMin);
      return NoFiniteRatio;
    }
    StepPivots(curr, n, isMin);
    var minR := Min(validRatios);
    FiniteValuesMembers(ratios);
    var ratioIdx := IndexOf(ratios, Finite(minR));
    assert Some(ratioIdx) == LeavingIndex(ratios);
    var pivotRow := ratioIdx + 1;
    var entering := X(pc + 1);
    var leaving := curr.labels[pivotRow];
    var snap := PivotStep(curr, pc, pivotRow, ratios, entering, leaving);
    var newTable := PivotRows(curr.rows, pivotRow, pc);
    ValidHasDistinctLabels(curr, n);
    EnteringIsNonBasic(curr, n, pc);
    var next := RebuildDict(curr.labels, newTable, pivotRow, entering);
    o := Advance(snap, next);
  }

  /** The loop of lines 88-162: at most 100 passes from the initial tableau,
      collecting the history; `unbounded` when a pass found no finite ratio. */
  method Iterate(t0: Tableau, n: nat, isMin: bool) returns (history: seq<Snapshot>, unbounded: bool)
    requires Valid(t0, n) && n + NumRows(t0) > 0
    ensures RunResult(history, unbounded) == Run(t0, n, isMin, MaxIter)
  {
    history := [];
    unbounded := false;
    var counter: nat := 0;
    var curr := t0;
    ghost var whole := Run(t0, n, isMin, MaxIter);
    while counter < MaxIter
      invariant counter <= MaxIter
      invariant Valid(curr, n) && NumRows(curr) == NumRows(t0)
      invariant whole == Prepend(history, Run(curr, n, isMin, MaxIter - counter))
    {
      ghost var fuel := MaxIter - counter;
      RunUnfold(curr, n, isMin, fuel);
      var o := Pass(curr, n, isMin);
      if o.Stop? {
        assert Run(curr, n, isMin, fuel) == RunResult([o.snapshot], false);
        history := history + [o.snapshot];
        return;
      } else if o.NoFiniteRatio? {
        assert Run(curr, n, isMin, fuel) == RunResult([], true);
        assert history + [] == history;
        unbounded := true;
        return;
      }
      AdvanceKeepsValid(curr, n, isMin);
      ghost var rest := Run(o.next, n, isMin, fuel - 1);
      assert Run(curr, n, isMin, fuel) == Prepend([o.snapshot], rest);
      PrependTwice(history, o.snapshot, rest);
      history := history + [o.snapshot];
      curr := o.next;
      counter := counter + 1;
    }
  }

  /** Lines 164-167: the objective value is the RHS of the first row, and
      every other key is mapped to the RHS of its row. */
  method ReadOut(last: Tableau) returns (finalZ: real, finalVars: map<Label, real>)
    requires |last.labels| == |last.rows| && DistinctLabels(last.labels)
    requires |last.rows| >= 1 && forall r :: 0 <= r < |last.rows| ==> |last.rows[r]| >= 1
    ensures finalZ == Rhs(last, 0)
    ensures finalVars == FinalVarsUpTo(last, |last.rows|)
  {
    finalZ := last.rows[0][|last.rows[0]| - 1];
    finalVars := map[];
    var i := 0;
    while i < |last.rows|
      invariant 0 <= i <= |last.rows|
      invariant finalVars == FinalVarsUpTo(last, i)
    {
      assert FinalVarsUpTo(last, i + 1) ==
        if last.labels[i] == E then finalVars else finalVars[last.labels[i] := Rhs(last, i)];
      if last.labels[i] != E {
        finalVars := finalVars[last.labels[i] := Rhs(last, i)];
      }
      i := i + 1;
    }
  }

  /** `calculate_simplex(raw_matrix, operation, num_vars)`. */
  method CalculateSimplex(raw: seq<seq<real>>, operation: string, numVars: nat) returns (out: SimplexOutcome)
    requires RawShaped(raw) && numVars == |raw[0]| - 1
    ensures out == Simplex(raw, operation, numVars)
  {
    var t0 := InitialTableau(raw);
    var m := |raw| - 1;
    var headers := Headers(numVars, m);
    var isMin := operation == Minimize;
    if numVars + m == 0 {
      // max() of the empty objective row raises; the handler reports it
      return Failed(CalculationError);
    }
    var history, unbounded := Iterate(t0, numVars, isMin);
    if unbounded {
      return Failed(Unbounded);
    }
    RunLastValid(t0, numVars, isMin, MaxIter);
    var last := Last(history).table;
    ValidHasDistinctLabels(last, numVars);
    var finalZ, finalVars := ReadOut(last);
    out := Solved(finalZ, history, finalVars, headers);
  }
}
