/** The tableau builder: reading the problem out of the two input tables
    (`get_simplex_data`) and unpacking the packed problem matrix into the
    initial simplex tableau (the first part of `calculate_simplex`). */
module TableauBuilder {
  import opened Common

  /** A basis label: the objective row "E", or "X<k>" for variable k
      (k counts from 1; decision variables come first, then the slacks). */
  datatype Label = E | X(k: nat)

  /** The tableau column that variable X<k> owns. */
  function Col(l: Label): nat
    requires l.X? && l.k >= 1
  {
    l.k - 1
  }

  /** The insertion-ordered dictionary from basis label to row: `labels[r]`
      is the key of `rows[r]`. Each row holds the decision coefficients, the
      slack coefficients and, last, the right-hand side. */
  datatype Tableau = Tableau(labels: seq<Label>, rows: seq<seq<real>>)

  /** The number of constraint rows. */
  function NumRows(t: Tableau): nat
    requires |t.rows| >= 1
  {
    |t.rows| - 1
  }

  /** `n` decision variables: every row has n + M coefficients and a RHS. */
  ghost predicate Shaped(t: Tableau, n: nat)
  {
    && |t.rows| >= 1
    && |t.labels| == |t.rows|
    && forall i :: 0 <= i < |t.rows| ==> |t.rows[i]| == n + |t.rows|
  }

  /** Canonical form with respect to the basis: row 0 is "E", every other row
      is labelled by a variable, and the column of the variable labelling row
      r is the unit vector with its 1 in row r (objective row included). */
  ghost predicate Valid(t: Tableau, n: nat)
  {
    && Shaped(t, n)
    && t.labels[0] == E
    && (forall r :: 1 <= r < |t.rows| ==> t.labels[r].X? && 1 <= t.labels[r].k <= n + NumRows(t))
    && (forall r, i :: 1 <= r < |t.rows| && 0 <= i < |t.rows| ==>
          t.rows[i][Col(t.labels[r])] == if i == r then 1.0 else 0.0)
  }

  /** The labels are pairwise distinct (a dictionary cannot hold one twice). */
  ghost predicate DistinctLabels(labels: seq<Label>)
  {
    forall r, s :: 0 <= r < s < |labels| ==> labels[r] != labels[s]
  }

  /** Canonical form forces distinct basis labels: two rows with one label
      would need that label's column to be 1 and 0 in the same row. */
  lemma ValidHasDistinctLabels(t: Tableau, n: nat)
    requires Valid(t, n)
    ensures DistinctLabels(t.labels)
  {
    forall r, s | 0 <= r < s < |t.labels|
      ensures t.labels[r] != t.labels[s]
    {
      if r > 0 {
        assert t.rows[r][Col(t.labels[r])] == 1.0;
        assert t.rows[r][Col(t.labels[s])] == 0.0;
      }
    }
  }

  // ---------------------------------------------------------------------
  // get_simplex_data: reading the two tables
  // ---------------------------------------------------------------------

  /** The packed problem: row 0 is [0, c_1..c_N], row i is [b_i, a_i1..a_iN];
      also the RHS list and the objective coefficients on their own. */
  datatype SimplexData = SimplexData(matrix: seq<seq<real>>, rhs: seq<real>, objCoeffs: seq<real>)

  /** Why the tables could not be read: float() rejected a cell, numpy could
      not concatenate an empty constraint list with its RHS column, or numpy
      could not stack an objective row of another width on the constraints. */
  datatype DataError = UnparsableCell | NoConstraints | WidthMismatch

  /** The objective cells that are read: all but the last two columns. */
  predicate ObjectiveReadable(objective: seq<Cell>)
  {
    forall j :: 0 <= j < |objective| - 2 ==> !objective[j].Unparsable?
  }

  /** The cells of one constraint row that are read: the coefficients
      (all but the last two columns) and the RHS (the last column); the
      relation-sign column is not read. */
  predicate RowReadable(row: seq<Cell>)
    requires |row| >= 2
  {
    && !row[|row| - 1].Unparsable?
    && forall j :: 0 <= j < |row| - 2 ==> !row[j].Unparsable?
  }

  predicate TableReadable(table: seq<seq<Cell>>, cols: nat)
    requires cols >= 2 && forall i :: 0 <= i < |table| ==> |table[i]| == cols
  {
    forall i :: 0 <= i < |table| ==> RowReadable(table[i])
  }

  /** `get_simplex_data` on already-split cells: `objective` is row 0 of the
      objective table, `table` the constraint table with `cols` columns. */
  method GetSimplexData(objective: seq<Cell>, table: seq<seq<Cell>>, cols: nat)
    returns (r: Result<SimplexData, DataError>)
    requires |objective| >= 2 && cols >= 2
    requires forall i :: 0 <= i < |table| ==> |table[i]| == cols
    ensures r == Failure(UnparsableCell) <==> !ObjectiveReadable(objective) || !TableReadable(table, cols)
    ensures r == Failure(NoConstraints) <==>
      ObjectiveReadable(objective) && TableReadable(table, cols) && |table| == 0
    ensures r == Failure(WidthMismatch) <==>
      ObjectiveReadable(objective) && TableReadable(table, cols) && |table| > 0 && |objective| != cols
    ensures r.Success? ==>
      var m := r.value.matrix;
      && |m| == |table| + 1
      && (forall i :: 0 <= i < |m| ==> |m[i]| == cols - 1)
      && m[0][0] == 0.0
      && (forall j :: 0 <= j < cols - 2 ==> m[0][j + 1] == CellValue(objective[j]))
      && (forall i :: 0 <= i < |table| ==> m[i + 1][0] == CellValue(table[i][cols - 1]))
      && (forall i, j :: 0 <= i < |table| && 0 <= j < cols - 2 ==> m[i + 1][j + 1] == CellValue(table[i][j]))
      && r.value.rhs == seq(|table|, i requires 0 <= i < |table| => m[i + 1][0])
      && r.value.objCoeffs == m[0][1..]
  {
    var objCols := |objective| - 2;
    var objCoeffs: seq<real> := [];
    var j := 0;
    while j < objCols
      invariant 0 <= j <= objCols
      invariant |objCoeffs| == j
      invariant forall q :: 0 <= q < j ==> !objective[q].Unparsable? && objCoeffs[q] == CellValue(objective[q])
    {
      if objective[j].Unparsable? {
        return Failure(UnparsableCell);
      }
      objCoeffs := objCoeffs + [CellValue(objective[j])];
      j := j + 1;
    }

    var rhsList: seq<real> := [];
    var coeffMatrix: seq<seq<real>> := [];
    var i := 0;
    while i < |table|
      invariant 0 <= i <= |table|
      invariant |rhsList| == i && |coeffMatrix| == i
      invariant forall p :: 0 <= p < i ==> RowReadable(table[p])
      invariant forall p :: 0 <= p < i ==> rhsList[p] == CellValue(table[p][cols - 1])
      invariant forall p :: 0 <= p < i ==> |coeffMatrix[p]| == cols - 2
      invariant forall p, q :: 0 <= p < i && 0 <= q < cols - 2 ==> coeffMatrix[p][q] == CellValue(table[p][q])
    {
      if table[i][cols - 1].Unparsable? {
        return Failure(UnparsableCell);
      }
      rhsList := rhsList + [CellValue(table[i][cols - 1])];
      var rowCoeffs: seq<real> := [];
      j := 0;
      while j < cols - 2
        invariant 0 <= j <= cols - 2
        invariant |rowCoeffs| == j
        invariant forall q :: 0 <= q < j ==> !table[i][q].Unparsable? && rowCoeffs[q] == CellValue(table[i][q])
      {
        if table[i][j].Unparsable? {
          return Failure(UnparsableCell);
        }
        rowCoeffs := rowCoeffs + [CellValue(table[i][j])];
        j := j + 1;
      }
      coeffMatrix := coeffMatrix + [rowCoeffs];
      i := i + 1;
    }

    if |table| == 0 {
      return Failure(NoConstraints);
    }
    if objCols != cols - 2 {
      return Failure(WidthMismatch);
    }
    var body := seq(|table|, p requires 0 <= p < |table| => [rhsList[p]] + coeffMatrix[p]);
    var matrix := [[0.0] + objCoeffs] + body;
    r := Success(SimplexData(matrix, rhsList, objCoeffs));
  }

  // ---------------------------------------------------------------------
  // calculate_simplex, lines 43-77: unpacking into the initial tableau
  // ---------------------------------------------------------------------

  /** A packed problem matrix: M+1 rows of N+1 entries each. */
  ghost predicate RawShaped(raw: seq<seq<real>>)
  {
    |raw| >= 1 && |raw[0]| >= 1 && forall i :: 0 <= i < |raw| ==> |raw[i]| == |raw[0]|
  }

  /** numpy's `identity(n)`. */
  function Identity(n: nat): (m: seq<seq<real>>)
    ensures |m| == n
    ensures forall i :: 0 <= i < n ==> |m[i]| == n
  {
    seq(n, i => seq(n, j => if i == j then 1.0 else 0.0))
  }

  /** numpy's `flip` over both axes. */
  function Flip(m: seq<seq<real>>): seq<seq<real>>
  {
    Reverse(seq(|m|, i requires 0 <= i < |m| => Reverse(m[i])))
  }

  /** Row i of `weird` in lines 54-59: the reversed coefficient part of the
      flipped row i, then the reversed identity's row i (zeros for the last
      row, which is the objective) and the flipped row's last entry (0 for
      the objective). */
  function WeirdRowOf(tab: seq<seq<real>>, i: nat): seq<real>
    requires i < |tab| && |tab[i]| >= 1
  {
    var rows := |tab|;
    var lrow := tab[i][..|tab[i]| - 1];
    if i == rows - 1 then Reverse(lrow) + Zeros(rows - 1) + [0.0]
    else Reverse(lrow) + Reverse(Identity(rows - 1))[i] + [tab[i][|tab[i]| - 1]]
  }

  /** Lines 43-65 as written: flip the packed matrix, split off the RHS,
      re-reverse each row, append the reversed identity block (zeros for the
      objective row), reverse the rows back and negate the objective row. */
  function FlipConstruction(raw: seq<seq<real>>): (w: seq<seq<real>>)
    requires RawShaped(raw)
  {
    var tab := Flip(raw);
    var weird := seq(|tab|, i requires 0 <= i < |tab| => WeirdRowOf(tab, i));
    var back := Reverse(weird);
    back[0 := Negate(back[0])]
  }

  /** The layout that the flip construction produces, for N decision
      variables and M constraints: the objective row is [-c, 0..0, 0], and
      constraint row i is [a_i, e_i, b_i] with e_i the i-th unit vector. */
  ghost predicate InitialLayout(raw: seq<seq<real>>, w: seq<seq<real>>)
    requires RawShaped(raw)
  {
    var n := |raw[0]| - 1;
    var m := |raw| - 1;
    && |w| == m + 1
    && (forall i :: 0 <= i <= m ==> |w[i]| == n + m + 1)
    && (forall k :: 0 <= k < n ==> w[0][k] == -raw[0][k + 1])
    && (forall k :: n <= k <= n + m ==> w[0][k] == 0.0)
    && (forall i, k :: 1 <= i <= m && 0 <= k < n ==> w[i][k] == raw[i][k + 1])
    && (forall i, k :: 1 <= i <= m && n <= k < n + m ==> w[i][k] == if k - n == i - 1 then 1.0 else 0.0)
    && (forall i :: 1 <= i <= m ==> w[i][n + m] == raw[i][0])
  }

  /** Row i-1 of the M x M identity, as a unit vector of length m. */
  function UnitRow(m: nat, q: nat): (e: seq<real>)
    ensures |e| == m
    ensures forall k :: 0 <= k < m ==> e[k] == if k == q then 1.0 else 0.0
  {
    seq(m, k => if k == q then 1.0 else 0.0)
  }

  /** The layout row by row: the objective row and each constraint row as
      concatenations of the pieces of the packed matrix. */
  ghost predicate InitialRows(raw: seq<seq<real>>, w: seq<seq<real>>)
    requires RawShaped(raw)
  {
    var m := |raw| - 1;
    && |w| == m + 1
    && w[0] == Negate(raw[0][1..] + Zeros(m) + [0.0])
    && forall i :: 1 <= i <= m ==> w[i] == raw[i][1..] + UnitRow(m, i - 1) + [raw[i][0]]
  }

  /** Row i of the flipped matrix is row M - i of the packed one, reversed. */
  lemma FlipRow(raw: seq<seq<real>>, i: nat)
    requires RawShaped(raw) && i < |raw|
    ensures |Flip(raw)| == |raw|
    ensures Flip(raw)[i] == Reverse(raw[|raw| - 1 - i])
  {
  }

  /** The objective row of the flip construction is [-c, 0..0, 0]. */
  lemma FlipObjectiveRow(raw: seq<seq<real>>)
    requires RawShaped(raw)
    ensures |FlipConstruction(raw)| == |raw|
    ensures FlipConstruction(raw)[0] == Negate(raw[0][1..] + Zeros(|raw| - 1) + [0.0])
  {
    var m := |raw| - 1;
    var tab := Flip(raw);
    FlipRow(raw, m);
    var lrow := tab[m][..|tab[m]| - 1];
    assert Reverse(lrow) == raw[0][1..];
    assert WeirdRowOf(tab, m) == raw[0][1..] + Zeros(m) + [0.0];
  }

  /** Constraint row i of the flip construction is [a_i, e_i, b_i]. */
  lemma FlipConstraintRow(raw: seq<seq<real>>, i: nat)
    requires RawShaped(raw) && 1 <= i < |raw|
    ensures |FlipConstruction(raw)| == |raw|
    ensures FlipConstruction(raw)[i] == raw[i][1..] + UnitRow(|raw| - 1, i - 1) + [raw[i][0]]
  {
    var m := |raw| - 1;
    var tab := Flip(raw);
    var j := m - i;
    FlipRow(raw, j);
    var lrow := tab[j][..|tab[j]| - 1];
    assert Reverse(lrow) == raw[i][1..];
    assert Reverse(Identity(m))[j] == UnitRow(m, i - 1);
    assert WeirdRowOf(tab, j) == raw[i][1..] + UnitRow(m, i - 1) + [raw[i][0]];
  }

  /** The flip construction yields the rows of the slack-basis layout. */
  lemma FlipConstructionRows(raw: seq<seq<real>>)
    requires RawShaped(raw)
    ensures InitialRows(raw, FlipConstruction(raw))
  {
    var m := |raw| - 1;
    var w := FlipConstruction(raw);
    FlipObjectiveRow(raw);
    forall i | 1 <= i <= m
      ensures w[i] == raw[i][1..] + UnitRow(m, i - 1) + [raw[i][0]]
    {
      FlipConstraintRow(raw, i);
    }
  }

  /** The rows, read entry by entry, are the slack-basis layout. */
  lemma RowsLayout(raw: seq<seq<real>>, w: seq<seq<real>>)
    requires RawShaped(raw) && InitialRows(raw, w)
    ensures InitialLayout(raw, w)
  {
    var n := |raw[0]| - 1;
    var m := |raw| - 1;
    forall i | 1 <= i <= m
      ensures |w[i]| == n + m + 1
      ensures forall k :: 0 <= k < n ==> w[i][k] == raw[i][k + 1]
      ensures forall k :: n <= k < n + m ==> w[i][k] == if k - n == i - 1 then 1.0 else 0.0
      ensures w[i][n + m] == raw[i][0]
    {
      ConstraintRowEntries(raw, w[i], i);
    }
  }

  /** Entries of one constraint row [a_i, e_i, b_i]. */
  lemma ConstraintRowEntries(raw: seq<seq<real>>, row: seq<real>, i: nat)
    requires RawShaped(raw) && 1 <= i < |raw|
    requires row == raw[i][1..] + UnitRow(|raw| - 1, i - 1) + [raw[i][0]]
    ensures |row| == |raw[0]| + |raw| - 1
    ensures forall k :: 0 <= k < |raw[0]| - 1 ==> row[k] == raw[i][k + 1]
    ensures forall k :: |raw[0]| - 1 <= k < |raw[0]| + |raw| - 2 ==>
      row[k] == if k - (|raw[0]| - 1) == i - 1 then 1.0 else 0.0
    ensures row[|raw[0]| + |raw| - 2] == raw[i][0]
  {
  }

  /** The flip construction yields the slack-basis layout. */
  lemma FlipConstructionLayout(raw: seq<seq<real>>)
    requires RawShaped(raw)
    ensures InitialLayout(raw, FlipConstruction(raw))
  {
    FlipConstructionRows(raw);
    RowsLayout(raw, FlipConstruction(raw));
  }

  /** The initial basis: "E" for the objective row, then the slacks
      X(N+1) .. X(N+M). */
  function InitialLabels(n: nat, m: nat): (labels: seq<Label>)
    ensures |labels| == m + 1 && labels[0] == E
    ensures forall i :: 1 <= i <= m ==> labels[i] == X(n + i)
  {
    [E] + seq(m, i requires 0 <= i < m => X(n + i + 1))
  }

  /** A matrix in the slack-basis layout, under the slack labels, is a
      tableau in canonical form. */
  lemma LayoutValid(raw: seq<seq<real>>, w: seq<seq<real>>)
    requires RawShaped(raw) && InitialLayout(raw, w)
    ensures Valid(Tableau(InitialLabels(|raw[0]| - 1, |raw| - 1), w), |raw[0]| - 1)
  {
  }

  /** Lines 43-77: the initial tableau, in canonical form for its slack basis. */
  function InitialTableau(raw: seq<seq<real>>): (t: Tableau)
    requires RawShaped(raw)
    ensures Valid(t, |raw[0]| - 1)
    ensures t.labels == InitialLabels(|raw[0]| - 1, |raw| - 1)
  {
    FlipConstructionLayout(raw);
    LayoutValid(raw, FlipConstruction(raw));
    Tableau(InitialLabels(|raw[0]| - 1, |raw| - 1), FlipConstruction(raw))
  }

  /** The initial tableau's matrix is the slack-basis layout. */
  lemma InitialTableauLayout(raw: seq<seq<real>>)
    requires RawShaped(raw)
    ensures InitialLayout(raw, InitialTableau(raw).rows)
  {
    FlipConstructionLayout(raw);
  }
}
