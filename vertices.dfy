/** The feasible-vertex enumeration of `plot_constraints` (gui_utils.py):
    the constraint records read from the table, the list of lines with the
    two axes appended, their pairwise intersections by Cramer's rule, the
    sign-aware feasibility filter and the order-preserving removal of
    near-duplicates. The drawing itself is not modelled. */
module Vertices {
  import opened Common

  /** The three relation signs the sign selector offers. */
  const LessEq: string := "\U{2264}"
  const GreaterEq: string := "\U{2265}"
  const Equal: string := "="

  /** The cells a table row contributes: columns 0 and 1 (the coefficients
      of X1 and X2), the text of the sign selector in column cols - 2, and
      the right-hand side in column cols - 1. A missing item reads as Blank. */
  datatype TableRow = TableRow(a: Cell, b: Cell, sign: string, c: Cell)

  /** The record `{'a': a, 'b': b, 'sign': sign, 'c': c}` of one constraint
      a X1 + b X2 (sign) c. */
  datatype Constraint = Constraint(a: real, b: real, sign: string, c: real)

  /** The line a x + b y = c. */
  datatype Line = Line(a: real, b: real, c: real)

  datatype Point = Point(x: real, y: real)

  // ---------------------------------------------------------------------
  // Reading the table (lines 48-60)
  // ---------------------------------------------------------------------

  predicate RowUnparsable(row: TableRow)
  {
    row.a.Unparsable? || row.b.Unparsable? || row.c.Unparsable?
  }

  /** The record of a readable row, blank cells as 0.0. */
  function RecordOf(row: TableRow): (c: Constraint)
    requires !RowUnparsable(row)
    ensures c.a == CellValue(row.a) && c.b == CellValue(row.b) && c.c == CellValue(row.c)
    ensures c.sign == row.sign
  {
    Constraint(CellValue(row.a), CellValue(row.b), row.sign, CellValue(row.c))
  }

  /** The records of all rows in row order, or None when some `float()`
      raises. */
  function ParseAll(rows: seq<TableRow>): (r: Option<seq<Constraint>>)
    ensures r.None? <==> exists i :: 0 <= i < |rows| && RowUnparsable(rows[i])
    ensures r.Some? ==> |r.value| == |rows|
    ensures r.Some? ==> forall i :: 0 <= i < |rows| ==>
      !RowUnparsable(rows[i]) && r.value[i] == RecordOf(rows[i])
  {
    if |rows| == 0 then Some([])
    else
      var last := rows[|rows| - 1];
      match ParseAll(rows[..|rows| - 1])
      case None => None
      case Some(cs) =>
        if RowUnparsable(last) then None else Some(cs + [RecordOf(last)])
  }

  /** The loop at lines 48-60; None stands for the exception raised by
      `float()`. */
  method ParseRows(rows: seq<TableRow>) returns (r: Option<seq<Constraint>>)
    ensures r == ParseAll(rows)
  {
    var cs: seq<Constraint> := [];
    var i := 0;
    while i < |rows|
      invariant 0 <= i <= |rows|
      invariant ParseAll(rows[..i]) == Some(cs)
    {
      assert rows[..i + 1][..i] == rows[..i];
      if RowUnparsable(rows[i]) {
        assert ParseAll(rows[..i + 1]) == None;
        NoneExtends(rows, i + 1);
        assert rows[..|rows|] == rows;
        return None;
      }
      cs := cs + [RecordOf(rows[i])];
      i := i + 1;
    }
    assert rows[..i] == rows;
    r := Some(cs);
  }

  /** Once a prefix fails to parse, every longer prefix fails too. */
  lemma {:induction false} NoneExtends(rows: seq<TableRow>, k: nat)
    requires k <= |rows| && ParseAll(rows[..k]) == None
    ensures ParseAll(rows) == None
    decreases |rows| - k
  {
    if k < |rows| {
      assert rows[..k + 1][..k] == rows[..k];
      NoneExtends(rows, k + 1);
    } else {
      assert rows[..k] == rows;
    }
  }

  // ---------------------------------------------------------------------
  // The line list (lines 62-66)
  // ---------------------------------------------------------------------

  /** The constraint lines in row order, then the axes x = 0 and y = 0. */
  function Lines(cs: seq<Constraint>): (ls: seq<Line>)
    ensures |ls| == |cs| + 2
    ensures forall i :: 0 <= i < |cs| ==> ls[i] == Line(cs[i].a, cs[i].b, cs[i].c)
    ensures ls[|cs|] == Line(1.0, 0.0, 0.0) && ls[|cs| + 1] == Line(0.0, 1.0, 0.0)
  {
    seq(|cs|, i requires 0 <= i < |cs| => Line(cs[i].a, cs[i].b, cs[i].c)) + [Line(1.0, 0.0, 0.0), Line(0.0, 1.0, 0.0)]
  }

  method BuildLines(cs: seq<Constraint>) returns (ls: seq<Line>)
    ensures ls == Lines(cs)
  {
    ls := [];
    for i := 0 to |cs|
      invariant |ls| == i
      invariant forall k :: 0 <= k < i ==> ls[k] == Line(cs[k].a, cs[k].b, cs[k].c)
    {
      ls := ls + [Line(cs[i].a, cs[i].b, cs[i].c)];
    }
    ls := ls + [Line(1.0, 0.0, 0.0)];
    ls := ls + [Line(0.0, 1.0, 0.0)];
  }

  // ---------------------------------------------------------------------
  // Intersections (lines 68-77)
  // ---------------------------------------------------------------------

  function Det(l1: Line, l2: Line): real
  {
    l1.a * l2.b - l2.a * l1.b
  }

  /** The two lines cross in one point: |det| > 1e-9. */
  predicate Crosses(l1: Line, l2: Line)
  {
    Abs(Det(l1, l2)) > Eps
  }

  /** The crossing point by Cramer's rule. */
  function Meet(l1: Line, l2: Line): Point
    requires Crosses(l1, l2)
  {
    Point((l1.c * l2.b - l2.c * l1.b) / Det(l1, l2), (l1.a * l2.c - l2.a * l1.c) / Det(l1, l2))
  }

  predicate OnLine(p: Point, l: Line)
  {
    l.a * p.x + l.b * p.y == l.c
  }

  /** `[(x, y)]` when the pair crosses, `[]` otherwise. */
  function MeetIfAny(l1: Line, l2: Line): seq<Point>
  {
    if Crosses(l1, l2) then [Meet(l1, l2)] else []
  }

  /** The points of the pairs (i, j') with i < j' < j, in order of j'. */
  function PairPoints(ls: seq<Line>, i: nat, j: nat): seq<Point>
    requires i < |ls| && j <= |ls|
    decreases j
  {
    if j <= i + 1 then [] else PairPoints(ls, i, j - 1) + MeetIfAny(ls[i], ls[j - 1])
  }

  /** The points of all pairs whose first index is below i, in the order of
      the two nested loops. */
  function CandidatesUpTo(ls: seq<Line>, i: nat): seq<Point>
    requires i <= |ls|
  {
    if i == 0 then [] else CandidatesUpTo(ls, i - 1) + PairPoints(ls, i - 1, |ls|)
  }

  function Candidates(ls: seq<Line>): seq<Point>
  {
    CandidatesUpTo(ls, |ls|)
  }

  /** The inner loop at lines 70-77 for one line i. */
  method CrossingsFrom(ls: seq<Line>, i: nat) returns (row: seq<Point>)
    requires i < |ls|
    ensures row == PairPoints(ls, i, |ls|)
  {
    row := [];
    var j := i + 1;
    while j < |ls|
      invariant i + 1 <= j <= |ls|
      invariant row == PairPoints(ls, i, j)
    {
      var l1 := ls[i];
      var l2 := ls[j];
      if Abs(Det(l1, l2)) > Eps {
        row := row + [Meet(l1, l2)];
      }
      j := j + 1;
    }
  }

  /** The two nested loops at lines 69-77. */
  method Intersections(ls: seq<Line>) returns (pts: seq<Point>)
    ensures pts == Candidates(ls)
  {
    pts := [];
    var i := 0;
    while i < |ls|
      invariant 0 <= i <= |ls|
      invariant pts == CandidatesUpTo(ls, i)
    {
      var row := CrossingsFrom(ls, i);
      pts := pts + row;
      i := i + 1;
    }
  }

  /** (u - c) d = 0 with d non-zero gives u = c. */
  lemma CancelFactor(u: real, c: real, d: real)
    requires d != 0.0 && u * d == c * d
    ensures u == c
  {
    assert (u - c) * d == 0.0;
  }

  /** Cramer's rule: the crossing point lies on both lines, exactly. */
  lemma MeetOnBoth(l1: Line, l2: Line)
    requires Crosses(l1, l2)
    ensures OnLine(Meet(l1, l2), l1) && OnLine(Meet(l1, l2), l2)
  {
    var d := Det(l1, l2);
    var nx := l1.c * l2.b - l2.c * l1.b;
    var ny := l1.a * l2.c - l2.a * l1.c;
    var p := Meet(l1, l2);
    assert d != 0.0;
    assert p.x * d == nx && p.y * d == ny;
    assert (l1.a * p.x + l1.b * p.y) * d == l1.a * (p.x * d) + l1.b * (p.y * d);
    assert l1.a * nx + l1.b * ny == l1.c * d;
    CancelFactor(l1.a * p.x + l1.b * p.y, l1.c, d);
    assert (l2.a * p.x + l2.b * p.y) * d == l2.a * (p.x * d) + l2.b * (p.y * d);
    assert l2.a * nx + l2.b * ny == l2.c * d;
    CancelFactor(l2.a * p.x + l2.b * p.y, l2.c, d);
  }

  /** A point is in PairPoints(ls, i, j) iff it is the meet of ls[i] with
      some later ls[j'] it crosses, j' < j. */
  lemma {:induction false} PairPointsMembers(ls: seq<Line>, i: nat, j: nat, p: Point)
    requires i < |ls| && j <= |ls|
    ensures p in PairPoints(ls, i, j) <==>
      exists j' :: i < j' < j && Crosses(ls[i], ls[j']) && p == Meet(ls[i], ls[j'])
    decreases j
  {
    if j > i + 1 {
      PairPointsMembers(ls, i, j - 1, p);
    }
  }

  /** Every candidate from the first i lines is the meet of a crossing pair
      whose first index is below i. */
  lemma {:induction false} CandidateSource(ls: seq<Line>, i: nat, p: Point)
    requires i <= |ls| && p in CandidatesUpTo(ls, i)
    ensures exists i', j' :: 0 <= i' < i && i' < j' < |ls| && Crosses(ls[i'], ls[j']) && p == Meet(ls[i'], ls[j'])
  {
    if p in CandidatesUpTo(ls, i - 1) {
      CandidateSource(ls, i - 1, p);
    } else {
      assert p in PairPoints(ls, i - 1, |ls|);
      PairPointsMembers(ls, i - 1, |ls|, p);
      var j' :| i - 1 < j' < |ls| && Crosses(ls[i - 1], ls[j']) && p == Meet(ls[i - 1], ls[j']);
    }
  }

  /** The meet of every crossing pair whose first index is below i is a
      candidate from the first i lines. */
  lemma {:induction false} CandidateOfPair(ls: seq<Line>, i: nat, i': nat, j': nat)
    requires i <= |ls| && i' < i && i' < j' < |ls| && Crosses(ls[i'], ls[j'])
    ensures Meet(ls[i'], ls[j']) in CandidatesUpTo(ls, i)
  {
    if i' < i - 1 {
      CandidateOfPair(ls, i - 1, i', j');
    } else {
      PairPointsMembers(ls, i', |ls|, Meet(ls[i'], ls[j']));
    }
  }

  /** A point is a candidate iff it is the meet of some crossing pair
      i < j of the line list. */
  lemma CandidatesUpToMembers(ls: seq<Line>, i: nat, p: Point)
    requires i <= |ls|
    ensures p in CandidatesUpTo(ls, i) <==>
      exists i', j' :: 0 <= i' < i && i' < j' < |ls| && Crosses(ls[i'], ls[j']) && p == Meet(ls[i'], ls[j'])
  {
    if p in CandidatesUpTo(ls, i) {
      CandidateSource(ls, i, p);
    }
    if exists i', j' :: 0 <= i' < i && i' < j' < |ls| && Crosses(ls[i'], ls[j']) && p == Meet(ls[i'], ls[j']) {
      var i', j' :| 0 <= i' < i && i' < j' < |ls| && Crosses(ls[i'], ls[j']) && p == Meet(ls[i'], ls[j']);
      CandidateOfPair(ls, i, i', j');
    }
  }

  /** Every candidate lies on two distinct lines of the list, and every
      crossing pair contributes its point. */
  lemma CandidatesAreCrossings(ls: seq<Line>, p: Point)
    ensures p in Candidates(ls) <==>
      exists i, j :: 0 <= i < j < |ls| && Crosses(ls[i], ls[j]) && p == Meet(ls[i], ls[j])
    ensures p in Candidates(ls) ==>
      exists i, j :: 0 <= i < j < |ls| && OnLine(p, ls[i]) && OnLine(p, ls[j])
  {
    CandidatesUpToMembers(ls, |ls|, p);
    if p in Candidates(ls) {
      var i, j :| 0 <= i < j < |ls| && Crosses(ls[i], ls[j]) && p == Meet(ls[i], ls[j]);
      MeetOnBoth(ls[i], ls[j]);
    }
  }

  // ---------------------------------------------------------------------
  // The feasibility filter (lines 79-91)
  // ---------------------------------------------------------------------

  /** The left-hand side a x + b y of a constraint at p. */
  function LeftSide(c: Constraint, p: Point): real
  {
    c.a * p.x + c.b * p.y
  }

  /** One constraint holds at p within 1e-5 for its sign; any other sign
      imposes no check. */
  predicate Satisfies(c: Constraint, p: Point)
  {
    var val := LeftSide(c, p);
    if c.sign == LessEq then val <= c.c + FeasTol
    else if c.sign == GreaterEq then val >= c.c - FeasTol
    else if c.sign == Equal then Abs(val - c.c) <= FeasTol
    else true
  }

  /** A point is kept: both coordinates at least -1e-5 and every constraint
      satisfied. */
  predicate Feasible(cs: seq<Constraint>, p: Point)
  {
    p.x >= -FeasTol && p.y >= -FeasTol && forall k :: 0 <= k < |cs| ==> Satisfies(cs[k], p)
  }

  /** The inner loop with `satisfies_all` and its `break`s (lines 83-89). */
  method SatisfiesAll(cs: seq<Constraint>, p: Point) returns (ok: bool)
    ensures ok <==> forall k :: 0 <= k < |cs| ==> Satisfies(cs[k], p)
  {
    ok := true;
    var k := 0;
    while k < |cs|
      invariant 0 <= k <= |cs|
      invariant forall k' :: 0 <= k' < k ==> Satisfies(cs[k'], p)
    {
      var c := cs[k];
      var val := LeftSide(c, p);
      var limit := c.c;
      if c.sign == LessEq && val > limit + FeasTol {
        assert !Satisfies(cs[k], p);
        ok := false;
        break;
      } else if c.sign == GreaterEq && val < limit - FeasTol {
        assert !Satisfies(cs[k], p);
        ok := false;
        break;
      } else if c.sign == Equal && Abs(val - limit) > FeasTol {
        assert !Satisfies(cs[k], p);
        ok := false;
        break;
      }
      assert Satisfies(cs[k], p);
      k := k + 1;
    }
  }

  /** The valid points, in the order of the candidates. */
  function Filter(cs: seq<Constraint>, pts: seq<Point>): seq<Point>
  {
    if |pts| == 0 then []
    else
      var rest := Filter(cs, pts[..|pts| - 1]);
      if Feasible(cs, pts[|pts| - 1]) then rest + [pts[|pts| - 1]] else rest
  }

  method FilterFeasible(cs: seq<Constraint>, pts: seq<Point>) returns (valid: seq<Point>)
    ensures valid == Filter(cs, pts)
  {
    valid := [];
    for i := 0 to |pts|
      invariant valid == Filter(cs, pts[..i])
    {
      assert pts[..i + 1][..i] == pts[..i];
      var p := pts[i];
      if p.x < -FeasTol || p.y < -FeasTol {
        continue;
      }
      var ok := SatisfiesAll(cs, p);
      if ok {
        valid := valid + [p];
      }
    }
    assert pts[..|pts|] == pts;
  }

  /** A point survives the filter iff it is a candidate and feasible. */
  lemma {:induction false} FilterMembers(cs: seq<Constraint>, pts: seq<Point>, p: Point)
    ensures p in Filter(cs, pts) <==> p in pts && Feasible(cs, p)
  {
    if |pts| > 0 {
      FilterMembers(cs, pts[..|pts| - 1], p);
      assert pts == pts[..|pts| - 1] + [pts[|pts| - 1]];
    }
  }

  // ---------------------------------------------------------------------
  // Removing near-duplicates (lines 93-99)
  // ---------------------------------------------------------------------

  /** Both coordinates within 1e-5 (strictly). */
  predicate Close(p: Point, q: Point)
  {
    Abs(p.x - q.x) < FeasTol && Abs(p.y - q.y) < FeasTol
  }

  /** `is_unique` is False: some kept point is close to p. */
  predicate AnyClose(kept: seq<Point>, p: Point)
  {
    exists k :: 0 <= k < |kept| && Close(p, kept[k])
  }

  /** The kept points, in order. */
  function Dedup(pts: seq<Point>): seq<Point>
  {
    if |pts| == 0 then []
    else
      var u := Dedup(pts[..|pts| - 1]);
      if AnyClose(u, pts[|pts| - 1]) then u else u + [pts[|pts| - 1]]
  }

  /** The positions in `pts` of the kept points. */
  function Kept(pts: seq<Point>): seq<nat>
  {
    if |pts| == 0 then []
    else
      var k := Kept(pts[..|pts| - 1]);
      if AnyClose(Dedup(pts[..|pts| - 1]), pts[|pts| - 1]) then k else k + [|pts| - 1]
  }

  /** The loop with `is_unique` and its `break` (lines 95-97). */
  method IsUnique(kept: seq<Point>, p: Point) returns (unique: bool)
    ensures unique <==> !AnyClose(kept, p)
  {
    unique := true;
    var k := 0;
    while k < |kept|
      invariant 0 <= k <= |kept|
      invariant forall k' :: 0 <= k' < k ==> !Close(p, kept[k'])
    {
      var up := kept[k];
      if Abs(p.x - up.x) < FeasTol && Abs(p.y - up.y) < FeasTol {
        unique := false;
        break;
      }
      k := k + 1;
    }
  }

  method Deduplicate(pts: seq<Point>) returns (unique: seq<Point>)
    ensures unique == Dedup(pts)
  {
    unique := [];
    for i := 0 to |pts|
      invariant unique == Dedup(pts[..i])
    {
      assert pts[..i + 1][..i] == pts[..i];
      var isUnique := IsUnique(unique, pts[i]);
      if isUnique {
        unique := unique + [pts[i]];
      }
    }
    assert pts[..|pts|] == pts;
  }

  /** The kept points are a subsequence of the input: Kept lists strictly
      increasing positions and Dedup(pts)[k] == pts[Kept(pts)[k]]. */
  lemma {:induction false} DedupSubsequence(pts: seq<Point>)
    ensures |Kept(pts)| == |Dedup(pts)|
    ensures forall k :: 0 <= k < |Kept(pts)| ==> Kept(pts)[k] < |pts| && Dedup(pts)[k] == pts[Kept(pts)[k]]
    ensures forall k1, k2 :: 0 <= k1 < k2 < |Kept(pts)| ==> Kept(pts)[k1] < Kept(pts)[k2]
  {
    if |pts| > 0 {
      DedupSubsequence(pts[..|pts| - 1]);
    }
  }

  /** No two kept points are close. */
  lemma {:induction false} DedupSeparated(pts: seq<Point>)
    ensures forall k1, k2 :: 0 <= k1 < k2 < |Dedup(pts)| ==> !Close(Dedup(pts)[k1], Dedup(pts)[k2])
  {
    if |pts| > 0 {
      DedupSeparated(pts[..|pts| - 1]);
    }
  }

  /** Every point of `pts` is close to a point of `u` whose position in
      `pts` (given by `kept`) is no later than its own. */
  predicate CoveredBy(pts: seq<Point>, u: seq<Point>, kept: seq<nat>)
  {
    |kept| == |u| &&
    forall i :: 0 <= i < |pts| ==> exists k :: 0 <= k < |u| && kept[k] <= i && Close(pts[i], u[k])
  }

  /** After the last point is processed, the earlier kept points stay where
      they were. */
  lemma DedupPrefix(pts: seq<Point>)
    requires |pts| > 0
    ensures var init := pts[..|pts| - 1];
      && |Kept(init)| == |Dedup(init)| <= |Dedup(pts)| == |Kept(pts)|
      && Dedup(pts)[..|Dedup(init)|] == Dedup(init) && Kept(pts)[..|Dedup(init)|] == Kept(init)
  {
    DedupSubsequence(pts[..|pts| - 1]);
  }

  /** A point before the last stays covered. */
  lemma CoversEarlier(pts: seq<Point>, i: nat)
    requires 0 <= i < |pts| - 1
    requires CoveredBy(pts[..|pts| - 1], Dedup(pts[..|pts| - 1]), Kept(pts[..|pts| - 1]))
    ensures exists k :: 0 <= k < |Dedup(pts)| && k < |Kept(pts)| && Kept(pts)[k] <= i && Close(pts[i], Dedup(pts)[k])
  {
    var init := pts[..|pts| - 1];
    DedupPrefix(pts);
    assert pts[i] == init[i];
    var k :| 0 <= k < |Dedup(init)| && Kept(init)[k] <= i && Close(init[i], Dedup(init)[k]);
    assert Dedup(pts)[k] == Dedup(init)[k] && Kept(pts)[k] == Kept(init)[k];
  }

  /** The last point is covered: by an earlier kept point close to it, or
      by itself when it is kept. */
  lemma CoversLast(pts: seq<Point>)
    requires |pts| > 0
    ensures exists k :: 0 <= k < |Dedup(pts)| && k < |Kept(pts)| && Kept(pts)[k] <= |pts| - 1 && Close(pts[|pts| - 1], Dedup(pts)[k])
  {
    var init := pts[..|pts| - 1];
    DedupPrefix(pts);
    DedupSubsequence(init);
    var u0 := Dedup(init);
    if AnyClose(u0, pts[|pts| - 1]) {
      var k :| 0 <= k < |u0| && Close(pts[|pts| - 1], u0[k]);
      assert Kept(init)[k] < |init|;
      assert Dedup(pts)[k] == u0[k] && Kept(pts)[k] == Kept(init)[k];
    } else {
      var k := |Dedup(pts)| - 1;
      assert Kept(pts)[k] == |pts| - 1 && Dedup(pts)[k] == pts[|pts| - 1];
    }
  }

  /** Every input point is close to a point kept from a position no later
      than its own: the first of a cluster of close points is the one kept. */
  lemma {:induction false} DedupCovers(pts: seq<Point>)
    ensures CoveredBy(pts, Dedup(pts), Kept(pts))
  {
    DedupSubsequence(pts);
    if |pts| > 0 {
      DedupCovers(pts[..|pts| - 1]);
      forall i | 0 <= i < |pts|
        ensures exists k :: 0 <= k < |Dedup(pts)| && Kept(pts)[k] <= i && Close(pts[i], Dedup(pts)[k])
      {
        if i < |pts| - 1 {
          CoversEarlier(pts, i);
        } else {
          CoversLast(pts);
        }
      }
    }
  }

  // ---------------------------------------------------------------------
  // The whole routine (lines 48-99, 165-169)
  // ---------------------------------------------------------------------

  /** The points whose polygon the plot fills. */
  function FeasibleVertices(cs: seq<Constraint>): seq<Point>
  {
    Dedup(Filter(cs, Candidates(Lines(cs))))
  }

  /** Every vertex is feasible and is the crossing of two distinct lines of
      the list; no two vertices are close; and every feasible crossing point
      is close to some vertex. */
  lemma VerticesCorrect(cs: seq<Constraint>)
    ensures forall p :: p in FeasibleVertices(cs) ==> Feasible(cs, p)
    ensures forall p :: p in FeasibleVertices(cs) ==>
      exists i, j :: 0 <= i < j < |Lines(cs)| && Crosses(Lines(cs)[i], Lines(cs)[j]) && p == Meet(Lines(cs)[i], Lines(cs)[j])
    ensures var u := FeasibleVertices(cs);
      forall k1, k2 :: 0 <= k1 < k2 < |u| ==> !Close(u[k1], u[k2])
    ensures forall i, j :: 0 <= i < j < |Lines(cs)| && Crosses(Lines(cs)[i], Lines(cs)[j]) && Feasible(cs, Meet(Lines(cs)[i], Lines(cs)[j])) ==>
      exists k :: 0 <= k < |FeasibleVertices(cs)| && Close(Meet(Lines(cs)[i], Lines(cs)[j]), FeasibleVertices(cs)[k])
  {
    var ls := Lines(cs);
    var cands := Candidates(ls);
    var valid := Filter(cs, cands);
    var u := Dedup(valid);
    DedupSubsequence(valid);
    DedupSeparated(valid);
    DedupCovers(valid);
    forall p | p in u
      ensures Feasible(cs, p)
      ensures exists i, j :: 0 <= i < j < |ls| && Crosses(ls[i], ls[j]) && p == Meet(ls[i], ls[j])
    {
      var k :| 0 <= k < |u| && u[k] == p;
      assert p == valid[Kept(valid)[k]];
      FilterMembers(cs, cands, p);
      CandidatesAreCrossings(ls, p);
    }
    forall i, j | 0 <= i < j < |ls| && Crosses(ls[i], ls[j]) && Feasible(cs, Meet(ls[i], ls[j]))
      ensures exists k :: 0 <= k < |u| && Close(Meet(ls[i], ls[j]), u[k])
    {
      var p := Meet(ls[i], ls[j]);
      CandidatesAreCrossings(ls, p);
      FilterMembers(cs, cands, p);
      var n :| 0 <= n < |valid| && valid[n] == p;
      assert CoveredBy(valid, u, Kept(valid));
      var k :| 0 <= k < |u| && Kept(valid)[k] <= n && Close(valid[n], u[k]);
    }
  }

  /** `plot_constraints` on a table: the records it returns, or [] when a
      cell does not parse, together with the vertices of the region it
      draws (none when it fails). */
  method PlotConstraints(rows: seq<TableRow>) returns (result: seq<Constraint>, vertices: seq<Point>)
    ensures ParseAll(rows).None? ==> result == [] && vertices == []
    ensures ParseAll(rows).Some? ==> result == ParseAll(rows).value && vertices == FeasibleVertices(result)
  {
    var parsed := ParseRows(rows);
    if parsed.None? {
      return [], [];
    }
    var constraints := parsed.value;
    var lines := BuildLines(constraints);
    var points := Intersections(lines);
    var valid := FilterFeasible(constraints, points);
    vertices := Deduplicate(valid);
    result := constraints;
  }
}
