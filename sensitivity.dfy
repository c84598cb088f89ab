/** `perform_sensitivity_analysis`: right-hand-side ranging per constraint
    and cost ranging per decision variable, read from the final tableau. The
    report text is not modelled, only the two result lists. */
module Sensitivity {
  import opened Common
  import opened TableauBuilder

  /** A range [lo, hi] for the change D, each end possibly infinite. */
  datatype Range = Range(lo: Ext, hi: Ext)

  /** `if limit > d_min: d_min = limit`. */
  function RaiseLo(lo: Ext, x: real): (r: Ext)
    ensures ExtAtMost(lo, r) && ExtAtMost(Finite(x), r)
    ensures r == lo || r == Finite(x)
  {
    if ExtLess(lo, Finite(x)) then Finite(x) else lo
  }

  /** `if limit < d_max: d_max = limit`. */
  function LowerHi(hi: Ext, x: real): (r: Ext)
    ensures ExtAtMost(r, hi) && ExtAtMost(r, Finite(x))
    ensures r == hi || r == Finite(x)
  {
    if ExtLess(Finite(x), hi) then Finite(x) else hi
  }

  /** A final tableau as `calculate_simplex` leaves it: a dictionary (the
      labels distinct) whose rows all have one length. */
  ghost predicate Rectangular(t: Tableau)
  {
    && |t.labels| == |t.rows|
    && DistinctLabels(t.labels)
    && forall r :: 0 <= r < |t.rows| ==> |t.rows[r]| == |t.rows[0]|
  }

  /** A constraint row takes part in the ranging of column `col` when it is
      not the objective row and its entry there is at least 1e-9 in size. */
  predicate RhsCounts(t: Tableau, col: nat, r: nat)
    requires r < |t.rows| == |t.labels| && col < |t.rows[r]|
  {
    t.labels[r] != E && Abs(t.rows[r][col]) >= Eps
  }

  /** Lines 203-227 over the first `k` dictionary items: the range of the
      change D of a right-hand side, from the slack column `col` and the
      solution column `sol`. */
  function RhsBounds(t: Tableau, col: nat, sol: nat, k: nat): Range
    requires k <= |t.rows| == |t.labels|
    requires forall r :: 0 <= r < |t.rows| ==> col < |t.rows[r]| && sol < |t.rows[r]|
  {
    if k == 0 then Range(NegInf, PosInf)
    else
      var b := RhsBounds(t, col, sol, k - 1);
      var row := t.rows[k - 1];
      if !RhsCounts(t, col, k - 1) then b
      else if row[col] > 0.0 then Range(RaiseLo(b.lo, -row[sol] / row[col]), b.hi)
      else Range(b.lo, LowerHi(b.hi, -row[sol] / row[col]))
  }

  /** A positive coefficient bounds D from below by -v/a. */
  lemma LowerLimitHolds(v: real, a: real, d: real)
    requires a > 0.0 && -v / a <= d
    ensures v + a * d >= 0.0
  {
    assert a * (-v / a) <= a * d;
  }

  /** A negative coefficient bounds D from above by -v/a. */
  lemma UpperLimitHolds(v: real, a: real, d: real)
    requires a < 0.0 && d <= -v / a
    ensures v + a * d >= 0.0
  {
    assert a * d >= a * (-v / a);
  }

  /** Every D in the range keeps every counted constraint row non-negative:
      v + a D >= 0. */
  lemma {:induction false} RhsBoundsSound(t: Tableau, col: nat, sol: nat, k: nat, d: real)
    requires k <= |t.rows| == |t.labels|
    requires forall r :: 0 <= r < |t.rows| ==> col < |t.rows[r]| && sol < |t.rows[r]|
    requires var b := RhsBounds(t, col, sol, k); Between(b.lo, d, b.hi)
    ensures forall r :: 0 <= r < k && RhsCounts(t, col, r) ==> t.rows[r][sol] + t.rows[r][col] * d >= 0.0
  {
    if k > 0 {
      var b := RhsBounds(t, col, sol, k - 1);
      var row := t.rows[k - 1];
      assert Between(b.lo, d, b.hi);
      RhsBoundsSound(t, col, sol, k - 1, d);
      if RhsCounts(t, col, k - 1) {
        if row[col] > 0.0 {
          LowerLimitHolds(row[sol], row[col], d);
        } else {
          UpperLimitHolds(row[sol], row[col], d);
        }
      }
    }
  }

  /** The range is the largest such: its lower end is the largest -v/a over
      counted rows with a > 0 (minus infinity when there is none), its upper
      end the least -v/a over counted rows with a < 0 (plus infinity when
      there is none). */
  lemma {:induction false} RhsBoundsTight(t: Tableau, col: nat, sol: nat, k: nat)
    requires k <= |t.rows| == |t.labels|
    requires forall r :: 0 <= r < |t.rows| ==> col < |t.rows[r]| && sol < |t.rows[r]|
    ensures var b := RhsBounds(t, col, sol, k);
      && (forall r :: 0 <= r < k && RhsCounts(t, col, r) && t.rows[r][col] > 0.0 ==>
            ExtAtMost(Finite(-t.rows[r][sol] / t.rows[r][col]), b.lo))
      && (forall r :: 0 <= r < k && RhsCounts(t, col, r) && t.rows[r][col] < 0.0 ==>
            ExtAtMost(b.hi, Finite(-t.rows[r][sol] / t.rows[r][col])))
      && (b.lo == NegInf || exists r :: (0 <= r < k && RhsCounts(t, col, r) && t.rows[r][col] > 0.0 &&
                                          b.lo == Finite(-t.rows[r][sol] / t.rows[r][col])))
      && (b.hi == PosInf || exists r :: (0 <= r < k && RhsCounts(t, col, r) && t.rows[r][col] < 0.0 &&
                                          b.hi == Finite(-t.rows[r][sol] / t.rows[r][col])))
  {
    if k > 0 {
      RhsBoundsTight(t, col, sol, k - 1);
      ExtOrderFacts();
    }
  }

  /** A positive coefficient and D below -v/a break the row: v + a D < 0. */
  lemma LowerLimitFails(v: real, a: real, d: real)
    requires a > 0.0 && d < -v / a
    ensures v + a * d < 0.0
  {
    assert a * d < a * (-v / a);
  }

  /** A negative coefficient and D above -v/a break the row: v + a D < 0. */
  lemma UpperLimitFails(v: real, a: real, d: real)
    requires a < 0.0 && -v / a < d
    ensures v + a * d < 0.0
  {
    assert a * d < a * (-v / a);
  }

  /** A finite lower end was set by a counted row with a > 0: the row
      whose limit -v/a it is. */
  lemma {:induction false} RhsLoWitness(t: Tableau, col: nat, sol: nat, k: nat) returns (r: nat)
    requires k <= |t.rows| == |t.labels|
    requires forall r :: 0 <= r < |t.rows| ==> col < |t.rows[r]| && sol < |t.rows[r]|
    requires RhsBounds(t, col, sol, k).lo != NegInf
    ensures r < k && RhsCounts(t, col, r) && t.rows[r][col] > 0.0
    ensures RhsBounds(t, col, sol, k).lo == Finite(-t.rows[r][sol] / t.rows[r][col])
  {
    var b := RhsBounds(t, col, sol, k - 1);
    var row := t.rows[k - 1];
    if RhsCounts(t, col, k - 1) && row[col] > 0.0 && ExtLess(b.lo, Finite(-row[sol] / row[col])) {
      r := k - 1;
    } else {
      r := RhsLoWitness(t, col, sol, k - 1);
    }
  }

  /** A finite upper end was set by a counted row with a < 0. */
  lemma {:induction false} RhsHiWitness(t: Tableau, col: nat, sol: nat, k: nat) returns (r: nat)
    requires k <= |t.rows| == |t.labels|
    requires forall r :: 0 <= r < |t.rows| ==> col < |t.rows[r]| && sol < |t.rows[r]|
    requires RhsBounds(t, col, sol, k).hi != PosInf
    ensures r < k && RhsCounts(t, col, r) && t.rows[r][col] < 0.0
    ensures RhsBounds(t, col, sol, k).hi == Finite(-t.rows[r][sol] / t.rows[r][col])
  {
    var b := RhsBounds(t, col, sol, k - 1);
    var row := t.rows[k - 1];
    if RhsCounts(t, col, k - 1) && row[col] <= 0.0 && ExtLess(Finite(-row[sol] / row[col]), b.hi) {
      r := k - 1;
    } else {
      r := RhsHiWitness(t, col, sol, k - 1);
    }
  }

  /** A D below the lower end breaks a counted row. */
  lemma RhsBelowBreaks(t: Tableau, col: nat, sol: nat, k: nat, d: real)
    requires k <= |t.rows| == |t.labels|
    requires forall r :: 0 <= r < |t.rows| ==> col < |t.rows[r]| && sol < |t.rows[r]|
    requires !ExtAtMost(RhsBounds(t, col, sol, k).lo, Finite(d))
    ensures exists r :: 0 <= r < k && RhsCounts(t, col, r) && t.rows[r][sol] + t.rows[r][col] * d < 0.0
  {
    var r := RhsLoWitness(t, col, sol, k);
    LowerLimitFails(t.rows[r][sol], t.rows[r][col], d);
  }

  /** A D above the upper end breaks a counted row. */
  lemma RhsAboveBreaks(t: Tableau, col: nat, sol: nat, k: nat, d: real)
    requires k <= |t.rows| == |t.labels|
    requires forall r :: 0 <= r < |t.rows| ==> col < |t.rows[r]| && sol < |t.rows[r]|
    requires !ExtAtMost(Finite(d), RhsBounds(t, col, sol, k).hi)
    ensures exists r :: 0 <= r < k && RhsCounts(t, col, r) && t.rows[r][sol] + t.rows[r][col] * d < 0.0
  {
    var r := RhsHiWitness(t, col, sol, k);
    UpperLimitFails(t.rows[r][sol], t.rows[r][col], d);
  }

  /** The range is exact: D lies in it if and only if every counted
      constraint row keeps v + a D >= 0, so any D outside it breaks some
      counted row. */
  lemma RhsBoundsExact(t: Tableau, col: nat, sol: nat, k: nat, d: real)
    requires k <= |t.rows| == |t.labels|
    requires forall r :: 0 <= r < |t.rows| ==> col < |t.rows[r]| && sol < |t.rows[r]|
    ensures var b := RhsBounds(t, col, sol, k);
      Between(b.lo, d, b.hi) <==>
      forall r :: 0 <= r < k && RhsCounts(t, col, r) ==> t.rows[r][sol] + t.rows[r][col] * d >= 0.0
  {
    var b := RhsBounds(t, col, sol, k);
    if Between(b.lo, d, b.hi) {
      RhsBoundsSound(t, col, sol, k, d);
    } else if !ExtAtMost(b.lo, Finite(d)) {
      RhsBelowBreaks(t, col, sol, k, d);
    } else {
      RhsAboveBreaks(t, col, sol, k, d);
    }
  }

  /** Both ends of a range hold D = 0 when every counted row has a
      non-negative value, as it has at a feasible final tableau. */
  lemma {:induction false} RhsBoundsHoldZero(t: Tableau, col: nat, sol: nat, k: nat)
    requires k <= |t.rows| == |t.labels|
    requires forall r :: 0 <= r < |t.rows| ==> col < |t.rows[r]| && sol < |t.rows[r]|
    requires forall r :: 0 <= r < k && RhsCounts(t, col, r) ==> t.rows[r][sol] >= 0.0
    ensures var b := RhsBounds(t, col, sol, k); Between(b.lo, 0.0, b.hi)
  {
    if k > 0 {
      RhsBoundsHoldZero(t, col, sol, k - 1);
      var row := t.rows[k - 1];
      if RhsCounts(t, col, k - 1) {
        if row[col] > 0.0 {
          assert -row[sol] / row[col] <= 0.0;
        } else {
          assert -row[sol] / row[col] >= 0.0;
        }
      }
    }
  }

  /** Transitivity and totality of the order on extended reals. */
  lemma ExtOrderFacts()
    ensures forall a: Ext, b: Ext, c: Ext :: ExtAtMost(a, b) && ExtAtMost(b, c) ==> ExtAtMost(a, c)
    ensures forall a: Ext, b: Ext :: ExtAtMost(a, b) || ExtAtMost(b, a)
  {
  }

  /** Lines 203-227 as the source runs them: one pass over the dictionary
      items, moving d_min up and d_max down. */
  method RhsRange(t: Tableau, col: nat, sol: nat) returns (b: Range)
    requires |t.rows| == |t.labels|
    requires forall r :: 0 <= r < |t.rows| ==> col < |t.rows[r]| && sol < |t.rows[r]|
    ensures b == RhsBounds(t, col, sol, |t.rows|)
  {
    var dMin := NegInf;
    var dMax := PosInf;
    var r := 0;
    while r < |t.rows|
      invariant 0 <= r <= |t.rows|
      invariant Range(dMin, dMax) == RhsBounds(t, col, sol, r)
    {
      if t.labels[r] != E {
        var currentVal := t.rows[r][sol];
        var coeff := t.rows[r][col];
        if Abs(coeff) >= Eps {
          var limit := -currentVal / coeff;
          if coeff > 0.0 {
            if ExtLess(dMin, Finite(limit)) { dMin := Finite(limit); }
          } else {
            if ExtLess(Finite(limit), dMax) { dMax := Finite(limit); }
          }
        }
      }
      r := r + 1;
    }
    b := Range(dMin, dMax);
  }

  /** A column takes part in the cost ranging of a basic variable when its
      objective-row entry is at least 1e-9 in size and the variable's row
      entry there exceeds 1e-9 in size. */
  predicate CostCounts(z: seq<real>, row: seq<real>, j: nat)
    requires j < |z| && j < |row|
  {
    Abs(z[j]) >= Eps && Abs(row[j]) > Eps
  }

  /** Lines 284-300 over the first `k` columns: the range of the change D of
      the cost of a basic variable whose row is `row`. */
  function CostBounds(z: seq<real>, row: seq<real>, k: nat): Range
    requires k <= |z| && k <= |row|
  {
    if k == 0 then Range(NegInf, PosInf)
    else
      var b := CostBounds(z, row, k - 1);
      var j := k - 1;
      if !CostCounts(z, row, j) then b
      else if row[j] > 0.0 then Range(b.lo, LowerHi(b.hi, z[j] / row[j]))
      else Range(RaiseLo(b.lo, z[j] / row[j]), b.hi)
  }

  /** A positive row entry bounds D from above by rc/a. */
  lemma CostUpperHolds(rc: real, a: real, d: real)
    requires a > 0.0 && d <= rc / a
    ensures rc - a * d >= 0.0
  {
    assert a * d <= a * (rc / a);
  }

  /** A negative row entry bounds D from below by rc/a. */
  lemma CostLowerHolds(rc: real, a: real, d: real)
    requires a < 0.0 && rc / a <= d
    ensures rc - a * d >= 0.0
  {
    assert a * d <= a * (rc / a);
  }

  /** Every D in the range keeps every counted reduced cost non-negative:
      rc - a D >= 0. */
  lemma {:induction false} CostBoundsSound(z: seq<real>, row: seq<real>, k: nat, d: real)
    requires k <= |z| && k <= |row|
    requires var b := CostBounds(z, row, k); Between(b.lo, d, b.hi)
    ensures forall j :: 0 <= j < k && CostCounts(z, row, j) ==> z[j] - row[j] * d >= 0.0
  {
    if k > 0 {
      var j := k - 1;
      CostBoundsStep(z, row, k, d);
      CostBoundsSound(z, row, k - 1, d);
      if CostCounts(z, row, j) {
        if row[j] > 0.0 {
          CostUpperHolds(z[j], row[j], d);
        } else {
          CostLowerHolds(z[j], row[j], d);
        }
      }
    }
  }

  /** A D inside the range over k columns is inside the range over the
      first k - 1, and on the right side of column k - 1's bound. */
  lemma CostBoundsStep(z: seq<real>, row: seq<real>, k: nat, d: real)
    requires 0 < k <= |z| && k <= |row|
    requires var b := CostBounds(z, row, k); Between(b.lo, d, b.hi)
    ensures var b := CostBounds(z, row, k - 1); Between(b.lo, d, b.hi)
    ensures CostCounts(z, row, k - 1) && row[k - 1] > 0.0 ==> d <= z[k - 1] / row[k - 1]
    ensures CostCounts(z, row, k - 1) && row[k - 1] < 0.0 ==> z[k - 1] / row[k - 1] <= d
  {
    ExtOrderFacts();
  }

  /** Both ends of a cost range hold D = 0 when every counted reduced cost
      is non-negative. */
  lemma {:induction false} CostBoundsHoldZero(z: seq<real>, row: seq<real>, k: nat)
    requires k <= |z| && k <= |row|
    requires forall j :: 0 <= j < k && CostCounts(z, row, j) ==> z[j] >= 0.0
    ensures var b := CostBounds(z, row, k); Between(b.lo, 0.0, b.hi)
  {
    if k > 0 {
      CostBoundsHoldZero(z, row, k - 1);
      var j := k - 1;
      if CostCounts(z, row, j) {
        if row[j] > 0.0 {
          assert z[j] / row[j] >= 0.0;
        } else {
          assert z[j] / row[j] <= 0.0;
        }
      }
    }
  }

  /** The cost range is the largest such: its upper end is the least rc/a
      over counted columns with a > 0, its lower end the largest rc/a over
      counted columns with a < 0, infinite when there is none. */
  lemma {:induction false} CostBoundsTight(z: seq<real>, row: seq<real>, k: nat)
    requires k <= |z| && k <= |row|
    ensures var b := CostBounds(z, row, k);
      && (forall j :: 0 <= j < k && CostCounts(z, row, j) && row[j] > 0.0 ==> ExtAtMost(b.hi, Finite(z[j] / row[j])))
      && (forall j :: 0 <= j < k && CostCounts(z, row, j) && row[j] < 0.0 ==> ExtAtMost(Finite(z[j] / row[j]), b.lo))
      && (b.hi == PosInf || exists j :: 0 <= j < k && CostCounts(z, row, j) && row[j] > 0.0 && b.hi == Finite(z[j] / row[j]))
      && (b.lo == NegInf || exists j :: 0 <= j < k && CostCounts(z, row, j) && row[j] < 0.0 && b.lo == Finite(z[j] / row[j]))
  {
    if k > 0 {
      CostBoundsTight(z, row, k - 1);
      ExtOrderFacts();
    }
  }

  /** A positive row entry and D above rc/a break the column: rc - a D < 0. */
  lemma CostUpperFails(rc: real, a: real, d: real)
    requires a > 0.0 && rc / a < d
    ensures rc - a * d < 0.0
  {
    assert a * (rc / a) < a * d;
  }

  /** A negative row entry and D below rc/a break the column: rc - a D < 0. */
  lemma CostLowerFails(rc: real, a: real, d: real)
    requires a < 0.0 && d < rc / a
    ensures rc - a * d < 0.0
  {
    assert a * (rc / a) < a * d;
  }

  /** A finite lower end of a cost range was set by a counted column with
      a < 0: the column whose limit rc/a it is. */
  lemma {:induction false} CostLoWitness(z: seq<real>, row: seq<real>, k: nat) returns (j: nat)
    requires k <= |z| && k <= |row|
    requires CostBounds(z, row, k).lo != NegInf
    ensures j < k && CostCounts(z, row, j) && row[j] < 0.0
    ensures CostBounds(z, row, k).lo == Finite(z[j] / row[j])
  {
    var b := CostBounds(z, row, k - 1);
    if CostCounts(z, row, k - 1) && row[k - 1] <= 0.0 && ExtLess(b.lo, Finite(z[k - 1] / row[k - 1])) {
      j := k - 1;
    } else {
      j := CostLoWitness(z, row, k - 1);
    }
  }

  /** A finite upper end of a cost range was set by a counted column with
      a > 0. */
  lemma {:induction false} CostHiWitness(z: seq<real>, row: seq<real>, k: nat) returns (j: nat)
    requires k <= |z| && k <= |row|
    requires CostBounds(z, row, k).hi != PosInf
    ensures j < k && CostCounts(z, row, j) && row[j] > 0.0
    ensures CostBounds(z, row, k).hi == Finite(z[j] / row[j])
  {
    var b := CostBounds(z, row, k - 1);
    if CostCounts(z, row, k - 1) && row[k - 1] > 0.0 && ExtLess(Finite(z[k - 1] / row[k - 1]), b.hi) {
      j := k - 1;
    } else {
      j := CostHiWitness(z, row, k - 1);
    }
  }

  /** A D below the lower end breaks a counted column. */
  lemma CostBelowBreaks(z: seq<real>, row: seq<real>, k: nat, d: real)
    requires k <= |z| && k <= |row|
    requires !ExtAtMost(CostBounds(z, row, k).lo, Finite(d))
    ensures exists j :: 0 <= j < k && CostCounts(z, row, j) && z[j] - row[j] * d < 0.0
  {
    var j := CostLoWitness(z, row, k);
    CostLowerFails(z[j], row[j], d);
  }

  /** A D above the upper end breaks a counted column. */
  lemma CostAboveBreaks(z: seq<real>, row: seq<real>, k: nat, d: real)
    requires k <= |z| && k <= |row|
    requires !ExtAtMost(Finite(d), CostBounds(z, row, k).hi)
    ensures exists j :: 0 <= j < k && CostCounts(z, row, j) && z[j] - row[j] * d < 0.0
  {
    var j := CostHiWitness(z, row, k);
    CostUpperFails(z[j], row[j], d);
  }

  /** The cost range is exact: D lies in it if and only if every counted
      column keeps rc - a D >= 0, so any D outside it breaks some counted
      column. */
  lemma CostBoundsExact(z: seq<real>, row: seq<real>, k: nat, d: real)
    requires k <= |z| && k <= |row|
    ensures var b := CostBounds(z, row, k);
      Between(b.lo, d, b.hi) <==>
      forall j :: 0 <= j < k && CostCounts(z, row, j) ==> z[j] - row[j] * d >= 0.0
  {
    var b := CostBounds(z, row, k);
    if Between(b.lo, d, b.hi) {
      CostBoundsSound(z, row, k, d);
    } else if !ExtAtMost(b.lo, Finite(d)) {
      CostBelowBreaks(z, row, k, d);
    } else {
      CostAboveBreaks(z, row, k, d);
    }
  }

  /** Lines 284-300 as the source runs them, over every column but the
      solution column. */
  method CostRange(z: seq<real>, row: seq<real>) returns (b: Range)
    requires |z| >= 1 && |row| >= |z| - 1
    ensures b == CostBounds(z, row, |z| - 1)
  {
    var dMin := NegInf;
    var dMax := PosInf;
    var j := 0;
    while j < |z| - 1
      invariant 0 <= j <= |z| - 1
      invariant Range(dMin, dMax) == CostBounds(z, row, j)
    {
      if Abs(z[j]) >= Eps {
        var rcVal := z[j];
        var aVal := row[j];
        if Abs(aVal) > Eps {
          var limit := rcVal / aVal;
          if aVal > 0.0 {
            if ExtLess(Finite(limit), dMax) { dMax := Finite(limit); }
          } else {
            if ExtLess(dMin, Finite(limit)) { dMin := Finite(limit); }
          }
        }
      }
      j := j + 1;
    }
    b := Range(dMin, dMax);
  }

  /** `abs(d_min) if d_min != float('-inf') else "∞"`. */
  function Decrease(lo: Ext): (r: Ext)
    ensures lo == NegInf ==> r == PosInf
    ensures lo.Finite? ==> r == Finite(Abs(lo.v))
  {
    match lo
    case Finite(v) => Finite(Abs(v))
    case _ => PosInf
  }

  /** One entry of the constraint list (lines 249-255). `number` is i + 1 of
      the name "Огр. i+1"; `allowIncrease` stands for the text of d_max,
      `allowDecrease` for |d_min|. */
  datatype ConstraintEntry = ConstraintEntry(number: nat, rhs: real, shadowPrice: real, allowIncrease: Ext, allowDecrease: Ext)

  /** One entry of the variable list (lines 319-326). */
  datatype VariableEntry = VariableEntry(name: Label, finalValue: real, objCoeff: real, reducedCost: real, allowIncrease: Ext, allowDecrease: Ext)

  /** The results of `perform_sensitivity_analysis`: both lists; the empty
      result of a missing or empty objective row; or the empty result of the
      exception handler. */
  datatype Analysis =
    | Report(variables: seq<VariableEntry>, constraints: seq<ConstraintEntry>)
    | NoObjectiveRow
    | AnalysisError

  /** `final_tableau.get('E')` is missing or empty (line 181). */
  predicate NoZRow(t: Tableau)
    requires |t.labels| == |t.rows|
  {
    E !in t.labels || |t.rows[IndexOf(t.labels, E)]| == 0
  }

  function ZRowOf(t: Tableau): (z: seq<real>)
    requires |t.labels| == |t.rows| && !NoZRow(t)
    ensures |z| >= 1
  {
    t.rows[IndexOf(t.labels, E)]
  }

  /** The indexing at lines 196, 197, 267 and 271 raises for some index:
      `original_rhs[i]` or `z_row[n + i]` for some i < m, or
      `original_obj_coeffs[i]` or `z_row[i]` for some i < n. */
  predicate IndexFails(zLen: nat, rhsLen: nat, objLen: nat, n: nat, m: nat)
  {
    (m > 0 && (m > rhsLen || n + m > zLen)) || n > objLen || n > zLen
  }

  function ConstraintEntryOf(t: Tableau, rhs: seq<real>, n: nat, i: nat): ConstraintEntry
    requires Rectangular(t) && !NoZRow(t)
    requires i < |rhs| && n + i < |ZRowOf(t)|
  {
    var z := ZRowOf(t);
    var b := RhsBounds(t, n + i, |z| - 1, |t.rows|);
    ConstraintEntry(i + 1, rhs[i], z[n + i], b.hi, Decrease(b.lo))
  }

  /** The range of a decision variable: from its row when it is basic, and
      d_max = its reduced cost, d_min = minus infinity when it is not. */
  /** The row of basic variable x_{j+1}. */
  function BasicRow(t: Tableau, j: nat): (row: seq<real>)
    requires Rectangular(t) && !NoZRow(t) && X(j + 1) in t.labels
    ensures |row| == |ZRowOf(t)| && row in t.rows
  {
    t.rows[IndexOf(t.labels, X(j + 1))]
  }

  function VariableRange(t: Tableau, j: nat): Range
    requires Rectangular(t) && !NoZRow(t) && j < |ZRowOf(t)|
  {
    var z := ZRowOf(t);
    var name := X(j + 1);
    if name in t.labels then CostBounds(z, BasicRow(t, j), |z| - 1)
    else Range(NegInf, Finite(z[j]))
  }

  function VariableEntryOf(t: Tableau, obj: seq<real>, j: nat): VariableEntry
    requires Rectangular(t) && !NoZRow(t)
    requires j < |obj| && j < |ZRowOf(t)|
  {
    var z := ZRowOf(t);
    var name := X(j + 1);
    var value := if name in t.labels then BasicRow(t, j)[|z| - 1] else 0.0;
    var b := VariableRange(t, j);
    VariableEntry(name, value, obj[j], z[j], b.hi, Decrease(b.lo))
  }

  /** `perform_sensitivity_analysis` as a function of its inputs. */
  function Analyze(t: Tableau, rhs: seq<real>, obj: seq<real>, n: nat, m: nat): (a: Analysis)
    requires Rectangular(t)
    ensures a == NoObjectiveRow <==> NoZRow(t)
    ensures a == AnalysisError <==> !NoZRow(t) && IndexFails(|ZRowOf(t)|, |rhs|, |obj|, n, m)
    ensures a.Report? ==> |a.variables| == n && |a.constraints| == m
    ensures a.Report? ==> forall j :: 0 <= j < n ==> a.variables[j].name == X(j + 1) && a.variables[j].objCoeff == obj[j]
    ensures a.Report? ==> forall i :: 0 <= i < m ==> a.constraints[i].number == i + 1 && a.constraints[i].rhs == rhs[i]
    ensures a.Report? ==> n <= |obj| && n <= |ZRowOf(t)| && (m > 0 ==> m <= |rhs| && n + m <= |ZRowOf(t)|)
    ensures a.Report? ==> forall j :: 0 <= j < n ==> a.variables[j] == VariableEntryOf(t, obj, j)
    ensures a.Report? ==> forall i :: 0 <= i < m ==> a.constraints[i] == ConstraintEntryOf(t, rhs, n, i)
  {
    if NoZRow(t) then NoObjectiveRow
    else if IndexFails(|ZRowOf(t)|, |rhs|, |obj|, n, m) then AnalysisError
    else
      Report(seq(n, j requires 0 <= j < n => VariableEntryOf(t, obj, j)),
             seq(m, i requires 0 <= i < m => ConstraintEntryOf(t, rhs, n, i)))
  }

  /** `perform_sensitivity_analysis(final_tableau, original_rhs,
      original_obj_coeffs, num_dec_vars, num_constrs, is_max)`; `is_max` is
      accepted and, as in the source, not used. */
  method PerformSensitivityAnalysis(t: Tableau, rhs: seq<real>, obj: seq<real>, n: nat, m: nat, isMax: bool)
    returns (a: Analysis)
    requires Rectangular(t)
    ensures a == Analyze(t, rhs, obj, n, m)
  {
    if E !in t.labels {
      return NoObjectiveRow;
    }
    var z := t.rows[IndexOf(t.labels, E)];
    if |z| == 0 {
      return NoObjectiveRow;
    }
    var sol := |z| - 1;
    var constraints: seq<ConstraintEntry> := [];
    var i := 0;
    while i < m
      invariant 0 <= i <= m
      invariant i == 0 || (i <= |rhs| && n + i <= |z|)
      invariant |constraints| == i
      invariant forall k :: 0 <= k < i ==> constraints[k] == ConstraintEntryOf(t, rhs, n, k)
    {
      if i >= |rhs| || n + i >= |z| {
        // original_rhs[i] or z_row[slack_idx] raises IndexError
        return AnalysisError;
      }
      var rhsVal := rhs[i];
      var shadowPrice := z[n + i];
      var b := RhsRange(t, n + i, sol);
      constraints := constraints + [ConstraintEntry(i + 1, rhsVal, shadowPrice, b.hi, Decrease(b.lo))];
      i := i + 1;
    }
    var variables: seq<VariableEntry> := [];
    var j := 0;
    while j < n
      invariant 0 <= j <= n
      invariant j <= |obj| && j <= |z|
      invariant |variables| == j
      invariant forall k :: 0 <= k < j ==> variables[k] == VariableEntryOf(t, obj, k)
    {
      if j >= |obj| || j >= |z| {
        // original_obj_coeffs[i] or z_row[i] raises IndexError
        return AnalysisError;
      }
      var name := X(j + 1);
      var currentVal := if name in t.labels then t.rows[IndexOf(t.labels, name)][sol] else 0.0;
      var b;
      if name !in t.labels {
        b := Range(NegInf, Finite(z[j]));
      } else {
        b := CostRange(z, t.rows[IndexOf(t.labels, name)]);
      }
      variables := variables + [VariableEntry(name, currentVal, obj[j], z[j], b.hi, Decrease(b.lo))];
      j := j + 1;
    }
    a := Report(variables, constraints);
  }

  /** Minus an extended real. */
  function Negated(e: Ext): (r: Ext)
    ensures e == PosInf <==> r == NegInf
    ensures e.Finite? ==> r == Finite(-e.v)
  {
    match e
    case NegInf => PosInf
    case Finite(v) => Finite(-v)
    case PosInf => NegInf
  }

  /** The reported constraint range is sound: when the final tableau is
      feasible in the rows that count, changing the i-th right-hand side by
      any D from -allow_decrease to allow_increase keeps every counted row's
      value v + a D non-negative. */
  lemma ConstraintRangeSound(t: Tableau, rhs: seq<real>, n: nat, i: nat, d: real)
    requires Rectangular(t) && !NoZRow(t) && i < |rhs| && n + i < |ZRowOf(t)|
    requires forall r :: 0 <= r < |t.rows| && RhsCounts(t, n + i, r) ==> t.rows[r][|ZRowOf(t)| - 1] >= 0.0
    requires var c := ConstraintEntryOf(t, rhs, n, i); Between(Negated(c.allowDecrease), d, c.allowIncrease)
    ensures forall r :: 0 <= r < |t.rows| && RhsCounts(t, n + i, r) ==>
      t.rows[r][|ZRowOf(t)| - 1] + t.rows[r][n + i] * d >= 0.0
  {
    ConstraintEntryRange(t, rhs, n, i);
    var sol := |ZRowOf(t)| - 1;
    var b := RhsBounds(t, n + i, sol, |t.rows|);
    RhsBoundsHoldZero(t, n + i, sol, |t.rows|);
    DecreaseUndone(b.lo);
    RhsBoundsSound(t, n + i, sol, |t.rows|, d);
  }

  /** Every row has the objective row's width, and a constraint entry
      reports the ends of its `RhsBounds` range. */
  lemma ConstraintEntryRange(t: Tableau, rhs: seq<real>, n: nat, i: nat)
    requires Rectangular(t) && !NoZRow(t) && i < |rhs| && n + i < |ZRowOf(t)|
    ensures forall r :: 0 <= r < |t.rows| ==> |t.rows[r]| == |ZRowOf(t)|
    ensures var c := ConstraintEntryOf(t, rhs, n, i);
      var b := RhsBounds(t, n + i, |ZRowOf(t)| - 1, |t.rows|);
      c.allowIncrease == b.hi && c.allowDecrease == Decrease(b.lo)
  {
    assert ZRowOf(t) == t.rows[IndexOf(t.labels, E)];
  }

  /** On a lower end at most 0, minus `allow_decrease` is the lower end. */
  lemma DecreaseUndone(lo: Ext)
    requires ExtAtMost(lo, Finite(0.0))
    ensures Negated(Decrease(lo)) == lo
  {
  }

  /** The reported cost range of a basic variable is sound: when every
      counted reduced cost is non-negative, changing the variable's cost by
      any D from -allow_decrease to allow_increase keeps every counted
      reduced cost rc - a D non-negative. */
  lemma BasicCostRangeSound(t: Tableau, obj: seq<real>, j: nat, d: real)
    requires Rectangular(t) && !NoZRow(t) && j < |obj| && j < |ZRowOf(t)| && X(j + 1) in t.labels
    requires forall k :: 0 <= k < |ZRowOf(t)| - 1 && CostCounts(ZRowOf(t), BasicRow(t, j), k) ==> ZRowOf(t)[k] >= 0.0
    requires var v := VariableEntryOf(t, obj, j); Between(Negated(v.allowDecrease), d, v.allowIncrease)
    ensures forall k :: 0 <= k < |ZRowOf(t)| - 1 && CostCounts(ZRowOf(t), BasicRow(t, j), k) ==>
      ZRowOf(t)[k] - BasicRow(t, j)[k] * d >= 0.0
  {
    var z := ZRowOf(t);
    var row := BasicRow(t, j);
    var b := CostBounds(z, row, |z| - 1);
    var v := VariableEntryOf(t, obj, j);
    assert VariableRange(t, j) == b;
    assert v.allowIncrease == b.hi && v.allowDecrease == Decrease(b.lo);
    CostBoundsHoldZero(z, row, |z| - 1);
    assert Negated(Decrease(b.lo)) == b.lo;
    CostBoundsSound(z, row, |z| - 1, d);
  }

  /** A non-basic variable is reported with final value 0, allow_increase
      equal to its reduced cost and an unlimited decrease, whatever the
      direction of optimisation. */
  lemma NonBasicCostRange(t: Tableau, obj: seq<real>, j: nat)
    requires Rectangular(t) && !NoZRow(t) && j < |obj| && j < |ZRowOf(t)| && X(j + 1) !in t.labels
    ensures var v := VariableEntryOf(t, obj, j);
      && v.finalValue == 0.0 && v.reducedCost == ZRowOf(t)[j]
      && v.allowIncrease == Finite(v.reducedCost) && v.allowDecrease == PosInf
  {
  }
}
