/** Shared vocabulary of the linear-programming core: the two numeric
    tolerances, extended reals for the unbounded ranging limits, table cells
    as the user typed them, and a few sequence helpers. */
module Common {

  /** Tolerance of every pivot, optimality and ranging decision (1e-9). */
  const Eps: real := 0.000000001

  /** Tolerance of the geometric feasibility and equality checks (1e-5). */
  const FeasTol: real := 0.00001

  datatype Option<T> = None | Some(value: T)

  datatype Result<T, E> = Success(value: T) | Failure(error: E)

  /** A real number or one of the two infinities that the source writes as
      float('-inf') and float('inf') (and prints as "-∞", "+∞", "∞"). */
  datatype Ext = NegInf | Finite(v: real) | PosInf

  /** Strict order on extended reals. */
  predicate ExtLess(a: Ext, b: Ext)
  {
    match (a, b)
    case (NegInf, NegInf) => false
    case (NegInf, _) => true
    case (Finite(x), Finite(y)) => x < y
    case (Finite(_), PosInf) => true
    case (_, _) => false
  }

  /** `a <= b` on extended reals. */
  predicate ExtAtMost(a: Ext, b: Ext)
  {
    a == b || ExtLess(a, b)
  }

  /** A real D lies between two extended bounds, both inclusive. */
  predicate Between(lo: Ext, d: real, hi: Ext)
  {
    ExtAtMost(lo, Finite(d)) && ExtAtMost(Finite(d), hi)
  }

  /** The text of one table cell: empty (or only blanks), a number that
      float() accepts, or text that float() rejects with ValueError. */
  datatype Cell = Blank | Number(value: real) | Unparsable

  /** The value a readable cell stands for: blank cells read as 0.0. */
  function CellValue(c: Cell): (v: real)
    requires !c.Unparsable?
    ensures c.Blank? ==> v == 0.0
    ensures c.Number? ==> v == c.value
  {
    if c.Number? then c.value else 0.0
  }

  /** Python's `abs`. */
  function Abs(x: real): (r: real)
    ensures r >= 0.0 && (r == x || r == -x)
  {
    if x < 0.0 then -x else x
  }

  /** Python's `s[::-1]`. */
  function Reverse<T>(s: seq<T>): (r: seq<T>)
    ensures |r| == |s|
    ensures forall i :: 0 <= i < |s| ==> r[i] == s[|s| - 1 - i]
  {
    seq(|s|, i requires 0 <= i < |s| => s[|s| - 1 - i])
  }

  /** Elementwise negation, Python's `[-1 * x for x in s]`. */
  function Negate(s: seq<real>): (r: seq<real>)
    ensures |r| == |s|
    ensures forall i :: 0 <= i < |s| ==> r[i] == -s[i]
  {
    seq(|s|, i requires 0 <= i < |s| => -1.0 * s[i])
  }

  /** A row of `n` zeros. */
  function Zeros(n: nat): (r: seq<real>)
    ensures |r| == n
    ensures forall i :: 0 <= i < n ==> r[i] == 0.0
  {
    seq(n, i => 0.0)
  }

  /** Python's `max(s)` on a non-empty list. */
  function Max(s: seq<real>): (m: real)
    requires |s| > 0
    ensures m in s
  {
    if |s| == 1 then s[0]
    else
      var rest := Max(s[..|s| - 1]);
      if s[|s| - 1] > rest then s[|s| - 1] else rest
  }

  /** Python's `min(s)` on a non-empty list. */
  function Min(s: seq<real>): (m: real)
    requires |s| > 0
    ensures m in s
  {
    if |s| == 1 then s[0]
    else
      var rest := Min(s[..|s| - 1]);
      if s[|s| - 1] < rest then s[|s| - 1] else rest
  }

  /** Python's `s.index(v)`: the first position holding `v`. */
  function IndexOf<T(==)>(s: seq<T>, v: T): (k: nat)
    requires v in s
    ensures k < |s| && s[k] == v
  {
    if s[0] == v then 0 else 1 + IndexOf(s[1..], v)
  }

  /** No element of `s` exceeds `Max(s)`. */
  lemma {:induction false} MaxIsGreatest(s: seq<real>)
    requires |s| > 0
    ensures forall i :: 0 <= i < |s| ==> s[i] <= Max(s)
  {
    if |s| > 1 {
      var init := s[..|s| - 1];
      MaxIsGreatest(init);
      assert forall i :: 0 <= i < |s| - 1 ==> s[i] == init[i];
    }
  }

  /** No element of `s` is below `Min(s)`. */
  lemma {:induction false} MinIsLeast(s: seq<real>)
    requires |s| > 0
    ensures forall i :: 0 <= i < |s| ==> Min(s) <= s[i]
  {
    if |s| > 1 {
      var init := s[..|s| - 1];
      MinIsLeast(init);
      assert forall i :: 0 <= i < |s| - 1 ==> s[i] == init[i];
    }
  }

  /** No position before `IndexOf(s, v)` holds `v`. */
  lemma {:induction false} IndexOfFirst<T>(s: seq<T>, v: T)
    requires v in s
    ensures forall j :: 0 <= j < IndexOf(s, v) ==> s[j] != v
  {
    if s[0] != v {
      assert v in s[1..] by {
        var i :| 0 <= i < |s| && s[i] == v;
        assert s[1..][i - 1] == v;
      }
      IndexOfFirst(s[1..], v);
      forall j | 0 <= j < IndexOf(s, v)
        ensures s[j] != v
      {
        if j > 0 { assert s[j] == s[1..][j - 1]; }
      }
    }
  }
}
