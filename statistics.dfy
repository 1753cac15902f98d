/** The cycle-to-cycle statistics every aggregator in the calculator applies:
    the mean over cycles and `np.std(...) / np.sqrt(n - 1)` as its error,
    both multiplied by a normalization. */
module Statistics {
  import opened Numerics

  /** Sum of a sequence, accumulated from the front. */
  function Sum(xs: seq<real>): real
  {
    if |xs| == 0 then 0.0 else Sum(xs[..|xs| - 1]) + xs[|xs| - 1]
  }

  /** `np.mean` of a non-empty sequence. */
  function Mean(xs: seq<real>): real
    requires |xs| > 0
  {
    Sum(xs) / (|xs| as real)
  }

  /** The sum of squared deviations of `xs` from `mu`. */
  function SquaredDeviation(xs: seq<real>, mu: real): (s: real)
    ensures s >= 0.0
  {
    if |xs| == 0 then 0.0
    else
      var d := xs[|xs| - 1] - mu;
      assert d * d >= 0.0 by {
        if d < 0.0 { assert d * d == (-d) * (-d); }
      }
      SquaredDeviation(xs[..|xs| - 1], mu) + d * d
  }

  /** `np.var` with numpy's default ddof = 0: the divisor is n, not n - 1. */
  function Variance(xs: seq<real>): (v: real)
    requires |xs| > 0
    ensures v >= 0.0
  {
    SquaredDeviation(xs, Mean(xs)) / (|xs| as real)
  }

  /** The pair (mean * norm, std / sqrt(n - 1) * norm) that the source computes
      over the cycle axis. No cycle gives NaN for both; one cycle gives a
      defined mean and the error 0 / sqrt(0), which is NaN. */
  function Summary(roots: Roots, xs: seq<real>, norm: real): (s: (Value, Value))
    requires roots.SqrtExact()
    ensures s.0.Defined? <==> |xs| >= 1
    ensures s.1.Defined? <==> |xs| >= 2
  {
    if |xs| == 0 then (Undefined, Undefined)
    else
      var mean := Defined(Normalize(Mean(xs), norm));
      if |xs| == 1 then (mean, Undefined)
      else
        SqrtPositive(roots, (|xs| - 1) as real);
        (mean, Defined(Normalize(roots.sqrt(Variance(xs)) / roots.sqrt((|xs| - 1) as real), norm)))
  }

  predicate AllDefined(col: seq<Value>)
  {
    forall k :: 0 <= k < |col| ==> col[k].Defined?
  }

  function Numbers(col: seq<Value>): (xs: seq<real>)
    requires AllDefined(col)
    ensures |xs| == |col|
    ensures forall k :: 0 <= k < |col| ==> col[k] == Defined(xs[k])
  {
    seq(|col|, k requires 0 <= k < |col| => col[k].v)
  }

  /** Summary of a column that may hold NaN: numpy's mean and std of such a
      column are NaN, so one NaN makes both results NaN. */
  function SummaryOf(roots: Roots, col: seq<Value>, norm: real): (s: (Value, Value))
    requires roots.SqrtExact()
    ensures !AllDefined(col) ==> s == (Undefined, Undefined)
    ensures AllDefined(col) ==> s == Summary(roots, Numbers(col), norm)
  {
    if AllDefined(col) then Summary(roots, Numbers(col), norm) else (Undefined, Undefined)
  }

  /** Column `b` of a matrix given as a sequence of rows. */
  function Column<T>(rows: seq<seq<T>>, b: nat): (col: seq<T>)
    requires forall k :: 0 <= k < |rows| ==> b < |rows[k]|
    ensures |col| == |rows|
    ensures forall k :: 0 <= k < |rows| ==> col[k] == rows[k][b]
  {
    seq(|rows|, k requires 0 <= k < |rows| => rows[k][b])
  }

  /** The values and the errors an aggregator returns, one of each per bin. */
  datatype Aggregate = Aggregate(values: seq<Value>, errors: seq<Value>)

  /** The per-bin mean and error of a cycles-by-bins matrix of numbers, as
      `np.mean(tot, axis = 0) * norm` and
      `np.std(tot, axis = 0) / np.sqrt(n - 1) * norm` compute them. */
  function ColumnSummaries(roots: Roots, rows: seq<seq<real>>, m: nat, norm: real): (a: Aggregate)
    requires roots.SqrtExact()
    requires forall k :: 0 <= k < |rows| ==> |rows[k]| == m
    ensures |a.values| == m && |a.errors| == m
    ensures forall b :: 0 <= b < m ==> (a.values[b], a.errors[b]) == Summary(roots, Column(rows, b), norm)
  {
    Aggregate(seq(m, b requires 0 <= b < m => Summary(roots, Column(rows, b), norm).0),
              seq(m, b requires 0 <= b < m => Summary(roots, Column(rows, b), norm).1))
  }

  /** The same over a matrix whose entries may be NaN. */
  function ColumnSummariesOf(roots: Roots, rows: seq<seq<Value>>, m: nat, norm: real): (a: Aggregate)
    requires roots.SqrtExact()
    requires forall k :: 0 <= k < |rows| ==> |rows[k]| == m
    ensures |a.values| == m && |a.errors| == m
    ensures forall b :: 0 <= b < m ==> (a.values[b], a.errors[b]) == SummaryOf(roots, Column(rows, b), norm)
  {
    Aggregate(seq(m, b requires 0 <= b < m => SummaryOf(roots, Column(rows, b), norm).0),
              seq(m, b requires 0 <= b < m => SummaryOf(roots, Column(rows, b), norm).1))
  }

  // ---------------------------------------------------------------- lemmas

  /** A sequence of n copies of c sums to n * c. */
  lemma {:induction false} SumOfConstant(xs: seq<real>, c: real)
    requires forall k :: 0 <= k < |xs| ==> xs[k] == c
    ensures Sum(xs) == (|xs| as real) * c
  {
    if |xs| > 0 {
      SumOfConstant(xs[..|xs| - 1], c);
    }
  }

  lemma {:induction false} SquaredDeviationOfConstant(xs: seq<real>, c: real)
    requires forall k :: 0 <= k < |xs| ==> xs[k] == c
    ensures SquaredDeviation(xs, c) == 0.0
  {
    if |xs| > 0 {
      SquaredDeviationOfConstant(xs[..|xs| - 1], c);
    }
  }

  /** The error the batch formula amounts to, written independently of it:
      sqrt(sum_k (x_k - mean)^2 / (n (n - 1))) * norm. */
  function StandardError(roots: Roots, xs: seq<real>, norm: real): real
    requires roots.SqrtExact()
    requires |xs| >= 2
  {
    Normalize(roots.sqrt(SquaredDeviation(xs, Mean(xs)) / ((|xs| as real) * ((|xs| - 1) as real))), norm)
  }

  /** With n >= 2 cycles, `np.std(xs) / np.sqrt(n - 1) * norm`, whose std
      divides by n, is the standard error sqrt(sum (x - mean)^2 / (n (n - 1))) * norm. */
  lemma SummaryError(roots: Roots, xs: seq<real>, norm: real)
    requires roots.SqrtExact()
    requires |xs| >= 2
    ensures Summary(roots, xs, norm).1 == Defined(StandardError(roots, xs, norm))
  {
    var d := SquaredDeviation(xs, Mean(xs));
    VarianceOverDegrees(xs, d);
    ErrorIdentity(roots, Variance(xs), (|xs| - 1) as real, d / ((|xs| as real) * ((|xs| - 1) as real)), norm);
  }

  /** sqrt(v) / sqrt(m) == sqrt(v / m), on plain numbers, then normalized. */
  lemma ErrorIdentity(roots: Roots, v: real, m: real, w: real, norm: real)
    requires roots.SqrtExact()
    requires v >= 0.0 && m > 0.0 && w == v / m
    ensures roots.sqrt(m) != 0.0
    ensures Normalize(roots.sqrt(v) / roots.sqrt(m), norm) == Normalize(roots.sqrt(w), norm)
  {
    SqrtPositive(roots, m);
    assert roots.SqrtAt(v) && roots.SqrtAt(m) && roots.SqrtAt(w);
    RootOfQuotient(v, m, w, roots.sqrt(v), roots.sqrt(m), roots.sqrt(w));
  }

  /** The variance over n - 1 is the squared deviation over n (n - 1). */
  lemma VarianceOverDegrees(xs: seq<real>, d: real)
    requires |xs| >= 2
    requires d == SquaredDeviation(xs, Mean(xs))
    ensures Variance(xs) / ((|xs| - 1) as real) == d / ((|xs| as real) * ((|xs| - 1) as real))
  {
    DivideTwice(d, |xs| as real, (|xs| - 1) as real);
  }

  /** The squared error is norm^2 * sum (x - mean)^2 / (n (n - 1)), and the
      error has the sign of the normalization. */
  lemma StandardErrorSquared(roots: Roots, xs: seq<real>, norm: real)
    requires roots.SqrtExact()
    requires |xs| >= 2
    ensures norm >= 0.0 ==> StandardError(roots, xs, norm) >= 0.0
    ensures norm <= 0.0 ==> StandardError(roots, xs, norm) <= 0.0
    ensures StandardError(roots, xs, norm) * StandardError(roots, xs, norm)
            == norm * norm * (SquaredDeviation(xs, Mean(xs)) / ((|xs| as real) * ((|xs| - 1) as real)))
  {
    var w := SquaredDeviation(xs, Mean(xs)) / ((|xs| as real) * ((|xs| - 1) as real));
    var err := StandardError(roots, xs, norm);
    assert roots.SqrtAt(w);
    NormalizedSquare(roots.sqrt(w), norm, w, err);
    NormalizedSign(roots.sqrt(w), norm);
  }

  /** Cycles that all give the same number c: the mean is c * norm and the
      error is exactly 0. */
  lemma SummaryOfIdentical(roots: Roots, xs: seq<real>, c: real, norm: real)
    requires roots.SqrtExact()
    requires |xs| >= 2
    requires forall k :: 0 <= k < |xs| ==> xs[k] == c
    ensures Summary(roots, xs, norm) == (Defined(Normalize(c, norm)), Defined(0.0))
  {
    SumOfConstant(xs, c);
    assert Mean(xs) == c;
    SquaredDeviationOfConstant(xs, c);
    assert Variance(xs) == 0.0;
    var t := roots.sqrt((|xs| - 1) as real);
    SqrtPositive(roots, (|xs| - 1) as real);
    assert Normalize(roots.sqrt(Variance(xs)) / t, norm) == 0.0;
    assert Summary(roots, xs, norm).0 == Defined(Normalize(c, norm));
    assert Summary(roots, xs, norm).1 == Defined(0.0);
  }

  /** A matrix whose rows are all the same row: every column's mean is that
      row's entry and every column's error is 0. */
  lemma IdenticalRowsSummaries(roots: Roots, rows: seq<seq<real>>, m: nat, norm: real, row: seq<real>)
    requires roots.SqrtExact()
    requires |rows| >= 2 && |row| == m
    requires forall k :: 0 <= k < |rows| ==> rows[k] == row
    ensures var a := ColumnSummaries(roots, rows, m, norm);
            forall b :: 0 <= b < m ==> a.values[b] == Defined(Normalize(row[b], norm)) && a.errors[b] == Defined(0.0)
  {
    forall b | 0 <= b < m
      ensures Summary(roots, Column(rows, b), norm) == (Defined(Normalize(row[b], norm)), Defined(0.0))
    {
      SummaryOfIdentical(roots, Column(rows, b), row[b], norm);
    }
  }

  /** The per-bin counts [2, 4, 6] of three cycles have mean 4 and error
      sqrt((4 + 0 + 4) / (3 * 2)) = sqrt(4/3): the divisor of np.std is n, so the
      error is not stddev_{n-1} / sqrt(2) = sqrt(2). */
  lemma SummaryOfTwoFourSix(roots: Roots)
    requires roots.SqrtExact()
    ensures Summary(roots, [2.0, 4.0, 6.0], 1.0) == (Defined(4.0), Defined(roots.sqrt(4.0 / 3.0)))
  {
    var xs := [2.0, 4.0, 6.0];
    assert xs[..2] == [2.0, 4.0] && [2.0, 4.0][..1] == [2.0] && [2.0][..0] == [];
    assert Sum([2.0]) == 2.0;
    assert Sum([2.0, 4.0]) == 6.0;
    assert Sum(xs) == 12.0;
    assert Mean(xs) == 4.0;
    assert SquaredDeviation([2.0], 4.0) == 4.0;
    assert SquaredDeviation([2.0, 4.0], 4.0) == 4.0;
    assert SquaredDeviation(xs, 4.0) == 8.0;
    SummaryError(roots, xs, 1.0);
    assert 8.0 / (3.0 * 2.0) == 4.0 / 3.0;
  }
}
