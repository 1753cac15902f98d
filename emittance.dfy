/** `rmsEmittance`: the fourth root of the determinant of the sample
    covariance of the four transverse phase-space coordinates, with an exact
    zero reported as NaN; and the coordinates a group of rows provides. */
module Emittance {
  import opened Numerics
  import opened Statistics
  import opened Tables

  // ----------------------------------------------------------- covariance

  /** sum_k (xs[k] - mx) * (ys[k] - my). */
  function CrossDeviation(xs: seq<real>, ys: seq<real>, mx: real, my: real): real
    requires |xs| == |ys|
  {
    if |xs| == 0 then 0.0
    else
      var n := |xs|;
      CrossDeviation(xs[..n - 1], ys[..n - 1], mx, my) + (xs[n - 1] - mx) * (ys[n - 1] - my)
  }

  /** An entry of `np.cov`: the sample covariance, whose divisor is N - 1. */
  function Covariance(xs: seq<real>, ys: seq<real>): real
    requires |xs| == |ys| >= 2
  {
    CrossDeviation(xs, ys, Mean(xs), Mean(ys)) / ((|xs| - 1) as real)
  }

  /** `np.cov(np.vstack(vars))`: one row and one column per variable. */
  function CovarianceMatrix(vars: seq<seq<real>>, n: nat): (c: seq<seq<real>>)
    requires n >= 2 && forall i :: 0 <= i < |vars| ==> |vars[i]| == n
    ensures Square(c) && |c| == |vars|
    ensures forall i, j :: 0 <= i < |vars| && 0 <= j < |vars| ==> c[i][j] == Covariance(vars[i], vars[j])
  {
    seq(|vars|, i requires 0 <= i < |vars| =>
      seq(|vars|, j requires 0 <= j < |vars| => Covariance(vars[i], vars[j])))
  }

  /** A coordinate that does not vary has covariance 0 with every other one. */
  lemma {:induction false} ConstantCrossDeviation(xs: seq<real>, ys: seq<real>, c: real, my: real)
    requires |xs| == |ys|
    requires forall k :: 0 <= k < |xs| ==> xs[k] == c
    ensures CrossDeviation(xs, ys, c, my) == 0.0
  {
    if |xs| > 0 {
      ConstantCrossDeviation(xs[..|xs| - 1], ys[..|ys| - 1], c, my);
    }
  }

  // ---------------------------------------------------------- determinant

  predicate Square(m: seq<seq<real>>)
  {
    forall i :: 0 <= i < |m| ==> |m[i]| == |m|
  }

  /** m without its first row and its column j. */
  function Minor(m: seq<seq<real>>, j: nat): (r: seq<seq<real>>)
    requires Square(m) && |m| >= 2 && j < |m|
    ensures Square(r) && |r| == |m| - 1
  {
    seq(|m| - 1, i requires 0 <= i < |m| - 1 => m[i + 1][..j] + m[i + 1][j + 1..])
  }

  function Sign(j: nat): real
  {
    if j % 2 == 0 then 1.0 else -1.0
  }

  /** The determinant, by cofactor expansion along the first row. */
  function Det(m: seq<seq<real>>): real
    requires Square(m)
    decreases |m|, |m| + 1
  {
    if |m| == 0 then 1.0
    else if |m| == 1 then m[0][0]
    else Cofactors(m, |m|)
  }

  /** The first j terms of the expansion along the first row. */
  function Cofactors(m: seq<seq<real>>, j: nat): real
    requires Square(m) && |m| >= 2 && j <= |m|
    decreases |m|, j
  {
    if j == 0 then 0.0
    else Cofactors(m, j - 1) + Sign(j - 1) * m[0][j - 1] * Det(Minor(m, j - 1))
  }

  lemma {:induction false} CofactorsOfZeroRow(m: seq<seq<real>>, j: nat)
    requires Square(m) && |m| >= 2 && j <= |m|
    requires forall k :: 0 <= k < |m| ==> m[0][k] == 0.0
    ensures Cofactors(m, j) == 0.0
  {
    if j > 0 {
      CofactorsOfZeroRow(m, j - 1);
      var d := Det(Minor(m, j - 1));
      assert Sign(j - 1) * m[0][j - 1] * d == Sign(j - 1) * 0.0 * d;
    }
  }

  /** A matrix whose first row is zero has determinant 0. */
  lemma ZeroRowDeterminant(m: seq<seq<real>>)
    requires Square(m) && |m| >= 1
    requires forall k :: 0 <= k < |m| ==> m[0][k] == 0.0
    ensures Det(m) == 0.0
  {
    if |m| >= 2 {
      CofactorsOfZeroRow(m, |m|);
    }
  }

  // ------------------------------------------------------------ emittance

  /** The determinant of the covariance of (x, x', y, y'). */
  function PhaseSpaceDet(x: seq<real>, xp: seq<real>, y: seq<real>, yp: seq<real>): real
    requires |x| == |xp| == |y| == |yp| >= 2
  {
    Det(CovarianceMatrix([x, xp, y, yp], |x|))
  }

  /** `rmsEmittance(x, x', y, y')`. Fewer than two samples make `np.cov`
      NaN; a negative determinant raised to 1/4 is NaN; a root that is
      exactly 0 is replaced by NaN. So the result is defined exactly when the
      determinant is positive, and is then its positive fourth root. */
  function RmsEmittance(roots: Roots, x: seq<real>, xp: seq<real>, y: seq<real>, yp: seq<real>): (e: Value)
    requires roots.Root4Exact()
    requires |x| == |xp| == |y| == |yp|
    ensures e.Defined? <==> |x| >= 2 && PhaseSpaceDet(x, xp, y, yp) > 0.0
    ensures e.Defined? ==> e.v > 0.0 && e.v * e.v * e.v * e.v == PhaseSpaceDet(x, xp, y, yp)
    ensures e != Defined(0.0)
  {
    if |x| < 2 then Undefined
    else
      var det := PhaseSpaceDet(x, xp, y, yp);
      if det < 0.0 then Undefined
      else
        assert roots.Root4At(det);
        var root := roots.root4(det);
        if root == 0.0 then Undefined else Defined(root)
  }

  /** An exactly zero emittance, as from a beam whose horizontal position
      does not vary, is reported as NaN. */
  lemma FixedPositionUndefined(roots: Roots, x: seq<real>, xp: seq<real>, y: seq<real>, yp: seq<real>, c: real)
    requires roots.Root4Exact()
    requires |x| == |xp| == |y| == |yp| >= 2
    requires forall k :: 0 <= k < |x| ==> x[k] == c
    ensures RmsEmittance(roots, x, xp, y, yp) == Undefined
  {
    SumOfConstant(x, c);
    assert Mean(x) == c;
    var vars := [x, xp, y, yp];
    var m := CovarianceMatrix(vars, |x|);
    forall j | 0 <= j < 4
      ensures m[0][j] == 0.0
    {
      ConstantCrossDeviation(x, vars[j], c, Mean(vars[j]));
    }
    ZeroRowDeterminant(m);
  }

  // ---------------------------------------------------- a group of rows

  /** The coordinates `rmsEmittance` receives from a group: positions from cm
      to m, and the slopes cx/cz and cy/cz. */
  function Positions(g: Table, horizontal: bool): (r: seq<real>)
    ensures |r| == |g|
    ensures forall k :: 0 <= k < |g| ==> r[k] == (if horizontal then g[k].x else g[k].y) / 100.0
  {
    seq(|g|, k requires 0 <= k < |g| => (if horizontal then g[k].x else g[k].y) * 0.01)
  }

  function Slopes(g: Table, horizontal: bool): (r: seq<real>)
    requires forall k :: 0 <= k < |g| ==> g[k].cz != 0.0
    ensures |r| == |g|
    ensures forall k :: 0 <= k < |g| ==> r[k] * g[k].cz == (if horizontal then g[k].cx else g[k].cy)
  {
    seq(|g|, k requires 0 <= k < |g| => (if horizontal then g[k].cx else g[k].cy) / g[k].cz)
  }

  /** The emittance of one energy group. A row with cz == 0 makes a slope
      infinite or NaN, and with it the covariance and the result. */
  function GroupEmittance(roots: Roots, g: Table): (e: Value)
    requires roots.Root4Exact()
    ensures |g| < 2 ==> e == Undefined
    ensures (exists k :: 0 <= k < |g| && g[k].cz == 0.0) ==> e == Undefined
    ensures e != Defined(0.0)
  {
    if exists k :: 0 <= k < |g| && g[k].cz == 0.0 then Undefined
    else RmsEmittance(roots, Positions(g, true), Slopes(g, true), Positions(g, false), Slopes(g, false))
  }

  /** A group of two or more rows, none with cz == 0, has the emittance of
      its converted coordinates: defined exactly when their covariance
      determinant is positive, and then its positive fourth root. */
  lemma GroupEmittanceValue(roots: Roots, g: Table)
    requires roots.Root4Exact()
    requires |g| >= 2 && forall k :: 0 <= k < |g| ==> g[k].cz != 0.0
    ensures var d := PhaseSpaceDet(Positions(g, true), Slopes(g, true), Positions(g, false), Slopes(g, false));
            var e := GroupEmittance(roots, g);
            && (e.Defined? <==> d > 0.0)
            && (e.Defined? ==> e.v > 0.0 && e.v * e.v * e.v * e.v == d)
  {
  }

  /** A group of identical rows has an exactly zero emittance, reported as
      NaN. */
  lemma IdenticalRowsUndefined(roots: Roots, g: Table)
    requires roots.Root4Exact()
    requires forall k :: 0 <= k < |g| ==> g[k] == g[0]
    ensures GroupEmittance(roots, g) == Undefined
  {
    if |g| >= 2 && forall k :: 0 <= k < |g| ==> g[k].cz != 0.0 {
      FixedPositionUndefined(roots, Positions(g, true), Slopes(g, true), Positions(g, false), Slopes(g, false),
                             g[0].x * 0.01);
    }
  }
}
