/** Numbers as the emittance calculator produces them: exact reals, with
    numpy's not-a-number made an explicit value, and the square and fourth
    roots numpy computes passed in as functions. */
module Numerics {

  /** A float result that is either a number or numpy's NaN. */
  datatype Value = Defined(v: real) | Undefined

  /** The roots the source takes with `np.sqrt` and `** (1/4)`. The two
      predicates say that they are the non-negative real roots on
      non-negative arguments; the roots of 0 are spelled out as well, since
      they follow from the laws by arithmetic the solver does not do unaided.
      Nothing else is assumed about them. */
  datatype Roots = Roots(sqrt: real -> real, root4: real -> real)
  {
    /** sqrt(x) is the non-negative square root of x. */
    ghost predicate SqrtAt(x: real)
    {
      0.0 <= sqrt(x) && sqrt(x) * sqrt(x) == x
    }

    ghost predicate SqrtExact()
    {
      && (forall x: real :: 0.0 <= x ==> SqrtAt(x))
      && sqrt(0.0) == 0.0
    }

    /** root4(x) is the non-negative fourth root of x. */
    ghost predicate Root4At(x: real)
    {
      0.0 <= root4(x) && root4(x) * root4(x) * root4(x) * root4(x) == x
    }

    ghost predicate Root4Exact()
    {
      && (forall x: real :: 0.0 <= x ==> Root4At(x))
      && root4(0.0) == 0.0
    }
  }

  /** A number whose square is positive is not 0. */
  lemma SquareIsPositive(t: real, w: real)
    requires t * t == w && w > 0.0
    ensures t != 0.0
  {
  }

  /** The square of a quotient is the quotient of the squares. */
  lemma QuotientSquared(s: real, t: real, v: real, w: real)
    requires s * s == v && t * t == w && w > 0.0
    ensures t != 0.0 && (s / t) * (s / t) == v / w
  {
    SquareIsPositive(t, w);
    var q := s / t;
    assert q * t == s;
    assert (q * q) * w == (q * t) * (q * t);
  }

  /** Two non-negative numbers with the same square are equal. */
  lemma RootUnique(x: real, y: real)
    requires x >= 0.0 && y >= 0.0 && x * x == y * y
    ensures x == y
  {
    var d, s := x - y, x + y;
    assert d * s == x * x - y * y;
    if s != 0.0 {
      assert d == (d * s) / s;
    }
  }

  /** The square root of a positive number is positive. */
  lemma SqrtPositive(roots: Roots, x: real)
    requires roots.SqrtExact() && x > 0.0
    ensures roots.sqrt(x) > 0.0
  {
    assert roots.SqrtAt(x);
    SquareIsPositive(roots.sqrt(x), x);
  }

  /** The roots of a, b and a / b: the root of the quotient is the quotient
      of the roots. */
  lemma RootOfQuotient(a: real, b: real, c: real, sa: real, sb: real, sc: real)
    requires sa >= 0.0 && sb >= 0.0 && sc >= 0.0
    requires sa * sa == a && sb * sb == b && sc * sc == c
    requires b > 0.0 && c == a / b
    ensures sb != 0.0 && sa / sb == sc
  {
    QuotientSquared(sa, sb, a, b);
    assert sa / sb >= 0.0;
    RootUnique(sa / sb, sc);
  }

  /** Dividing by n and then by m is dividing by n * m. */
  lemma DivideTwice(d: real, n: real, m: real)
    requires n > 0.0 && m > 0.0
    ensures d / n / m == d / (n * m)
  {
    var a := d / n;
    assert a * n == d;
    var b := a / m;
    assert b * m == a;
    assert b * (n * m) == d;
  }

  /** Normalizing a number by norm scales its square by norm * norm. */
  lemma NormalizedSquare(q: real, norm: real, x: real, y: real)
    requires q * q == x && y == Normalize(q, norm)
    ensures y * y == norm * norm * x
  {
    assert (q * norm) * (q * norm) == (q * q) * (norm * norm);
  }

  /** A non-negative number normalized by norm has the sign of norm. */
  lemma NormalizedSign(q: real, norm: real)
    requires q >= 0.0
    ensures norm >= 0.0 ==> Normalize(q, norm) >= 0.0
    ensures norm <= 0.0 ==> Normalize(q, norm) <= 0.0
  {
    if norm < 0.0 {
      assert q * norm == -(q * (-norm));
    }
  }

  /** A result multiplied by the caller's `normalization`. */
  function Normalize(x: real, norm: real): real
  {
    x * norm
  }

  /** Lifts a sequence of numbers to a sequence of defined values. */
  function Lift(xs: seq<real>): (r: seq<Value>)
    ensures |r| == |xs|
    ensures forall i :: 0 <= i < |xs| ==> r[i] == Defined(xs[i])
  {
    seq(|xs|, i requires 0 <= i < |xs| => Defined(xs[i]))
  }
}

/** The exceptions the core raises, and a result type that carries them. */
module Outcomes {

  datatype Error =
    | EmptyCycleList      // ValueError("Empty cycle list")
    | EmptyBins           // ValueError("Empty x_bins")
    | BinsNotMonotonic    // ValueError from np.histogram / pd.cut: edges decrease somewhere
    | BinEdgesNotUnique   // ValueError from pd.cut: a repeated edge
    | NegativeDimensions  // ValueError from np.zeros(len(ene_bins) - 1) with no edges
    | KeyError(key: string)

  datatype Result<T> = Success(value: T) | Failure(error: Error)
}
