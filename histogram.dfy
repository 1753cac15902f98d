/** Histogram aggregation: `np.histogram` over explicit edges, one cycle's
    weighted counts (`_add_histogram_single_cycle`) and the batch over
    cycles (`get_histogram`). */
module Histograms {
  import opened Numerics
  import opened Outcomes
  import opened Statistics
  import opened Tables

  // ------------------------------------------------------------ bin edges

  /** `np.histogram` accepts explicit edges only when no edge is smaller than
      the one before it; equal neighbours are allowed. */
  predicate Monotonic(e: seq<real>)
  {
    forall i :: 0 <= i < |e| - 1 ==> e[i] <= e[i + 1]
  }

  lemma {:induction false} MonotonicOrdered(e: seq<real>, i: int, j: int)
    requires Monotonic(e) && 0 <= i <= j < |e|
    ensures e[i] <= e[j]
    decreases j - i
  {
    if i < j {
      MonotonicOrdered(e, i + 1, j);
    }
  }

  /** n edges make n - 1 bins; no edge makes none. */
  function NumBins(e: seq<real>): nat
  {
    if |e| == 0 then 0 else |e| - 1
  }

  /** Bin b of `np.histogram` is [e[b], e[b+1]), except the last one, which
      also holds its right edge. */
  predicate InBin(e: seq<real>, b: int, x: real)
  {
    0 <= b < |e| - 1 && e[b] <= x && (x < e[b + 1] || (b == |e| - 2 && x == e[b + 1]))
  }

  /** The values `np.histogram` counts: those between the first and the last edge. */
  predicate InRange(e: seq<real>, x: real)
  {
    |e| >= 2 && e[0] <= x <= e[|e| - 1]
  }

  /** Scans the bins upward from b for the one holding x. */
  function Scan(e: seq<real>, x: real, b: nat): (r: nat)
    requires b < |e| - 1 && e[b] <= x <= e[|e| - 1]
    ensures b <= r < |e| - 1 && InBin(e, r, x)
    decreases |e| - b
  {
    if InBin(e, b, x) then b else Scan(e, x, b + 1)
  }

  /** The bin a value falls in, or -1 when it is out of range. */
  function BinOf(e: seq<real>, x: real): (b: int)
    ensures -1 <= b
    ensures b >= 0 <==> InRange(e, x)
    ensures b >= 0 ==> InBin(e, b, x)
  {
    if InRange(e, x) then Scan(e, x, 0) else -1
  }

  /** With monotonic edges a value lies in at most one bin, and only when it
      is in range: the bin is BinOf's. */
  lemma BinUnique(e: seq<real>, x: real, c: int)
    requires Monotonic(e) && InBin(e, c, x)
    ensures InRange(e, x) && BinOf(e, x) == c
  {
    MonotonicOrdered(e, 0, c);
    MonotonicOrdered(e, c + 1, |e| - 1);
    var b := BinOf(e, x);
    if b < c {
      MonotonicOrdered(e, b + 1, c);
    } else if c < b {
      MonotonicOrdered(e, c + 1, b);
    }
  }

  /** A value equal to the last edge is counted, in the last bin. */
  lemma LastEdgeCounted(e: seq<real>)
    requires Monotonic(e) && |e| >= 2
    ensures BinOf(e, e[|e| - 1]) == |e| - 2
  {
    MonotonicOrdered(e, 0, |e| - 1);
    assert InBin(e, |e| - 2, e[|e| - 1]);
    BinUnique(e, e[|e| - 1], |e| - 2);
  }

  // ----------------------------------------------------------- histograms

  function Zeros(n: nat): (z: seq<real>)
    ensures |z| == n && forall b :: 0 <= b < n ==> z[b] == 0.0
  {
    seq(n, _ => 0.0)
  }

  /** The counts after one more sample x of weight w. */
  function AddSample(h: seq<real>, e: seq<real>, x: real, w: real): (r: seq<real>)
    requires |h| == NumBins(e)
    ensures |r| == |h|
  {
    seq(|h|, b requires 0 <= b < |h| => if InBin(e, b, x) then h[b] + w else h[b])
  }

  /** `np.histogram(xs, bins = e, weights = ws)[0]`: the weight of the samples
      that fall in each bin. */
  function Histogram(e: seq<real>, xs: seq<real>, ws: seq<real>): (h: seq<real>)
    requires |xs| == |ws|
    ensures |h| == NumBins(e)
  {
    if |xs| == 0 then Zeros(NumBins(e))
    else AddSample(Histogram(e, xs[..|xs| - 1], ws[..|ws| - 1]), e, xs[|xs| - 1], ws[|ws| - 1])
  }

  /** The total weight of the samples in range. */
  function InRangeWeight(e: seq<real>, xs: seq<real>, ws: seq<real>): real
    requires |xs| == |ws|
  {
    if |xs| == 0 then 0.0
    else InRangeWeight(e, xs[..|xs| - 1], ws[..|ws| - 1])
         + (if InRange(e, xs[|xs| - 1]) then ws[|ws| - 1] else 0.0)
  }

  /** The number of samples in range. */
  function InRangeCount(e: seq<real>, xs: seq<real>): (n: nat)
    ensures n <= |xs|
  {
    if |xs| == 0 then 0
    else InRangeCount(e, xs[..|xs| - 1]) + (if InRange(e, xs[|xs| - 1]) then 1 else 0)
  }

  /** A sample in range adds its weight to exactly one bin, its own; a sample
      out of range changes nothing. */
  lemma AddToOneBin(h: seq<real>, e: seq<real>, x: real, w: real)
    requires Monotonic(e) && |h| == NumBins(e)
    ensures !InRange(e, x) ==> AddSample(h, e, x, w) == h
    ensures InRange(e, x) ==> AddSample(h, e, x, w) == h[BinOf(e, x) := h[BinOf(e, x)] + w]
  {
    forall b | 0 <= b < |h| && InBin(e, b, x)
      ensures InRange(e, x) && b == BinOf(e, x)
    {
      BinUnique(e, x, b);
    }
  }

  lemma {:induction false} SumUpdate(h: seq<real>, i: int, w: real)
    requires 0 <= i < |h|
    ensures Sum(h[i := h[i] + w]) == Sum(h) + w
  {
    var h' := h[i := h[i] + w];
    var n := |h|;
    if i == n - 1 {
      assert h'[..n - 1] == h[..n - 1];
    } else {
      assert h'[..n - 1] == h[..n - 1][i := h[i] + w];
      SumUpdate(h[..n - 1], i, w);
    }
  }

  /** Count conservation: the counts add up to the weight of the samples in
      range, whatever falls outside is dropped. */
  lemma {:induction false} HistogramConservesWeight(e: seq<real>, xs: seq<real>, ws: seq<real>)
    requires Monotonic(e) && |xs| == |ws|
    ensures Sum(Histogram(e, xs, ws)) == InRangeWeight(e, xs, ws)
  {
    if |xs| == 0 {
      SumOfConstant(Zeros(NumBins(e)), 0.0);
    } else {
      var n := |xs|;
      var h := Histogram(e, xs[..n - 1], ws[..n - 1]);
      HistogramConservesWeight(e, xs[..n - 1], ws[..n - 1]);
      AddToOneBin(h, e, xs[n - 1], ws[n - 1]);
      if InRange(e, xs[n - 1]) {
        SumUpdate(h, BinOf(e, xs[n - 1]), ws[n - 1]);
      }
    }
  }

  /** With unit weights the in-range weight is the number of samples in range. */
  lemma {:induction false} UnitWeightsCount(e: seq<real>, xs: seq<real>, ws: seq<real>)
    requires |xs| == |ws| && forall k :: 0 <= k < |ws| ==> ws[k] == 1.0
    ensures InRangeWeight(e, xs, ws) == InRangeCount(e, xs) as real
  {
    if |xs| > 0 {
      UnitWeightsCount(e, xs[..|xs| - 1], ws[..|ws| - 1]);
    }
  }

  // ------------------------------------------------------------- one cycle

  /** One cycle's weighted counts: the rows the condition keeps, binned by
      `func_df` and weighted by `weight_fun`. */
  function CycleCounts(e: seq<real>, t: Table, value: Row -> real, cond: Condition, weight: Row -> real)
    : (h: seq<real>)
    ensures |h| == NumBins(e)
  {
    var rows := Filter(cond, t);
    Histogram(e, Project(rows, value), Project(rows, weight))
  }

  function Scale(h: seq<real>, norm: real): (r: seq<real>)
    ensures |r| == |h| && forall b :: 0 <= b < |h| ==> r[b] == Normalize(h[b], norm)
  {
    seq(|h|, b requires 0 <= b < |h| => Normalize(h[b], norm))
  }

  /** `_add_histogram_single_cycle`: the cycle's counts times the
      normalization, returned twice, as the values and as their error.
      `np.histogram` raises on decreasing edges. */
  function AddHistogramSingleCycle(e: seq<real>, t: Table, value: Row -> real, cond: Condition,
                                   norm: real, weight: Row -> real): (r: Result<(seq<real>, seq<real>)>)
    ensures r.Failure? <==> !Monotonic(e)
    ensures r.Failure? ==> r.error == BinsNotMonotonic
    ensures r.Success? ==> r.value.0 == r.value.1 && |r.value.0| == NumBins(e)
    ensures r.Success? ==> forall b :: 0 <= b < NumBins(e) ==>
              r.value.0[b] == Normalize(CycleCounts(e, t, value, cond, weight)[b], norm)
  {
    if !Monotonic(e) then Failure(BinsNotMonotonic)
    else
      var counts := Scale(CycleCounts(e, t, value, cond, weight), norm);
      Success((counts, counts))
  }

  /** Count conservation for one cycle: its counts add up to the weight of the
      rows that pass the condition and lie between the first and the last edge. */
  lemma CycleConservesWeight(e: seq<real>, t: Table, value: Row -> real, cond: Condition, weight: Row -> real)
    requires Monotonic(e)
    ensures Sum(CycleCounts(e, t, value, cond, weight))
            == InRangeWeight(e, Project(Filter(cond, t), value), Project(Filter(cond, t), weight))
  {
    var rows := Filter(cond, t);
    HistogramConservesWeight(e, Project(rows, value), Project(rows, weight));
  }

  /** With unit weights one cycle's counts add up to the number of rows that
      pass the condition and lie between the first and the last edge, which is
      at most the number of rows that pass the condition. */
  lemma UnitWeightCycle(e: seq<real>, t: Table, value: Row -> real, cond: Condition, weight: Row -> real)
    requires Monotonic(e)
    requires forall row :: weight(row) == 1.0
    ensures Sum(CycleCounts(e, t, value, cond, weight))
            == InRangeCount(e, Project(Filter(cond, t), value)) as real
    ensures InRangeCount(e, Project(Filter(cond, t), value)) <= |Filter(cond, t)|
  {
    var rows := Filter(cond, t);
    HistogramConservesWeight(e, Project(rows, value), Project(rows, weight));
    UnitWeightsCount(e, Project(rows, value), Project(rows, weight));
  }

  // -------------------------------------------------------------- the batch

  /** The cycles-by-bins matrix `tot_counts`. */
  function CycleTable(e: seq<real>, cycles: seq<Table>, value: Row -> real, cond: Condition,
                      weight: Row -> real): (rows: seq<seq<real>>)
    ensures |rows| == |cycles|
    ensures forall k :: 0 <= k < |cycles| ==> rows[k] == CycleCounts(e, cycles[k], value, cond, weight)
  {
    seq(|cycles|, k requires 0 <= k < |cycles| => CycleCounts(e, cycles[k], value, cond, weight))
  }

  /** What `get_histogram` returns or raises. */
  function HistogramOutcome(roots: Roots, e: seq<real>, cycles: seq<Table>, value: Row -> real,
                            cond: Condition, norm: real, weight: Row -> real): (r: Result<Aggregate>)
    requires roots.SqrtExact()
    ensures r == Failure(EmptyCycleList) <==> |cycles| == 0
    ensures r == Failure(EmptyBins) <==> |cycles| > 0 && |e| == 0
    ensures r == Failure(BinsNotMonotonic) <==> |cycles| > 0 && |e| > 0 && !Monotonic(e)
    ensures r.Failure? ==> r.error in {EmptyCycleList, EmptyBins, BinsNotMonotonic}
    ensures r.Success? ==> |r.value.values| == |e| - 1 && |r.value.errors| == |e| - 1
  {
    if |cycles| == 0 then Failure(EmptyCycleList)
    else if |e| == 0 then Failure(EmptyBins)
    else if |cycles| == 1 then
      match AddHistogramSingleCycle(e, cycles[0], value, cond, norm, weight)
      case Failure(err) => Failure(err)
      case Success(pair) => Success(Aggregate(Lift(pair.0), Lift(pair.1)))
    else if !Monotonic(e) then Failure(BinsNotMonotonic)
    else Success(ColumnSummaries(roots, CycleTable(e, cycles, value, cond, weight), NumBins(e), norm))
  }

  /** `get_histogram`: checks its arguments, hands a single cycle to
      `_add_histogram_single_cycle`, and otherwise fills `tot_counts` cycle by
      cycle before taking the per-bin mean and error. */
  method GetHistogram(roots: Roots, e: seq<real>, cycles: seq<Table>, value: Row -> real,
                      cond: Condition, norm: real, weight: Row -> real) returns (r: Result<Aggregate>)
    requires roots.SqrtExact()
    ensures r == HistogramOutcome(roots, e, cycles, value, cond, norm, weight)
  {
    if |cycles| == 0 {
      return Failure(EmptyCycleList);
    }
    if |e| == 0 {
      return Failure(EmptyBins);
    }
    if |cycles| == 1 {
      var single := AddHistogramSingleCycle(e, cycles[0], value, cond, norm, weight);
      if single.Failure? {
        return Failure(single.error);
      }
      return Success(Aggregate(Lift(single.value.0), Lift(single.value.1)));
    }
    // np.histogram raises on the first cycle, before anything is stored
    if !Monotonic(e) {
      return Failure(BinsNotMonotonic);
    }
    var m := |e| - 1;
    // the cycles-by-bins matrix, held as one row per cycle
    var tot := new seq<real>[|cycles|](_ => Zeros(m));
    var c := 0;
    while c < |cycles|
      invariant 0 <= c <= |cycles|
      invariant forall k :: 0 <= k < c ==> tot[k] == CycleCounts(e, cycles[k], value, cond, weight)
    {
      tot[c] := CycleCounts(e, cycles[c], value, cond, weight);
      c := c + 1;
    }
    var rows := tot[..];
    assert rows == CycleTable(e, cycles, value, cond, weight);
    r := Success(ColumnSummaries(roots, rows, m, norm));
  }

  // ------------------------------------------------------------ properties

  /** One cycle: the values and the errors are the same array, the cycle's
      weighted counts times the normalization. */
  lemma SingleCycleHistogram(roots: Roots, e: seq<real>, t: Table, value: Row -> real,
                             cond: Condition, norm: real, weight: Row -> real)
    requires roots.SqrtExact()
    requires |e| > 0 && Monotonic(e)
    ensures var r := HistogramOutcome(roots, e, [t], value, cond, norm, weight);
            && r.Success?
            && r.value.values == r.value.errors
            && forall b :: 0 <= b < |e| - 1 ==>
                 r.value.values[b] == Defined(Normalize(CycleCounts(e, t, value, cond, weight)[b], norm))
  {
  }

  /** Several cycles: bin b holds the mean of the cycles' counts times the
      normalization, and their standard error
      sqrt(sum_k (c_k - mean)^2 / (n (n - 1))) times the normalization. */
  lemma BatchHistogram(roots: Roots, e: seq<real>, cycles: seq<Table>, value: Row -> real,
                       cond: Condition, norm: real, weight: Row -> real, b: int)
    requires roots.SqrtExact()
    requires |cycles| >= 2 && Monotonic(e) && 0 <= b < |e| - 1
    ensures var r := HistogramOutcome(roots, e, cycles, value, cond, norm, weight);
            var col := Column(CycleTable(e, cycles, value, cond, weight), b);
            && r.Success?
            && r.value.values[b] == Defined(Normalize(Mean(col), norm))
            && r.value.errors[b] == Defined(StandardError(roots, col, norm))
  {
    var rows := CycleTable(e, cycles, value, cond, weight);
    var a := ColumnSummaries(roots, rows, NumBins(e), norm);
    assert HistogramOutcome(roots, e, cycles, value, cond, norm, weight) == Success(a);
    var col := Column(rows, b);
    assert (a.values[b], a.errors[b]) == Summary(roots, col, norm);
    SummaryError(roots, col, norm);
  }

  /** Cycles that all give the same counts have error 0 in every bin. */
  lemma IdenticalCyclesHistogram(roots: Roots, e: seq<real>, cycles: seq<Table>, value: Row -> real,
                                 cond: Condition, norm: real, weight: Row -> real)
    requires roots.SqrtExact()
    requires |cycles| >= 2 && |e| > 0 && Monotonic(e)
    requires forall k :: 0 <= k < |cycles| ==>
               CycleCounts(e, cycles[k], value, cond, weight) == CycleCounts(e, cycles[0], value, cond, weight)
    ensures var r := HistogramOutcome(roots, e, cycles, value, cond, norm, weight);
            && r.Success?
            && forall b :: 0 <= b < |e| - 1 ==>
                 && r.value.errors[b] == Defined(0.0)
                 && r.value.values[b] == Defined(Normalize(CycleCounts(e, cycles[0], value, cond, weight)[b], norm))
  {
    var rows := CycleTable(e, cycles, value, cond, weight);
    assert HistogramOutcome(roots, e, cycles, value, cond, norm, weight)
           == Success(ColumnSummaries(roots, rows, NumBins(e), norm));
    IdenticalRowsSummaries(roots, rows, NumBins(e), norm, CycleCounts(e, cycles[0], value, cond, weight));
  }
}
