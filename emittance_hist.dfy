/** `get_emittance_hist` and `get_emittance_cycles`: the rows of a cycle are
    grouped by `pd.cut` on kinetic energy, the emittance of each non-empty
    group is written to the next free slot of a zero-filled array, and the
    arrays of several cycles are averaged bin by bin. */
module EmittanceHistograms {
  import opened Numerics
  import opened Outcomes
  import opened Statistics
  import opened Tables
  import opened Histograms
  import opened Emittance

  // ------------------------------------------------------------- pd.cut

  predicate StrictlyIncreasing(e: seq<real>)
  {
    forall i :: 0 <= i < |e| - 1 ==> e[i] < e[i + 1]
  }

  /** Edges `pd.cut` accepts: non-decreasing, and without a repeated edge
      unless there are exactly two. */
  predicate CutEdges(e: seq<real>)
  {
    Monotonic(e) && (StrictlyIncreasing(e) || |e| == 2)
  }

  /** Interval j of `pd.cut` is (e[j], e[j+1]]: open on the left, so a value
      equal to the lowest edge falls in no interval. */
  predicate InCut(e: seq<real>, j: int, x: real)
  {
    0 <= j < |e| - 1 && e[j] < x <= e[j + 1]
  }

  /** The rows whose kinetic energy falls in interval j, in table order. */
  function CutGroup(e: seq<real>, t: Table, j: int): (g: Table)
    ensures |g| <= |t|
  {
    if |t| == 0 then []
    else
      var init := CutGroup(e, t[..|t| - 1], j);
      if InCut(e, j, t[|t| - 1].kinE) then init + [t[|t| - 1]] else init
  }

  /** A group holds exactly the rows of the table that fall in its interval. */
  lemma {:induction false} CutGroupMembers(e: seq<real>, t: Table, j: int)
    ensures forall row :: row in CutGroup(e, t, j) <==> row in t && InCut(e, j, row.kinE)
    ensures forall row :: multiset(CutGroup(e, t, j))[row] == if InCut(e, j, row.kinE) then multiset(t)[row] else 0
  {
    if |t| > 0 {
      CutGroupMembers(e, t[..|t| - 1], j);
      assert t == t[..|t| - 1] + [t[|t| - 1]];
    }
  }

  /** The intervals among the first n that hold a row, in increasing order:
      the groups `groupby(..., observed=True)` visits. */
  function Observed(e: seq<real>, t: Table, n: nat): (obs: seq<nat>)
    requires n <= NumBins(e)
    ensures |obs| <= n
  {
    if n == 0 then []
    else
      var prev := Observed(e, t, n - 1);
      if |CutGroup(e, t, n - 1)| > 0 then prev + [n - 1] else prev
  }

  /** Observed lists exactly the occupied intervals below n, each once and
      in increasing order. */
  lemma {:induction false} ObservedMeaning(e: seq<real>, t: Table, n: nat)
    requires n <= NumBins(e)
    ensures var obs := Observed(e, t, n);
            && (forall k :: 0 <= k < |obs| ==> obs[k] < n && |CutGroup(e, t, obs[k])| > 0)
            && (forall k, l :: 0 <= k < l < |obs| ==> obs[k] < obs[l])
            && (forall j :: 0 <= j < n && |CutGroup(e, t, j)| > 0 ==> j in obs)
  {
    if n > 0 {
      ObservedMeaning(e, t, n - 1);
      var prev := Observed(e, t, n - 1);
      if |CutGroup(e, t, n - 1)| > 0 {
        assert Observed(e, t, n) == prev + [n - 1];
      } else {
        assert Observed(e, t, n) == prev;
      }
    }
  }

  /** Every value in (e[0], e[|e|-1]] lies in exactly one interval. */
  lemma {:induction false} CutFrom(e: seq<real>, i: nat, x: real)
    requires Monotonic(e) && i < |e| - 1 && e[i] < x <= e[|e| - 1]
    ensures exists j :: InCut(e, j, x)
    decreases |e| - i
  {
    if x > e[i + 1] {
      CutFrom(e, i + 1, x);
    } else {
      assert InCut(e, i, x);
    }
  }

  lemma CutUnique(e: seq<real>, x: real, j: int, j': int)
    requires Monotonic(e) && InCut(e, j, x) && InCut(e, j', x)
    ensures j == j'
  {
    if j < j' {
      MonotonicOrdered(e, j + 1, j');
    } else if j' < j {
      MonotonicOrdered(e, j' + 1, j);
    }
  }

  /** The intervals cover (e[0], e[|e|-1]] without overlap and nothing else. */
  lemma CutPartition(e: seq<real>, x: real)
    requires Monotonic(e) && |e| >= 2
    ensures (exists j :: InCut(e, j, x)) <==> e[0] < x <= e[|e| - 1]
    ensures forall j, j' :: InCut(e, j, x) && InCut(e, j', x) ==> j == j'
  {
    if e[0] < x <= e[|e| - 1] {
      CutFrom(e, 0, x);
    }
    if exists j :: InCut(e, j, x) {
      var j :| InCut(e, j, x);
      MonotonicOrdered(e, 0, j);
      MonotonicOrdered(e, j + 1, |e| - 1);
    }
    forall j, j' | InCut(e, j, x) && InCut(e, j', x) {
      CutUnique(e, x, j, j');
    }
  }

  /** The lowest edge is counted by `np.histogram` but dropped by `pd.cut`. */
  lemma LowestEdgeConventions(e: seq<real>)
    requires Monotonic(e) && |e| >= 2 && e[0] < e[1]
    ensures InBin(e, 0, e[0])
    ensures forall j :: !InCut(e, j, e[0])
  {
    forall j | 0 <= j < |e| - 1
      ensures !InCut(e, j, e[0])
    {
      if InCut(e, j, e[0]) {
        MonotonicOrdered(e, 0, j);
      }
    }
  }

  // ------------------------------------------------------ one cycle

  /** The emittances of the groups `groupby` visits among the first n
      intervals, in the order it visits them. */
  function Packed(roots: Roots, e: seq<real>, t: Table, n: nat): (v: seq<Value>)
    requires roots.Root4Exact()
    requires n <= NumBins(e)
    ensures |v| <= n
  {
    if n == 0 then []
    else
      var prev := Packed(roots, e, t, n - 1);
      var group := CutGroup(e, t, n - 1);
      if |group| > 0 then prev + [GroupEmittance(roots, group)] else prev
  }

  /** Entry k of Packed is the emittance of the k-th observed interval. */
  lemma {:induction false} PackedObserved(roots: Roots, e: seq<real>, t: Table, n: nat)
    requires roots.Root4Exact()
    requires n <= NumBins(e)
    ensures |Packed(roots, e, t, n)| == |Observed(e, t, n)|
    ensures forall k :: 0 <= k < |Observed(e, t, n)| ==>
              Packed(roots, e, t, n)[k] == GroupEmittance(roots, CutGroup(e, t, Observed(e, t, n)[k]))
  {
    if n > 0 {
      PackedObserved(roots, e, t, n - 1);
    }
  }

  /** The array `get_emittance_hist` returns for edges `pd.cut` accepts:
      the emittances of the non-empty groups from slot 0 on, and the 0 the
      array was created with in the slots after them. */
  function EmittanceValues(roots: Roots, e: seq<real>, t: Table): (y: seq<Value>)
    requires roots.Root4Exact()
    requires |e| > 0
    ensures |y| == |e| - 1
  {
    var packed := Packed(roots, e, t, |e| - 1);
    packed + seq(|e| - 1 - |packed|, _ => Defined(0.0))
  }

  /** An emittance is never exactly 0, so a 0 in the array marks exactly the
      slots left over after the last non-empty group. */
  lemma ZeroMarksPadding(roots: Roots, e: seq<real>, t: Table, k: int)
    requires roots.Root4Exact()
    requires |e| > 0 && 0 <= k < |e| - 1
    ensures EmittanceValues(roots, e, t)[k] == Defined(0.0) <==> k >= |Observed(e, t, |e| - 1)|
  {
    PackedObserved(roots, e, t, |e| - 1);
  }

  /** `get_emittance_hist(ene_bins, df)`. `np.zeros` fails first on an empty
      edge list; then `pd.cut` rejects decreasing edges and repeated ones. */
  function EmittanceHist(roots: Roots, e: seq<real>, t: Table): (r: Result<seq<Value>>)
    requires roots.Root4Exact()
    ensures r == Failure(NegativeDimensions) <==> |e| == 0
    ensures r == Failure(BinsNotMonotonic) <==> |e| > 0 && !Monotonic(e)
    ensures r == Failure(BinEdgesNotUnique) <==> |e| > 0 && Monotonic(e) && !CutEdges(e)
    ensures r.Success? <==> |e| > 0 && CutEdges(e)
    ensures r.Success? ==> |r.value| == |e| - 1
  {
    if |e| == 0 then Failure(NegativeDimensions)
    else if !Monotonic(e) then Failure(BinsNotMonotonic)
    else if !CutEdges(e) then Failure(BinEdgesNotUnique)
    else Success(EmittanceValues(roots, e, t))
  }

  method GetEmittanceHist(roots: Roots, e: seq<real>, t: Table) returns (r: Result<seq<Value>>)
    requires roots.Root4Exact()
    ensures r == EmittanceHist(roots, e, t)
  {
    if |e| == 0 {
      return Failure(NegativeDimensions);
    }
    var yOut := new Value[|e| - 1](_ => Defined(0.0));
    if !Monotonic(e) {
      return Failure(BinsNotMonotonic);
    }
    if !CutEdges(e) {
      return Failure(BinEdgesNotUnique);
    }
    var idx := 0;
    var j := 0;
    while j < |e| - 1
      invariant 0 <= j <= |e| - 1
      invariant idx == |Packed(roots, e, t, j)| && yOut[..idx] == Packed(roots, e, t, j)
      invariant forall k :: idx <= k < |e| - 1 ==> yOut[k] == Defined(0.0)
    {
      var group := CutGroup(e, t, j);
      if |group| > 0 {
        yOut[idx] := GroupEmittance(roots, group);
        assert yOut[..idx + 1] == yOut[..idx] + [yOut[idx]];
        idx := idx + 1;
      }
      j := j + 1;
    }
    PaddedPacked(roots, e, t, yOut[..], idx);
    r := Success(yOut[..]);
  }

  /** An array that holds the packed emittances followed by zeros is the
      array EmittanceValues describes. */
  lemma PaddedPacked(roots: Roots, e: seq<real>, t: Table, y: seq<Value>, idx: nat)
    requires roots.Root4Exact()
    requires |e| > 0 && |y| == |e| - 1 && idx <= |y|
    requires y[..idx] == Packed(roots, e, t, |e| - 1)
    requires forall k :: idx <= k < |y| ==> y[k] == Defined(0.0)
    ensures y == EmittanceValues(roots, e, t)
  {
    assert y[idx..] == seq(|e| - 1 - idx, _ => Defined(0.0));
    assert y == y[..idx] + y[idx..];
  }

  /** When every interval holds a row, slot j is the emittance of interval j. */
  lemma {:induction false} ObservedEverything(e: seq<real>, t: Table, n: nat)
    requires n <= NumBins(e)
    requires forall j :: 0 <= j < n ==> |CutGroup(e, t, j)| > 0
    ensures Observed(e, t, n) == seq(n, j => j)
  {
    if n > 0 {
      ObservedEverything(e, t, n - 1);
    }
  }

  lemma AllIntervalsOccupied(roots: Roots, e: seq<real>, t: Table)
    requires roots.Root4Exact()
    requires |e| > 0 && CutEdges(e)
    requires forall j :: 0 <= j < |e| - 1 ==> |CutGroup(e, t, j)| > 0
    ensures var r := EmittanceHist(roots, e, t);
            r.Success? && forall j :: 0 <= j < |e| - 1 ==> r.value[j] == GroupEmittance(roots, CutGroup(e, t, j))
  {
    ObservedEverything(e, t, |e| - 1);
    PackedObserved(roots, e, t, |e| - 1);
  }

  /** An empty interval does not leave a gap: the emittance of the next
      occupied interval moves into its slot. */
  lemma EmptyIntervalShifts(roots: Roots, e: seq<real>, t: Table)
    requires roots.Root4Exact()
    requires |e| >= 3 && CutEdges(e)
    requires |CutGroup(e, t, 0)| == 0 && |CutGroup(e, t, 1)| > 0
    ensures var r := EmittanceHist(roots, e, t);
            r.Success? && r.value[0] == GroupEmittance(roots, CutGroup(e, t, 1))
  {
    assert Observed(e, t, 1) == [];
    assert Observed(e, t, 2) == [1];
    ObservedPrefix(e, t, 2, |e| - 1);
    PackedObserved(roots, e, t, |e| - 1);
  }

  /** Looking at more intervals only appends to the observed ones. */
  lemma {:induction false} ObservedPrefix(e: seq<real>, t: Table, n: nat, n': nat)
    requires n <= n' <= NumBins(e)
    ensures Observed(e, t, n) <= Observed(e, t, n')
    decreases n' - n
  {
    if n < n' {
      ObservedPrefix(e, t, n, n' - 1);
    }
  }

  // ---------------------------------------------------------- many cycles

  /** The cycles-by-bins matrix `tot_counts` of `get_emittance_cycles`. */
  function CycleEmittances(roots: Roots, e: seq<real>, cycles: seq<Table>, cond: Condition): (rows: seq<seq<Value>>)
    requires roots.Root4Exact()
    requires |e| > 0
    ensures |rows| == |cycles|
    ensures forall k :: 0 <= k < |cycles| ==> rows[k] == EmittanceValues(roots, e, Filter(cond, cycles[k]))
  {
    seq(|cycles|, k requires 0 <= k < |cycles| => EmittanceValues(roots, e, Filter(cond, cycles[k])))
  }

  /** `get_emittance_cycles(ene_bins, cycle_list, condition, normalization)`.
      The matrix is allocated before the loop, so no edge at all fails even
      without cycles; the edge checks of `pd.cut` only run inside the loop,
      so no cycle gives a NaN mean and error for each bin and no error. */
  function EmittanceCycles(roots: Roots, e: seq<real>, cycles: seq<Table>, cond: Condition, norm: real): (r: Result<Aggregate>)
    requires roots.Root4Exact() && roots.SqrtExact()
    ensures r == Failure(NegativeDimensions) <==> |e| == 0
    ensures r == Failure(BinsNotMonotonic) <==> |e| > 0 && |cycles| > 0 && !Monotonic(e)
    ensures r == Failure(BinEdgesNotUnique) <==> |e| > 0 && |cycles| > 0 && Monotonic(e) && !CutEdges(e)
    ensures r.Failure? ==> r.error in {NegativeDimensions, BinsNotMonotonic, BinEdgesNotUnique}
    ensures r.Success? ==> |r.value.values| == |e| - 1 && |r.value.errors| == |e| - 1
    ensures r.Success? && |cycles| == 0 ==>
              forall b :: 0 <= b < |e| - 1 ==> r.value.values[b] == Undefined && r.value.errors[b] == Undefined
  {
    if |e| == 0 then Failure(NegativeDimensions)
    else if |cycles| > 0 && !Monotonic(e) then Failure(BinsNotMonotonic)
    else if |cycles| > 0 && !CutEdges(e) then Failure(BinEdgesNotUnique)
    else Success(ColumnSummariesOf(roots, CycleEmittances(roots, e, cycles, cond), |e| - 1, norm))
  }

  method GetEmittanceCycles(roots: Roots, e: seq<real>, cycles: seq<Table>, cond: Condition, norm: real)
    returns (r: Result<Aggregate>)
    requires roots.Root4Exact() && roots.SqrtExact()
    ensures r == EmittanceCycles(roots, e, cycles, cond, norm)
  {
    if |e| == 0 {
      return Failure(NegativeDimensions);
    }
    var m := |e| - 1;
    // the cycles-by-bins matrix, held as one row per cycle
    var tot := new seq<Value>[|cycles|](_ => seq(m, _ => Defined(0.0)));
    var c := 0;
    while c < |cycles|
      invariant 0 <= c <= |cycles|
      invariant c > 0 ==> CutEdges(e)
      invariant forall k :: 0 <= k < c ==> tot[k] == EmittanceValues(roots, e, Filter(cond, cycles[k]))
    {
      var df := Filter(cond, cycles[c]);
      var current := GetEmittanceHist(roots, e, df);
      if current.Failure? {
        RejectedEdges(roots, e, cycles, cond, norm, df);
        return Failure(current.error);
      }
      tot[c] := current.value;
      c := c + 1;
    }
    var rows := tot[..];
    assert rows == CycleEmittances(roots, e, cycles, cond);
    AcceptedEdges(roots, e, cycles, cond, norm);
    r := Success(ColumnSummariesOf(roots, rows, m, norm));
  }

  /** Once the edges pass, or when there is no cycle to check them, the
      result is the per-bin summary of the matrix. */
  lemma AcceptedEdges(roots: Roots, e: seq<real>, cycles: seq<Table>, cond: Condition, norm: real)
    requires roots.Root4Exact() && roots.SqrtExact()
    requires |e| > 0 && (|cycles| > 0 ==> CutEdges(e))
    ensures EmittanceCycles(roots, e, cycles, cond, norm)
            == Success(ColumnSummariesOf(roots, CycleEmittances(roots, e, cycles, cond), |e| - 1, norm))
  {
  }

  /** With edges `pd.cut` accepts, every cycle's `get_emittance_hist`
      succeeds, and bin b of the batch is the summary of bin b of those
      arrays over the cycles. */
  lemma CyclesFromHistograms(roots: Roots, e: seq<real>, cycles: seq<Table>, cond: Condition, norm: real, b: int)
    requires roots.Root4Exact() && roots.SqrtExact()
    requires |e| > 0 && CutEdges(e) && 0 <= b < |e| - 1
    ensures var rows := CycleEmittances(roots, e, cycles, cond);
            var r := EmittanceCycles(roots, e, cycles, cond, norm);
            && (forall k :: 0 <= k < |cycles| ==> EmittanceHist(roots, e, Filter(cond, cycles[k])) == Success(rows[k]))
            && r.Success?
            && (r.value.values[b], r.value.errors[b]) == SummaryOf(roots, Column(rows, b), norm)
  {
    AcceptedEdges(roots, e, cycles, cond, norm);
  }

  /** Edges `pd.cut` rejects make the first cycle, and with it the batch,
      fail with the same error. */
  lemma RejectedEdges(roots: Roots, e: seq<real>, cycles: seq<Table>, cond: Condition, norm: real, t: Table)
    requires roots.Root4Exact() && roots.SqrtExact()
    requires |cycles| > 0 && EmittanceHist(roots, e, t).Failure?
    ensures EmittanceCycles(roots, e, cycles, cond, norm) == Failure(EmittanceHist(roots, e, t).error)
  {
  }

  /** One cycle: each bin's value is that cycle's emittance times the
      normalization (NaN stays NaN), and every error is NaN. */
  lemma SingleCycleEmittance(roots: Roots, e: seq<real>, t: Table, cond: Condition, norm: real, b: int)
    requires roots.Root4Exact() && roots.SqrtExact()
    requires |e| > 0 && CutEdges(e) && 0 <= b < |e| - 1
    ensures var r := EmittanceCycles(roots, e, [t], cond, norm);
            var v := EmittanceValues(roots, e, Filter(cond, t))[b];
            && r.Success?
            && r.value.errors[b] == Undefined
            && r.value.values[b] == (if v.Defined? then Defined(Normalize(v.v, norm)) else Undefined)
  {
    var rows := CycleEmittances(roots, e, [t], cond);
    var col := Column(rows, b);
    if AllDefined(col) {
      var xs := Numbers(col);
      assert xs == [xs[0]];
      assert Sum(xs) == Sum([]) + xs[0];
    }
  }

  /** Several cycles with a number in bin b from each: the value is the mean
      emittance times the normalization and the error its standard error; a
      NaN from any cycle makes both NaN. */
  lemma BatchEmittance(roots: Roots, e: seq<real>, cycles: seq<Table>, cond: Condition, norm: real, b: int)
    requires roots.Root4Exact() && roots.SqrtExact()
    requires |cycles| >= 2 && |e| > 0 && CutEdges(e) && 0 <= b < |e| - 1
    ensures var r := EmittanceCycles(roots, e, cycles, cond, norm);
            var col := Column(CycleEmittances(roots, e, cycles, cond), b);
            && r.Success?
            && (!AllDefined(col) ==> r.value.values[b] == Undefined && r.value.errors[b] == Undefined)
            && (AllDefined(col) ==>
                  r.value.values[b] == Defined(Normalize(Mean(Numbers(col)), norm))
                  && r.value.errors[b] == Defined(StandardError(roots, Numbers(col), norm)))
  {
    var col := Column(CycleEmittances(roots, e, cycles, cond), b);
    if AllDefined(col) {
      SummaryError(roots, Numbers(col), norm);
    }
  }
}
