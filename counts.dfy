/** `get_total_counts`: how many rows each cycle keeps, averaged over the
    cycles with the same spread formula as the histograms, and without a
    normalization. */
module Counting {
  import opened Numerics
  import opened Statistics
  import opened Tables

  /** The number of rows each cycle keeps under the condition. */
  function RowCounts(cycles: seq<Table>, cond: Condition): (counts: seq<real>)
    ensures |counts| == |cycles|
    ensures forall k :: 0 <= k < |cycles| ==> counts[k] == |Filter(cond, cycles[k])| as real
  {
    seq(|cycles|, k requires 0 <= k < |cycles| => |Filter(cond, cycles[k])| as real)
  }

  /** Fills `tot_counts` with `len(df)` cycle by cycle, then returns
      `np.mean(tot_counts)` and `np.std(tot_counts) / np.sqrt(n - 1)`. No
      cycle gives NaN for both and raises nothing; one cycle gives a NaN
      error. */
  method GetTotalCounts(roots: Roots, cycles: seq<Table>, cond: Condition) returns (counts: Value, error: Value)
    requires roots.SqrtExact()
    ensures (counts, error) == Summary(roots, RowCounts(cycles, cond), 1.0)
    ensures counts.Defined? <==> |cycles| >= 1
    ensures error.Defined? <==> |cycles| >= 2
    ensures |cycles| >= 1 ==> counts == Defined(Normalize(Mean(RowCounts(cycles, cond)), 1.0))
    ensures |cycles| >= 2 ==> error == Defined(StandardError(roots, RowCounts(cycles, cond), 1.0))
  {
    var tot := new real[|cycles|](_ => 0.0);
    var c := 0;
    while c < |cycles|
      invariant 0 <= c <= |cycles|
      invariant forall k :: 0 <= k < c ==> tot[k] == |Filter(cond, cycles[k])| as real
    {
      var df := Filter(cond, cycles[c]);
      tot[c] := |df| as real;
      c := c + 1;
    }
    assert tot[..] == RowCounts(cycles, cond);
    if |cycles| >= 2 {
      SummaryError(roots, tot[..], 1.0);
    }
    counts, error := Summary(roots, tot[..], 1.0).0, Summary(roots, tot[..], 1.0).1;
  }

  /** Each cycle contributes all of its rows when there is no condition, and
      the number of rows satisfying the query otherwise. */
  lemma RowCountsMeaning(cycles: seq<Table>, cond: Condition)
    ensures forall k :: 0 <= k < |cycles| ==>
              RowCounts(cycles, cond)[k]
              == (if cond.NoCondition? then |cycles[k]| else CountWhere(cond.holds, cycles[k])) as real
  {
    forall k | 0 <= k < |cycles| {
      FilterLength(cond, cycles[k]);
    }
  }
}
