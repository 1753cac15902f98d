/** The data a cycle of a FLUKA simulation holds: one row per record of the
    cycle's data file, with the eight columns the calculator names, and the
    row filter the aggregators apply before binning. */
module Tables {

  /** One record `(id, kinE, x, y, z, cx, cy, cz)` of a cycle's table. */
  datatype Row = Row(id: int, kinE: real, x: real, y: real, z: real, cx: real, cy: real, cz: real)

  /** The rows of one cycle, in file order. */
  type Table = seq<Row>

  /** The `condition` argument: the empty string leaves the table as it is;
      anything else goes to `df.query`, whose expression language is
      abstracted to a predicate on rows. */
  datatype Condition = NoCondition | Query(holds: Row -> bool)

  predicate Selects(c: Condition, row: Row)
  {
    c.NoCondition? || c.holds(row)
  }

  /** The rows of `t` that satisfy `p`, in their original order. */
  function Select(p: Row -> bool, t: Table): (r: Table)
    ensures |r| <= |t|
    ensures forall row :: row in r <==> row in t && p(row)
  {
    if |t| == 0 then []
    else
      var init := Select(p, t[..|t| - 1]);
      assert t == t[..|t| - 1] + [t[|t| - 1]];
      if p(t[|t| - 1]) then init + [t[|t| - 1]] else init
  }

  /** `df.query(condition)` when the condition is not empty, `df` otherwise. */
  function Filter(c: Condition, t: Table): (r: Table)
    ensures |r| <= |t|
    ensures forall row :: row in r <==> row in t && Selects(c, row)
    ensures c.NoCondition? ==> r == t
  {
    if c.NoCondition? then t else Select(c.holds, t)
  }

  /** A query keeps every copy of a row that satisfies it and no copy of
      one that does not, so duplicate rows keep their multiplicity. */
  lemma {:induction false} SelectMultiplicity(p: Row -> bool, t: Table)
    ensures forall row :: multiset(Select(p, t))[row] == if p(row) then multiset(t)[row] else 0
  {
    if |t| > 0 {
      SelectMultiplicity(p, t[..|t| - 1]);
      assert t == t[..|t| - 1] + [t[|t| - 1]];
    }
  }

  /** The same for the filter: each row keeps its number of copies exactly
      when the condition selects it. */
  lemma FilterMultiplicity(c: Condition, t: Table)
    ensures forall row :: multiset(Filter(c, t))[row] == if Selects(c, row) then multiset(t)[row] else 0
  {
    if c.Query? {
      SelectMultiplicity(c.holds, t);
    }
  }

  /** A column computed row by row, as `func_df(df)` and `weight_fun(df)`
      compute one. */
  function Project(t: Table, f: Row -> real): (col: seq<real>)
    ensures |col| == |t|
    ensures forall k :: 0 <= k < |t| ==> col[k] == f(t[k])
  {
    seq(|t|, k requires 0 <= k < |t| => f(t[k]))
  }

  /** The number of rows of `t` that satisfy `p`. */
  function CountWhere(p: Row -> bool, t: Table): nat
  {
    if |t| == 0 then 0
    else CountWhere(p, t[..|t| - 1]) + (if p(t[|t| - 1]) then 1 else 0)
  }

  /** A query keeps exactly the rows that satisfy it: its length is their
      number, and no condition keeps every row. */
  lemma {:induction false} FilterLength(c: Condition, t: Table)
    ensures c.NoCondition? ==> |Filter(c, t)| == |t|
    ensures c.Query? ==> |Filter(c, t)| == CountWhere(c.holds, t)
  {
    if c.Query? && |t| > 0 {
      FilterLength(c, t[..|t| - 1]);
    }
  }
}
