/** Recursive common table expressions: `execute_with` and its helpers in `src/engine/mod.rs`. */
module RecursiveCte {
  import opened Counting
  import opened Machine

  /** Column-major rows, as in a `Table` or a `QueryResult`. */
  datatype Rows = Rows(columns: seq<seq<u64>>, rowCount: nat)

  ghost predicate Rect(t: Rows, ncols: nat) {
    |t.columns| == ncols && forall c | 0 <= c < ncols :: |t.columns[c]| == t.rowCount
  }

  ghost function RowAt(t: Rows, ncols: nat, i: nat): (row: seq<u64>)
    requires Rect(t, ncols) && i < t.rowCount
    ensures |row| == ncols && forall c | 0 <= c < ncols :: row[c] == t.columns[c][i]
  {
    seq(ncols, c requires 0 <= c < ncols => t.columns[c][i])
  }

  ghost function RowSet(t: Rows, ncols: nat): set<seq<u64>>
    requires Rect(t, ncols)
  {
    set i | 0 <= i < t.rowCount :: RowAt(t, ncols, i)
  }

  /** The number of rows of `result` that `table` does not hold yet. */
  ghost function NewCount(table: Rows, result: Rows, ncols: nat, n: nat): nat
    requires Rect(table, ncols) && Rect(result, ncols) && n <= result.rowCount
  {
    if n == 0 then 0
    else NewCount(table, result, ncols, n - 1) + if RowAt(result, ncols, n - 1) in RowSet(table, ncols) then 0 else 1
  }

  lemma {:induction false} NewCountZero(table: Rows, result: Rows, ncols: nat, n: nat)
    requires Rect(table, ncols) && Rect(result, ncols) && n <= result.rowCount
    ensures NewCount(table, result, ncols, n) == 0
            <==> forall i | 0 <= i < n :: RowAt(result, ncols, i) in RowSet(table, ncols)
  {
    if n > 0 {
      NewCountZero(table, result, ncols, n - 1);
    }
  }

  /** It is how many row numbers below `n` hold a row that is not in the table. */
  lemma {:induction false} NewCountIsSize(table: Rows, result: Rows, ncols: nat, n: nat)
    requires Rect(table, ncols) && Rect(result, ncols) && n <= result.rowCount
    ensures NewCount(table, result, ncols, n)
         == |set i | 0 <= i < n && RowAt(result, ncols, i) !in RowSet(table, ncols)|
  {
    if n > 0 {
      NewCountIsSize(table, result, ncols, n - 1);
      var before := set i | 0 <= i < n - 1 && RowAt(result, ncols, i) !in RowSet(table, ncols);
      var now := set i | 0 <= i < n && RowAt(result, ncols, i) !in RowSet(table, ncols);
      assert now == if RowAt(result, ncols, n - 1) in RowSet(table, ncols) then before else before + {n - 1};
    }
  }

  /** Nothing new exactly when every result row is in the table. */
  lemma NothingNew(table: Rows, result: Rows, ncols: nat)
    requires Rect(table, ncols) && Rect(result, ncols)
    ensures NewCount(table, result, ncols, result.rowCount) == 0 <==> RowSet(result, ncols) <= RowSet(table, ncols)
  {
    NewCountZero(table, result, ncols, result.rowCount);
    if RowSet(result, ncols) <= RowSet(table, ncols) {
      forall i | 0 <= i < result.rowCount ensures RowAt(result, ncols, i) in RowSet(table, ncols) {
        assert RowAt(result, ncols, i) in RowSet(result, ncols);
      }
    }
  }

  method RowsMatch(table: Rows, tRow: nat, result: Rows, rRow: nat, ncols: nat) returns (matches: bool)
    requires Rect(table, ncols) && Rect(result, ncols) && tRow < table.rowCount && rRow < result.rowCount
    ensures matches <==> RowAt(table, ncols, tRow) == RowAt(result, ncols, rRow)
  {
    for c := 0 to ncols
      invariant forall d | 0 <= d < c :: table.columns[d][tRow] == result.columns[d][rRow]
    {
      if result.columns[c][rRow] != table.columns[c][tRow] {
        assert RowAt(table, ncols, tRow)[c] != RowAt(result, ncols, rRow)[c];
        return false;
      }
    }
    return true;
  }

  /** `compute_new_rows`: how many result rows match no table row. */
  method ComputeNewRows(table: Rows, result: Rows, ncols: nat) returns (count: nat)
    requires Rect(table, ncols) && Rect(result, ncols)
    ensures count == NewCount(table, result, ncols, result.rowCount)
  {
    count := 0;
    for r := 0 to result.rowCount
      invariant count == NewCount(table, result, ncols, r)
    {
      var found := false;
      var t := 0;
      while t < table.rowCount
        invariant 0 <= t <= table.rowCount
        invariant found <==> exists u | 0 <= u < t :: RowAt(table, ncols, u) == RowAt(result, ncols, r)
      {
        var matches := RowsMatch(table, t, result, r, ncols);
        t := t + 1;
        if matches {
          found := true;
          break;
        }
      }
      assert found <==> RowAt(result, ncols, r) in RowSet(table, ncols);
      if !found {
        count := count + 1;
      }
    }
  }

  /** `append_result_rows`: every column extended by the whole result. */
  method AppendResultRows(table: Rows, result: Rows, ncols: nat) returns (table': Rows)
    requires Rect(table, ncols) && Rect(result, ncols)
    ensures table' == Appended(table, result)
  {
    var columns := [];
    for c := 0 to ncols
      invariant columns == Appended(table, result).columns[..c]
    {
      columns := columns + [table.columns[c] + result.columns[c]];
    }
    table' := Rows(columns, table.rowCount + result.rowCount);
  }

  function Appended(table: Rows, result: Rows): Rows
    requires |table.columns| == |result.columns|
  {
    Rows(seq(|table.columns|, c requires 0 <= c < |table.columns| => table.columns[c] + result.columns[c]),
         table.rowCount + result.rowCount)
  }

  /** Appending unites the row sets. */
  lemma AppendedRows(table: Rows, result: Rows, ncols: nat)
    requires Rect(table, ncols) && Rect(result, ncols)
    ensures Rect(Appended(table, result), ncols)
    ensures RowSet(Appended(table, result), ncols) == RowSet(table, ncols) + RowSet(result, ncols)
  {
    var both := Appended(table, result);
    assert Rect(both, ncols);
    forall i | 0 <= i < table.rowCount ensures RowAt(both, ncols, i) == RowAt(table, ncols, i) {
    }
    forall i | 0 <= i < result.rowCount ensures RowAt(both, ncols, table.rowCount + i) == RowAt(result, ncols, i) {
    }
    forall row | row in RowSet(both, ncols) ensures row in RowSet(table, ncols) + RowSet(result, ncols) {
      var i :| 0 <= i < both.rowCount && RowAt(both, ncols, i) == row;
      if i >= table.rowCount {
        assert RowAt(both, ncols, table.rowCount + (i - table.rowCount)) == RowAt(result, ncols, i - table.rowCount);
      }
    }
  }

  // ---------------------------------------------------------------- the iteration

  /** The recursive query, as a function of the rows the CTE holds so far. */
  type Query = Rows -> Rows

  ghost predicate Shaped(query: Query, ncols: nat) {
    forall t: Rows :: Rect(t, ncols) ==> Rect(query(t), ncols)
  }

  /** More rows in, no fewer rows out. */
  ghost predicate Monotone(query: Query, ncols: nat)
    requires Shaped(query, ncols)
  {
    forall s: Rows, t: Rows {:trigger Within(s, t, ncols)} | Within(s, t, ncols) :: Within(query(s), query(t), ncols)
  }

  /** Every row of `s` is a row of `t`. */
  ghost predicate Within(s: Rows, t: Rows, ncols: nat) {
    Rect(s, ncols) && Rect(t, ncols) && RowSet(s, ncols) <= RowSet(t, ncols)
  }

  ghost predicate Closed(query: Query, ncols: nat, t: Rows)
    requires Shaped(query, ncols) && Rect(t, ncols)
  {
    Within(query(t), t, ncols)
  }

  /** The CTE table after `n` rounds that all appended. */
  ghost function Stage(query: Query, ncols: nat, anchor: Rows, n: nat): (t: Rows)
    requires Shaped(query, ncols) && Rect(anchor, ncols)
    ensures Rect(t, ncols)
  {
    if n == 0 then anchor
    else
      var s := Stage(query, ncols, anchor, n - 1);
      AppendedRows(s, query(s), ncols);
      Appended(s, query(s))
  }

  lemma {:induction false} StageHoldsAnchor(query: Query, ncols: nat, anchor: Rows, n: nat)
    requires Shaped(query, ncols) && Rect(anchor, ncols)
    ensures Within(anchor, Stage(query, ncols, anchor, n), ncols)
  {
    if n > 0 {
      StageHoldsAnchor(query, ncols, anchor, n - 1);
      var s := Stage(query, ncols, anchor, n - 1);
      AppendedRows(s, query(s), ncols);
    }
  }

  /** Every stage stays inside every closed set of rows that holds the anchor. */
  lemma {:induction false} StageStaysInside(query: Query, ncols: nat, anchor: Rows, n: nat, c: Rows)
    requires Shaped(query, ncols) && Rect(anchor, ncols) && Rect(c, ncols)
    requires Monotone(query, ncols) && Closed(query, ncols, c) && Within(anchor, c, ncols)
    ensures Within(Stage(query, ncols, anchor, n), c, ncols)
  {
    if n > 0 {
      StageStaysInside(query, ncols, anchor, n - 1, c);
      var s := Stage(query, ncols, anchor, n - 1);
      assert Within(query(s), query(c), ncols);
      AppendedRows(s, query(s), ncols);
    }
  }

  /** The least set of rows that holds the anchor and is closed under the query. */
  ghost predicate LeastClosed(query: Query, ncols: nat, anchor: Rows, t: Rows)
    requires Shaped(query, ncols) && Rect(anchor, ncols) && Rect(t, ncols)
  {
    && Within(anchor, t, ncols)
    && Closed(query, ncols, t)
    && forall c: Rows | Within(anchor, c, ncols) && Closed(query, ncols, c) :: Within(t, c, ncols)
  }

  /** A stage is the least closed set exactly when the query adds nothing to it. */
  lemma StageLeastClosed(query: Query, ncols: nat, anchor: Rows, n: nat)
    requires Shaped(query, ncols) && Monotone(query, ncols) && Rect(anchor, ncols)
    ensures LeastClosed(query, ncols, anchor, Stage(query, ncols, anchor, n))
            <==> Closed(query, ncols, Stage(query, ncols, anchor, n))
  {
    StageHoldsAnchor(query, ncols, anchor, n);
    forall c: Rows | Within(anchor, c, ncols) && Closed(query, ncols, c)
      ensures Within(Stage(query, ncols, anchor, n), c, ncols)
    {
      StageStaysInside(query, ncols, anchor, n, c);
    }
  }

  /** The query never leaves a universe of rows. */
  ghost predicate Bounded(query: Query, ncols: nat, universe: set<seq<u64>>)
    requires Shaped(query, ncols)
  {
    forall t: Rows | Rect(t, ncols) && RowSet(t, ncols) <= universe :: RowSet(query(t), ncols) <= universe
  }

  lemma {:induction false} StageGrows(query: Query, ncols: nat, anchor: Rows, n: nat, universe: set<seq<u64>>)
    requires Shaped(query, ncols) && Rect(anchor, ncols)
    requires Bounded(query, ncols, universe) && RowSet(anchor, ncols) <= universe
    requires forall m: nat | m < n :: !Closed(query, ncols, Stage(query, ncols, anchor, m))
    ensures RowSet(Stage(query, ncols, anchor, n), ncols) <= universe
    ensures |RowSet(Stage(query, ncols, anchor, n), ncols)| >= |RowSet(anchor, ncols)| + n
  {
    if n > 0 {
      StageGrows(query, ncols, anchor, n - 1, universe);
      var s := Stage(query, ncols, anchor, n - 1);
      AppendedRows(s, query(s), ncols);
      var before, after := RowSet(s, ncols), RowSet(Stage(query, ncols, anchor, n), ncols);
      assert !Closed(query, ncols, s);
      var row :| row in RowSet(query(s), ncols) && row !in before;
      SubsetSize(before + {row}, after);
    }
  }

  /** `WITH RECURSIVE` allows this many rounds; 0 asks for the default cap. */
  function Cap(maxRecursion: nat): nat { if maxRecursion == 0 then 100_000 else maxRecursion }

  /** What the loop of `execute_with` stops with: after which stage, and whether by its break. */
  ghost predicate Outcome(query: Query, ncols: nat, anchor: Rows, cap: nat, table: Rows, rounds: nat, broke: bool)
    requires Shaped(query, ncols) && Rect(anchor, ncols)
  {
    var n := if broke then rounds - 1 else cap;
    && 0 <= n && rounds <= cap && table == Stage(query, ncols, anchor, n)
    && (broke ==> Closed(query, ncols, table))
    && (!broke ==> rounds == cap)
    && (forall m: nat | m < n :: !Closed(query, ncols, Stage(query, ncols, anchor, m)))
  }

  method Recurse(
    query: Query, ncols: nat, anchor: Rows, maxRecursion: nat) returns (table: Rows, rounds: nat, broke: bool)
    requires Shaped(query, ncols) && Rect(anchor, ncols)
    ensures Outcome(query, ncols, anchor, Cap(maxRecursion), table, rounds, broke)
    ensures maxRecursion > 0 ==> rounds <= maxRecursion && (!broke ==> rounds == maxRecursion)
    ensures maxRecursion == 0 ==> rounds <= 100_000 && (!broke ==> rounds == 100_000)
  {
    table := anchor;
    rounds := 0;
    broke := false;
    var cap := Cap(maxRecursion);
    while rounds < cap
      invariant rounds <= cap && table == Stage(query, ncols, anchor, rounds)
      invariant forall m: nat | m < rounds :: !Closed(query, ncols, Stage(query, ncols, anchor, m))
    {
      var result := query(table);
      var newRows := ComputeNewRows(table, result, ncols);
      NothingNew(table, result, ncols);
      rounds := rounds + 1;
      if newRows == 0 {
        return table, rounds, true;
      }
      table := AppendResultRows(table, result, ncols);
    }
  }

  /**
   * When the loop stops by its break the CTE holds the least closed set of rows.  Over a finite universe
   * it breaks within one round more than there are rows to discover, if the cap allows that many.
   */
  lemma RecursionComplete(query: Query, ncols: nat, anchor: Rows, cap: nat, table: Rows, rounds: nat, broke: bool)
    requires Shaped(query, ncols) && Rect(anchor, ncols) && Outcome(query, ncols, anchor, cap, table, rounds, broke)
    ensures Monotone(query, ncols) && broke ==> LeastClosed(query, ncols, anchor, table)
    ensures forall universe: set<seq<u64>> | Bounded(query, ncols, universe) && RowSet(anchor, ncols) <= universe ::
              |universe| - |RowSet(anchor, ncols)| < cap ==> broke && rounds <= |universe| - |RowSet(anchor, ncols)| + 1
  {
    var n := if broke then rounds - 1 else cap;
    if broke && Monotone(query, ncols) {
      StageLeastClosed(query, ncols, anchor, n);
    }
    RoundsBound(query, ncols, anchor, n);
  }

  lemma RoundsBound(query: Query, ncols: nat, anchor: Rows, n: nat)
    requires Shaped(query, ncols) && Rect(anchor, ncols)
    requires forall m: nat | m < n :: !Closed(query, ncols, Stage(query, ncols, anchor, m))
    ensures forall universe: set<seq<u64>> | Bounded(query, ncols, universe) && RowSet(anchor, ncols) <= universe ::
              |RowSet(anchor, ncols)| + n <= |universe|
  {
    forall universe: set<seq<u64>> | Bounded(query, ncols, universe) && RowSet(anchor, ncols) <= universe
      ensures |RowSet(anchor, ncols)| + n <= |universe|
    {
      StageGrows(query, ncols, anchor, n, universe);
      SubsetSize(RowSet(Stage(query, ncols, anchor, n), ncols), universe);
    }
  }
}
