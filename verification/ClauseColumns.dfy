/**
 * Which column the numeral of a clause finds when `src/engine/executor.rs` writes the clause back for the
 * batch path, and when that path is therefore right.
 */
module ClauseColumns {
  import opened BatchFilter
  import opened Machine
  import opened Numerals
  import opened Options
  import opened RowFilter

  /** The column that bears this column's numeral as its name, or else the column itself. */
  function Found(names: seq<string>, col: nat): (idx: nat)
    requires col < |names|
    ensures idx < |names|
  {
    if ColumnIdx(names, Numeral(col)).Some? then ColumnIdx(names, Numeral(col)).value else col
  }

  lemma NumeralResolves(names: seq<string>, col: nat)
    requires col < |names| && col < U64_RANGE
    ensures ResolveIndex(names, Numeral(col)) == Some(Found(names, col))
  {
    NoDot(Numeral(col));
    DigitsTrip(col);
  }

  /** No column bears the numeral of another one the clause uses. */
  predicate SelfNamed(names: seq<string>, c: Clause)
    requires InTable(c, |names|)
  {
    match c
    case NoWhere => true
    case Single(col, _, _) => Found(names, col) == col
    case And(l, r) => SelfNamed(names, l) && SelfNamed(names, r)
    case Or(l, r) => SelfNamed(names, l) && SelfNamed(names, r)
  }

  /** The batch path marks exactly the rows the clause accepts. */
  ghost predicate BatchAgrees(env: Env, t: Table, c: Clause)
    requires Rect(t)
  {
    var mask := WhereMask(env, t, ToExpr(c), AllTrue(t.rowCount));
    mask.Some? && |mask.value| == t.rowCount && forall i | 0 <= i < t.rowCount ::
        mask.value[i] == RowMatches(c, RowOf(t, i))
  }

  lemma {:induction false} BatchRefinesRows(env: Env, t: Table, c: Clause)
    requires Rect(t) && InTable(c, |t.names|) && |t.names| <= U64_RANGE && SelfNamed(t.names, c)
    ensures BatchAgrees(env, t, c)
  {
    match c
    case NoWhere =>
    case Single(col, op, value) =>
      SingleAgrees(env, t, col, op, value);
    case And(l, r) =>
      BatchRefinesRows(env, t, l);
      BatchRefinesRows(env, t, r);
    case Or(l, r) =>
      BatchRefinesRows(env, t, l);
      BatchRefinesRows(env, t, r);
  }

  /** What the batch path computes for one comparison: the comparison of the column the numeral finds. */
  lemma SingleMask(env: Env, t: Table, col: nat, op: Op, value: u64)
    requires Rect(t) && col < |t.columns| <= U64_RANGE && IsComparison(op)
    ensures WhereMask(env, t, ToExpr(Single(col, op, value)), AllTrue(t.rowCount))
         == Some(Marks(t.columns[Found(t.names, col)], op, value))
  {
    NumeralResolves(t.names, col);
    CastTrip(value);
  }

  lemma SingleAgrees(env: Env, t: Table, col: nat, op: Op, value: u64)
    requires Rect(t) && col < |t.columns| <= U64_RANGE && IsComparison(op)
    requires Found(t.names, col) == col || Constant(op, value)
    ensures BatchAgrees(env, t, Single(col, op, value))
  {
    SingleMask(env, t, col, op, value);
  }

  /** A table of one row on which the batch path errs. */
  lemma SingleErrs(env: Env, names: seq<string>, col: nat, op: Op, value: u64) returns (t: Table)
    requires col < |names| <= U64_RANGE && IsComparison(op) && Found(names, col) != col && !Constant(op, value)
    ensures Rect(t) && t.names == names && !BatchAgrees(env, t, Single(col, op, value))
  {
    var own, other := Discerning(op, value);
    t := Table(seq(|names|, k => [if k == col then own else other]), names, 1, []);
    SingleMask(env, t, col, op, value);
    assert RowOf(t, 0)[col] == own;
    assert t.columns[Found(names, col)] == [other];
    assert Marks(t.columns[Found(names, col)], op, value)[0] == Compare(op, other, value);
  }

  /**
   * One comparison: the batch path is right on every table with these column names exactly when no other
   * column bears the numeral, or the comparison does not look at the cell.
   */
  lemma SingleExact(env: Env, names: seq<string>, col: nat, op: Op, value: u64)
    requires col < |names| <= U64_RANGE && IsComparison(op)
    ensures (forall t: Table | Rect(t) && t.names == names :: BatchAgrees(env, t, Single(col, op, value)))
            <==> Found(names, col) == col || Constant(op, value)
  {
    if Found(names, col) == col || Constant(op, value) {
      forall t: Table | Rect(t) && t.names == names ensures BatchAgrees(env, t, Single(col, op, value)) {
        SingleAgrees(env, t, col, op, value);
      }
    } else {
      var t := SingleErrs(env, names, col, op, value);
    }
  }

  /** A column named "1" before it captures the numeral of column 1: the batch path filters the wrong column. */
  lemma CapturedNumeral(env: Env, t: Table)
    requires t == Table([[5], [7]], ["1", "x"], 1, [])
    ensures RowMatches(Single(1, Eq, 7), RowOf(t, 0))
    ensures WhereMask(env, t, ToExpr(Single(1, Eq, 7)), AllTrue(1)) == Some([false])
  {
    assert Numeral(1) == "1" && ColumnIdx(t.names, "1") == Some(0);
    SingleMask(env, t, 1, Eq, 7);
    assert Marks([5], Eq, 7) == [false];
  }

  /** `filter_indices`: on self-named clauses, exactly the rows the reference returns, in the same order. */
  method BatchIndices(env: Env, t: Table, c: Clause) returns (r: Option<seq<nat>>)
    requires Rect(t) && InTable(c, |t.names|) && |t.names| <= U64_RANGE
    ensures SelfNamed(t.names, c) ==> r.Some?
    ensures SelfNamed(t.names, c) ==> forall i: nat :: i in r.value <==> i < t.rowCount && RowMatches(c, RowOf(t, i))
    ensures SelfNamed(t.names, c) ==> forall a, b | 0 <= a < b < |r.value| :: r.value[a] < r.value[b]
  {
    if c.NoWhere? {
      var all := FilterIndices(c, t);
      return Some(all);
    }
    r := FilterRows(env, t, ToExpr(c));
    if SelfNamed(t.names, c) {
      BatchRefinesRows(env, t, c);
    }
  }
}
