/**
 * What the filters of `src/engine/executor.rs`, `src/engine/dispatch.rs` and `src/exec/vectorized.rs` select,
 * as laws between the sets of rows, for each of the three routes.
 */
module FilterMeaning {
  import opened BatchFilter
  import opened Machine
  import opened Options
  import opened RowFilter

  function AllRows(n: nat): (rows: set<nat>)
    ensures forall i: nat :: i in rows <==> i < n
  {
    if n == 0 then {} else AllRows(n - 1) + {n - 1}
  }

  /** The rows a mask marks. */
  ghost function Marked(mask: seq<bool>): set<nat> { set i: nat | i < |mask| && mask[i] }

  /** The rows a clause accepts. */
  ghost function Accepted(clause: Clause, t: Table): set<nat>
    requires Rect(t)
  {
    set i: nat | i < t.rowCount && RowMatches(clause, RowOf(t, i))
  }

  /** The rows of an expression that parses. */
  ghost function RowsOf(env: Env, t: Table, e: Expr): set<nat>
    requires Rect(t) && ParseExpr(env, t, e).Some?
  {
    Accepted(ParseExpr(env, t, e).value, t)
  }

  /** The rows of a column, by comparison operator. */
  datatype Selection = Selection(eq: set<nat>, ne: set<nat>, lt: set<nat>, gt: set<nat>, le: set<nat>, ge: set<nat>)

  /**
   * How the six operators divide the rows: `=` takes the equal cells and `!=` the others; `<` and `>` take the
   * smaller and the greater numbers; `<=` is `<` or `=`; `>=` is what `<` leaves.
   */
  ghost predicate Divides(col: seq<u64>, value: u64, s: Selection) {
    && s.eq == (set i: nat | i < |col| && col[i] == value)
    && s.lt == (set i: nat | i < |col| && col[i] < value)
    && s.gt == AllRows(|col|) - s.lt - s.eq
    && s.ne == AllRows(|col|) - s.eq
    && s.le == s.lt + s.eq
    && s.ge == AllRows(|col|) - s.lt
  }

  ghost function MarkedBy(col: seq<u64>, value: u64): Selection {
    Selection(Marked(Marks(col, Eq, value)), Marked(Marks(col, Ne, value)), Marked(Marks(col, Lt, value)),
              Marked(Marks(col, Gt, value)), Marked(Marks(col, Le, value)), Marked(Marks(col, Ge, value)))
  }

  lemma MarksDivide(col: seq<u64>, value: u64)
    ensures Divides(col, value, MarkedBy(col, value))
  {
  }

  // ---------------------------------------------------------------- row at a time

  lemma SingleRows(t: Table, col: nat, op: Op, value: u64)
    requires Rect(t) && col < |t.columns|
    ensures Accepted(Single(col, op, value), t) == Marked(Marks(t.columns[col], op, value))
  {
    var mask := Marks(t.columns[col], op, value);
    forall i: nat | i < t.rowCount ensures RowMatches(Single(col, op, value), RowOf(t, i)) == mask[i] {
      assert RowOf(t, i)[col] == t.columns[col][i];
    }
  }

  ghost function Compared(env: Env, t: Table, name: string, op: Op, v: Value): set<nat>
    requires Rect(t) && ColumnIdx(t.names, name).Some? && IsComparison(op)
  {
    RowsOf(env, t, Binary(Col(name), op, Lit(v)))
  }

  ghost function ComparedRows(env: Env, t: Table, name: string, v: Value): Selection
    requires Rect(t) && ColumnIdx(t.names, name).Some?
  {
    Selection(Compared(env, t, name, Eq, v), Compared(env, t, name, Ne, v), Compared(env, t, name, Lt, v),
              Compared(env, t, name, Gt, v), Compared(env, t, name, Le, v), Compared(env, t, name, Ge, v))
  }

  /** The rows that a parsed comparison accepts, by its operator. */
  lemma ComparisonRows(env: Env, t: Table, name: string, v: Value)
    requires Rect(t) && ColumnIdx(t.names, name).Some?
    ensures Divides(t.columns[ColumnIdx(t.names, name).value], RowLiteral(env, v), ComparedRows(env, t, name, v))
  {
    var idx, lit := ColumnIdx(t.names, name).value, RowLiteral(env, v);
    SingleRows(t, idx, Eq, lit);
    SingleRows(t, idx, Ne, lit);
    SingleRows(t, idx, Lt, lit);
    SingleRows(t, idx, Gt, lit);
    SingleRows(t, idx, Le, lit);
    SingleRows(t, idx, Ge, lit);
    MarksDivide(t.columns[idx], lit);
  }

  /** AND takes the common rows, OR the rows of either, and no WHERE all of them. */
  lemma ConnectiveRows(env: Env, t: Table, l: Expr, r: Expr)
    requires Rect(t) && ParseExpr(env, t, l).Some? && ParseExpr(env, t, r).Some?
    ensures RowsOf(env, t, Binary(l, AndOp, r)) == RowsOf(env, t, l) * RowsOf(env, t, r)
    ensures RowsOf(env, t, Binary(l, OrOp, r)) == RowsOf(env, t, l) + RowsOf(env, t, r)
    ensures Accepted(NoWhere, t) == AllRows(t.rowCount)
  {
  }

  /** Floats are compared by their bits and hexadecimal strings by their digest, both ways. */
  lemma BitsMeaning(env: Env, bits: u64, bytes: seq<byte>)
    ensures RowLiteral(env, Float(bits)) == MaskLiteral(env, Float(bits)) == bits
    ensures RowLiteral(env, Hex(bytes)) == MaskLiteral(env, Hex(bytes)) == env.hex(bytes)
  {
  }

  /** A number is compared as itself modulo 2^64, a string as the number it spells or else by its hash. */
  lemma LiteralMeaning(env: Env, n: int, s: string)
    ensures RowLiteral(env, Int(n)) == MaskLiteral(env, Int(n))
    ensures 0 <= n < U64_RANGE ==> RowLiteral(env, Int(n)) == n
    ensures -U64_RANGE <= n < 0 ==> RowLiteral(env, Int(n)) == n + U64_RANGE
    ensures env.parseI64(s) == Some(n) ==> RowLiteral(env, Str(s)) == RowLiteral(env, Int(n))
    ensures env.parseI64(s) == Some(n) && env.parseU64(s).None? ==> MaskLiteral(env, Str(s)) == RowLiteral(env, Int(n))
    ensures env.parseU64(s).Some? && env.parseU64(s).value == n ==> MaskLiteral(env, Str(s)) == n
    ensures env.parseI64(s).None? ==> RowLiteral(env, Str(s)) == env.hash(s)
    ensures env.parseI64(s).None? && env.parseU64(s).None? ==> MaskLiteral(env, Str(s)) == env.hash(s)
  {
    if -U64_RANGE <= n < 0 {
      Quotient(n, U64_RANGE, -1, n + U64_RANGE);
    }
  }

  // ---------------------------------------------------------------- column at a time

  /** The rows a mask of this expression marks; none if there is no mask. */
  ghost function MaskRows(env: Env, t: Table, name: string, op: Op, v: Value): set<nat> {
    var mask := EvalMask(env, t, Binary(Col(name), op, Lit(v)));
    if mask.Some? then Marked(mask.value) else {}
  }

  ghost function MaskedRows(env: Env, t: Table, name: string, v: Value): Selection {
    Selection(MaskRows(env, t, name, Eq, v), MaskRows(env, t, name, Ne, v), MaskRows(env, t, name, Lt, v),
              MaskRows(env, t, name, Gt, v), MaskRows(env, t, name, Le, v), MaskRows(env, t, name, Ge, v))
  }

  /** The rows that the mask of a comparison marks, unless it orders original strings. */
  lemma MaskComparison(env: Env, t: Table, name: string, v: Value)
    requires Rect(t) && ResolveColumn(t, name).Some?
    requires v.Str? ==> Sidecar(t, ResolveColumn(t, name).value).None?
    ensures Divides(t.columns[ResolveColumn(t, name).value], MaskLiteral(env, v), MaskedRows(env, t, name, v))
  {
    MarksDivide(t.columns[ResolveColumn(t, name).value], MaskLiteral(env, v));
  }

  /** On original strings ranges follow the order of texts, and `=` and `!=` still the cells. */
  lemma TextComparison(env: Env, t: Table, name: string, s: string)
    requires Rect(t) && ResolveColumn(t, name).Some? && Sidecar(t, ResolveColumn(t, name).value).Some?
    ensures var idx := ResolveColumn(t, name).value;
            var strings, rows := Sidecar(t, idx).value, MaskedRows(env, t, name, Str(s));
            && rows.lt == (set i: nat | i < |strings| && env.less(strings[i], s))
            && rows.gt == (set i: nat | i < |strings| && env.less(s, strings[i]))
            && rows.le == AllRows(|strings|) - rows.gt && rows.ge == AllRows(|strings|) - rows.lt
            && rows.eq == (set i: nat | i < t.rowCount && t.columns[idx][i] == MaskLiteral(env, Str(s)))
            && rows.ne == AllRows(t.rowCount) - rows.eq
  {
  }

  /** LIKE marks what the matcher says of the original strings, and NOT LIKE the other rows. */
  lemma LikeRows(env: Env, t: Table, name: string, pattern: string)
    ensures var like := EvalMask(env, t, Binary(Col(name), LikeOp, Lit(Str(pattern))));
            var unlike := EvalMask(env, t, Binary(Col(name), NotLikeOp, Lit(Str(pattern))));
            && (like.Some? <==> unlike.Some?)
            && (like.Some? <==>
                ResolveColumn(t, name).Some? && Sidecar(t, ResolveColumn(t, name).value).Some?)
            && (like.Some? ==>
                  && like.value == env.like(Sidecar(t, ResolveColumn(t, name).value).value, pattern)
                  && |unlike.value| == |like.value|
                  && Marked(unlike.value) == AllRows(|like.value|) - Marked(like.value))
  {
  }

  // ---------------------------------------------------------------- the batch path

  ghost function BatchRows(env: Env, t: Table, name: string, op: Op, v: Value): set<nat> {
    var mask := WhereMask(env, t, Binary(Col(name), op, Lit(v)), AllTrue(t.rowCount));
    if mask.Some? then Marked(mask.value) else {}
  }

  ghost function BatchedRows(env: Env, t: Table, name: string, v: Value): Selection {
    Selection(BatchRows(env, t, name, Eq, v), BatchRows(env, t, name, Ne, v), BatchRows(env, t, name, Lt, v),
              BatchRows(env, t, name, Gt, v), BatchRows(env, t, name, Le, v), BatchRows(env, t, name, Ge, v))
  }

  lemma BatchComparison(env: Env, t: Table, name: string, v: Value)
    requires ResolveIndex(t.names, name).Some? && ResolveIndex(t.names, name).value < |t.columns|
    ensures Divides(t.columns[ResolveIndex(t.names, name).value], MaskLiteral(env, v), BatchedRows(env, t, name, v))
  {
    MarksDivide(t.columns[ResolveIndex(t.names, name).value], MaskLiteral(env, v));
  }

  // ---------------------------------------------------------------- qualified names

  /** What follows a part of a name: nothing, or a dot and more. */
  predicate Ends(rest: string) { rest == "" || rest[0] == '.' }

  lemma {:induction false} UpToRest(part: string, rest: string)
    requires '.' !in part && Ends(rest)
    ensures UpToDot(part + rest) == part
  {
    if part == "" {
      assert part + rest == rest;
    } else {
      assert (part + rest)[1..] == part[1..] + rest;
      UpToRest(part[1..], rest);
    }
  }

  /** The second part of a dotted name, however many follow. */
  lemma {:induction false} BareName(table: string, column: string, rest: string)
    requires '.' !in table && '.' !in column && Ends(rest)
    ensures Bare(table + "." + column + rest) == Some(column)
  {
    var name := table + "." + column + rest;
    if table == "" {
      assert name[1..] == column + rest;
      UpToRest(column, rest);
    } else {
      assert name[1..] == table[1..] + "." + column + rest;
      BareName(table[1..], column, rest);
    }
  }

  /** A qualified name finds the column of that very name, or else the column of its second part. */
  lemma QualifiedReference(t: Table, table: string, column: string, rest: string)
    requires '.' !in table && '.' !in column && Ends(rest)
    ensures var name := table + "." + column + rest;
            var idx := if name in t.names then ColumnIdx(t.names, name) else ColumnIdx(t.names, column);
            idx.Some? ==> ResolveColumn(t, name) == ResolveIndex(t.names, name) == idx
  {
    BareName(table, column, rest);
  }

  lemma {:induction false} FirstQualified(names: seq<string>, table: string, column: string, i: nat, k: nat)
    requires i <= k < |names| && names[k] == table + "." + column && '.' !in table && '.' !in column
    requires forall j | i <= j < k :: '.' !in names[j] && names[j] != column
    ensures QualifiedIdx(names, column, i) == Some(k)
    decreases k - i
  {
    if i == k {
      BareName(table, column, "");
      assert table + "." + column + "" == table + "." + column;
    } else {
      NoDot(names[i]);
      NotEnding(names[i], column);
      FirstQualified(names, table, column, i + 1, k);
    }
  }

  lemma NotEnding(s: string, column: string)
    requires '.' !in s
    ensures !EndsWith(s, "." + column)
  {
    var tail := "." + column;
    if |tail| <= |s| {
      assert s[|s| - |tail|] in s && s[|s| - |tail|..][0] == s[|s| - |tail|] && tail[0] == '.';
    }
  }

  /** An unqualified name that no column bears finds the first qualified column that ends in it. */
  lemma UnqualifiedReference(t: Table, table: string, column: string, k: nat)
    requires k < |t.names| && t.names[k] == table + "." + column && '.' !in table && '.' !in column
    requires column !in t.names && forall j | 0 <= j < k :: '.' !in t.names[j]
    ensures ResolveColumn(t, column) == Some(k)
  {
    NoDot(column);
    FirstQualified(t.names, table, column, 0, k);
  }
}
