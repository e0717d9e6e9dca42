/**
 * The batch WHERE path of `src/exec/vectorized.rs` as `src/engine/executor.rs` uses it: a parsed clause is
 * written back as an expression whose columns are numerals, and the expression is evaluated in place on a
 * mask.  It is compared with the row-at-a-time reference.
 */
module BatchFilter {
  import opened Machine
  import opened Numerals
  import opened Options
  import opened RowFilter

  // ---------------------------------------------------------------- column numerals

  /** `resolve_name`: the name itself, then without its qualifier, then as a column number. */
  function ResolveIndex(names: seq<string>, name: string): Option<nat> {
    var direct := ColumnIdx(names, name);
    if direct.Some? then direct
    else
      var bare := if Bare(name).Some? then ColumnIdx(names, Bare(name).value) else None;
      if bare.Some? then bare else ParseIndex(name)
  }

  // ---------------------------------------------------------------- evaluation on a mask

  function AllTrue(n: nat): seq<bool> { seq(n, _ => true) }

  /** `extract_col_and_value_batch`: the column, if it resolves, and the literal. */
  function ResolvedLiteral(names: seq<string>, left: Expr, right: Expr): Option<(nat, Value)> {
    match ColumnAndLiteral(left, right)
    case None => None
    case Some((name, v)) => (match ResolveIndex(names, name) case None => None case Some(idx) => Some((idx, v)))
  }

  /** `extract_col_and_string`: the column, if it resolves, and the string literal. */
  function ResolvedString(names: seq<string>, left: Expr, right: Expr): Option<(nat, string)> {
    if left.Col? && right.Lit? && right.value.Str? then
      (match ResolveIndex(names, left.name) case None => None case Some(idx) => Some((idx, right.value.s)))
    else if right.Col? && left.Lit? && left.value.Str? then
      (match ResolveIndex(names, right.name) case None => None case Some(idx) => Some((idx, left.value.s)))
    else None
  }

  predicate IsLike(op: Op) { op.LikeOp? || op.NotLikeOp? }

  /** A cell under the LIKE branch: everything matches `%`, any other pattern is compared by its hash. */
  predicate LikeCell(env: Env, cell: u64, pattern: string) { pattern == "%" || cell == env.hash(pattern) }

  function LikeMarks(env: Env, col: seq<u64>, pattern: string, negated: bool): seq<bool> {
    seq(|col|, i requires 0 <= i < |col| => LikeCell(env, col[i], pattern) != negated)
  }

  /** The LIKE branch, for a column and literal that the comparison branch did not take. */
  function LikeBranch(env: Env, t: Table, e: Expr, mask: seq<bool>): Option<seq<bool>>
    requires e.Binary?
  {
    match ResolvedString(t.names, e.left, e.right)
    case None => Some(mask)
    case Some((idx, pattern)) =>
      if idx >= |t.columns| then None else Some(LikeMarks(env, t.columns[idx], pattern, e.op.NotLikeOp?))
  }

  /** `eval_where` on a mask; `None` is the panic of a column number past the end. */
  function WhereMask(env: Env, t: Table, e: Expr, mask: seq<bool>): Option<seq<bool>> {
    if !e.Binary? then Some(mask)
    else if e.op.AndOp? then
      match (WhereMask(env, t, e.left, mask), WhereMask(env, t, e.right, AllTrue(t.rowCount)))
      case (Some(l), Some(r)) => Some(Zip(l, r, true))
      case _ => None
    else if e.op.OrOp? then
      match (WhereMask(env, t, e.left, AllTrue(t.rowCount)), WhereMask(env, t, e.right, AllTrue(t.rowCount)))
      case (Some(l), Some(r)) => Some(Zip(l, r, false))
      case _ => None
    else
      match ResolvedLiteral(t.names, e.left, e.right)
      case Some((idx, v)) =>
        if idx >= |t.columns| then None
        else if !IsComparison(e.op) then Some(mask)
        else Some(Marks(t.columns[idx], e.op, MaskLiteral(env, v)))
      case None => if IsLike(e.op) then LikeBranch(env, t, e, mask) else Some(mask)
  }

  /** The filter of one column, written over the mask. */
  method FilterColumn(col: seq<u64>, op: Op, value: u64, mask: array<bool>)
    requires |col| == mask.Length && IsComparison(op)
    modifies mask
    ensures mask[..] == Marks(col, op, value)
  {
    for i := 0 to |col|
      invariant forall j | 0 <= j < i :: mask[j] == Compare(op, col[j], value)
    {
      mask[i] := Compare(op, col[i], value);
    }
  }

  /** The cells of one column under LIKE, written over the mask and then flipped for NOT LIKE. */
  method LikeColumn(env: Env, col: seq<u64>, pattern: string, negated: bool, mask: array<bool>)
    requires |col| == mask.Length
    modifies mask
    ensures mask[..] == LikeMarks(env, col, pattern, negated)
  {
    for i := 0 to |col|
      invariant forall j | 0 <= j < i :: mask[j] == LikeCell(env, col[j], pattern)
    {
      if pattern == "%" {
        mask[i] := true;
      } else {
        mask[i] := col[i] == env.hash(pattern);
      }
    }
    if negated {
      for i := 0 to mask.Length
        invariant forall j | 0 <= j < mask.Length :: mask[j] == (LikeCell(env, col[j], pattern) != (j < i))
      {
        mask[i] := !mask[i];
      }
    }
  }

  /** The LIKE branch of `eval_where`. */
  method EvalLikeBranch(env: Env, t: Table, e: Expr, mask: array<bool>) returns (ok: bool)
    requires Rect(t) && mask.Length == t.rowCount && e.Binary?
    modifies mask
    ensures ok <==> LikeBranch(env, t, e, old(mask[..])).Some?
    ensures ok ==> mask[..] == LikeBranch(env, t, e, old(mask[..])).value
  {
    var found := ResolvedString(t.names, e.left, e.right);
    if found.None? {
      return true;
    }
    var idx := found.value.0;
    if idx >= |t.columns| {
      return false;
    }
    LikeColumn(env, t.columns[idx], found.value.1, e.op.NotLikeOp?, mask);
    return true;
  }

  method CombineMasks(left: seq<bool>, right: array<bool>, conjunction: bool, mask: array<bool>)
    requires |left| == right.Length == mask.Length && right != mask
    modifies mask
    ensures mask[..] == Zip(left, right[..], conjunction)
  {
    for i := 0 to |left|
      invariant forall j | 0 <= j < i :: mask[j] == Zip(left, right[..], conjunction)[j]
    {
      mask[i] := if conjunction then left[i] && right[i] else left[i] || right[i];
    }
  }

  /** `eval_where`; false stands for the panic. */
  method EvalWhere(env: Env, t: Table, e: Expr, mask: array<bool>) returns (ok: bool)
    requires Rect(t) && mask.Length == t.rowCount
    modifies mask
    ensures ok <==> WhereMask(env, t, e, old(mask[..])).Some?
    ensures ok ==> mask[..] == WhereMask(env, t, e, old(mask[..])).value
    decreases e
  {
    if !e.Binary? {
      return true;
    }
    if e.op.AndOp? || e.op.OrOp? {
      ok := EvalBoth(env, t, e, mask);
      return;
    }
    var found := ResolvedLiteral(t.names, e.left, e.right);
    ok := true;
    if found.Some? {
      var idx := found.value.0;
      if idx >= |t.columns| {
        return false;
      }
      if IsComparison(e.op) {
        FilterColumn(t.columns[idx], e.op, MaskLiteral(env, found.value.1), mask);
      }
    } else if IsLike(e.op) {
      ok := EvalLikeBranch(env, t, e, mask);
    }
  }

  /** The AND and OR branches of `eval_where`. */
  method EvalBoth(env: Env, t: Table, e: Expr, mask: array<bool>) returns (ok: bool)
    requires Rect(t) && mask.Length == t.rowCount && e.Binary? && (e.op.AndOp? || e.op.OrOp?)
    modifies mask
    ensures ok <==> WhereMask(env, t, e, old(mask[..])).Some?
    ensures ok ==> mask[..] == WhereMask(env, t, e, old(mask[..])).value
    decreases e, 0
  {
    var left, right := mask, new bool[t.rowCount](_ => true);
    if e.op.OrOp? {
      left := new bool[t.rowCount](_ => true);
    }
    ghost var start := left[..];
    assert right[..] == AllTrue(t.rowCount) && (e.op.OrOp? ==> start == AllTrue(t.rowCount));
    var okLeft := EvalWhere(env, t, e.left, left);
    var leftMask := left[..];
    assert right[..] == AllTrue(t.rowCount);
    var okRight := EvalWhere(env, t, e.right, right);
    if !okLeft || !okRight {
      return false;
    }
    CombineMasks(leftMask, right, e.op.AndOp?, mask);
    return true;
  }

  /** The indices a mask selects, ascending. */
  ghost predicate Selects(mask: seq<bool>, indices: seq<nat>) {
    && (forall i: nat :: i in indices <==> i < |mask| && mask[i])
    && (forall a, b | 0 <= a < b < |indices| :: indices[a] < indices[b])
  }

  /** `filter_rows`. */
  method FilterRows(env: Env, t: Table, e: Expr) returns (r: Option<seq<nat>>)
    requires Rect(t)
    ensures r.Some? <==> WhereMask(env, t, e, AllTrue(t.rowCount)).Some?
    ensures r.Some? ==> Selects(WhereMask(env, t, e, AllTrue(t.rowCount)).value, r.value)
  {
    var mask := new bool[t.rowCount](_ => true);
    assert mask[..] == AllTrue(t.rowCount);
    var ok := EvalWhere(env, t, e, mask);
    if !ok {
      return None;
    }
    var indices: seq<nat> := [];
    for i := 0 to t.rowCount
      invariant forall j: nat :: j in indices <==> j < i && mask[..][j]
      invariant forall a | 0 <= a < |indices| :: indices[a] < i
      invariant forall a, b | 0 <= a < b < |indices| :: indices[a] < indices[b]
    {
      if mask[i] {
        indices := indices + [i];
      }
    }
    return Some(indices);
  }

  // ---------------------------------------------------------------- the clause written back

  /** `u64 as i64`. */
  function AsI64(v: u64): int { if v < 0x8000_0000_0000_0000 then v else v - U64_RANGE }

  /** The cast keeps the bits and lands in the signed range. */
  lemma CastTrip(v: u64)
    ensures AsU64(AsI64(v)) == v && -0x8000_0000_0000_0000 <= AsI64(v) < 0x8000_0000_0000_0000
  {
    if v >= 0x8000_0000_0000_0000 {
      assert AsI64(v) == -1 * U64_RANGE + v;
    }
  }

  /** `where_clause_to_expr`. */
  function ToExpr(c: Clause): Expr {
    match c
    case NoWhere => Lit(Int(1))
    case Single(col, op, value) => Binary(Col(Numeral(col)), op, Lit(Int(AsI64(value))))
    case And(l, r) => Binary(ToExpr(l), AndOp, ToExpr(r))
    case Or(l, r) => Binary(ToExpr(l), OrOp, ToExpr(r))
  }

  /** Columns in range and comparisons only, as parsing leaves a clause. */
  predicate InTable(c: Clause, width: nat) {
    match c
    case NoWhere => true
    case Single(col, op, _) => col < width && IsComparison(op)
    case And(l, r) => InTable(l, width) && InTable(r, width)
    case Or(l, r) => InTable(l, width) && InTable(r, width)
  }

  lemma {:induction false} ParsedInTable(env: Env, t: Table, e: Expr)
    requires Rect(t) && ParseExpr(env, t, e).Some?
    ensures InTable(ParseExpr(env, t, e).value, |t.names|)
  {
    if e.op.AndOp? || e.op.OrOp? {
      ParsedInTable(env, t, e.left);
      ParsedInTable(env, t, e.right);
    }
  }

  // ---------------------------------------------------------------- LIKE

  /** The name is no column, qualified or not, but a number past the last column. */
  predicate PastEnd(t: Table, name: string) {
    && ColumnIdx(t.names, name).None?
    && (Bare(name).Some? ==> ColumnIdx(t.names, Bare(name).value).None?)
    && ParseIndex(name).Some? && ParseIndex(name).value >= |t.columns|
  }

  /** The LIKE branch is dead: whatever it would resolve, the comparison branch has resolved before it. */
  lemma LikeBranchDead(names: seq<string>, left: Expr, right: Expr)
    ensures ResolvedString(names, left, right).Some? ==>
              && ResolvedLiteral(names, left, right).Some?
              && ResolvedLiteral(names, left, right).value.0 == ResolvedString(names, left, right).value.0
  {
  }

  /**
   * LIKE and NOT LIKE never change a mask, whatever the pattern, the columns and the sides of the operator:
   * they leave it as it is, or panic, exactly when the column is a number past the end.
   */
  lemma LikeKeepsMask(env: Env, t: Table, e: Expr, mask: seq<bool>)
    requires e.Binary? && IsLike(e.op)
    ensures WhereMask(env, t, e, mask).None?
            <==> && ResolvedLiteral(t.names, e.left, e.right).Some?
                 && ResolvedLiteral(t.names, e.left, e.right).value.0 >= |t.columns|
    ensures Rect(t) ==>
              (WhereMask(env, t, e, mask).None?
               <==> ColumnAndLiteral(e.left, e.right).Some? && PastEnd(t, ColumnAndLiteral(e.left, e.right).value.0))
    ensures WhereMask(env, t, e, mask).Some? ==> WhereMask(env, t, e, mask) == Some(mask)
  {
    LikeBranchDead(t.names, e.left, e.right);
  }

  /**
   * A LIKE or NOT LIKE on a column without original strings has no mask, and the batch path it falls back to
   * keeps every row whatever the pattern.
   */
  lemma LikeKeepsEveryRow(env: Env, t: Table, e: Expr)
    requires Rect(t) && e.Binary? && IsLike(e.op) && ColumnAndLiteral(e.left, e.right).Some?
    requires var idx := ColumnIdx(t.names, ColumnAndLiteral(e.left, e.right).value.0);
             idx.Some? && Sidecar(t, idx.value).None?
    ensures EvalMask(env, t, e) == None
    ensures WhereMask(env, t, e, AllTrue(t.rowCount)) == Some(AllTrue(t.rowCount))
  {
  }
}
