/**
 * WHERE filters two ways: the column-at-a-time masks of `src/engine/dispatch.rs` and the row-at-a-time
 * clause of `src/engine/executor.rs`.
 */
module RowFilter {
  import opened Machine
  import opened Options

  datatype Op = AndOp | OrOp | Eq | Ne | Lt | Gt | Le | Ge | LikeOp | NotLikeOp | OtherOp

  datatype Value = Int(i: int) | Float(bits: u64) | Str(s: string) | Hex(bytes: seq<byte>)

  datatype Expr = Col(name: string) | Lit(value: Value) | Binary(left: Expr, op: Op, right: Expr) | OtherExpr

  /** Column-major; a column may keep its original strings beside its cells. */
  datatype Table = Table(columns: seq<seq<u64>>, names: seq<string>, rowCount: nat, strings: seq<Option<seq<string>>>)

  /** Every column has a name and `rowCount` cells, and so has every string sidecar. */
  ghost predicate Rect(t: Table) {
    && |t.names| == |t.columns|
    && (forall c | 0 <= c < |t.columns| :: |t.columns[c]| == t.rowCount)
    && (forall c | 0 <= c < |t.strings| :: t.strings[c].Some? ==> |t.strings[c].value| == t.rowCount)
  }

  /** The original strings of a column, if it keeps them. */
  function Sidecar(t: Table, c: nat): Option<seq<string>> { if c < |t.strings| then t.strings[c] else None }

  /** Number parsing, hashing, text order and LIKE matching, left open. */
  datatype Env = Env(
    parseI64: string -> Option<int>,
    parseU64: string -> Option<u64>,
    hash: string -> u64,
    hex: seq<byte> -> u64,
    less: (string, string) -> bool,
    like: (seq<string>, string) -> seq<bool>)

  /** A text both parsers accept means the same number to both. */
  ghost predicate Consistent(env: Env) {
    forall s: string :: env.parseI64(s).Some? && env.parseU64(s).Some? ==>
        AsU64(env.parseI64(s).value) == env.parseU64(s).value
  }

  predicate IsComparison(op: Op) { op in {Eq, Ne, Lt, Gt, Le, Ge} }

  predicate IsRange(op: Op) { op in {Lt, Gt, Le, Ge} }

  predicate Compare(op: Op, cell: u64, value: u64) {
    match op
    case Eq => cell == value
    case Ne => cell != value
    case Lt => cell < value
    case Gt => cell > value
    case Le => cell <= value
    case Ge => cell >= value
    case _ => false
  }

  /** The first column with this name. */
  function ColumnIdx(names: seq<string>, name: string): (r: Option<nat>)
    ensures r.Some? ==> r.value < |names| && names[r.value] == name && name !in names[..r.value]
    ensures r.None? ==> name !in names
  {
    if names == [] then None
    else if names[0] == name then Some(0)
    else match ColumnIdx(names[1..], name)
      case None => None
      case Some(i) => assert names[..i + 1] == [names[0]] + names[1..][..i]; Some(i + 1)
  }

  // ---------------------------------------------------------------- row at a time

  datatype Clause =
    | NoWhere
    | Single(col: nat, op: Op, value: u64)
    | And(left: Clause, right: Clause)
    | Or(left: Clause, right: Clause)

  /** `literal_to_u64`: a string is an i64 or else its hash. */
  function RowLiteral(env: Env, v: Value): u64 {
    match v
    case Int(i) => AsU64(i)
    case Float(bits) => bits
    case Str(s) => (match env.parseI64(s) case Some(i) => AsU64(i) case None => env.hash(s))
    case Hex(bytes) => env.hex(bytes)
  }

  /** `extract_col_and_value`: the column and the literal, whichever side each is on. */
  function ColumnAndLiteral(left: Expr, right: Expr): Option<(string, Value)> {
    if left.Col? && right.Lit? then Some((left.name, right.value))
    else if left.Lit? && right.Col? then Some((right.name, left.value))
    else None
  }

  function ParseExpr(env: Env, t: Table, e: Expr): Option<Clause> {
    if !e.Binary? then None
    else if e.op.AndOp? || e.op.OrOp? then
      match (ParseExpr(env, t, e.left), ParseExpr(env, t, e.right))
      case (Some(l), Some(r)) => Some(if e.op.AndOp? then And(l, r) else Or(l, r))
      case _ => None
    else if IsComparison(e.op) then
      match ColumnAndLiteral(e.left, e.right)
      case None => None
      case Some((name, v)) =>
        (match ColumnIdx(t.names, name)
         case None => None
         case Some(idx) => Some(Single(idx, e.op, RowLiteral(env, v))))
    else None
  }

  function RowOf(t: Table, i: nat): (row: seq<u64>)
    requires Rect(t) && i < t.rowCount
    ensures |row| == |t.columns|
  {
    seq(|t.columns|, c requires 0 <= c < |t.columns| => t.columns[c][i])
  }

  predicate RowMatches(clause: Clause, row: seq<u64>) {
    match clause
    case NoWhere => true
    case Single(col, op, value) => col < |row| && Compare(op, row[col], value)
    case And(l, r) => RowMatches(l, row) && RowMatches(r, row)
    case Or(l, r) => RowMatches(l, row) || RowMatches(r, row)
  }

  /** `filter_indices_old`: exactly the rows the clause accepts, in ascending order. */
  method FilterIndices(clause: Clause, t: Table) returns (indices: seq<nat>)
    requires Rect(t)
    ensures forall i: nat :: i in indices <==> i < t.rowCount && RowMatches(clause, RowOf(t, i))
    ensures forall a, b | 0 <= a < b < |indices| :: indices[a] < indices[b]
  {
    if clause.NoWhere? {
      indices := seq(t.rowCount, i => i);
      assert forall i: nat | i < t.rowCount :: indices[i] == i && RowMatches(clause, RowOf(t, i));
      return;
    }
    indices := [];
    for i := 0 to t.rowCount
      invariant forall j: nat :: j in indices <==> j < i && RowMatches(clause, RowOf(t, j))
      invariant forall a | 0 <= a < |indices| :: indices[a] < i
      invariant forall a, b | 0 <= a < b < |indices| :: indices[a] < indices[b]
    {
      if RowMatches(clause, RowOf(t, i)) {
        indices := indices + [i];
      }
    }
  }

  // ---------------------------------------------------------------- column at a time

  /** The literal as the masks read it: a string is a u64, an i64, or else its hash. */
  function MaskLiteral(env: Env, v: Value): u64 {
    match v
    case Int(i) => AsU64(i)
    case Float(bits) => bits
    case Str(s) =>
      (match env.parseU64(s)
       case Some(n) => n
       case None => (match env.parseI64(s) case Some(i) => AsU64(i) case None => env.hash(s)))
    case Hex(bytes) => env.hex(bytes)
  }

  /** The text between the first dot and the next, if there is a dot. */
  function Bare(name: string): Option<string> {
    if name == "" then None else if name[0] == '.' then Some(UpToDot(name[1..])) else Bare(name[1..])
  }

  function UpToDot(s: string): string {
    if s == "" || s[0] == '.' then "" else [s[0]] + UpToDot(s[1..])
  }

  lemma {:induction false} NoDot(s: string)
    requires '.' !in s
    ensures Bare(s) == None
  {
    if s != "" {
      NoDot(s[1..]);
    }
  }

  /** The first column, from `i` on, whose name is the given one under some qualifier. */
  function QualifiedIdx(names: seq<string>, name: string, i: nat): (r: Option<nat>)
    requires i <= |names|
    ensures r.Some? ==> r.value < |names|
    decreases |names| - i
  {
    if i == |names| then None
    else if names[i] == name || Bare(names[i]) == Some(name) || EndsWith(names[i], "." + name) then Some(i)
    else QualifiedIdx(names, name, i + 1)
  }

  predicate EndsWith(s: string, tail: string) { |tail| <= |s| && s[|s| - |tail|..] == tail }

  /** `resolve_col_name`: the name itself, then without its qualifier, then under some qualifier. */
  function ResolveColumn(t: Table, name: string): (r: Option<nat>)
    ensures r.Some? ==> r.value < |t.names|
  {
    var direct := ColumnIdx(t.names, name);
    if direct.Some? then direct
    else
      var bare := if Bare(name).Some? then ColumnIdx(t.names, Bare(name).value) else None;
      if bare.Some? then bare else QualifiedIdx(t.names, name, 0)
  }

  /** Range comparison of the original strings with a literal. */
  predicate CompareText(env: Env, op: Op, cell: string, s: string) {
    match op
    case Lt => env.less(cell, s)
    case Gt => env.less(s, cell)
    case Le => !env.less(s, cell)
    case Ge => !env.less(cell, s)
    case _ => false
  }

  /** The mask of LIKE or NOT LIKE, which needs the column's original strings. */
  function EvalLike(env: Env, t: Table, e: Expr): Option<seq<bool>>
    requires e.Binary?
  {
    match ColumnAndLiteral(e.left, e.right)
    case Some((name, Str(pattern))) =>
      (match ResolveColumn(t, name)
       case None => None
       case Some(idx) =>
         (match Sidecar(t, idx)
          case None => None
          case Some(strings) =>
            var mask := env.like(strings, pattern);
            Some(if e.op.LikeOp? then mask else seq(|mask|, i requires 0 <= i < |mask| => !mask[i]))))
    case _ => None
  }

  /** Which cells of a column pass a comparison. */
  function Marks(col: seq<u64>, op: Op, value: u64): (mask: seq<bool>)
    ensures |mask| == |col| && forall i | 0 <= i < |col| :: mask[i] == Compare(op, col[i], value)
  {
    seq(|col|, i requires 0 <= i < |col| => Compare(op, col[i], value))
  }

  /** The mask of one comparison of a column with a literal. */
  function CompareColumn(env: Env, t: Table, idx: nat, op: Op, v: Value): Option<seq<bool>> {
    if idx >= |t.columns| || !IsComparison(op) then None
    else if IsRange(op) && v.Str? && Sidecar(t, idx).Some? then
      var strings := Sidecar(t, idx).value;
      Some(seq(|strings|, i requires 0 <= i < |strings| => CompareText(env, op, strings[i], v.s)))
    else
      Some(Marks(t.columns[idx], op, MaskLiteral(env, v)))
  }

  /** Two masks combined; `zip` stops at the shorter. */
  function Zip(a: seq<bool>, b: seq<bool>, conjunction: bool): (c: seq<bool>)
    ensures |c| == if |a| <= |b| then |a| else |b|
    ensures forall i | 0 <= i < |c| :: c[i] == if conjunction then a[i] && b[i] else a[i] || b[i]
  {
    seq(if |a| <= |b| then |a| else |b|,
        i requires 0 <= i < |a| && i < |b| => if conjunction then a[i] && b[i] else a[i] || b[i])
  }

  /** `eval_predicate_mask`, with `try_string_like_filter` for LIKE and the connectives. */
  function EvalMask(env: Env, t: Table, e: Expr): Option<seq<bool>> {
    if !e.Binary? then None
    else if e.op.LikeOp? || e.op.NotLikeOp? then EvalLike(env, t, e)
    else if e.op.AndOp? || e.op.OrOp? then
      match (EvalMask(env, t, e.left), EvalMask(env, t, e.right))
      case (Some(l), Some(r)) => Some(Zip(l, r, e.op.AndOp?))
      case _ => None
    else
      match ColumnAndLiteral(e.left, e.right)
      case None => None
      case Some((name, v)) =>
        (match ResolveColumn(t, name)
         case None => None
         case Some(idx) => CompareColumn(env, t, idx, e.op, v))
  }

  // ---------------------------------------------------------------- the two agree

  /** The two readings of a literal agree, except for a string that only fits an unsigned number. */
  lemma LiteralsExact(env: Env, v: Value)
    requires Consistent(env)
    ensures RowLiteral(env, v) == MaskLiteral(env, v)
            <==> (v.Str? && env.parseU64(v.s).Some? && env.parseU64(v.s).value != env.hash(v.s)
                  ==> env.parseI64(v.s).Some?)
  {
  }

  /** One comparison reads its literal the same both ways, and does not order original strings. */
  predicate LeafAgrees(env: Env, t: Table, op: Op, name: string, v: Value) {
    && RowLiteral(env, v) == MaskLiteral(env, v)
    && (IsRange(op) && v.Str? ==> ColumnIdx(t.names, name).Some? ==> Sidecar(t, ColumnIdx(t.names, name).value).None?)
  }

  /** Every comparison in the tree agrees. */
  predicate Agrees(env: Env, t: Table, e: Expr) {
    e.Binary? ==>
      if e.op.AndOp? || e.op.OrOp? then Agrees(env, t, e.left) && Agrees(env, t, e.right)
      else match ColumnAndLiteral(e.left, e.right)
        case Some((name, v)) => LeafAgrees(env, t, e.op, name, v)
        case None => true
  }

  /** The tree has no LIKE and names every compared column directly. */
  predicate Direct(t: Table, e: Expr) {
    e.Binary? ==>
      if e.op.AndOp? || e.op.OrOp? then Direct(t, e.left) && Direct(t, e.right)
      else IsComparison(e.op) && match ColumnAndLiteral(e.left, e.right)
        case Some((name, _)) => ColumnIdx(t.names, name).Some?
        case None => true
  }

  /**
   * For every tree of comparisons: if the clause parses, the mask exists and marks exactly the rows the
   * clause accepts.  A mask exists without a clause exactly when the tree has a LIKE or a qualified name.
   */
  lemma {:induction false} MaskRefinesRows(env: Env, t: Table, e: Expr)
    requires Rect(t) && Agrees(env, t, e)
    ensures ParseExpr(env, t, e).Some? ==>
              && EvalMask(env, t, e).Some? && |EvalMask(env, t, e).value| == t.rowCount
              && forall i | 0 <= i < t.rowCount ::
                  EvalMask(env, t, e).value[i] == RowMatches(ParseExpr(env, t, e).value, RowOf(t, i))
    ensures EvalMask(env, t, e).Some? ==> (ParseExpr(env, t, e).Some? <==> Direct(t, e))
  {
    if e.Binary? && (e.op.AndOp? || e.op.OrOp?) {
      MaskRefinesRows(env, t, e.left);
      MaskRefinesRows(env, t, e.right);
    }
  }

  /** A comparison that no cell, or every cell, passes. */
  predicate Constant(op: Op, value: u64) {
    ((op.Lt? || op.Ge?) && value == 0) || ((op.Gt? || op.Le?) && value == U64_RANGE - 1)
  }

  /** Two cells the comparison tells apart. */
  lemma Discerning(op: Op, value: u64) returns (a: u64, b: u64)
    requires IsComparison(op) && !Constant(op, value)
    ensures Compare(op, a, value) != Compare(op, b, value)
  {
    a := value;
    b := if op.Eq? || op.Ne? then (if value == 0 then 1 else 0)
         else if op.Lt? || op.Ge? then 0 else U64_RANGE - 1;
  }

  /** A cell that two different literals compare differently. */
  lemma TellsApart(op: Op, a: u64, b: u64) returns (cell: u64)
    requires IsComparison(op) && a != b
    ensures Compare(op, cell, a) != Compare(op, cell, b)
  {
    var low, high := if a < b then a else b, if a < b then b else a;
    cell := if op.Gt? || op.Le? then high else low;
  }

  /** On this table the mask exists, the clause parses, and they accept the same rows. */
  ghost predicate SameRows(env: Env, t: Table, e: Expr)
    requires Rect(t)
  {
    var clause, mask := ParseExpr(env, t, e), EvalMask(env, t, e);
    && clause.Some? && mask.Some? && |mask.value| == t.rowCount
    && forall i | 0 <= i < t.rowCount :: mask.value[i] == RowMatches(clause.value, RowOf(t, i))
  }

  /** A table of one row, with one cell and perhaps one string under the column in question. */
  function OneRow(names: seq<string>, idx: nat, cell: u64, text: Option<string>): Table {
    Table(seq(|names|, c => [if c == idx then cell else 0]), names, 1,
          if text.Some? then seq(|names|, _ => Some([text.value])) else [])
  }

  lemma OneRowRect(names: seq<string>, idx: nat, cell: u64, text: Option<string>)
    requires idx < |names|
    ensures var t := OneRow(names, idx, cell, text);
            && Rect(t) && t.columns[idx] == [cell] && RowOf(t, 0)[idx] == cell
            && Sidecar(t, idx) == if text.Some? then Some([text.value]) else None
  {
  }

  /**
   * A comparison with a named column: mask and clause accept the same rows of every table of those names
   * that keeps no strings there, if and only if both read the literal alike.
   */
  lemma LeafExact(env: Env, names: seq<string>, name: string, op: Op, v: Value)
    requires IsComparison(op) && ColumnIdx(names, name).Some?
    ensures (forall t: Table | Rect(t) && t.names == names && Sidecar(t, ColumnIdx(names, name).value).None? ::
               SameRows(env, t, Binary(Col(name), op, Lit(v))))
            <==> RowLiteral(env, v) == MaskLiteral(env, v)
  {
    var idx, e := ColumnIdx(names, name).value, Binary(Col(name), op, Lit(v));
    if RowLiteral(env, v) == MaskLiteral(env, v) {
      forall t: Table | Rect(t) && t.names == names && Sidecar(t, idx).None? ensures SameRows(env, t, e) {
        MaskRefinesRows(env, t, e);
      }
    } else {
      var cell := TellsApart(op, RowLiteral(env, v), MaskLiteral(env, v));
      var t := OneRow(names, idx, cell, None);
      OneRowRect(names, idx, cell, None);
      assert EvalMask(env, t, e).value[0] == Compare(op, cell, MaskLiteral(env, v));
      assert !SameRows(env, t, e);
    }
  }

  /** What the two routes do with a string range on a column that keeps its strings. */
  lemma KeptLeaf(env: Env, t: Table, name: string, op: Op, s: string)
    requires Rect(t) && IsRange(op) && ColumnIdx(t.names, name).Some?
    requires Sidecar(t, ColumnIdx(t.names, name).value).Some?
    ensures var idx := ColumnIdx(t.names, name).value;
            SameRows(env, t, Binary(Col(name), op, Lit(Str(s)))) <==>
            forall i | 0 <= i < t.rowCount ::
              CompareText(env, op, Sidecar(t, idx).value[i], s)
                  == Compare(op, t.columns[idx][i], RowLiteral(env, Str(s)))
  {
    var idx, e := ColumnIdx(t.names, name).value, Binary(Col(name), op, Lit(Str(s)));
    var mask, clause := EvalMask(env, t, e).value, ParseExpr(env, t, e).value;
    forall i | 0 <= i < t.rowCount
      ensures mask[i] == CompareText(env, op, Sidecar(t, idx).value[i], s)
      ensures RowMatches(clause, RowOf(t, i)) == Compare(op, t.columns[idx][i], RowLiteral(env, Str(s)))
    {
      assert RowOf(t, i)[idx] == t.columns[idx][i];
    }
  }

  /**
   * A string range on a named column: on every table of those names that keeps the strings, mask and clause
   * accept the same rows if and only if neither looks at the row at all.
   */
  lemma KeptLeafExact(env: Env, names: seq<string>, name: string, op: Op, s: string)
    requires IsRange(op) && ColumnIdx(names, name).Some?
    ensures (forall t: Table | Rect(t) && t.names == names && Sidecar(t, ColumnIdx(names, name).value).Some? ::
               SameRows(env, t, Binary(Col(name), op, Lit(Str(s)))))
            <==> && Constant(op, RowLiteral(env, Str(s)))
                 && forall text: string :: CompareText(env, op, text, s) == (op.Ge? || op.Le?)
  {
    var idx, e, lit := ColumnIdx(names, name).value, Binary(Col(name), op, Lit(Str(s))), RowLiteral(env, Str(s));
    if Constant(op, lit) && forall text: string :: CompareText(env, op, text, s) == (op.Ge? || op.Le?) {
      forall t: Table | Rect(t) && t.names == names && Sidecar(t, idx).Some? ensures SameRows(env, t, e) {
        KeptLeaf(env, t, name, op, s);
      }
    } else {
      var text: string, cell: u64 := "", 0;
      if Constant(op, lit) {
        text :| CompareText(env, op, text, s) != (op.Ge? || op.Le?);
      } else {
        var a, b := Discerning(op, lit);
        cell := if Compare(op, a, lit) == CompareText(env, op, text, s) then b else a;
      }
      var t := OneRow(names, idx, cell, Some(text));
      OneRowRect(names, idx, cell, Some(text));
      KeptLeaf(env, t, name, op, s);
      assert CompareText(env, op, Sidecar(t, idx).value[0], s) != Compare(op, t.columns[idx][0], lit);
      assert !SameRows(env, t, e);
    }
  }

  /**
   * On original strings the two routes differ: `x < 'b'` over the strings a and c keeps the first row by
   * mask, which orders the strings, and both rows by clause, which orders cells against a hash.
   */
  lemma SidecarOrderDiffers(env: Env, t: Table, e: Expr)
    requires t == Table([[0, 1]], ["x"], 2, [Some(["a", "c"])]) && e == Binary(Col("x"), Lt, Lit(Str("b")))
    requires env.less("a", "b") && !env.less("c", "b")
    requires env.parseI64("b").None? && env.parseU64("b").None? && 1 < env.hash("b")
    ensures ParseExpr(env, t, e).Some? && EvalMask(env, t, e) == Some([true, false])
    ensures RowMatches(ParseExpr(env, t, e).value, RowOf(t, 0)) && RowMatches(ParseExpr(env, t, e).value, RowOf(t, 1))
  {
    assert ColumnIdx(t.names, "x") == Some(0);
    assert CompareColumn(env, t, 0, Lt, Str("b")).value == [true, false];
  }

  /**
   * Neither route turns the operator round when the literal comes first, so `5 < x` is read as `x < 5`:
   * that is the meaning of the comparison exactly when the operator is symmetric or the two are equal.
   */
  lemma LiteralFirstExact(env: Env, t: Table, name: string, v: Value, op: Op, cell: u64)
    requires IsComparison(op)
    ensures ParseExpr(env, t, Binary(Lit(v), op, Col(name))) == ParseExpr(env, t, Binary(Col(name), op, Lit(v)))
    ensures EvalMask(env, t, Binary(Lit(v), op, Col(name))) == EvalMask(env, t, Binary(Col(name), op, Lit(v)))
    ensures Compare(op, cell, RowLiteral(env, v)) == Compare(op, RowLiteral(env, v), cell)
            <==> op.Eq? || op.Ne? || cell == RowLiteral(env, v)
  {
  }

  /** `5 < x` on the cell 7: both routes drop the row. */
  lemma LiteralFirstDiffers(env: Env, t: Table, e: Expr)
    requires t == Table([[7]], ["x"], 1, []) && e == Binary(Lit(Int(5)), Lt, Col("x"))
    ensures EvalMask(env, t, e) == Some([false])
    ensures ParseExpr(env, t, e).Some? && !RowMatches(ParseExpr(env, t, e).value, RowOf(t, 0))
  {
    assert ColumnIdx(t.names, "x") == Some(0);
    assert CompareColumn(env, t, 0, Lt, Int(5)).value == [false];
  }
}
