/** The hash joins of `src/exec/join.rs` against nested loops. */
module HashJoin {
  import opened Machine
  import opened Options

  datatype JoinType = Inner | Left | Right | Full | Semi | Anti

  /** Column-major; every column has `rowCount` cells. */
  datatype Table = Table(columns: seq<seq<u64>>, names: seq<string>, rowCount: nat)

  datatype JoinKey = JoinKey(left: nat, right: nat)

  datatype Joined = Joined(columns: seq<seq<u64>>, names: seq<string>, rowCount: nat)

  ghost predicate Rect(t: Table) {
    forall c | 0 <= c < |t.columns| :: |t.columns[c]| == t.rowCount
  }

  ghost predicate Joinable(left: Table, right: Table, keys: seq<JoinKey>) {
    && Rect(left) && Rect(right)
    && forall i | 0 <= i < |keys| :: keys[i].left < |left.columns| && keys[i].right < |right.columns|
  }

  function LeftCols(keys: seq<JoinKey>): seq<nat> { seq(|keys|, i requires 0 <= i < |keys| => keys[i].left) }

  function RightCols(keys: seq<JoinKey>): seq<nat> { seq(|keys|, i requires 0 <= i < |keys| => keys[i].right) }

  /** The key of a row: its cells in the key columns. */
  function KeyOf(t: Table, cols: seq<nat>, row: nat): seq<u64>
    requires Rect(t) && row < t.rowCount && forall i | 0 <= i < |cols| :: cols[i] < |t.columns|
  {
    seq(|cols|, i requires 0 <= i < |cols| => t.columns[cols[i]][row])
  }

  /** The condition of the join, by itself. */
  ghost predicate KeysEqual(left: Table, right: Table, keys: seq<JoinKey>, l: nat, r: nat)
    requires Joinable(left, right, keys) && l < left.rowCount && r < right.rowCount
  {
    forall i | 0 <= i < |keys| :: left.columns[keys[i].left][l] == right.columns[keys[i].right][r]
  }

  lemma KeysEqualIsKeyOf(left: Table, right: Table, keys: seq<JoinKey>, l: nat, r: nat)
    requires Joinable(left, right, keys) && l < left.rowCount && r < right.rowCount
    ensures KeysEqual(left, right, keys, l, r) <==> KeyOf(left, LeftCols(keys), l) == KeyOf(right, RightCols(keys), r)
  {
    var a, b := KeyOf(left, LeftCols(keys), l), KeyOf(right, RightCols(keys), r);
    if a == b {
      forall i | 0 <= i < |keys| ensures left.columns[keys[i].left][l] == right.columns[keys[i].right][r] {
        assert a[i] == b[i];
      }
    }
  }

  // ---------------------------------------------------------------- nested loops

  /** An output row: which left row and which right row it joins. */
  type Pair = (Option<nat>, Option<nat>)

  /** The right rows below `n` that match left row `l`, in order. */
  ghost function Matches(left: Table, right: Table, keys: seq<JoinKey>, l: nat, n: nat): seq<nat>
    requires Joinable(left, right, keys) && l < left.rowCount && n <= right.rowCount
  {
    if n == 0 then []
    else if KeysEqual(left, right, keys, l, n - 1) then Matches(left, right, keys, l, n - 1) + [n - 1]
    else Matches(left, right, keys, l, n - 1)
  }

  lemma {:induction false} MatchesExact(left: Table, right: Table, keys: seq<JoinKey>, l: nat, n: nat)
    requires Joinable(left, right, keys) && l < left.rowCount && n <= right.rowCount
    ensures var m := Matches(left, right, keys, l, n);
            && (forall r: nat :: r in m <==> r < n && KeysEqual(left, right, keys, l, r))
            && (forall i, j | 0 <= i < j < |m| :: m[i] < m[j])
  {
    if n > 0 {
      MatchesExact(left, right, keys, l, n - 1);
      var m := Matches(left, right, keys, l, n - 1);
      assert forall i | 0 <= i < |m| :: m[i] in m;
    }
  }

  ghost function PairsOf(l: nat, m: seq<nat>): seq<Pair> {
    seq(|m|, i requires 0 <= i < |m| => (Some(l), Some(m[i])))
  }

  predicate KeepsLeft(jt: JoinType) { jt.Left? || jt.Full? }

  predicate KeepsRight(jt: JoinType) { jt.Right? || jt.Full? }

  /** The inner loop of a nested-loop join for one left row. */
  ghost function LeftRow(left: Table, right: Table, keys: seq<JoinKey>, keep: bool, l: nat): seq<Pair>
    requires Joinable(left, right, keys) && l < left.rowCount
  {
    var m := Matches(left, right, keys, l, right.rowCount);
    if m == [] then (if keep then [(Some(l), None)] else []) else PairsOf(l, m)
  }

  /** A nested-loop join of the first `n` left rows, keeping unmatched left rows or not. */
  ghost function NestedLoop(left: Table, right: Table, keys: seq<JoinKey>, keep: bool, n: nat): seq<Pair>
    requires Joinable(left, right, keys) && n <= left.rowCount
  {
    if n == 0 then [] else NestedLoop(left, right, keys, keep, n - 1) + LeftRow(left, right, keys, keep, n - 1)
  }

  /** Right row `r` is matched by some left row below `n`. */
  ghost predicate RightMatched(left: Table, right: Table, keys: seq<JoinKey>, r: nat, n: nat)
    requires Joinable(left, right, keys) && r < right.rowCount && n <= left.rowCount
  {
    exists l: nat | l < n :: KeysEqual(left, right, keys, l, r)
  }

  ghost function RightRest(left: Table, right: Table, keys: seq<JoinKey>, n: nat): seq<Pair>
    requires Joinable(left, right, keys) && n <= right.rowCount
  {
    if n == 0 then []
    else if RightMatched(left, right, keys, n - 1, left.rowCount) then RightRest(left, right, keys, n - 1)
    else RightRest(left, right, keys, n - 1) + [(None, Some(n - 1))]
  }

  ghost function JoinPairs(left: Table, right: Table, keys: seq<JoinKey>, jt: JoinType): seq<Pair>
    requires Joinable(left, right, keys)
  {
    var looped := NestedLoop(left, right, keys, KeepsLeft(jt), left.rowCount);
    if KeepsRight(jt) then looped + RightRest(left, right, keys, right.rowCount) else looped
  }

  /** A cell of an output row; a missing side reads as 0. */
  function Cell(t: Table, c: nat, row: Option<nat>): u64
    requires Rect(t) && c < |t.columns|
  {
    if row.Some? && row.value < t.rowCount then t.columns[c][row.value] else 0
  }

  function CellOf(left: Table, right: Table, p: Pair, c: nat): u64
    requires Rect(left) && Rect(right) && c < |left.columns| + |right.columns|
  {
    if c < |left.columns| then Cell(left, c, p.0) else Cell(right, c - |left.columns|, p.1)
  }

  /** The columns hold exactly these output rows, in order. */
  ghost predicate Renders(cols: seq<seq<u64>>, left: Table, right: Table, pairs: seq<Pair>)
    requires Rect(left) && Rect(right)
  {
    && |cols| == |left.columns| + |right.columns|
    && forall c | 0 <= c < |cols| ::
         |cols[c]| == |pairs| && forall i | 0 <= i < |pairs| :: cols[c][i] == CellOf(left, right, pairs[i], c)
  }

  // ---------------------------------------------------------------- hash join

  /** The rows below `n` with this key, in order. */
  ghost function Bucket(t: Table, cols: seq<nat>, key: seq<u64>, n: nat): seq<nat>
    requires Rect(t) && n <= t.rowCount && forall i | 0 <= i < |cols| :: cols[i] < |t.columns|
  {
    if n == 0 then []
    else if KeyOf(t, cols, n - 1) == key then Bucket(t, cols, key, n - 1) + [n - 1]
    else Bucket(t, cols, key, n - 1)
  }

  /** The hash table of the first `n` rows: every key, present or not, leads to exactly its rows. */
  ghost predicate Built(table: map<seq<u64>, seq<nat>>, t: Table, cols: seq<nat>, n: nat)
    requires Rect(t) && n <= t.rowCount && forall i | 0 <= i < |cols| :: cols[i] < |t.columns|
  {
    && (forall k | k in table :: table[k] != [])
    && (forall key: seq<u64> :: Lookup(table, key) == Bucket(t, cols, key, n))
  }

  /** The bucket of a left row's key holds its matches. */
  lemma {:induction false} BucketIsMatches(left: Table, right: Table, keys: seq<JoinKey>, l: nat, n: nat)
    requires Joinable(left, right, keys) && l < left.rowCount && n <= right.rowCount
    ensures Bucket(right, RightCols(keys), KeyOf(left, LeftCols(keys), l), n) == Matches(left, right, keys, l, n)
  {
    if n > 0 {
      BucketIsMatches(left, right, keys, l, n - 1);
      KeysEqualIsKeyOf(left, right, keys, l, n - 1);
    }
  }

  function Lookup(table: map<seq<u64>, seq<nat>>, key: seq<u64>): seq<nat> {
    if key in table then table[key] else []
  }

  method RowKey(t: Table, cols: seq<nat>, row: nat) returns (key: seq<u64>)
    requires Rect(t) && row < t.rowCount && forall i | 0 <= i < |cols| :: cols[i] < |t.columns|
    ensures key == KeyOf(t, cols, row)
  {
    key := [];
    for i := 0 to |cols|
      invariant key == KeyOf(t, cols, row)[..i]
    {
      key := key + [t.columns[cols[i]][row]];
    }
  }

  method BuildTable(t: Table, cols: seq<nat>) returns (table: map<seq<u64>, seq<nat>>)
    requires Rect(t) && forall i | 0 <= i < |cols| :: cols[i] < |t.columns|
    ensures Built(table, t, cols, t.rowCount)
  {
    table := map[];
    for r := 0 to t.rowCount
      invariant Built(table, t, cols, r)
    {
      var key := RowKey(t, cols, r);
      table := table[key := Lookup(table, key) + [r]];
    }
  }

  /** Push one output row onto every column. */
  method PushRow(
    cols: seq<seq<u64>>, left: Table, right: Table, p: Pair, ghost pairs: seq<Pair>) returns (cols': seq<seq<u64>>)
    requires Rect(left) && Rect(right) && Renders(cols, left, right, pairs)
    ensures Renders(cols', left, right, pairs + [p])
  {
    cols' := [];
    for c := 0 to |cols|
      invariant |cols'| == c
      invariant forall d | 0 <= d < c :: cols'[d] == cols[d] + [CellOf(left, right, p, d)]
    {
      cols' := cols' + [cols[c] + [CellOf(left, right, p, c)]];
    }
  }

  ghost predicate Marked(matched: seq<bool>, left: Table, right: Table, keys: seq<JoinKey>, n: nat)
    requires Joinable(left, right, keys) && n <= left.rowCount
  {
    |matched| == right.rowCount &&
    forall r: nat | r < right.rowCount :: matched[r] <==> RightMatched(left, right, keys, r, n)
  }

  /** The probe of one left row. */
  method ProbeRow(
    cols: seq<seq<u64>>, rowCount: nat, matched: seq<bool>, left: Table, right: Table, keys: seq<JoinKey>, jt: JoinType,
                  l: nat, matches: seq<nat>, ghost pairs: seq<Pair>)
    returns (cols': seq<seq<u64>>, rowCount': nat, matched': seq<bool>)
    requires Joinable(left, right, keys) && l < left.rowCount
    requires matches == Matches(left, right, keys, l, right.rowCount)
    requires Renders(cols, left, right, pairs) && rowCount == |pairs| && |matched| == right.rowCount
    ensures Renders(cols', left, right, pairs + LeftRow(left, right, keys, KeepsLeft(jt), l))
    ensures rowCount' == |pairs + LeftRow(left, right, keys, KeepsLeft(jt), l)| && |matched'| == |matched|
    ensures forall r: nat | r < |matched| :: matched'[r] <==> matched[r] || r in matches
  {
    cols', rowCount', matched' := cols, rowCount, matched;
    MatchesExact(left, right, keys, l, right.rowCount);
    if matches == [] {
      if KeepsLeft(jt) {
        cols' := PushRow(cols', left, right, (Some(l), None), pairs);
        rowCount' := rowCount' + 1;
      } else {
        assert pairs + [] == pairs;
      }
    } else {
      ghost var row := PairsOf(l, matches);
      assert pairs + row[..0] == pairs;
      for i := 0 to |matches|
        invariant Renders(cols', left, right, pairs + row[..i]) && rowCount' == |pairs| + i
        invariant |matched'| == |matched|
        invariant forall r: nat | r < |matched| :: matched'[r] <==> matched[r] || r in matches[..i]
      {
        assert matches[i] in matches;
        matched' := matched'[matches[i] := true];
        cols' := PushRow(cols', left, right, (Some(l), Some(matches[i])), pairs + row[..i]);
        assert pairs + row[..i + 1] == pairs + row[..i] + [row[i]];
        rowCount' := rowCount' + 1;
      }
      assert row[..|matches|] == row && matches[..|matches|] == matches;
    }
  }

  /** The probe phase over all left rows. */
  method ProbeAll(left: Table, right: Table, keys: seq<JoinKey>, jt: JoinType, table: map<seq<u64>, seq<nat>>)
    returns (cols: seq<seq<u64>>, rowCount: nat, matched: seq<bool>)
    requires Joinable(left, right, keys) && Built(table, right, RightCols(keys), right.rowCount)
    ensures Renders(cols, left, right, NestedLoop(left, right, keys, KeepsLeft(jt), left.rowCount))
    ensures rowCount == |NestedLoop(left, right, keys, KeepsLeft(jt), left.rowCount)|
    ensures Marked(matched, left, right, keys, left.rowCount)
  {
    cols := seq(|left.columns| + |right.columns|, _ => []);
    matched := seq(right.rowCount, _ => false);
    rowCount := 0;
    for l := 0 to left.rowCount
      invariant Renders(cols, left, right, NestedLoop(left, right, keys, KeepsLeft(jt), l))
      invariant rowCount == |NestedLoop(left, right, keys, KeepsLeft(jt), l)|
      invariant Marked(matched, left, right, keys, l)
    {
      var key := RowKey(left, LeftCols(keys), l);
      var matches := Lookup(table, key);
      ghost var before, looped := matched, NestedLoop(left, right, keys, KeepsLeft(jt), l);
      BucketIsMatches(left, right, keys, l, right.rowCount);
      cols, rowCount, matched := ProbeRow(cols, rowCount, matched, left, right, keys, jt, l, matches, looped);
      MarkOne(before, matched, left, right, keys, l);
    }
  }

  /** The right rows no left row matched. */
  method AppendUnmatched(
    cols: seq<seq<u64>>, rowCount: nat, matched: seq<bool>, left: Table, right: Table, keys: seq<JoinKey>,
    ghost looped: seq<Pair>)
    returns (cols': seq<seq<u64>>, rowCount': nat)
    requires Joinable(left, right, keys) && Marked(matched, left, right, keys, left.rowCount)
    requires Renders(cols, left, right, looped) && rowCount == |looped|
    ensures Renders(cols', left, right, looped + RightRest(left, right, keys, right.rowCount))
    ensures rowCount' == |looped + RightRest(left, right, keys, right.rowCount)|
  {
    cols', rowCount' := cols, rowCount;
    assert looped + [] == looped;
    for r := 0 to right.rowCount
      invariant Renders(cols', left, right, looped + RightRest(left, right, keys, r))
      invariant rowCount' == |looped + RightRest(left, right, keys, r)|
    {
      if !matched[r] {
        ghost var rest := RightRest(left, right, keys, r);
        cols' := PushRow(cols', left, right, (None, Some(r)), looped + rest);
        rowCount' := rowCount' + 1;
        assert looped + (rest + [(None, Some(r))]) == looped + rest + [(None, Some(r))];
      }
    }
  }

  /**
   * `hash_join` outputs exactly the nested-loop rows in nested-loop order, then the unmatched right rows
   * where the join type keeps them; every output column has `rowCount` cells.
   */
  method HashJoin(left: Table, right: Table, keys: seq<JoinKey>, jt: JoinType) returns (r: Result<Joined>)
    requires Joinable(left, right, keys)
    ensures r.Failure? <==> keys == []
    ensures r.Success? ==>
              && Renders(r.value.columns, left, right, JoinPairs(left, right, keys, jt))
              && r.value.rowCount == |JoinPairs(left, right, keys, jt)|
              && r.value.names == left.names + right.names
  {
    if keys == [] {
      return Failure;
    }
    var table := BuildTable(right, RightCols(keys));
    var cols, rowCount, matched := ProbeAll(left, right, keys, jt, table);
    if KeepsRight(jt) {
      cols, rowCount := AppendUnmatched(cols, rowCount, matched, left, right, keys,
                                        NestedLoop(left, right, keys, KeepsLeft(jt), left.rowCount));
    }
    return Success(Joined(cols, left.names + right.names, rowCount));
  }

  lemma MarkOne(before: seq<bool>, matched: seq<bool>, left: Table, right: Table, keys: seq<JoinKey>, l: nat)
    requires Joinable(left, right, keys) && l < left.rowCount && Marked(before, left, right, keys, l)
    requires |matched| == |before|
    requires forall r: nat | r < |before| ::
               matched[r] <==> before[r] || r in Matches(left, right, keys, l, right.rowCount)
    ensures Marked(matched, left, right, keys, l + 1)
  {
    var m := Matches(left, right, keys, l, right.rowCount);
    MatchesExact(left, right, keys, l, right.rowCount);
    forall r: nat | r < right.rowCount ensures matched[r] <==> RightMatched(left, right, keys, r, l + 1) {
      if r in m {
        assert KeysEqual(left, right, keys, l, r);
      }
      if RightMatched(left, right, keys, r, l) {
        var j: nat :| j < l && KeysEqual(left, right, keys, j, r);
        assert j < l + 1;
      }
      if RightMatched(left, right, keys, r, l + 1) && !RightMatched(left, right, keys, r, l) {
        var j: nat :| j < l + 1 && KeysEqual(left, right, keys, j, r);
        assert j == l;
      }
    }
  }

  // ---------------------------------------------------------------- semi and anti joins

  ghost predicate HasMatch(left: Table, right: Table, keys: seq<JoinKey>, l: nat)
    requires Joinable(left, right, keys) && l < left.rowCount
  {
    exists r: nat | r < right.rowCount :: KeysEqual(left, right, keys, l, r)
  }

  lemma HasMatchIsMatches(left: Table, right: Table, keys: seq<JoinKey>, l: nat)
    requires Joinable(left, right, keys) && l < left.rowCount
    ensures HasMatch(left, right, keys, l) <==> Matches(left, right, keys, l, right.rowCount) != []
  {
    MatchesExact(left, right, keys, l, right.rowCount);
    var m := Matches(left, right, keys, l, right.rowCount);
    assert m != [] ==> m[0] in m;
  }

  /** The left rows below `n` that have a match, or that have none, in order. */
  ghost function Kept(left: Table, right: Table, keys: seq<JoinKey>, wanted: bool, n: nat): (rows: seq<nat>)
    requires Joinable(left, right, keys) && n <= left.rowCount
    ensures forall i | 0 <= i < |rows| :: rows[i] < n
    ensures forall i, j | 0 <= i < j < |rows| :: rows[i] < rows[j]
  {
    if n == 0 then []
    else if HasMatch(left, right, keys, n - 1) == wanted then Kept(left, right, keys, wanted, n - 1) + [n - 1]
    else Kept(left, right, keys, wanted, n - 1)
  }

  ghost predicate RendersRows(cols: seq<seq<u64>>, t: Table, rows: seq<nat>)
    requires Rect(t)
  {
    && |cols| == |t.columns|
    && forall c | 0 <= c < |cols| ::
         |cols[c]| == |rows| && forall i | 0 <= i < |rows| ::
             rows[i] < t.rowCount && cols[c][i] == t.columns[c][rows[i]]
  }

  method PushLeftRow(cols: seq<seq<u64>>, t: Table, l: nat, ghost rows: seq<nat>) returns (cols': seq<seq<u64>>)
    requires Rect(t) && l < t.rowCount && RendersRows(cols, t, rows)
    ensures RendersRows(cols', t, rows + [l])
  {
    cols' := [];
    for c := 0 to |cols|
      invariant |cols'| == c
      invariant forall d | 0 <= d < c :: cols'[d] == cols[d] + [t.columns[d][l]]
    {
      cols' := cols' + [cols[c] + [t.columns[c][l]]];
    }
  }

  /** `semi_join` (wanted) and `anti_join` (not wanted). */
  method FilterJoin(left: Table, right: Table, keys: seq<JoinKey>, wanted: bool) returns (r: Joined)
    requires Joinable(left, right, keys)
    ensures RendersRows(r.columns, left, Kept(left, right, keys, wanted, left.rowCount))
    ensures r.rowCount == |Kept(left, right, keys, wanted, left.rowCount)| && r.names == left.names
  {
    var table := BuildTable(right, RightCols(keys));
    var cols: seq<seq<u64>> := seq(|left.columns|, _ => []);
    var rowCount := 0;
    for l := 0 to left.rowCount
      invariant RendersRows(cols, left, Kept(left, right, keys, wanted, l))
      invariant rowCount == |Kept(left, right, keys, wanted, l)|
    {
      var key := RowKey(left, LeftCols(keys), l);
      BucketIsMatches(left, right, keys, l, right.rowCount);
      assert Lookup(table, key) == Matches(left, right, keys, l, right.rowCount);
      HasMatchIsMatches(left, right, keys, l);
      if (key in table) == wanted {
        cols := PushLeftRow(cols, left, l, Kept(left, right, keys, wanted, l));
        rowCount := rowCount + 1;
      }
    }
    return Joined(cols, left.names, rowCount);
  }

  // ---------------------------------------------------------------- laws between the joins

  lemma {:induction false} KeptExact(left: Table, right: Table, keys: seq<JoinKey>, wanted: bool, n: nat, l: nat)
    requires Joinable(left, right, keys) && n <= left.rowCount && l < left.rowCount
    ensures l in Kept(left, right, keys, wanted, n) <==> l < n && HasMatch(left, right, keys, l) == wanted
  {
    if n > 0 {
      KeptExact(left, right, keys, wanted, n - 1, l);
    }
  }

  /** The first `n` row numbers. */
  function RowsBelow(n: nat): seq<nat> { seq(n, i => i) }

  lemma Dealt(a: seq<nat>, b: seq<nat>, all: seq<nat>, l: nat)
    requires multiset(a) + multiset(b) == multiset(all)
    ensures multiset(a + [l]) + multiset(b) == multiset(a) + multiset(b + [l]) == multiset(all + [l])
  {
  }

  /** The semi and anti joins share out the left rows: each row goes to exactly one of them. */
  lemma {:induction false} SemiAntiPartition(left: Table, right: Table, keys: seq<JoinKey>, n: nat)
    requires Joinable(left, right, keys) && n <= left.rowCount
    ensures multiset(Kept(left, right, keys, true, n)) + multiset(Kept(left, right, keys, false, n))
         == multiset(RowsBelow(n))
  {
    if n > 0 {
      SemiAntiPartition(left, right, keys, n - 1);
      assert RowsBelow(n) == RowsBelow(n - 1) + [n - 1];
      Dealt(Kept(left, right, keys, true, n - 1), Kept(left, right, keys, false, n - 1), RowsBelow(n - 1), n - 1);
    }
  }

  /** Left rows without a partner. */
  ghost function Alone(rows: seq<nat>): seq<Pair> {
    if rows == [] then [] else Alone(rows[..|rows| - 1]) + [(Some(rows[|rows| - 1]), None)]
  }

  lemma AloneSnoc(rows: seq<nat>, l: nat)
    ensures Alone(rows + [l]) == Alone(rows) + [(Some(l), None)]
  {
    assert (rows + [l])[..|rows|] == rows;
  }

  lemma LeftRowKept(left: Table, right: Table, keys: seq<JoinKey>, l: nat)
    requires Joinable(left, right, keys) && l < left.rowCount
    ensures LeftRow(left, right, keys, true, l)
         == if HasMatch(left, right, keys, l) then LeftRow(left, right, keys, false, l) else [(Some(l), None)]
    ensures !HasMatch(left, right, keys, l) ==> LeftRow(left, right, keys, false, l) == []
  {
    HasMatchIsMatches(left, right, keys, l);
  }

  lemma Shared(all: seq<Pair>, inner: seq<Pair>, alone: seq<Pair>, row: seq<Pair>)
    requires multiset(all) == multiset(inner) + multiset(alone)
    ensures multiset(all + row) == multiset(inner + row) + multiset(alone)
    ensures multiset(all + row) == multiset(inner) + multiset(alone + row)
  {
  }

  /** One more left row goes to the inner join or stays alone. */
  lemma LeftStep(left: Table, right: Table, keys: seq<JoinKey>, l: nat, row: seq<Pair>)
    requires Joinable(left, right, keys) && l < left.rowCount && row == LeftRow(left, right, keys, true, l)
    ensures var inner, kept := NestedLoop(left, right, keys, false, l), Kept(left, right, keys, false, l);
            if HasMatch(left, right, keys, l) then
              && NestedLoop(left, right, keys, false, l + 1) == inner + row
              && Kept(left, right, keys, false, l + 1) == kept
            else
              && NestedLoop(left, right, keys, false, l + 1) == inner
              && Alone(Kept(left, right, keys, false, l + 1)) == Alone(kept) + row
  {
    LeftRowKept(left, right, keys, l);
    var inner, kept := NestedLoop(left, right, keys, false, l), Kept(left, right, keys, false, l);
    if !HasMatch(left, right, keys, l) {
      AloneSnoc(kept, l);
      assert inner + [] == inner;
    }
  }

  /** A left join has the rows of the inner join and, alone, those of the anti join. */
  lemma {:induction false} LeftIsInnerPlusAnti(left: Table, right: Table, keys: seq<JoinKey>, n: nat)
    requires Joinable(left, right, keys) && n <= left.rowCount
    ensures multiset(NestedLoop(left, right, keys, true, n))
         == multiset(NestedLoop(left, right, keys, false, n)) + multiset(Alone(Kept(left, right, keys, false, n)))
  {
    if n > 0 {
      var l := n - 1;
      var all, inner := NestedLoop(left, right, keys, true, l), NestedLoop(left, right, keys, false, l);
      var row := LeftRow(left, right, keys, true, l);
      LeftIsInnerPlusAnti(left, right, keys, l);
      LeftStep(left, right, keys, l, row);
      Shared(all, inner, Alone(Kept(left, right, keys, false, l)), row);
    }
  }

  lemma LeftRowPairs(left: Table, right: Table, keys: seq<JoinKey>, k: nat, l: nat, r: nat)
    requires Joinable(left, right, keys) && k < left.rowCount && l < left.rowCount && r < right.rowCount
    ensures (Some(l), Some(r)) in LeftRow(left, right, keys, false, k) <==> l == k && KeysEqual(left, right, keys, l, r)
  {
    var m := Matches(left, right, keys, k, right.rowCount);
    MatchesExact(left, right, keys, k, right.rowCount);
    if l == k && r in m {
      var i :| 0 <= i < |m| && m[i] == r;
      assert PairsOf(k, m)[i] == (Some(l), Some(r));
    }
  }

  /** The rows of an inner join are exactly the matching pairs. */
  lemma {:induction false} InnerPairs(left: Table, right: Table, keys: seq<JoinKey>, n: nat, l: nat, r: nat)
    requires Joinable(left, right, keys) && n <= left.rowCount && l < left.rowCount && r < right.rowCount
    ensures (Some(l), Some(r)) in NestedLoop(left, right, keys, false, n)
            <==> l < n && KeysEqual(left, right, keys, l, r)
  {
    if n > 0 {
      InnerPairs(left, right, keys, n - 1, l, r);
      LeftRowPairs(left, right, keys, n - 1, l, r);
    }
  }

  /** The rows a right or full join adds are exactly the right rows nothing matches. */
  lemma {:induction false} RestPairs(left: Table, right: Table, keys: seq<JoinKey>, n: nat, r: nat)
    requires Joinable(left, right, keys) && n <= right.rowCount && r < right.rowCount
    ensures (None, Some(r)) in RightRest(left, right, keys, n)
            <==> r < n && forall l: nat | l < left.rowCount :: !KeysEqual(left, right, keys, l, r)
  {
    if n > 0 {
      RestPairs(left, right, keys, n - 1, r);
    }
  }

  // ---------------------------------------------------------------- the output by join type

  /** What each join type promises: matching pairs, and which rows without a match come out alone. */
  ghost predicate Promised(left: Table, right: Table, keys: seq<JoinKey>, jt: JoinType, p: Pair)
    requires Joinable(left, right, keys)
  {
    match p
    case (Some(l), Some(r)) => l < left.rowCount && r < right.rowCount && KeysEqual(left, right, keys, l, r)
    case (Some(l), None) => (jt.Left? || jt.Full?) && l < left.rowCount && !HasMatch(left, right, keys, l)
    case (None, Some(r)) =>
      (jt.Right? || jt.Full?) && r < right.rowCount && !RightMatched(left, right, keys, r, left.rowCount)
    case (None, None) => false
  }

  /** The pairs of left row `k`. */
  ghost predicate InLeftRow(left: Table, right: Table, keys: seq<JoinKey>, keep: bool, k: nat, p: Pair)
    requires Joinable(left, right, keys) && k < left.rowCount
  {
    && p.0 == Some(k)
    && (if p.1.Some? then p.1.value < right.rowCount && KeysEqual(left, right, keys, k, p.1.value)
        else keep && !HasMatch(left, right, keys, k))
  }

  lemma PairsOfExact(l: nat, m: seq<nat>, p: Pair)
    ensures p in PairsOf(l, m) <==> p.0 == Some(l) && p.1.Some? && p.1.value in m
  {
    var pairs := PairsOf(l, m);
    if p.0 == Some(l) && p.1.Some? && p.1.value in m {
      var i :| 0 <= i < |m| && m[i] == p.1.value;
      assert pairs[i] == p;
    }
  }

  lemma LeftRowExact(left: Table, right: Table, keys: seq<JoinKey>, keep: bool, k: nat, p: Pair)
    requires Joinable(left, right, keys) && k < left.rowCount
    ensures p in LeftRow(left, right, keys, keep, k) <==> InLeftRow(left, right, keys, keep, k, p)
  {
    var m := Matches(left, right, keys, k, right.rowCount);
    MatchesExact(left, right, keys, k, right.rowCount);
    HasMatchIsMatches(left, right, keys, k);
    PairsOfExact(k, m, p);
  }

  lemma {:induction false} NestedLoopExact(left: Table, right: Table, keys: seq<JoinKey>, keep: bool, n: nat, p: Pair)
    requires Joinable(left, right, keys) && n <= left.rowCount
    ensures p in NestedLoop(left, right, keys, keep, n)
            <==> p.0.Some? && p.0.value < n && InLeftRow(left, right, keys, keep, p.0.value, p)
  {
    if n > 0 {
      var a, b := NestedLoop(left, right, keys, keep, n - 1), LeftRow(left, right, keys, keep, n - 1);
      assert p in a + b <==> p in a || p in b;
      NestedLoopExact(left, right, keys, keep, n - 1, p);
      LeftRowExact(left, right, keys, keep, n - 1, p);
    }
  }

  lemma {:induction false} RestExact(left: Table, right: Table, keys: seq<JoinKey>, n: nat, p: Pair)
    requires Joinable(left, right, keys) && n <= right.rowCount
    ensures p in RightRest(left, right, keys, n)
            <==> p.0.None? && p.1.Some? && p.1.value < n && !RightMatched(left, right, keys, p.1.value, left.rowCount)
  {
    if n > 0 {
      RestExact(left, right, keys, n - 1, p);
    }
  }

  /** The join outputs exactly the pairs its type promises. */
  lemma JoinExact(left: Table, right: Table, keys: seq<JoinKey>, jt: JoinType, p: Pair)
    requires Joinable(left, right, keys)
    ensures p in JoinPairs(left, right, keys, jt) <==> Promised(left, right, keys, jt, p)
  {
    NestedLoopExact(left, right, keys, KeepsLeft(jt), left.rowCount, p);
    RestExact(left, right, keys, right.rowCount, p);
  }

  ghost predicate NoneTwice(pairs: seq<Pair>) { forall i, j | 0 <= i < j < |pairs| :: pairs[i] != pairs[j] }

  lemma NoneTwiceAppend(a: seq<Pair>, b: seq<Pair>)
    requires NoneTwice(a) && NoneTwice(b) && forall p | p in a :: p !in b
    ensures NoneTwice(a + b)
  {
    var all := a + b;
    forall i, j | 0 <= i < j < |all| ensures all[i] != all[j] {
      if i < |a| <= j {
        assert a[i] in a && b[j - |a|] in b;
      }
    }
  }

  lemma LeftRowOnce(left: Table, right: Table, keys: seq<JoinKey>, keep: bool, k: nat)
    requires Joinable(left, right, keys) && k < left.rowCount
    ensures NoneTwice(LeftRow(left, right, keys, keep, k))
  {
    MatchesExact(left, right, keys, k, right.rowCount);
  }

  lemma {:induction false} NestedLoopOnce(left: Table, right: Table, keys: seq<JoinKey>, keep: bool, n: nat)
    requires Joinable(left, right, keys) && n <= left.rowCount
    ensures NoneTwice(NestedLoop(left, right, keys, keep, n))
  {
    if n > 0 {
      var a, b := NestedLoop(left, right, keys, keep, n - 1), LeftRow(left, right, keys, keep, n - 1);
      NestedLoopOnce(left, right, keys, keep, n - 1);
      LeftRowOnce(left, right, keys, keep, n - 1);
      forall p | p in a ensures p !in b {
        NestedLoopExact(left, right, keys, keep, n - 1, p);
        LeftRowExact(left, right, keys, keep, n - 1, p);
      }
      NoneTwiceAppend(a, b);
    }
  }

  lemma {:induction false} RestOnce(left: Table, right: Table, keys: seq<JoinKey>, n: nat)
    requires Joinable(left, right, keys) && n <= right.rowCount
    ensures NoneTwice(RightRest(left, right, keys, n))
  {
    if n > 0 {
      RestOnce(left, right, keys, n - 1);
      RestExact(left, right, keys, n - 1, (None, Some(n - 1)));
    }
  }

  /** And each of them once. */
  lemma JoinOnce(left: Table, right: Table, keys: seq<JoinKey>, jt: JoinType)
    requires Joinable(left, right, keys)
    ensures NoneTwice(JoinPairs(left, right, keys, jt))
  {
    var a := NestedLoop(left, right, keys, KeepsLeft(jt), left.rowCount);
    var b := RightRest(left, right, keys, right.rowCount);
    NestedLoopOnce(left, right, keys, KeepsLeft(jt), left.rowCount);
    RestOnce(left, right, keys, right.rowCount);
    forall p | p in a ensures p !in b {
      NestedLoopExact(left, right, keys, KeepsLeft(jt), left.rowCount, p);
      RestExact(left, right, keys, right.rowCount, p);
    }
    NoneTwiceAppend(a, b);
  }

  /** A left row comes out of a left or full join always, of the others exactly with a match. */
  lemma LeftRowsOut(left: Table, right: Table, keys: seq<JoinKey>, jt: JoinType, l: nat)
    requires Joinable(left, right, keys) && l < left.rowCount
    ensures (exists p | p in JoinPairs(left, right, keys, jt) :: p.0 == Some(l))
            <==> jt.Left? || jt.Full? || HasMatch(left, right, keys, l)
  {
    if HasMatch(left, right, keys, l) {
      var r: nat :| r < right.rowCount && KeysEqual(left, right, keys, l, r);
      JoinExact(left, right, keys, jt, (Some(l), Some(r)));
    } else {
      JoinExact(left, right, keys, jt, (Some(l), None));
      if p :| p in JoinPairs(left, right, keys, jt) && p.0 == Some(l) {
        JoinExact(left, right, keys, jt, p);
      }
    }
  }

  /** A right row comes out of a right or full join always, of the others exactly with a match. */
  lemma RightRowsOut(left: Table, right: Table, keys: seq<JoinKey>, jt: JoinType, r: nat)
    requires Joinable(left, right, keys) && r < right.rowCount
    ensures (exists p | p in JoinPairs(left, right, keys, jt) :: p.1 == Some(r))
            <==> jt.Right? || jt.Full? || RightMatched(left, right, keys, r, left.rowCount)
  {
    if RightMatched(left, right, keys, r, left.rowCount) {
      var l: nat :| l < left.rowCount && KeysEqual(left, right, keys, l, r);
      JoinExact(left, right, keys, jt, (Some(l), Some(r)));
    } else {
      JoinExact(left, right, keys, jt, (None, Some(r)));
      if p :| p in JoinPairs(left, right, keys, jt) && p.1 == Some(r) {
        JoinExact(left, right, keys, jt, p);
      }
    }
  }

  /** The cells of a row, or as many zeros for a row that is missing. */
  function RowCells(t: Table, row: Option<nat>): seq<u64>
    requires Rect(t) && (row.Some? ==> row.value < t.rowCount)
  {
    if row.None? then seq(|t.columns|, _ => 0)
    else seq(|t.columns|, c requires 0 <= c < |t.columns| => t.columns[c][row.value])
  }

  /** Output row `i` is the cells of its left row followed by those of its right row. */
  lemma OutputRow(cols: seq<seq<u64>>, left: Table, right: Table, keys: seq<JoinKey>, jt: JoinType, i: nat)
    requires Joinable(left, right, keys) && Renders(cols, left, right, JoinPairs(left, right, keys, jt))
    requires i < |JoinPairs(left, right, keys, jt)|
    ensures var (l, r) := JoinPairs(left, right, keys, jt)[i];
            && (l.Some? ==> l.value < left.rowCount) && (r.Some? ==> r.value < right.rowCount)
            && (forall c | 0 <= c < |cols| :: i < |cols[c]|)
            && seq(|cols|, c requires 0 <= c < |cols| => cols[c][i]) == RowCells(left, l) + RowCells(right, r)
  {
    var p := JoinPairs(left, right, keys, jt)[i];
    JoinExact(left, right, keys, jt, p);
  }
}
