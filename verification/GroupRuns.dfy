/**
 * When the groups of `hash_group_by_flat` (`src/exec/flat_hash_table.rs`) are right: exactly on runs in
 * which no insertion displaces a key, neither for a row nor while the table grows.
 */
module GroupRuns {
  import opened Counting
  import opened FlatHashTable
  import FlatTable
  import opened Machine
  import opened RobinHood

  // ---------------------------------------------------------------- one insertion

  /** An insertion that displaces lands, with another key, in a slot that was free. */
  lemma UncleanPlace(hash: Hash, t: Table, key: u64)
    requires Ok(hash, t) && HasFree(t.slots.occupied) && !Clean(hash, t, key)
    ensures var (t', r) := PlaceKey(hash, t, key);
            && Ok(hash, t') && r < |t.states| && t'.states == t.states && t'.slots.occupied[r]
            && t.states[r] == FRESH && t'.slots.keys[r] != key && Resident(t.slots, t'.slots.keys[r])
            && !Resident(t.slots, key)
  {
    PlaceKeyOk(hash, t, key);
    ReturnedSlotExact(hash, t.slots, key);
    var (t', r) := PlaceKey(hash, t, key);
    assert At(t'.slots, t'.slots.keys[r], r);
  }

  /** An insertion that does not displace changes at most the slot it returns. */
  lemma CleanSlot(hash: Hash, t: Table, key: u64)
    requires Ok(hash, t) && HasFree(t.slots.occupied) && Clean(hash, t, key)
    ensures var (t', r) := PlaceKey(hash, t, key);
            && r < |t.states| && t'.states == t.states && t'.slots.keys == t.slots.keys[r := key]
            && t'.slots.occupied == t.slots.occupied[r := true]
            && (t.slots.occupied[r] ==> t.slots.keys[r] == key)
            && (t.slots.occupied[r] <==> Resident(t.slots, key))
  {
    PlaceKeyOk(hash, t, key);
    ReturnedSlotExact(hash, t.slots, key);
    var s: nat :| Settles(hash, t.slots, key, s);
    assert t.slots.occupied[s] ==> At(t.slots, key, s);
  }

  // ---------------------------------------------------------------- groups that give themselves away

  /** Different resident keys have different sums. */
  ghost predicate Telling(t: Table, f: u64 -> AggState)
    requires Shape(t.slots)
  {
    forall a: u64, b: u64 | Resident(t.slots, a) && Resident(t.slots, b) && a != b :: f(a).sum != f(b).sum
  }

  /** Slot `s` holds a sum that is not its key's. */
  ghost predicate Wrong(t: Table, f: u64 -> AggState, s: nat)
    requires Shape(t.slots) && |t.states| == |t.slots.keys|
  {
    s < |t.states| && t.slots.occupied[s] && t.states[s].sum != f(t.slots.keys[s]).sum
  }

  lemma WrongIsNotTallied(t: Table, f: u64 -> AggState, s: nat)
    requires Shape(t.slots) && |t.states| == |t.slots.keys| && Wrong(t, f, s)
    ensures !Tallies(t, f)
  {
  }

  /** A displacing move of slot `j` leaves a wrong sum in the slot it lands in. */
  lemma UncleanMove(hash: Hash, t: Table, j: nat, f: u64 -> AggState) returns (s: nat)
    requires Ok(hash, t) && j < |t.states| && t.slots.occupied[j] && Tallies(t, f) && Telling(t, f)
    requires !Clean(hash, Rehash(hash, t, j), t.slots.keys[j])
    ensures Wrong(Rehash(hash, t, j + 1), f, s)
  {
    var u, key := Rehash(hash, t, j), t.slots.keys[j];
    MovedHasRoom(hash, t, j, u);
    UncleanPlace(hash, u, key);
    var (u', r) := PlaceKey(hash, u, key);
    assert Rehash(hash, t, j + 1) == MoveSlot(hash, t, j, u);
    s := r;
    var other := u'.slots.keys[r];
    var q: nat :| q < j && At(t.slots, other, q);
    assert At(t.slots, key, j);
  }

  /** A clean move leaves every wrong slot as it is. */
  lemma CleanMove(hash: Hash, t: Table, j: nat, f: u64 -> AggState, s: nat)
    requires Ok(hash, t) && j < |t.states| && Wrong(Rehash(hash, t, j), f, s)
    requires t.slots.occupied[j] ==> Clean(hash, Rehash(hash, t, j), t.slots.keys[j])
    ensures Wrong(Rehash(hash, t, j + 1), f, s)
  {
    var u := Rehash(hash, t, j);
    MovedHasRoom(hash, t, j, u);
    assert Rehash(hash, t, j + 1) == MoveSlot(hash, t, j, u);
    if t.slots.occupied[j] {
      NotYetMoved(hash, t, j, u);
      CleanSlot(hash, u, t.slots.keys[j]);
    }
  }

  /** The last displacing move of a growth leaves a wrong sum that no later one touches. */
  lemma {:induction false} UncleanRehash(hash: Hash, t: Table, i: nat, f: u64 -> AggState) returns (s: nat)
    requires Ok(hash, t) && i <= |t.states| && Tallies(t, f) && Telling(t, f) && !CleanRehash(hash, t, i)
    ensures Wrong(Rehash(hash, t, i), f, s)
    decreases i
  {
    var j := i - 1;
    if t.slots.occupied[j] && !Clean(hash, Rehash(hash, t, j), t.slots.keys[j]) {
      s := UncleanMove(hash, t, j, f);
    } else {
      s := UncleanRehash(hash, t, j, f);
      CleanMove(hash, t, j, f, s);
    }
  }

  // ---------------------------------------------------------------- one row

  /** The folds after one more row. */
  ghost predicate Fed(f: u64 -> AggState, row: (u64, u64), f': u64 -> AggState) {
    forall k: u64 :: f'(k) == if k == row.0 then Update(f(k), row.1) else f(k)
  }

  /** A displacing row credits its value to another key. */
  lemma UncleanRow(hash: Hash, t: Table, row: (u64, u64), f: u64 -> AggState, f': u64 -> AggState)
    requires Ok(hash, t) && Fed(f, row, f') && !Clean(hash, Ready(hash, t), row.0)
    requires forall k: u64 | Resident(t.slots, k) :: f(k).sum != row.1
    ensures Ok(hash, Feed(hash, Full, t, row)) && !Tallies(Feed(hash, Full, t, row), f')
  {
    var g := Ready(hash, t);
    FeedOk(hash, Full, t, row);
    UncleanPlace(hash, g, row.0);
    var (u, r) := PlaceKey(hash, g, row.0);
    assert Feed(hash, Full, t, row).states[r] == Update(FRESH, row.1);
    WrongIsNotTallied(Feed(hash, Full, t, row), f', r);
  }

  lemma SumsStayApart(a: u64, b: u64, v: u64)
    requires a != b
    ensures (a + v) % U64_RANGE != (b + v) % U64_RANGE
  {
  }

  /** A clean row does not repair a wrong sum. */
  lemma CleanRow(hash: Hash, t: Table, row: (u64, u64), f: u64 -> AggState, f': u64 -> AggState, s: nat)
    requires Ok(hash, t) && Fed(f, row, f') && Wrong(Ready(hash, t), f, s) && Clean(hash, Ready(hash, t), row.0)
    ensures Ok(hash, Feed(hash, Full, t, row)) && !Tallies(Feed(hash, Full, t, row), f')
  {
    FeedOk(hash, Full, t, row);
    StillWrong(hash, Ready(hash, t), row, f, f', s);
    WrongIsNotTallied(Feed(hash, Full, t, row), f', s);
  }

  /** The table after a row that needs no growth. */
  function Credit(hash: Hash, g: Table, row: (u64, u64)): Table
    requires Shape(g.slots) && HasFree(g.slots.occupied)
  {
    var (u, r) := PlaceKey(hash, g, row.0);
    if r < |u.states| then u.(states := u.states[r := Update(u.states[r], row.1)]) else u
  }

  /** Another slot than the one the key takes holds another key. */
  lemma OtherSlot(hash: Hash, g: Table, key: u64, s: nat)
    requires Ok(hash, g) && HasFree(g.slots.occupied) && Clean(hash, g, key)
    requires s < |g.states| && g.slots.occupied[s]
    ensures PlaceKey(hash, g, key).1 != s ==> g.slots.keys[s] != key
  {
    CleanSlot(hash, g, key);
    if g.slots.keys[s] == key {
      assert At(g.slots, key, s);
      var r := PlaceKey(hash, g, key).1;
      assert At(g.slots, key, r);
    }
  }

  lemma SumAfter(st: AggState, want: AggState, v: u64)
    requires st.sum != want.sum
    ensures Update(st, v).sum != Update(want, v).sum
  {
    SumsStayApart(st.sum, want.sum, v);
  }

  lemma StillWrong(hash: Hash, g: Table, row: (u64, u64), f: u64 -> AggState, f': u64 -> AggState, s: nat)
    requires Ok(hash, g) && HasFree(g.slots.occupied) && Fed(f, row, f') && Wrong(g, f, s) && Clean(hash, g, row.0)
    ensures Shape(Credit(hash, g, row).slots) && |Credit(hash, g, row).states| == |Credit(hash, g, row).slots.keys|
    ensures Wrong(Credit(hash, g, row), f', s)
  {
    PlaceKeyOk(hash, g, row.0);
    CleanSlot(hash, g, row.0);
    OtherSlot(hash, g, row.0, s);
    SumAfter(g.states[s], f(g.slots.keys[s]), row.1);
  }

  /** On groups that give themselves away, a row that is not fed cleanly makes some group wrong. */
  lemma UncleanFeed(hash: Hash, t: Table, row: (u64, u64), f: u64 -> AggState, f': u64 -> AggState)
    requires Ok(hash, t) && Tallies(t, f) && Telling(t, f) && Fed(f, row, f') && !CleanFeed(hash, t, row.0)
    requires !Resident(t.slots, row.0) ==> forall k: u64 | Resident(t.slots, k) :: f(k).sum != row.1
    ensures Ok(hash, Feed(hash, Full, t, row)) && !Tallies(Feed(hash, Full, t, row), f')
  {
    if !Clean(hash, Ready(hash, t), row.0) {
      UncleanPlace(hash, Ready(hash, t), row.0);
      UncleanRow(hash, t, row, f, f');
    } else {
      var s := UncleanRehash(hash, t, |t.states|, f);
      CleanRow(hash, t, row, f, f', s);
    }
  }

  /**
   * One row on a table that need not grow and whose groups are right: they stay right for every value if
   * and only if inserting the key displaces nothing.
   */
  lemma RowExact(hash: Hash, t: Table, key: u64, f: u64 -> AggState)
    requires Ok(hash, t) && !Overloaded(t) && Tallies(t, f) && (!Resident(t.slots, key) ==> f(key) == FRESH)
    ensures (forall v: u64 :: RightAfter(hash, t, key, v, f)) <==> Clean(hash, t, key)
  {
    if Clean(hash, t, key) {
      forall v: u64 ensures RightAfter(hash, t, key, v, f) {
        CleanFeedTallies(hash, Full, t, (key, v), f, Credited(f, key, v));
      }
    } else {
      RoomAfterCheck(hash, t);
      UncleanPlace(hash, t, key);
      var (u, r) := PlaceKey(hash, t, key);
      var sum := f(u.slots.keys[r]).sum;
      var v: u64 := if sum == 0 then 1 else 0;
      FeedOk(hash, Full, t, (key, v));
      assert Feed(hash, Full, t, (key, v)).states[r] == Update(FRESH, v);
      WrongIsNotTallied(Feed(hash, Full, t, (key, v)), Credited(f, key, v), r);
      assert !RightAfter(hash, t, key, v, f);
    }
  }

  function Credited(f: u64 -> AggState, key: u64, v: u64): u64 -> AggState {
    (k: u64) => if k == key then Update(f(k), v) else f(k)
  }

  ghost predicate RightAfter(hash: Hash, t: Table, key: u64, v: u64, f: u64 -> AggState)
    requires Ok(hash, t)
  {
    var t' := Feed(hash, Full, t, (key, v));
    Ok(hash, t') && Tallies(t', Credited(f, key, v))
  }

  // ---------------------------------------------------------------- the slots do not depend on the values

  lemma {:induction false} RehashSame(hash: Hash, t: Table, u: Table, i: nat)
    requires Ok(hash, t) && Ok(hash, u) && t.slots == u.slots && i <= |t.states|
    ensures Rehash(hash, t, i).slots == Rehash(hash, u, i).slots
    ensures CleanRehash(hash, t, i) <==> CleanRehash(hash, u, i)
    decreases i
  {
    if i > 0 {
      RehashSame(hash, t, u, i - 1);
      MovedHasRoom(hash, t, i - 1, Rehash(hash, t, i - 1));
      assert Rehash(hash, t, i) == MoveSlot(hash, t, i - 1, Rehash(hash, t, i - 1));
      assert Rehash(hash, u, i) == MoveSlot(hash, u, i - 1, Rehash(hash, u, i - 1));
    }
  }

  lemma FeedSame(hash: Hash, kind: AggKind, t: Table, row: (u64, u64), kind': AggKind, u: Table, row': (u64, u64))
    requires Ok(hash, t) && Ok(hash, u) && t.slots == u.slots && row.0 == row'.0
    ensures Feed(hash, kind, t, row).slots == Feed(hash, kind', u, row').slots
    ensures CleanFeed(hash, t, row.0) <==> CleanFeed(hash, u, row'.0)
  {
    RehashSame(hash, t, u, |t.states|);
    assert Ready(hash, t).slots == Ready(hash, u).slots;
  }

  ghost predicate SameKeys(rows: seq<(u64, u64)>, rows': seq<(u64, u64)>) {
    |rows| == |rows'| && forall i | 0 <= i < |rows| :: rows[i].0 == rows'[i].0
  }

  lemma {:induction false} RunSame(
    hash: Hash, cap: nat, kind: AggKind, rows: seq<(u64, u64)>, kind': AggKind, rows': seq<(u64, u64)>)
    requires cap > 0 && SameKeys(rows, rows')
    ensures Grouped(hash, kind, cap, rows).slots == Grouped(hash, kind', cap, rows').slots
    ensures CleanRun(hash, kind, cap, rows) <==> CleanRun(hash, kind', cap, rows')
    decreases |rows|
  {
    if rows != [] {
      var n := |rows| - 1;
      RunSame(hash, cap, kind, rows[..n], kind', rows'[..n]);
      FeedSame(hash, kind, Grouped(hash, kind, cap, rows[..n]), rows[n],
               kind', Grouped(hash, kind', cap, rows'[..n]), rows'[n]);
    }
  }

  // ---------------------------------------------------------------- values that give every group away

  /** The first row of a key carries the key as its value, later ones carry 0. */
  ghost predicate Marked(rows: seq<(u64, u64)>) {
    forall i | 0 <= i < |rows| :: rows[i].1 == if rows[i].0 in KeysOf(rows[..i]) then 0 else rows[i].0
  }

  lemma MarkedPrefix(rows: seq<(u64, u64)>, n: nat)
    requires Marked(rows) && n <= |rows|
    ensures Marked(rows[..n])
  {
    forall i | 0 <= i < n
      ensures rows[..n][i].1 == if rows[..n][i].0 in KeysOf(rows[..n][..i]) then 0 else rows[..n][i].0
    {
      assert rows[..n][..i] == rows[..i];
    }
  }

  lemma {:induction false} MarkRows(rows: seq<(u64, u64)>) returns (marked: seq<(u64, u64)>)
    ensures SameKeys(rows, marked) && Marked(marked)
  {
    if rows == [] {
      marked := [];
    } else {
      var n := |rows| - 1;
      var before := MarkRows(rows[..n]);
      var key := rows[n].0;
      marked := before + [(key, if key in KeysOf(before) then 0 else key)];
      forall i | 0 <= i < |marked|
        ensures marked[i].1 == if marked[i].0 in KeysOf(marked[..i]) then 0 else marked[i].0
      {
        assert marked[..i] == before[..i];
        assert i == n ==> before[..i] == before;
      }
    }
  }

  /** So the sum of every group is its own key. */
  lemma {:induction false} MarkedSum(rows: seq<(u64, u64)>, k: u64)
    requires Marked(rows)
    ensures KeyFold(Full, rows, k).sum == if k in KeysOf(rows) then k else 0
  {
    if rows != [] {
      var n := |rows| - 1;
      MarkedPrefix(rows, n);
      MarkedSum(rows[..n], k);
      KeysOfSnoc(rows);
    }
  }

  /** The groups are right after every row. */
  ghost predicate RightThroughout(hash: Hash, cap: nat, rows: seq<(u64, u64)>)
    requires cap > 0
  {
    forall n | 0 <= n <= |rows| :: RightAt(hash, cap, rows, n)
  }

  ghost predicate RightAt(hash: Hash, cap: nat, rows: seq<(u64, u64)>, n: nat)
    requires cap > 0 && n <= |rows|
  {
    Tallies(Grouped(hash, Full, cap, rows[..n]), KeyFolds(Full, rows[..n]))
  }

  lemma {:induction false} CleanPrefix(hash: Hash, cap: nat, rows: seq<(u64, u64)>, n: nat)
    requires cap > 0 && n <= |rows| && CleanRun(hash, Full, cap, rows)
    ensures CleanRun(hash, Full, cap, rows[..n])
    decreases |rows|
  {
    if n < |rows| {
      var init := rows[..|rows| - 1];
      assert init[..n] == rows[..n];
      assert CleanRun(hash, Full, cap, init);
      CleanPrefix(hash, cap, init, n);
    } else {
      assert rows[..n] == rows;
    }
  }

  /** With marked values, the first row that is not fed cleanly makes a group wrong at once. */
  lemma {:induction false} UncleanRun(hash: Hash, cap: nat, rows: seq<(u64, u64)>) returns (n: nat)
    requires cap > 0 && Marked(rows) && !CleanRun(hash, Full, cap, rows)
    ensures n <= |rows| && !RightAt(hash, cap, rows, n)
    decreases |rows|
  {
    var m := |rows| - 1;
    var init := rows[..m];
    MarkedPrefix(rows, m);
    if !CleanRun(hash, Full, cap, init) {
      n := UncleanRun(hash, cap, init);
      assert init[..n] == rows[..n];
    } else {
      n := |rows|;
      UncleanLast(hash, cap, rows);
      assert rows[..n] == rows;
    }
  }

  lemma UncleanLast(hash: Hash, cap: nat, rows: seq<(u64, u64)>)
    requires cap > 0 && rows != [] && Marked(rows) && Marked(rows[..|rows| - 1])
    requires CleanRun(hash, Full, cap, rows[..|rows| - 1]) && !CleanRun(hash, Full, cap, rows)
    ensures !Tallies(Grouped(hash, Full, cap, rows), KeyFolds(Full, rows))
  {
    var m := |rows| - 1;
    var init := rows[..m];
    CleanRunGroups(hash, Full, cap, init);
    MarkedTelling(hash, cap, init, rows[m]);
    UncleanFeed(hash, Grouped(hash, Full, cap, init), rows[m], KeyFolds(Full, init), KeyFolds(Full, rows));
  }

  lemma MarkedTelling(hash: Hash, cap: nat, rows: seq<(u64, u64)>, row: (u64, u64))
    requires cap > 0 && Marked(rows)
    ensures Telling(Grouped(hash, Full, cap, rows), KeyFolds(Full, rows))
    ensures row.0 !in KeysOf(rows) && row.1 == row.0 ==>
              forall k: u64 | Resident(Grouped(hash, Full, cap, rows).slots, k) :: KeyFolds(Full, rows)(k).sum != row.1
    ensures Resident(Grouped(hash, Full, cap, rows).slots, row.0) <==> row.0 in KeysOf(rows)
  {
    GroupByKeys(hash, Full, cap, rows);
    forall k: u64 | k in KeysOf(rows) ensures KeyFolds(Full, rows)(k).sum == k {
      MarkedSum(rows, k);
    }
  }

  /**
   * For a sequence of keys: the groups are right after every row, whatever the values, if and only if no
   * insertion of the run displaces a key.
   */
  lemma GroupsExact(hash: Hash, cap: nat, rows: seq<(u64, u64)>)
    requires cap > 0
    ensures (forall rows': seq<(u64, u64)> | SameKeys(rows, rows') :: RightThroughout(hash, cap, rows'))
            <==> CleanRun(hash, Full, cap, rows)
  {
    if CleanRun(hash, Full, cap, rows) {
      forall rows': seq<(u64, u64)> | SameKeys(rows, rows') ensures RightThroughout(hash, cap, rows') {
        RunSame(hash, cap, Full, rows, Full, rows');
        forall n | 0 <= n <= |rows'| ensures RightAt(hash, cap, rows', n) {
          CleanPrefix(hash, cap, rows', n);
          CleanRunGroups(hash, Full, cap, rows'[..n]);
        }
      }
    } else {
      var marked := MarkRows(rows);
      RunSame(hash, cap, Full, rows, Full, marked);
      var n := UncleanRun(hash, cap, marked);
      assert !RightThroughout(hash, cap, marked);
    }
  }

  // ---------------------------------------------------------------- counts alone

  /** A group of one row, when only counts are kept. */
  const ONE: AggState := AggState(1, 0, U64_MAX, 0)

  ghost predicate AllOnes(t: Table)
    requires Shape(t.slots) && |t.states| == |t.slots.keys|
  {
    forall s | 0 <= s < |t.states| && t.slots.occupied[s] :: t.states[s] == ONE
  }

  lemma OnesPlaced(hash: Hash, u: Table, key: u64)
    requires Ok(hash, u) && HasFree(u.slots.occupied) && AllOnes(u)
    ensures var (u', r) := PlaceKey(hash, u, key);
            && r < |u'.states| == |u'.slots.keys| && Shape(u'.slots)
            && AllOnes(u'.(states := u'.states[r := ONE]))
  {
    PlaceKeyOk(hash, u, key);
  }

  lemma {:induction false} OnesRehashed(hash: Hash, t: Table, i: nat)
    requires Ok(hash, t) && i <= |t.states| && AllOnes(t)
    ensures AllOnes(Rehash(hash, t, i))
    decreases i
  {
    if i > 0 {
      var u := Rehash(hash, t, i - 1);
      OnesRehashed(hash, t, i - 1);
      MovedHasRoom(hash, t, i - 1, u);
      OnesPlaced(hash, u, t.slots.keys[i - 1]);
      assert Rehash(hash, t, i) == MoveSlot(hash, t, i - 1, u);
    }
  }

  lemma OnesFed(hash: Hash, t: Table, row: (u64, u64))
    requires Ok(hash, t) && AllOnes(t) && !Resident(t.slots, row.0)
    ensures Ok(hash, Feed(hash, CountOnly, t, row)) && AllOnes(Feed(hash, CountOnly, t, row))
  {
    FeedOk(hash, CountOnly, t, row);
    OnesRehashed(hash, t, |t.states|);
    PlaceKeyOk(hash, Ready(hash, t), row.0);
  }

  ghost predicate DistinctKeys(rows: seq<(u64, u64)>) {
    forall i, j | 0 <= i < j < |rows| :: rows[i].0 != rows[j].0
  }

  lemma DistinctLast(rows: seq<(u64, u64)>)
    requires DistinctKeys(rows) && rows != []
    ensures DistinctKeys(rows[..|rows| - 1]) && rows[|rows| - 1].0 !in KeysOf(rows[..|rows| - 1])
  {
  }

  lemma {:induction false} OnesGrouped(hash: Hash, cap: nat, rows: seq<(u64, u64)>)
    requires cap > 0 && DistinctKeys(rows)
    ensures AllOnes(Grouped(hash, CountOnly, cap, rows))
    decreases |rows|
  {
    if rows != [] {
      var n := |rows| - 1;
      DistinctLast(rows);
      OnesGrouped(hash, cap, rows[..n]);
      GroupByKeys(hash, CountOnly, cap, rows[..n]);
      OnesFed(hash, Grouped(hash, CountOnly, cap, rows[..n]), rows[n]);
    }
  }

  lemma {:induction false} FoldsOfOne(rows: seq<(u64, u64)>, k: u64)
    requires DistinctKeys(rows) && k in KeysOf(rows)
    ensures KeyFold(CountOnly, rows, k) == ONE
    decreases |rows|
  {
    var n := |rows| - 1;
    DistinctLast(rows);
    KeysOfSnoc(rows);
    if rows[n].0 == k {
      AbsentKeyFold(CountOnly, rows[..n], k);
    } else {
      FoldsOfOne(rows[..n], k);
    }
  }

  /**
   * Counts cannot tell: when every row has a key of its own, all counts are right whatever is displaced.
   */
  lemma CountsOfOne(hash: Hash, cap: nat, rows: seq<(u64, u64)>)
    requires cap > 0 && DistinctKeys(rows)
    ensures Tallies(Grouped(hash, CountOnly, cap, rows), KeyFolds(CountOnly, rows))
  {
    OnesGrouped(hash, cap, rows);
    GroupByKeys(hash, CountOnly, cap, rows);
    var t := Grouped(hash, CountOnly, cap, rows);
    forall s: nat | s < |t.states| && t.slots.occupied[s] ensures KeyFold(CountOnly, rows, t.slots.keys[s]) == ONE {
      assert At(t.slots, t.slots.keys[s], s);
      FoldsOfOne(rows, t.slots.keys[s]);
    }
  }

  /** The rows of a run that exchanges two sums. */
  function Exchanging(): seq<(u64, u64)> { [] + [(0, 5)] + [(1, 10)] + [(2, 20)] }

  lemma ExchangingFold()
    ensures KeyFold(Full, Exchanging(), 2).sum == 20 && DistinctKeys(Exchanging())
  {
    AbsentKeyFold(Full, Exchanging()[..2], 2);
  }

  lemma ExchangingDisplaces(cap: nat)
    requires cap >= 16
    ensures !CleanRun(FlatTable.Colliding(), Full, cap, Exchanging())
  {
    var t := FlatTable.DisplacementMixesGroups(cap);
    ExchangingFold();
    if CleanRun(FlatTable.Colliding(), Full, cap, Exchanging()) {
      CleanRunGroups(FlatTable.Colliding(), Full, cap, Exchanging());
    }
  }

  /** So for counts alone a displacing run can be right: the three rows that mix two sums are one. */
  lemma CountsHideDisplacement(cap: nat)
    requires cap >= 16
    ensures !CleanRun(FlatTable.Colliding(), CountOnly, cap, Exchanging())
    ensures Tallies(Grouped(FlatTable.Colliding(), CountOnly, cap, Exchanging()), KeyFolds(CountOnly, Exchanging()))
  {
    ExchangingFold();
    CountsOfOne(FlatTable.Colliding(), cap, Exchanging());
    ExchangingDisplaces(cap);
    RunSame(FlatTable.Colliding(), cap, CountOnly, Exchanging(), Full, Exchanging());
  }
}
