/**
 * Which groups of `hash_group_by_flat` (`src/exec/flat_hash_table.rs`) are right when insertions displace keys:
 * exact conditions for counts as well as for full aggregates, and for the values a run actually has.
 */
module GroupCounts {
  import opened FlatHashTable
  import FlatTable
  import opened GroupRuns
  import opened Machine
  import opened RobinHood

  // ---------------------------------------------------------------- one probe

  /** A probe leaves the slots behind it alone. */
  lemma {:induction false} BehindProbe(t: Slots, idx: nat, dist: nat, key: u64, p: nat)
    requires Shape(t) && HasFree(t.occupied) && idx < |t.keys| && p < |t.keys| && t.occupied[p]
    requires Steps(|t.keys|, p, SomeFree(t.occupied)) > Steps(|t.keys|, idx, SomeFree(t.occupied))
    ensures var (t', r) := Probe(t, idx, dist, key);
            |t'.keys| == |t.keys| && r != p && t'.keys[p] == t.keys[p]
    decreases Steps(|t.keys|, idx, SomeFree(t.occupied))
  {
    if t.occupied[idx] && t.keys[idx] != key {
      Closer(t, idx);
      if t.dist[idx] < dist {
        var u := Slots(t.keys[idx := key], t.occupied, t.dist[idx := dist]);
        BehindProbe(u, After(|t.keys|, idx), Saturate(t.dist[idx] + 1), t.keys[idx], p);
      } else {
        BehindProbe(t, After(|t.keys|, idx), Saturate(dist + 1), key, p);
      }
    }
  }

  /** With `x` in the slot returned and every other slot as it was, each key's slot holds its `g`. */
  ghost predicate Holding(t: Slots, t': Slots, r: nat, g: u64 -> AggState, x: AggState)
    requires Shape(t) && Shape(t') && |t'.keys| == |t.keys|
  {
    forall s | 0 <= s < |t'.keys| && t'.occupied[s] :: (if s == r then x else g(t.keys[s])) == g(t'.keys[s])
  }

  /** Every key that lost its slot has `x`. */
  ghost predicate MovedHold(t: Slots, t': Slots, g: u64 -> AggState, x: AggState)
    requires Shape(t) && |t'.keys| == |t.keys|
  {
    forall s | 0 <= s < |t.keys| && t.occupied[s] && t'.keys[s] != t.keys[s] :: g(t.keys[s]) == x
  }

  /** Slot `idx` changes hands: what it holds is now looked at as the new key's. */
  lemma SwapHolds(
    t: Slots, u: Slots, t': Slots, r: nat, idx: nat, key: u64, g: u64 -> AggState, x: AggState)
    requires Shape(t) && Shape(u) && Shape(t') && |t'.keys| == |t.keys| && idx < |t.keys| && r != idx
    requires u.keys == t.keys[idx := key] && u.occupied == t.occupied && t.occupied[idx] && t.keys[idx] != key
    requires t'.keys[idx] == key && t'.occupied[idx]
    ensures Holding(t, t', r, g, x) <==> Holding(u, t', r, g, x) && g(t.keys[idx]) == g(key)
    ensures MovedHold(t, t', g, x) <==> MovedHold(u, t', g, x) && g(t.keys[idx]) == x
  {
  }

  /** The turn that displaces: the carried key keeps the slot it takes, which is not the one returned. */
  lemma DisplacingSlot(hash: Hash, t: Slots, idx: nat, dist: nat, key: u64)
    requires Probing(hash, t, idx, dist, key) && t.occupied[idx] && t.dist[idx] < dist
    ensures var (t', r) := Probe(t, idx, dist, key);
            && Shape(t') && |t'.keys| == |t.keys| && r < |t.keys| && r != idx
            && t'.keys[idx] == key && t'.occupied[idx] && t.keys[idx] != key
  {
    var u := Slots(t.keys[idx := key], t.occupied, t.dist[idx := dist]);
    var _, _ := ProbeAdds(hash, t, idx, dist, key);
    Closer(t, idx);
    BehindProbe(u, After(|t.keys|, idx), Saturate(t.dist[idx] + 1), t.keys[idx], idx);
    assert At(t, t.keys[idx], idx);
  }

  /** The state of the key pushed out stays in that slot. */
  lemma DisplacingHolds(hash: Hash, t: Slots, idx: nat, dist: nat, key: u64, g: u64 -> AggState, x: AggState)
    requires Probing(hash, t, idx, dist, key) && t.occupied[idx] && t.dist[idx] < dist
    ensures var u := Slots(t.keys[idx := key], t.occupied, t.dist[idx := dist]);
            var (t', r) := Probe(t, idx, dist, key);
            && Shape(t') && |t'.keys| == |t.keys| && r < |t.keys|
            && (Holding(t, t', r, g, x) <==> Holding(u, t', r, g, x) && g(t.keys[idx]) == g(key))
            && (MovedHold(t, t', g, x) <==> MovedHold(u, t', g, x) && g(t.keys[idx]) == x)
  {
    var u := Slots(t.keys[idx := key], t.occupied, t.dist[idx := dist]);
    var (t', r) := Probe(t, idx, dist, key);
    DisplacingSlot(hash, t, idx, dist, key);
    SwapHolds(t, u, t', r, idx, key, g, x);
  }

  /** Placing an absent key with `x`: all slots hold right if and only if the key and all displaced ones have `x`. */
  lemma {:induction false} ProbeHolds(
    hash: Hash, t: Slots, idx: nat, dist: nat, key: u64, g: u64 -> AggState, x: AggState)
    requires Probing(hash, t, idx, dist, key)
    ensures var (t', r) := Probe(t, idx, dist, key);
            && Shape(t') && |t'.keys| == |t.keys| && r < |t.keys|
            && (Holding(t, t', r, g, x) <==> g(key) == x && MovedHold(t, t', g, x))
    decreases Steps(|t.keys|, idx, SomeFree(t.occupied))
  {
    var (t', r) := Probe(t, idx, dist, key);
    var _, _ := ProbeAdds(hash, t, idx, dist, key);
    if t.occupied[idx] {
      assert At(t, t.keys[idx], idx);
      var (u, i, d, k) := Turn(t, idx, dist, key);
      TurnKeepsProbing(hash, t, idx, dist, key);
      ProbeHolds(hash, u, i, d, k, g, x);
      if t.dist[idx] < dist {
        DisplacingHolds(hash, t, idx, dist, key, g, x);
      }
    } else {
      assert r == idx && t'.occupied[idx] && t'.keys[idx] == key;
    }
  }

  // ---------------------------------------------------------------- one row

  /** The folds after one more row. */
  function AfterRow(kind: AggKind, f: u64 -> AggState, row: (u64, u64)): u64 -> AggState {
    (k: u64) => if k == row.0 then Accumulate(kind, f(k), row.1) else f(k)
  }

  /** The slots after a row that needs no growth. */
  ghost function Placed(hash: Hash, t: Table, key: u64): (slots: Slots)
    requires Ok(hash, t) && HasFree(t.slots.occupied)
    ensures |slots.keys| == |t.slots.keys|
  {
    PlaceKeyOk(hash, t, key);
    PlaceKey(hash, t, key).0.slots
  }

  lemma PlaceHolds(hash: Hash, t: Table, key: u64, g: u64 -> AggState, x: AggState)
    requires Ok(hash, t) && HasFree(t.slots.occupied) && !Resident(t.slots, key)
    ensures var (t', r) := PlaceKey(hash, t, key);
            && Shape(t'.slots) && |t'.slots.keys| == |t.slots.keys| && r < |t.slots.keys|
            && (Holding(t.slots, t'.slots, r, g, x) <==> g(key) == x && MovedHold(t.slots, t'.slots, g, x))
  {
    StartsCarrying(hash, t.slots, key);
    ProbeHolds(hash, t.slots, Home(hash, key, |t.slots.keys|), 0, key, g, x);
  }

  /** Placing the key displaces only keys that hold `x`. */
  ghost predicate EvenPlace(hash: Hash, t: Table, key: u64, f: u64 -> AggState, x: AggState)
    requires Ok(hash, t) && HasFree(t.slots.occupied)
  {
    MovedHold(t.slots, Placed(hash, t, key), f, x)
  }

  /** The table after a row, growth aside: the key placed and its state updated in the slot returned. */
  ghost function Entered(hash: Hash, kind: AggKind, g: Table, row: (u64, u64)): Table
    requires Ok(hash, g) && HasFree(g.slots.occupied)
  {
    var (u, r) := PlaceKey(hash, g, row.0);
    if r < |u.states| then u.(states := u.states[r := Accumulate(kind, u.states[r], row.1)]) else u
  }

  lemma EnteredOk(hash: Hash, kind: AggKind, t: Table, row: (u64, u64))
    requires Ok(hash, t)
    ensures Feed(hash, kind, t, row) == Entered(hash, kind, Ready(hash, t), row)
    ensures Ok(hash, Feed(hash, kind, t, row))
  {
    FeedOk(hash, kind, t, row);
  }

  lemma SlotsHold(hash: Hash, kind: AggKind, g: Table, row: (u64, u64), f: u64 -> AggState)
    requires Ok(hash, g) && HasFree(g.slots.occupied) && Tallies(g, f) && !Resident(g.slots, row.0)
    ensures var (t', r) := PlaceKey(hash, g, row.0);
            var e := Entered(hash, kind, g, row);
            && Shape(t'.slots) && |t'.slots.keys| == |g.slots.keys| && Shape(e.slots) && |e.states| == |e.slots.keys|
            && (Tallies(e, AfterRow(kind, f, row))
                <==> Holding(g.slots, t'.slots, r, AfterRow(kind, f, row), Accumulate(kind, FRESH, row.1)))
  {
    PlaceKeyOk(hash, g, row.0);
    var (t', r) := PlaceKey(hash, g, row.0);
    assert forall s: nat | s < |g.slots.keys| && g.slots.occupied[s] :: At(g.slots, g.slots.keys[s], s);
    assert Entered(hash, kind, g, row).states == g.states[r := Accumulate(kind, FRESH, row.1)];
  }

  /**
   * A new key on a table whose groups are right: they stay right if and only if every key the insertion
   * displaces has the very state of a first row.
   */
  lemma EnteredExact(hash: Hash, kind: AggKind, g: Table, row: (u64, u64), f: u64 -> AggState)
    requires Ok(hash, g) && HasFree(g.slots.occupied) && Tallies(g, f)
    requires !Resident(g.slots, row.0) && f(row.0) == FRESH
    ensures Shape(Entered(hash, kind, g, row).slots)
    ensures |Entered(hash, kind, g, row).states| == |Entered(hash, kind, g, row).slots.keys|
    ensures Tallies(Entered(hash, kind, g, row), AfterRow(kind, f, row))
            <==> EvenPlace(hash, g, row.0, f, Accumulate(kind, FRESH, row.1))
  {
    PlaceKeyOk(hash, g, row.0);
    PlaceHolds(hash, g, row.0, AfterRow(kind, f, row), Accumulate(kind, FRESH, row.1));
    SlotsHold(hash, kind, g, row, f);
    assert forall s: nat | s < |g.slots.keys| && g.slots.occupied[s] :: At(g.slots, g.slots.keys[s], s);
  }

  /** A key that is there already keeps the groups right. */
  lemma EnteredAgain(hash: Hash, kind: AggKind, g: Table, row: (u64, u64), f: u64 -> AggState)
    requires Ok(hash, g) && HasFree(g.slots.occupied) && Tallies(g, f) && Resident(g.slots, row.0)
    ensures var e := Entered(hash, kind, g, row);
            && e.slots == g.slots && |e.states| == |e.slots.keys| && Tallies(e, AfterRow(kind, f, row))
  {
    PlaceKeyOk(hash, g, row.0);
    assert forall s: nat | s < |g.slots.keys| && g.slots.occupied[s] :: At(g.slots, g.slots.keys[s], s);
  }

  /**
   * One row on a table that need not grow and whose groups are right: they stay right if and only if the key
   * is there already or every key its insertion displaces has the state of a first row.  For counts that is
   * a count of 1.
   */
  lemma RowHoldsExact(hash: Hash, kind: AggKind, t: Table, row: (u64, u64), f: u64 -> AggState)
    requires Ok(hash, t) && !Overloaded(t) && Tallies(t, f) && (!Resident(t.slots, row.0) ==> f(row.0) == FRESH)
    ensures Ok(hash, Feed(hash, kind, t, row)) && HasFree(t.slots.occupied)
    ensures Tallies(Feed(hash, kind, t, row), AfterRow(kind, f, row))
            <==> Resident(t.slots, row.0) || EvenPlace(hash, t, row.0, f, Accumulate(kind, FRESH, row.1))
  {
    RoomAfterCheck(hash, t);
    EnteredOk(hash, kind, t, row);
    if Resident(t.slots, row.0) {
      EnteredAgain(hash, kind, t, row, f);
    } else {
      EnteredExact(hash, kind, t, row, f);
    }
  }

  // ---------------------------------------------------------------- growth

  /** Moving old slot `j` displaces only keys that hold the moved state. */
  ghost predicate EvenMove(hash: Hash, t: Table, j: nat, f: u64 -> AggState)
    requires Ok(hash, t) && j < |t.states|
  {
    t.slots.occupied[j] ==>
      var u := Rehash(hash, t, j);
      MovedHasRoom(hash, t, j, u);
      EvenPlace(hash, u, t.slots.keys[j], f, f(t.slots.keys[j]))
  }

  /** A move of a growth whose groups are right so far keeps them right if and only if it is even. */
  lemma MoveExact(hash: Hash, t: Table, j: nat, f: u64 -> AggState)
    requires Ok(hash, t) && j < |t.states| && Tallies(t, f) && Tallies(Rehash(hash, t, j), f)
    ensures RightMove(hash, t, j + 1, f) <==> EvenMove(hash, t, j, f)
  {
    var u, key := Rehash(hash, t, j), t.slots.keys[j];
    MovedHasRoom(hash, t, j, u);
    assert Rehash(hash, t, j + 1) == MoveSlot(hash, t, j, u);
    if t.slots.occupied[j] {
      NotYetMoved(hash, t, j, u);
      PlaceKeyOk(hash, u, key);
      PlaceHolds(hash, u, key, f, f(key));
      var (u', r) := PlaceKey(hash, u, key);
      assert Rehash(hash, t, j + 1).states == u.states[r := f(key)];
    }
  }

  /** The groups are right after each of the first `i` moves. */
  ghost predicate RightMoves(hash: Hash, t: Table, i: nat, f: u64 -> AggState)
    requires Ok(hash, t) && i <= |t.states|
  {
    forall j | 0 <= j <= i :: RightMove(hash, t, j, f)
  }

  ghost predicate RightMove(hash: Hash, t: Table, j: nat, f: u64 -> AggState)
    requires Ok(hash, t) && j <= |t.states|
  {
    Tallies(Rehash(hash, t, j), f)
  }

  ghost predicate EvenMoves(hash: Hash, t: Table, i: nat, f: u64 -> AggState)
    requires Ok(hash, t) && i <= |t.states|
  {
    forall j | 0 <= j < i :: EvenMove(hash, t, j, f)
  }

  lemma NothingWrong(hash: Hash, t: Table, f: u64 -> AggState)
    requires Ok(hash, t)
    ensures RightMove(hash, t, 0, f)
  {
  }

  lemma NextMove(hash: Hash, t: Table, j: nat, f: u64 -> AggState)
    requires Ok(hash, t) && j < |t.states| && Tallies(t, f)
    ensures RightMove(hash, t, j, f) ==> (RightMove(hash, t, j + 1, f) <==> EvenMove(hash, t, j, f))
  {
    if RightMove(hash, t, j, f) {
      MoveExact(hash, t, j, f);
    }
  }

  lemma {:induction false} MovesExact(hash: Hash, t: Table, i: nat, f: u64 -> AggState)
    requires Ok(hash, t) && i <= |t.states| && Tallies(t, f)
    ensures RightMoves(hash, t, i, f) <==> EvenMoves(hash, t, i, f)
  {
    if i == 0 {
      NothingWrong(hash, t, f);
    } else {
      MovesExact(hash, t, i - 1, f);
      assert RightMoves(hash, t, i, f) <==> RightMoves(hash, t, i - 1, f) && RightMove(hash, t, i, f);
      assert EvenMoves(hash, t, i, f) <==> EvenMoves(hash, t, i - 1, f) && EvenMove(hash, t, i - 1, f);
      NextMove(hash, t, i - 1, f);
    }
  }

  // ---------------------------------------------------------------- runs, insertion by insertion

  /** Feeding the row displaces, in the growth and after it, only keys that hold what is inserted. */
  ghost predicate EvenFeed(hash: Hash, kind: AggKind, t: Table, row: (u64, u64), f: u64 -> AggState)
    requires Ok(hash, t)
  {
    && (Overloaded(t) ==> EvenMoves(hash, t, |t.states|, f))
    && (Resident(t.slots, row.0) || EvenPlace(hash, Ready(hash, t), row.0, f, Accumulate(kind, FRESH, row.1)))
  }

  /** The groups are right after every move of the growth, if there is one, and after the row. */
  ghost predicate RightFeed(hash: Hash, kind: AggKind, t: Table, row: (u64, u64), f: u64 -> AggState)
    requires Ok(hash, t)
  {
    && (Overloaded(t) ==> RightMoves(hash, t, |t.states|, f))
    && Ok(hash, Feed(hash, kind, t, row)) && Tallies(Feed(hash, kind, t, row), AfterRow(kind, f, row))
  }

  lemma GrownTallies(hash: Hash, t: Table, f: u64 -> AggState)
    requires Ok(hash, t) && Tallies(t, f) && (Overloaded(t) ==> RightMoves(hash, t, |t.states|, f))
    ensures Tallies(Ready(hash, t), f)
  {
    assert Overloaded(t) ==> RightMove(hash, t, |t.states|, f);
  }

  lemma FeedExact(hash: Hash, kind: AggKind, t: Table, row: (u64, u64), f: u64 -> AggState)
    requires Ok(hash, t) && Tallies(t, f) && (!Resident(t.slots, row.0) ==> f(row.0) == FRESH)
    ensures RightFeed(hash, kind, t, row, f) <==> EvenFeed(hash, kind, t, row, f)
  {
    EnteredOk(hash, kind, t, row);
    MovesExact(hash, t, |t.states|, f);
    if Overloaded(t) ==> RightMoves(hash, t, |t.states|, f) {
      GrownTallies(hash, t, f);
      if Resident(t.slots, row.0) {
        EnteredAgain(hash, kind, Ready(hash, t), row, f);
      } else {
        EnteredExact(hash, kind, Ready(hash, t), row, f);
      }
    }
  }

  ghost predicate EvenRun(hash: Hash, kind: AggKind, cap: nat, rows: seq<(u64, u64)>)
    requires cap > 0
    decreases |rows|
  {
    rows == [] ||
    var n := |rows| - 1;
    && EvenRun(hash, kind, cap, rows[..n])
    && EvenFeed(hash, kind, Grouped(hash, kind, cap, rows[..n]), rows[n], KeyFolds(kind, rows[..n]))
  }

  /** The groups are right after every single insertion of the run. */
  ghost predicate RightRun(hash: Hash, kind: AggKind, cap: nat, rows: seq<(u64, u64)>)
    requires cap > 0
    decreases |rows|
  {
    rows == [] ||
    var n := |rows| - 1;
    && RightRun(hash, kind, cap, rows[..n])
    && RightFeed(hash, kind, Grouped(hash, kind, cap, rows[..n]), rows[n], KeyFolds(kind, rows[..n]))
  }

  lemma NextFolds(hash: Hash, kind: AggKind, cap: nat, rows: seq<(u64, u64)>)
    requires cap > 0 && rows != []
    ensures var n := |rows| - 1;
            var t, f := Grouped(hash, kind, cap, rows[..n]), KeyFolds(kind, rows[..n]);
            && (!Resident(t.slots, rows[n].0) ==> f(rows[n].0) == FRESH)
            && Grouped(hash, kind, cap, rows) == Feed(hash, kind, t, rows[n])
            && (Tallies(Grouped(hash, kind, cap, rows), KeyFolds(kind, rows))
                <==> Tallies(Grouped(hash, kind, cap, rows), AfterRow(kind, f, rows[n])))
  {
    var n := |rows| - 1;
    GroupByKeys(hash, kind, cap, rows[..n]);
    if rows[n].0 !in KeysOf(rows[..n]) {
      AbsentKeyFold(kind, rows[..n], rows[n].0);
    }
    var f, g := KeyFolds(kind, rows), AfterRow(kind, KeyFolds(kind, rows[..n]), rows[n]);
    assert forall k: u64 :: f(k) == g(k);
  }

  /**
   * For counts and for full aggregates, with the values the run has: the groups are right after every
   * insertion, of rows and of moves while the table grows, if and only if every insertion displaces only keys
   * whose state is the one inserted.
   */
  lemma {:induction false} InsertionsExact(hash: Hash, kind: AggKind, cap: nat, rows: seq<(u64, u64)>)
    requires cap > 0
    ensures RightRun(hash, kind, cap, rows) <==> EvenRun(hash, kind, cap, rows)
    ensures RightRun(hash, kind, cap, rows) ==> Tallies(Grouped(hash, kind, cap, rows), KeyFolds(kind, rows))
    decreases |rows|
  {
    if rows == [] {
      EmptyOk(hash, cap);
    } else {
      var n := |rows| - 1;
      InsertionsExact(hash, kind, cap, rows[..n]);
      NextFolds(hash, kind, cap, rows);
      if RightRun(hash, kind, cap, rows[..n]) {
        FeedExact(hash, kind, Grouped(hash, kind, cap, rows[..n]), rows[n], KeyFolds(kind, rows[..n]));
      }
    }
  }

  // ---------------------------------------------------------------- runs, row by row

  /** The key whose move landed in slot `s`: its state is there, whichever key has the slot now. */
  ghost function Origin(hash: Hash, t: Table, i: nat, s: nat): u64
    requires Ok(hash, t) && i <= |t.states|
    decreases i
  {
    if i == 0 then 0
    else
      var u := Rehash(hash, t, i - 1);
      MovedHasRoom(hash, t, i - 1, u);
      if t.slots.occupied[i - 1] && PlaceKey(hash, u, t.slots.keys[i - 1]).1 == s then t.slots.keys[i - 1]
      else Origin(hash, t, i - 1, s)
  }

  ghost predicate OriginAt(hash: Hash, t: Table, i: nat, f: u64 -> AggState, s: nat)
    requires Ok(hash, t) && i <= |t.states|
  {
    var u := Rehash(hash, t, i);
    s < |u.states| && u.slots.occupied[s] ==> u.states[s] == f(Origin(hash, t, i, s))
  }

  lemma {:induction false} OriginState(hash: Hash, t: Table, i: nat, f: u64 -> AggState, s: nat)
    requires Ok(hash, t) && i <= |t.states| && Tallies(t, f)
    ensures OriginAt(hash, t, i, f, s)
    decreases i
  {
    if i > 0 {
      var u := Rehash(hash, t, i - 1);
      OriginState(hash, t, i - 1, f, s);
      MovedHasRoom(hash, t, i - 1, u);
      assert Rehash(hash, t, i) == MoveSlot(hash, t, i - 1, u);
      if t.slots.occupied[i - 1] {
        PlaceKeyOk(hash, u, t.slots.keys[i - 1]);
      }
    }
  }

  /** The key whose fold slot `s` holds once the table is ready for the row. */
  ghost function Owner(hash: Hash, t: Table, s: nat): u64
    requires Ok(hash, t) && s < |Ready(hash, t).states|
  {
    if Overloaded(t) then Origin(hash, t, |t.states|, s)
    else if s < |t.slots.keys| then t.slots.keys[s] else 0
  }

  lemma OwnerState(hash: Hash, t: Table, f: u64 -> AggState, s: nat)
    requires Ok(hash, t) && Tallies(t, f) && s < |Ready(hash, t).states| && Ready(hash, t).slots.occupied[s]
    ensures Ready(hash, t).states[s] == f(Owner(hash, t, s))
  {
    if Overloaded(t) {
      OriginState(hash, t, |t.states|, f, s);
    }
  }

  /** What slot `s` holds after the row, said by folds: its owner's, with the row in the slot returned. */
  ghost function Share(hash: Hash, kind: AggKind, t: Table, row: (u64, u64), f: u64 -> AggState, s: nat): AggState
    requires Ok(hash, t) && s < |Ready(hash, t).states|
  {
    var g := Ready(hash, t);
    var before := if g.slots.occupied[s] then f(Owner(hash, t, s)) else FRESH;
    if s == PlaceKey(hash, g, row.0).1 then Accumulate(kind, before, row.1) else before
  }

  /** Every slot holds the fold of the key that has it after the row. */
  ghost predicate FairFeed(hash: Hash, kind: AggKind, t: Table, row: (u64, u64), f: u64 -> AggState)
    requires Ok(hash, t)
  {
    var slots := Placed(hash, Ready(hash, t), row.0);
    |slots.occupied| == |slots.keys| == |Ready(hash, t).states| &&
    forall s | 0 <= s < |slots.keys| && slots.occupied[s] ::
      Share(hash, kind, t, row, f, s) == AfterRow(kind, f, row)(slots.keys[s])
  }

  /** Right groups stay right through a row, growth included, if and only if the row is fair. */
  lemma FairExact(hash: Hash, kind: AggKind, t: Table, row: (u64, u64), f: u64 -> AggState)
    requires Ok(hash, t) && Tallies(t, f)
    ensures Ok(hash, Feed(hash, kind, t, row))
    ensures Tallies(Feed(hash, kind, t, row), AfterRow(kind, f, row)) <==> FairFeed(hash, kind, t, row, f)
  {
    var g := Ready(hash, t);
    EnteredOk(hash, kind, t, row);
    PlaceKeyOk(hash, g, row.0);
    var e := Entered(hash, kind, g, row);
    forall s: nat | s < |g.states| && e.slots.occupied[s] ensures e.states[s] == Share(hash, kind, t, row, f, s) {
      if g.slots.occupied[s] {
        OwnerState(hash, t, f, s);
      }
    }
  }

  ghost predicate FairRun(hash: Hash, kind: AggKind, cap: nat, rows: seq<(u64, u64)>)
    requires cap > 0
    decreases |rows|
  {
    rows == [] ||
    var n := |rows| - 1;
    && FairRun(hash, kind, cap, rows[..n])
    && FairFeed(hash, kind, Grouped(hash, kind, cap, rows[..n]), rows[n], KeyFolds(kind, rows[..n]))
  }

  /** The groups are right after every row. */
  ghost predicate RightRows(hash: Hash, kind: AggKind, cap: nat, rows: seq<(u64, u64)>)
    requires cap > 0
    decreases |rows|
  {
    && Tallies(Grouped(hash, kind, cap, rows), KeyFolds(kind, rows))
    && (rows == [] || RightRows(hash, kind, cap, rows[..|rows| - 1]))
  }

  /**
   * For counts and for full aggregates, with the values the run has: the groups are right after every row if
   * and only if every row leaves each slot with a fold equal to that of the key that has the slot, where what
   * a slot holds is told by the keys that landed there and not by the states.
   */
  lemma {:induction false} RowsExact(hash: Hash, kind: AggKind, cap: nat, rows: seq<(u64, u64)>)
    requires cap > 0
    ensures RightRows(hash, kind, cap, rows) <==> FairRun(hash, kind, cap, rows)
    decreases |rows|
  {
    if rows == [] {
      EmptyOk(hash, cap);
    } else {
      var n := |rows| - 1;
      RowsExact(hash, kind, cap, rows[..n]);
      NextFolds(hash, kind, cap, rows);
      if RightRows(hash, kind, cap, rows[..n]) {
        FairExact(hash, kind, Grouped(hash, kind, cap, rows[..n]), rows[n], KeyFolds(kind, rows[..n]));
      }
    }
  }

  // ---------------------------------------------------------------- a count that is wrong

  /** Key 1 twice, then the key that takes its slot. */
  function Recounted(): seq<(u64, u64)> { [] + [(0, 5)] + [(1, 10)] + [(1, 7)] + [(2, 20)] }

  lemma RecountedFolds()
    ensures KeyFold(CountOnly, Recounted()[..3], 1).count == 2
    ensures Recounted()[..3] == [] + [(0, 5)] + [(1, 10)] + [(1, 7)]
    ensures 2 !in KeysOf(Recounted()[..3])
  {
    var two: seq<(u64, u64)> := [] + [(0, 5)] + [(1, 10)];
    var three := two + [(1, 7)];
    assert Recounted()[..3] == three && three[..2] == two;
    assert two[1].0 in KeysOf(two);
    FoldsOfOne(two, 1);
    assert KeyFold(CountOnly, two, 1) == ONE;
  }

  /** After three rows nothing has been displaced and key 1 sits in slot 1 with a count of 2. */
  lemma ThreeRows(cap: nat) returns (t: Table)
    requires cap >= 16
    ensures t == Grouped(FlatTable.Colliding(), CountOnly, cap, Recounted()[..3])
    ensures Tallies(t, KeyFolds(CountOnly, Recounted()[..3])) && !Overloaded(t) && |t.slots.keys| >= 16
    ensures t.slots.occupied[0] && t.slots.occupied[1] && !t.slots.occupied[2]
    ensures t.slots.keys[0] == 0 && t.slots.keys[1] == 1 && t.slots.dist[0] == 0 && t.slots.dist[1] == 0
  {
    var hash := FlatTable.Colliding();
    var two: seq<(u64, u64)> := [] + [(0, 5)] + [(1, 10)];
    var three := two + [(1, 7)];
    RecountedFolds();
    assert three[..2] == two;
    var full := FlatTable.SecondRow(cap);
    CountsOfOne(hash, cap, two);
    RunSame(hash, cap, CountOnly, two, Full, two);
    var t2 := Grouped(hash, CountOnly, cap, two);
    GroupByKeys(hash, CountOnly, cap, two);
    GroupByKeys(hash, Full, cap, two);
    assert At(t2.slots, 1, 1);
    NextFolds(hash, CountOnly, cap, three);
    RowHoldsExact(hash, CountOnly, t2, (1, 7), KeyFolds(CountOnly, two));
    RoomAfterCheck(hash, t2);
    EnteredOk(hash, CountOnly, t2, (1, 7));
    EnteredAgain(hash, CountOnly, t2, (1, 7), KeyFolds(CountOnly, two));
    t := Grouped(hash, CountOnly, cap, three);
    GroupByKeys(hash, CountOnly, cap, three);
    KeysOfSnoc(three);
  }

  /** COUNT alone goes wrong: key 2 pushes key 1 out and is left with its count of 2. */
  lemma CountGoesWrong(cap: nat)
    requires cap >= 16
    ensures !Tallies(Grouped(FlatTable.Colliding(), CountOnly, cap, Recounted()), KeyFolds(CountOnly, Recounted()))
  {
    var hash, rows := FlatTable.Colliding(), Recounted();
    RecountedFolds();
    var t := ThreeRows(cap);
    NextFolds(hash, CountOnly, cap, rows);
    GroupByKeys(hash, CountOnly, cap, rows[..3]);
    RowHoldsExact(hash, CountOnly, t, (2, 20), KeyFolds(CountOnly, rows[..3]));
    FlatTable.PushOut(t.slots);
  }
}
