/**
 * `FlatHashTable` and `hash_group_by_flat` of `src/exec/flat_hash_table.rs`: growth, aggregation
 * states, and what a displacement does to them.
 */
module FlatHashTable {
  import opened Counting
  import opened Machine
  import opened RobinHood

  const U64_MAX: u64 := 0xFFFF_FFFF_FFFF_FFFF

  datatype AggState = AggState(count: nat, sum: u64, min: u64, max: u64)

  const FRESH: AggState := AggState(0, 0, U64_MAX, 0)

  /** `AggState::update`; the sum wraps. */
  function Update(st: AggState, v: u64): AggState {
    AggState(st.count + 1, (st.sum + v) % U64_RANGE,
             if v < st.min then v else st.min, if v > st.max then v else st.max)
  }

  datatype Table = Table(slots: Slots, states: seq<AggState>, len: nat)

  /** The state array is as long as the slots, free slots hold fresh states, and `len` counts taken slots. */
  ghost predicate Ok(hash: Hash, t: Table) {
    && Valid(hash, t.slots)
    && |t.states| == |t.slots.keys|
    && (forall s | 0 <= s < |t.states| && !t.slots.occupied[s] :: t.states[s] == FRESH)
    && t.len == Count(t.slots.occupied, IsTrue())
  }

  lemma RoomLeft(occupied: seq<bool>)
    ensures Count(occupied, IsTrue()) < |occupied| ==> HasFree(occupied)
  {
    if forall e | 0 <= e < |occupied| :: occupied[e] {
      CountAll(occupied, IsTrue());
    }
  }

  lemma TakeSlot(occupied: seq<bool>, r: nat)
    requires r < |occupied| && !occupied[r]
    ensures Count(occupied[r := true], IsTrue()) == Count(occupied, IsTrue()) + 1
  {
    assert occupied == occupied[..r] + [occupied[r]] + occupied[r + 1..];
    assert occupied[r := true] == occupied[..r] + [true] + occupied[r + 1..];
    CountAppend(occupied[..r] + [occupied[r]], occupied[r + 1..], IsTrue());
    CountAppend(occupied[..r], [occupied[r]], IsTrue());
    CountAppend(occupied[..r] + [true], occupied[r + 1..], IsTrue());
    CountAppend(occupied[..r], [true], IsTrue());
  }

  // ---------------------------------------------------------------- insertion and growth

  function PlaceKey(hash: Hash, t: Table, key: u64): (Table, nat)
    requires Shape(t.slots) && HasFree(t.slots.occupied)
  {
    var (slots, r) := Place(hash, t.slots, key);
    (Table(slots, t.states, if r < |t.slots.occupied| && t.slots.occupied[r] then t.len else t.len + 1), r)
  }

  /** Placing a key keeps the table well formed, leaves every state alone, and adds just that key. */
  lemma PlaceKeyOk(hash: Hash, t: Table, key: u64)
    requires Ok(hash, t) && HasFree(t.slots.occupied)
    ensures var (t', r) := PlaceKey(hash, t, key);
            && Ok(hash, t') && |t'.slots.keys| == |t.slots.keys|
            && r < |t.states| && t'.states == t.states
            && t'.slots.occupied == t.slots.occupied[r := true]
            && (t.slots.occupied[r] <==> Resident(t.slots, key))
            && (Resident(t.slots, key) ==> t' == t && At(t.slots, key, r))
            && t'.len == (if Resident(t.slots, key) then t.len else t.len + 1)
            && (forall k: u64 :: Resident(t'.slots, k) <==> Resident(t.slots, k) || k == key)
  {
    PlaceCorrect(hash, t.slots, key);
    var (t', r) := PlaceKey(hash, t, key);
    if Resident(t.slots, key) {
      assert t.slots.occupied[r := true] == t.slots.occupied;
    } else {
      TakeSlot(t.slots.occupied, r);
    }
  }

  function Empty(cap: nat): Table {
    Table(Slots(seq(cap, _ => 0), seq(cap, _ => false), seq(cap, _ => 0)), seq(cap, _ => FRESH), 0)
  }

  lemma EmptyOk(hash: Hash, cap: nat)
    requires cap > 0
    ensures Ok(hash, Empty(cap))
    ensures forall k: u64 :: !Resident(Empty(cap).slots, k)
  {
    CountNone(Empty(cap).slots.occupied, IsTrue());
  }

  /** The total of a weight over the states of taken slots. */
  function Total(occupied: seq<bool>, states: seq<AggState>, w: AggState -> nat): nat
    requires |occupied| == |states|
  {
    if occupied == [] then 0
    else
      var n := |occupied| - 1;
      Total(occupied[..n], states[..n], w) + if occupied[n] then w(states[n]) else 0
  }

  lemma {:induction false} TotalUpdate(
    occupied: seq<bool>, states: seq<AggState>, w: AggState -> nat, r: nat, st: AggState)
    requires r < |occupied| == |states|
    ensures Total(occupied[r := true], states[r := st], w) + (if occupied[r] then w(states[r]) else 0)
         == Total(occupied, states, w) + w(st)
    decreases |occupied|
  {
    var n := |occupied| - 1;
    if r == n {
      assert occupied[r := true][..n] == occupied[..n] && states[r := st][..n] == states[..n];
    } else {
      assert occupied[r := true][..n] == occupied[..n][r := true] && states[r := st][..n] == states[..n][r := st];
      TotalUpdate(occupied[..n], states[..n], w, r, st);
    }
  }

  lemma {:induction false} TotalEmpty(cap: nat, w: AggState -> nat)
    ensures Total(Empty(cap).slots.occupied, Empty(cap).states, w) == 0
  {
    if cap > 0 {
      assert Empty(cap).slots.occupied[..cap - 1] == Empty(cap - 1).slots.occupied;
      assert Empty(cap).states[..cap - 1] == Empty(cap - 1).states;
      TotalEmpty(cap - 1, w);
    }
  }

  /** The first `i` old slots have been moved into a table of twice the size. */
  ghost predicate Moved(hash: Hash, t: Table, i: nat, t': Table)
    requires Ok(hash, t) && i <= |t.states|
  {
    && Ok(hash, t') && |t'.slots.keys| == 2 * |t.slots.keys| && t'.len == Count(t.slots.occupied[..i], IsTrue())
    && (forall k: u64 :: Resident(t'.slots, k) <==> exists s: nat :: s < i && At(t.slots, k, s))
    && (forall w: AggState -> nat ::
          Total(t'.slots.occupied, t'.states, w) == Total(t.slots.occupied[..i], t.states[..i], w))
  }

  /** One old slot moved: its key is placed and its state written to the slot returned. */
  function MoveSlot(hash: Hash, t: Table, i: nat, t': Table): Table
    requires i < |t.slots.keys| && |t.slots.keys| == |t.slots.occupied| == |t.states|
    requires Shape(t'.slots) && HasFree(t'.slots.occupied)
  {
    if t.slots.occupied[i] then
      var (u, r) := PlaceKey(hash, t', t.slots.keys[i]);
      if r < |u.states| then u.(states := u.states[r := t.states[i]]) else u
    else t'
  }

  lemma MovedHasRoom(hash: Hash, t: Table, i: nat, t': Table)
    requires Ok(hash, t) && i <= |t.states| && Moved(hash, t, i, t')
    ensures HasFree(t'.slots.occupied)
  {
    RoomLeft(t'.slots.occupied);
  }

  /** Moving a slot carries its state along unchanged and drops none. */
  lemma MoveSlotMoves(hash: Hash, t: Table, i: nat, t': Table)
    requires Ok(hash, t) && i < |t.states| && Moved(hash, t, i, t') && HasFree(t'.slots.occupied)
    ensures Moved(hash, t, i + 1, MoveSlot(hash, t, i, t'))
  {
    var occ, states := t.slots.occupied, t.states;
    assert occ[..i + 1] == occ[..i] + [occ[i]];
    CountAppend(occ[..i], [occ[i]], IsTrue());
    assert occ[..i + 1][..i] == occ[..i] && states[..i + 1][..i] == states[..i];
    if occ[i] {
      var key := t.slots.keys[i];
      NotYetMoved(hash, t, i, t');
      PlaceKeyOk(hash, t', key);
      var (u, r) := PlaceKey(hash, t', key);
      assert Ok(hash, u.(states := u.states[r := states[i]]));
      var moved, before, seen := u.states[r := states[i]], occ[..i + 1], states[..i + 1];
      forall w: AggState -> nat
        ensures Total(u.slots.occupied, moved, w) == Total(before, seen, w)
      {
        TotalUpdate(t'.slots.occupied, t'.states, w, r, states[i]);
      }
      forall k: u64 ensures Resident(u.slots, k) <==> exists s: nat :: s < i + 1 && At(t.slots, k, s) {
        assert k == key ==> At(t.slots, k, i);
      }
    } else {
      forall k: u64 ensures Resident(t'.slots, k) <==> exists s: nat :: s < i + 1 && At(t.slots, k, s) {
        if s: nat :| s < i + 1 && At(t.slots, k, s) {
          assert s < i;
        }
      }
    }
  }

  lemma NotYetMoved(hash: Hash, t: Table, i: nat, t': Table)
    requires Ok(hash, t) && i < |t.states| && Moved(hash, t, i, t') && t.slots.occupied[i]
    ensures !Resident(t'.slots, t.slots.keys[i])
  {
    forall s: nat | s < i ensures !At(t.slots, t.slots.keys[i], s) {
    }
  }

  /** `resize`: every taken slot, in slot order, into a table of twice the size. */
  function Rehash(hash: Hash, t: Table, i: nat): (t': Table)
    requires Ok(hash, t) && i <= |t.states|
    ensures Moved(hash, t, i, t')
    decreases i
  {
    if i == 0 then
      NothingMoved(hash, t);
      Empty(2 * |t.slots.keys|)
    else
      var u := Rehash(hash, t, i - 1);
      MovedHasRoom(hash, t, i - 1, u);
      MoveSlotMoves(hash, t, i - 1, u);
      MoveSlot(hash, t, i - 1, u)
  }

  lemma NothingMoved(hash: Hash, t: Table)
    requires Ok(hash, t)
    ensures Moved(hash, t, 0, Empty(2 * |t.slots.keys|))
  {
    EmptyOk(hash, 2 * |t.slots.keys|);
    var empty := Empty(2 * |t.slots.keys|);
    forall w: AggState -> nat ensures Total(empty.slots.occupied, empty.states, w) == 0 {
      TotalEmpty(2 * |t.slots.keys|, w);
    }
  }

  function Grow(hash: Hash, t: Table): Table
    requires Ok(hash, t)
  {
    Rehash(hash, t, |t.states|)
  }

  /**
   * Growth keeps the key set and its size, and no aggregation state is lost, merged or duplicated:
   * every weight has the same total before and after.
   */
  lemma GrowConserves(hash: Hash, t: Table, w: AggState -> nat)
    requires Ok(hash, t)
    ensures var t' := Grow(hash, t);
            && Ok(hash, t') && t'.len == t.len && |t'.states| == 2 * |t.states|
            && (forall k: u64 :: Resident(t'.slots, k) <==> Resident(t.slots, k))
            && Total(t'.slots.occupied, t'.states, w) == Total(t.slots.occupied, t.states, w)
  {
    var n := |t.states|;
    assert t.slots.occupied[..n] == t.slots.occupied && t.states[..n] == t.states;
    var t' := Grow(hash, t);
    assert Moved(hash, t, n, t');
    forall k: u64 ensures Resident(t'.slots, k) <==> Resident(t.slots, k) {
      if Resident(t.slots, k) {
        var s: nat :| At(t.slots, k, s);
      }
    }
  }

  predicate Overloaded(t: Table) {
    t.len * 4 > |t.slots.keys| * 3
  }

  lemma RoomAfterCheck(hash: Hash, t: Table)
    requires Ok(hash, t)
    ensures !Overloaded(t) ==> HasFree(t.slots.occupied)
    ensures !Overloaded(Grow(hash, t)) && HasFree(Grow(hash, t).slots.occupied)
  {
    RoomLeft(t.slots.occupied);
    GrowConserves(hash, t, _ => 0);
    RoomLeft(Grow(hash, t).slots.occupied);
  }

  /** Growing if needed leaves room, keeps the keys and conserves every weight. */
  function Ready(hash: Hash, t: Table): (g: Table)
    requires Ok(hash, t)
    ensures Ok(hash, g) && HasFree(g.slots.occupied) && g.len == t.len
    ensures forall k: u64 :: Resident(g.slots, k) <==> Resident(t.slots, k)
  {
    RoomAfterCheck(hash, t);
    GrowConserves(hash, t, _ => 0);
    if Overloaded(t) then Grow(hash, t) else t
  }

  lemma ReadyConserves(hash: Hash, t: Table, w: AggState -> nat)
    requires Ok(hash, t)
    ensures var g := Ready(hash, t);
            Total(g.slots.occupied, g.states, w) == Total(t.slots.occupied, t.states, w)
  {
    GrowConserves(hash, t, w);
  }

  /** `insert`: grow above three quarters load, then place. */
  function Insert(hash: Hash, t: Table, key: u64): (Table, nat)
    requires Ok(hash, t)
  {
    PlaceKey(hash, Ready(hash, t), key)
  }

  // ---------------------------------------------------------------- group by

  datatype AggKind = CountOnly | Full

  function Accumulate(kind: AggKind, st: AggState, v: u64): AggState {
    match kind
    case CountOnly => st.(count := st.count + 1)
    case Full => Update(st, v)
  }

  /** The table after one row: insert the key, then update the state of the slot returned. */
  function Feed(hash: Hash, kind: AggKind, t: Table, row: (u64, u64)): Table
    requires Ok(hash, t)
  {
    var (u, r) := Insert(hash, t, row.0);
    if r < |u.states| then u.(states := u.states[r := Accumulate(kind, u.states[r], row.1)]) else u
  }

  function CountWeight(): AggState -> nat { (st: AggState) => st.count }

  function SumWeight(): AggState -> nat { (st: AggState) => st.sum }

  lemma FeedOk(hash: Hash, kind: AggKind, t: Table, row: (u64, u64))
    requires Ok(hash, t)
    ensures var t' := Feed(hash, kind, t, row);
            && Ok(hash, t')
            && t'.len == t.len + (if Resident(t.slots, row.0) then 0 else 1)
            && (forall k: u64 :: Resident(t'.slots, k) <==> Resident(t.slots, k) || k == row.0)
  {
    PlaceKeyOk(hash, Ready(hash, t), row.0);
  }

  /** One row adds one to the total count, and its value to the total sum modulo 2^64. */
  lemma FeedTotals(hash: Hash, kind: AggKind, t: Table, row: (u64, u64))
    requires Ok(hash, t)
    ensures var t' := Feed(hash, kind, t, row);
            && Ok(hash, t')
            && Total(t'.slots.occupied, t'.states, CountWeight())
                == Total(t.slots.occupied, t.states, CountWeight()) + 1
            && (kind.Full? ==>
                  var sum := Total(t.slots.occupied, t.states, SumWeight());
                  var sum' := Total(t'.slots.occupied, t'.states, SumWeight());
                  sum' == sum + row.1 || sum' == sum + row.1 - U64_RANGE)
  {
    FeedOk(hash, kind, t, row);
    ReadyConserves(hash, t, CountWeight());
    ReadyConserves(hash, t, SumWeight());
    var g := Ready(hash, t);
    PlaceKeyOk(hash, g, row.0);
    var (u, r) := Insert(hash, t, row.0);
    var before := g.states[r];
    var after := Accumulate(kind, before, row.1);
    TotalUpdate(g.slots.occupied, g.states, CountWeight(), r, after);
    TotalUpdate(g.slots.occupied, g.states, SumWeight(), r, after);
    assert !g.slots.occupied[r] ==> before == FRESH;
    WrapOnce(before.sum + row.1);
  }

  lemma WrapOnce(x: nat)
    requires x < 2 * U64_RANGE
    ensures x % U64_RANGE == x || x % U64_RANGE == x - U64_RANGE
  {
  }

  /** The table after all rows, starting from an empty one. */
  function Grouped(hash: Hash, kind: AggKind, cap: nat, rows: seq<(u64, u64)>): (t: Table)
    requires cap > 0
    ensures Ok(hash, t)
    decreases |rows|
  {
    if rows == [] then EmptyOk(hash, cap); Empty(cap)
    else
      var n := |rows| - 1;
      var u := Grouped(hash, kind, cap, rows[..n]);
      FeedOk(hash, kind, u, rows[n]);
      Feed(hash, kind, u, rows[n])
  }

  function SumOf(rows: seq<(u64, u64)>): nat {
    if rows == [] then 0 else SumOf(rows[..|rows| - 1]) + rows[|rows| - 1].1
  }

  function KeysOf(rows: seq<(u64, u64)>): set<u64> {
    set i | 0 <= i < |rows| :: rows[i].0
  }

  lemma KeysOfSnoc(rows: seq<(u64, u64)>)
    requires rows != []
    ensures KeysOf(rows) == KeysOf(rows[..|rows| - 1]) + {rows[|rows| - 1].0}
  {
    var n := |rows| - 1;
    forall i | 0 <= i < n ensures rows[i].0 in KeysOf(rows[..n]) {
      assert rows[..n][i] == rows[i];
    }
    assert rows[n].0 in KeysOf(rows);
  }

  /**
   * Grouping any rows with any hash function, through displacements and growth: the keys of the table
   * are exactly the keys of the rows, each once, and `len` is the number of distinct keys.
   */
  lemma {:induction false} GroupByKeys(hash: Hash, kind: AggKind, cap: nat, rows: seq<(u64, u64)>)
    requires cap > 0
    ensures var t := Grouped(hash, kind, cap, rows);
            && Unique(t.slots) && t.len == |KeysOf(rows)|
            && (forall k: u64 :: Resident(t.slots, k) <==> k in KeysOf(rows))
    decreases |rows|
  {
    if rows == [] {
      EmptyOk(hash, cap);
    } else {
      var n := |rows| - 1;
      GroupByKeys(hash, kind, cap, rows[..n]);
      FeedOk(hash, kind, Grouped(hash, kind, cap, rows[..n]), rows[n]);
      KeysOfSnoc(rows);
    }
  }

  function GroupTotal(hash: Hash, kind: AggKind, cap: nat, rows: seq<(u64, u64)>, w: AggState -> nat): nat
    requires cap > 0
  {
    var t := Grouped(hash, kind, cap, rows);
    Total(t.slots.occupied, t.states, w)
  }

  lemma GroupTotalSnoc(hash: Hash, kind: AggKind, cap: nat, rows: seq<(u64, u64)>)
    requires cap > 0 && rows != []
    ensures var n := |rows| - 1;
            GroupTotal(hash, kind, cap, rows, CountWeight())
                == GroupTotal(hash, kind, cap, rows[..n], CountWeight()) + 1
    ensures var n := |rows| - 1;
            var sum := GroupTotal(hash, kind, cap, rows[..n], SumWeight());
            var sum' := GroupTotal(hash, kind, cap, rows, SumWeight());
            kind.Full? ==> sum' == sum + rows[n].1 || sum' == sum + rows[n].1 - U64_RANGE
  {
    FeedTotals(hash, kind, Grouped(hash, kind, cap, rows[..|rows| - 1]), rows[|rows| - 1]);
  }

  /** Conservation: the counts over all groups add up to the number of rows, whatever was displaced. */
  lemma {:induction false} CountsConserved(hash: Hash, kind: AggKind, cap: nat, rows: seq<(u64, u64)>)
    requires cap > 0
    ensures GroupTotal(hash, kind, cap, rows, CountWeight()) == |rows|
    decreases |rows|
  {
    if rows == [] {
      TotalEmpty(cap, CountWeight());
    } else {
      CountsConserved(hash, kind, cap, rows[..|rows| - 1]);
      GroupTotalSnoc(hash, kind, cap, rows);
    }
  }

  /** Conservation: the sums over all groups fall short of the values of the rows by whole multiples of 2^64. */
  lemma {:induction false} SumsConserved(hash: Hash, cap: nat, rows: seq<(u64, u64)>) returns (wraps: nat)
    requires cap > 0
    ensures GroupTotal(hash, Full, cap, rows, SumWeight()) + wraps * U64_RANGE == SumOf(rows)
    decreases |rows|
  {
    if rows == [] {
      TotalEmpty(cap, SumWeight());
      wraps := 0;
    } else {
      var n := |rows| - 1;
      wraps := SumsConserved(hash, cap, rows[..n]);
      GroupTotalSnoc(hash, Full, cap, rows);
      var before := GroupTotal(hash, Full, cap, rows[..n], SumWeight());
      if GroupTotal(hash, Full, cap, rows, SumWeight()) != before + rows[n].1 {
        wraps := wraps + 1;
      }
    }
  }

  // ---------------------------------------------------------------- when groups are the right groups

  /** Every taken slot holds the state that `f` gives its key. */
  ghost predicate Tallies(t: Table, f: u64 -> AggState)
    requires Shape(t.slots) && |t.states| == |t.slots.keys|
  {
    forall s | 0 <= s < |t.states| && t.slots.occupied[s] :: t.states[s] == f(t.slots.keys[s])
  }

  /** Inserting this key displaces nothing. */
  ghost predicate Clean(hash: Hash, t: Table, key: u64)
    requires Shape(t.slots)
  {
    exists s: nat :: Settles(hash, t.slots, key, s)
  }

  lemma CleanPlace(hash: Hash, t: Table, key: u64, f: u64 -> AggState)
    requires Ok(hash, t) && HasFree(t.slots.occupied) && Clean(hash, t, key)
    requires Tallies(t, f) && (!Resident(t.slots, key) ==> f(key) == FRESH)
    ensures var (t', r) := PlaceKey(hash, t, key);
            && Ok(hash, t') && Tallies(t', f) && At(t'.slots, key, r)
  {
    PlaceKeyOk(hash, t, key);
    ReturnedSlotExact(hash, t.slots, key);
    var s: nat :| Settles(hash, t.slots, key, s);
    assert t.slots.occupied[s] ==> At(t.slots, key, s);
  }

  /** Moving the first `i` slots of a growing table displaces nothing. */
  ghost predicate CleanRehash(hash: Hash, t: Table, i: nat)
    requires Ok(hash, t) && i <= |t.states|
    decreases i
  {
    i == 0 ||
    (&& CleanRehash(hash, t, i - 1)
     && (t.slots.occupied[i - 1] ==> Clean(hash, Rehash(hash, t, i - 1), t.slots.keys[i - 1])))
  }

  /** Before a key arrives, its slot is as good as fresh. */
  function Unset(f: u64 -> AggState, key: u64): u64 -> AggState {
    (k: u64) => if k == key then FRESH else f(k)
  }

  lemma {:induction false} CleanRehashTallies(hash: Hash, t: Table, i: nat, f: u64 -> AggState)
    requires Ok(hash, t) && i <= |t.states| && CleanRehash(hash, t, i) && Tallies(t, f)
    ensures Tallies(Rehash(hash, t, i), f)
    decreases i
  {
    if i > 0 {
      var j := i - 1;
      var u := Rehash(hash, t, j);
      CleanRehashTallies(hash, t, j, f);
      if t.slots.occupied[j] {
        var key := t.slots.keys[j];
        MovedHasRoom(hash, t, j, u);
        NotYetMoved(hash, t, j, u);
        assert forall s: nat | s < |u.states| && u.slots.occupied[s] :: At(u.slots, u.slots.keys[s], s);
        assert Tallies(u, Unset(f, key));
        CleanPlace(hash, u, key, Unset(f, key));
        assert Rehash(hash, t, i) == MoveSlot(hash, t, j, u);
      }
    }
  }

  ghost predicate CleanFeed(hash: Hash, t: Table, key: u64)
    requires Ok(hash, t)
  {
    && (Overloaded(t) ==> CleanRehash(hash, t, |t.states|))
    && Clean(hash, Ready(hash, t), key)
  }

  /** The fold of the rows of one key, in order: what its group should hold. */
  function KeyFold(kind: AggKind, rows: seq<(u64, u64)>, k: u64): AggState {
    if rows == [] then FRESH
    else
      var n := |rows| - 1;
      var before := KeyFold(kind, rows[..n], k);
      if rows[n].0 == k then Accumulate(kind, before, rows[n].1) else before
  }

  function KeyFolds(kind: AggKind, rows: seq<(u64, u64)>): u64 -> AggState {
    (k: u64) => KeyFold(kind, rows, k)
  }

  lemma {:induction false} AbsentKeyFold(kind: AggKind, rows: seq<(u64, u64)>, k: u64)
    requires k !in KeysOf(rows)
    ensures KeyFold(kind, rows, k) == FRESH
  {
    if rows != [] {
      KeysOfSnoc(rows);
      AbsentKeyFold(kind, rows[..|rows| - 1], k);
    }
  }

  ghost predicate CleanRun(hash: Hash, kind: AggKind, cap: nat, rows: seq<(u64, u64)>)
    requires cap > 0
    decreases |rows|
  {
    rows == [] ||
    var n := |rows| - 1;
    CleanRun(hash, kind, cap, rows[..n]) && CleanFeed(hash, Grouped(hash, kind, cap, rows[..n]), rows[n].0)
  }

  lemma CleanFeedTallies(hash: Hash, kind: AggKind, t: Table, row: (u64, u64), f: u64 -> AggState, f': u64 -> AggState)
    requires Ok(hash, t) && CleanFeed(hash, t, row.0) && Tallies(t, f)
    requires !Resident(t.slots, row.0) ==> f(row.0) == FRESH
    requires forall k: u64 :: f'(k) == if k == row.0 then Accumulate(kind, f(k), row.1) else f(k)
    ensures Ok(hash, Feed(hash, kind, t, row)) && Tallies(Feed(hash, kind, t, row), f')
  {
    var (key, v) := row;
    FeedOk(hash, kind, t, row);
    var g := Ready(hash, t);
    if Overloaded(t) {
      CleanRehashTallies(hash, t, |t.states|, f);
    }
    CleanPlace(hash, g, key, f);
  }

  /** On a run without displacement every group is exactly the fold of its own rows. */
  lemma {:induction false} CleanRunGroups(hash: Hash, kind: AggKind, cap: nat, rows: seq<(u64, u64)>)
    requires cap > 0 && CleanRun(hash, kind, cap, rows)
    ensures Tallies(Grouped(hash, kind, cap, rows), KeyFolds(kind, rows))
    decreases |rows|
  {
    if rows != [] {
      var n := |rows| - 1;
      var key := rows[n].0;
      CleanRunGroups(hash, kind, cap, rows[..n]);
      GroupByKeys(hash, kind, cap, rows[..n]);
      if key !in KeysOf(rows[..n]) {
        AbsentKeyFold(kind, rows[..n], key);
      }
      CleanFeedTallies(hash, kind, Grouped(hash, kind, cap, rows[..n]), rows[n],
                       KeyFolds(kind, rows[..n]), KeyFolds(kind, rows));
    }
  }

  // ---------------------------------------------------------------- what a fold says about its rows

  /** The values of the rows of one key, in order. */
  function ValuesOf(rows: seq<(u64, u64)>, k: u64): seq<u64> {
    if rows == [] then []
    else
      var n := |rows| - 1;
      if rows[n].0 == k then ValuesOf(rows[..n], k) + [rows[n].1] else ValuesOf(rows[..n], k)
  }

  function Added(values: seq<u64>): nat {
    if values == [] then 0 else Added(values[..|values| - 1]) + values[|values| - 1]
  }

  ghost predicate Least(values: seq<u64>, m: u64) { m in values && forall v | v in values :: m <= v }

  ghost predicate Greatest(values: seq<u64>, m: u64) { m in values && forall v | v in values :: v <= m }

  /** The number of values, and unless only that is wanted their sum modulo 2^64, least and greatest. */
  ghost predicate Summarizes(kind: AggKind, values: seq<u64>, st: AggState) {
    && st.count == |values|
    && (kind.Full? ==> st.sum == Added(values) % U64_RANGE)
    && (kind.Full? && values != [] ==> Least(values, st.min) && Greatest(values, st.max))
    && (kind.CountOnly? || values == [] ==> st == FRESH.(count := |values|))
  }

  lemma UpdateSummarizes(kind: AggKind, values: seq<u64>, st: AggState, v: u64)
    requires Summarizes(kind, values, st)
    ensures Summarizes(kind, values + [v], Accumulate(kind, st, v))
  {
    var all := values + [v];
    assert all[..|values|] == values && v in all;
    assert forall x | x in all :: x in values || x == v;
    if kind.Full? {
      WrapAdds(Added(values), v);
      if values == [] {
        assert all == [v] && st == FRESH;
      }
    }
  }

  lemma WrapAdds(a: nat, v: nat)
    ensures (a % U64_RANGE + v) % U64_RANGE == (a + v) % U64_RANGE
  {
    var d, q := U64_RANGE, a / U64_RANGE;
    var x := a % d + v;
    Quotient(a + v, d, q + x / d, x % d);
  }

  /** The fold of a key is the count, sum, minimum and maximum of the values of its rows. */
  lemma {:induction false} FoldSummarizes(kind: AggKind, rows: seq<(u64, u64)>, k: u64)
    ensures Summarizes(kind, ValuesOf(rows, k), KeyFold(kind, rows, k))
    ensures ValuesOf(rows, k) != [] <==> k in KeysOf(rows)
  {
    if rows != [] {
      var n := |rows| - 1;
      FoldSummarizes(kind, rows[..n], k);
      KeysOfSnoc(rows);
      if rows[n].0 == k {
        UpdateSummarizes(kind, ValuesOf(rows[..n], k), KeyFold(kind, rows[..n], k), rows[n].1);
      }
    }
  }

  // ---------------------------------------------------------------- load

  lemma ReadySize(hash: Hash, t: Table)
    requires Ok(hash, t)
    ensures |Ready(hash, t).slots.keys| == if 4 * t.len > 3 * |t.slots.keys| then 2 * |t.slots.keys| else |t.slots.keys|
    ensures 4 * t.len <= 3 * |Ready(hash, t).slots.keys|
  {
    GrowConserves(hash, t, _ => 0);
    RoomAfterCheck(hash, t);
  }

  /** At most one key above three quarters full, and doubled only when more than three quarters full. */
  ghost predicate Loaded(cap: nat, t: Table) {
    && 4 * t.len <= 3 * |t.slots.keys| + 4
    && (|t.slots.keys| == cap || (|t.slots.keys| > cap && 8 * t.len > 3 * |t.slots.keys|))
  }

  lemma FeedLoaded(hash: Hash, kind: AggKind, cap: nat, t: Table, row: (u64, u64))
    requires Ok(hash, t) && Loaded(cap, t)
    ensures Loaded(cap, Feed(hash, kind, t, row))
  {
    FeedOk(hash, kind, t, row);
    ReadySize(hash, t);
    PlaceKeyOk(hash, Ready(hash, t), row.0);
  }

  /** After every run, whatever the hash. */
  lemma {:induction false} RunLoaded(hash: Hash, kind: AggKind, cap: nat, rows: seq<(u64, u64)>)
    requires cap > 0
    ensures Loaded(cap, Grouped(hash, kind, cap, rows))
    decreases |rows|
  {
    if rows != [] {
      var n := |rows| - 1;
      RunLoaded(hash, kind, cap, rows[..n]);
      FeedLoaded(hash, kind, cap, Grouped(hash, kind, cap, rows[..n]), rows[n]);
    }
  }
}
