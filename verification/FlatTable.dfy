/** The `FlatHashTable` object and `hash_group_by_flat` of `src/exec/flat_hash_table.rs`. */
module FlatTable {
  import opened Bits
  import opened Counting
  import opened Machine
  import opened RobinHood
  import opened FlatHashTable

  class HashTable {
    const hash: Hash
    var keys: seq<u64>
    var occupied: seq<bool>
    var probeDist: seq<nat>
    var states: seq<AggState>
    var capacity: nat
    var len: nat

    ghost function Contents(): Table
      reads this
    {
      Table(Slots(keys, occupied, probeDist), states, len)
    }

    ghost predicate Inv()
      reads this
    {
      Ok(hash, Contents()) && capacity == |keys|
    }

    constructor (hash: Hash, expectedGroups: nat)
      ensures this.hash == hash && Inv() && Contents() == Empty(capacity)
      ensures PowerOfTwo(capacity) && capacity >= 16 && capacity >= 2 * expectedGroups
      ensures capacity > 16 ==> capacity < 4 * expectedGroups
    {
      var cap := 1;
      assert cap == Pow2(0);
      while cap < expectedGroups * 2
        invariant cap >= 1 && PowerOfTwo(cap) && (cap > 1 ==> cap < 4 * expectedGroups)
      {
        PowerDoubles(cap);
        cap := cap * 2;
      }
      assert Pow2(4) == 16;
      cap := if cap < 16 then 16 else cap;
      EmptyOk(hash, cap);
      this.hash := hash;
      keys := seq(cap, _ => 0);
      occupied := seq(cap, _ => false);
      probeDist := seq(cap, _ => 0);
      states := seq(cap, _ => FRESH);
      capacity, len := cap, 0;
    }

    /** The probe loop of `insert`: it computes `Place`, and a free slot ahead makes it stop. */
    method Probe(key: u64) returns (slot: nat)
      requires Shape(Contents().slots) && HasFree(occupied) && capacity == |keys|
      modifies `keys, `occupied, `probeDist, `len
      ensures (Contents().slots, slot) == Place(hash, old(Contents().slots), key)
      ensures capacity == |keys| && slot < |old(occupied)|
      ensures len == old(len) + if old(occupied)[slot] then 0 else 1
    {
      ghost var start, free := Contents().slots, SomeFree(occupied);
      var idx: nat := Home(hash, key, capacity);
      var dist: nat := 0;
      var currentKey := key;
      while true
        invariant |keys| == |occupied| == |probeDist| == capacity && idx < capacity
        invariant occupied == start.occupied && len == old(len)
        invariant RobinHood.Probe(Slots(keys, occupied, probeDist), idx, dist, currentKey) == Place(hash, start, key)
        decreases Steps(capacity, idx, free)
      {
        if !occupied[idx] {
          keys := keys[idx := currentKey];
          occupied := occupied[idx := true];
          probeDist := probeDist[idx := dist];
          len := len + 1;
          return idx;
        }
        if keys[idx] == currentKey {
          return idx;
        }
        if probeDist[idx] < dist {
          var k, d := keys[idx], probeDist[idx];
          keys := keys[idx := currentKey];
          probeDist := probeDist[idx := dist];
          currentKey, dist := k, d;
        }
        idx := After(capacity, idx);
        dist := Saturate(dist + 1);
      }
    }

    /** `insert`; the three-quarters load check is what leaves a free slot for the probe. */
    method Insert(key: u64) returns (slot: nat)
      requires Inv()
      modifies this
      ensures Inv()
      ensures (Contents(), slot) == FlatHashTable.Insert(hash, old(Contents()), key)
      decreases if Overloaded(Contents()) then 1 else 0, 2
    {
      MakeRoom();
      PlaceKeyOk(hash, Contents(), key);
      slot := Probe(key);
    }

    /** The load check of `insert`. */
    method MakeRoom()
      requires Inv()
      modifies this
      ensures Inv() && Contents() == Ready(hash, old(Contents()))
      decreases if Overloaded(Contents()) then 1 else 0, 1
    {
      RoomAfterCheck(hash, Contents());
      if len * 4 > capacity * 3 {
        Resize();
      }
    }

    /** `resize`: double the arrays and insert every resident key again, carrying its state along. */
    method Resize()
      requires Inv() && Overloaded(Contents())
      modifies this
      ensures Inv() && Contents() == Grow(hash, old(Contents()))
      decreases 1, 0
    {
      ghost var t := Contents();
      var oldKeys, oldOccupied, oldStates := keys, occupied, states;
      Clear(capacity * 2);
      var i := 0;
      while i < |oldKeys|
        invariant 0 <= i <= |oldKeys|
        invariant capacity == |keys| && Contents() == Rehash(hash, t, i)
        decreases |oldKeys| - i
      {
        MoveOne(oldKeys, oldOccupied, oldStates, i, t);
        i := i + 1;
      }
    }

    /** One old slot inserted again, with its state. */
    method MoveOne(oldKeys: seq<u64>, oldOccupied: seq<bool>, oldStates: seq<AggState>, i: nat, ghost t: Table)
      requires Ok(hash, t) && oldKeys == t.slots.keys && oldOccupied == t.slots.occupied && oldStates == t.states
      requires i < |oldKeys| && capacity == |keys| && Contents() == Rehash(hash, t, i)
      modifies this
      ensures capacity == |keys| && Contents() == Rehash(hash, t, i + 1)
      decreases 0, 3
    {
      RehashStep(hash, t, i, Contents());
      if oldOccupied[i] {
        var newSlot := Insert(oldKeys[i]);
        states := states[newSlot := oldStates[i]];
      }
    }

    method Clear(cap: nat)
      modifies this
      ensures capacity == cap && Contents() == Empty(cap)
    {
      capacity, len := cap, 0;
      keys := seq(cap, _ => 0);
      occupied := seq(cap, _ => false);
      probeDist := seq(cap, _ => 0);
      states := seq(cap, _ => FRESH);
    }

    /** Insert a row's key and update the state of the slot returned. */
    method Add(kind: AggKind, row: (u64, u64))
      requires Inv()
      modifies this
      ensures Inv() && Contents() == Feed(hash, kind, old(Contents()), row)
    {
      FeedOk(hash, kind, Contents(), row);
      PlaceKeyOk(hash, Ready(hash, Contents()), row.0);
      var slot := Insert(row.0);
      states := states[slot := Accumulate(kind, states[slot], row.1)];
    }

    /** `iter`: the resident keys with their states, in slot order. */
    method Iterate() returns (out: seq<(u64, AggState)>)
      requires Inv()
      ensures out == Emitted(Contents())
    {
      out := [];
      var i := 0;
      while i < |occupied|
        invariant 0 <= i <= |occupied|
        invariant out == EmittedUpTo(Contents(), i)
      {
        if occupied[i] {
          out := out + [(keys[i], states[i])];
        }
        i := i + 1;
      }
    }
  }

  /** While a table is being rehashed its load stays under the threshold, so no insertion grows it again. */
  lemma RehashStep(hash: Hash, t: Table, i: nat, u: Table)
    requires Ok(hash, t) && i < |t.states| && u == Rehash(hash, t, i)
    ensures !Overloaded(u) && Ok(hash, Rehash(hash, t, i + 1))
    ensures if t.slots.occupied[i] then
              var (u', r) := FlatHashTable.Insert(hash, u, t.slots.keys[i]);
              r < |u'.states| && Rehash(hash, t, i + 1) == u'.(states := u'.states[r := t.states[i]])
            else Rehash(hash, t, i + 1) == u
  {
    MovedHasRoom(hash, t, i, u);
    PlaceKeyOk(hash, u, t.slots.keys[i]);
  }

  function EmittedUpTo(t: Table, i: nat): seq<(u64, AggState)>
    requires Shape(t.slots) && |t.states| == |t.slots.keys| && i <= |t.states|
  {
    if i == 0 then []
    else EmittedUpTo(t, i - 1) + if t.slots.occupied[i - 1] then [(t.slots.keys[i - 1], t.states[i - 1])] else []
  }

  function Emitted(t: Table): seq<(u64, AggState)>
    requires Shape(t.slots) && |t.states| == |t.slots.keys|
  {
    EmittedUpTo(t, |t.states|)
  }

  function WeightOf(out: seq<(u64, AggState)>, w: AggState -> nat): nat {
    if out == [] then 0 else WeightOf(out[..|out| - 1], w) + w(out[|out| - 1].1)
  }

  lemma WeightSnoc(out: seq<(u64, AggState)>, e: (u64, AggState), w: AggState -> nat)
    ensures WeightOf(out + [e], w) == WeightOf(out, w) + w(e.1)
  {
    assert (out + [e])[..|out|] == out;
  }

  lemma {:induction false} EmittedTotal(t: Table, i: nat, w: AggState -> nat)
    requires Shape(t.slots) && |t.states| == |t.slots.keys| && i <= |t.states|
    ensures WeightOf(EmittedUpTo(t, i), w) == Total(t.slots.occupied[..i], t.states[..i], w)
    decreases i
  {
    if i > 0 {
      EmittedTotal(t, i - 1, w);
      var taken, states := t.slots.occupied[..i], t.states[..i];
      assert taken[..i - 1] == t.slots.occupied[..i - 1] && states[..i - 1] == t.states[..i - 1];
      assert taken[i - 1] == t.slots.occupied[i - 1] && states[i - 1] == t.states[i - 1];
      var out := EmittedUpTo(t, i - 1);
      if t.slots.occupied[i - 1] {
        WeightSnoc(out, (t.slots.keys[i - 1], t.states[i - 1]), w);
      } else {
        assert EmittedUpTo(t, i) == out + [] == out;
      }
    }
  }

  /** The keys emitted from the first `i` slots are those resident there, none twice. */
  lemma {:induction false} EmittedKeys(hash: Hash, t: Table, i: nat)
    requires Ok(hash, t) && i <= |t.states|
    ensures var out := EmittedUpTo(t, i);
            && (forall e | e in out :: exists s: nat | s < i :: At(t.slots, e.0, s) && t.states[s] == e.1)
            && (forall s: nat | s < i && t.slots.occupied[s] :: (t.slots.keys[s], t.states[s]) in out)
            && (forall a, b | 0 <= a < b < |out| :: out[a].0 != out[b].0)
    decreases i
  {
    if i > 0 {
      EmittedKeys(hash, t, i - 1);
      var before, out := EmittedUpTo(t, i - 1), EmittedUpTo(t, i);
      if t.slots.occupied[i - 1] {
        assert At(t.slots, t.slots.keys[i - 1], i - 1);
        forall a | 0 <= a < |before| ensures before[a].0 != t.slots.keys[i - 1] {
          assert before[a] in before;
        }
      }
      forall e | e in out ensures exists s: nat | s < i :: At(t.slots, e.0, s) && t.states[s] == e.1 {
        if e in before {
          var s: nat :| s < i - 1 && At(t.slots, e.0, s) && t.states[s] == e.1;
          assert s < i;
        }
      }
    }
  }

  /** No key is emitted twice, and the emitted keys are exactly the keys of the rows. */
  ghost predicate OnceEach(out: seq<(u64, AggState)>, rows: seq<(u64, u64)>) {
    && (forall a, b | 0 <= a < b < |out| :: out[a].0 != out[b].0)
    && (forall k: u64 :: (exists a | 0 <= a < |out| :: out[a].0 == k) <==> k in KeysOf(rows))
  }

  lemma GroupedOnceEach(hash: Hash, kind: AggKind, cap: nat, rows: seq<(u64, u64)>)
    requires cap > 0
    ensures OnceEach(Emitted(Grouped(hash, kind, cap, rows)), rows)
  {
    var t := Grouped(hash, kind, cap, rows);
    var out := Emitted(t);
    GroupByKeys(hash, kind, cap, rows);
    EmittedKeys(hash, t, |t.states|);
    forall k: u64 ensures (exists a | 0 <= a < |out| :: out[a].0 == k) <==> k in KeysOf(rows) {
      if a :| 0 <= a < |out| && out[a].0 == k {
        assert out[a] in out;
        var s: nat :| s < |t.states| && At(t.slots, k, s) && t.states[s] == out[a].1;
        assert Resident(t.slots, k);
      }
      if Resident(t.slots, k) {
        var s: nat :| At(t.slots, k, s);
        assert (k, t.states[s]) in out;
      }
    }
  }

  lemma {:induction false} WholeWraps(x: nat, wraps: nat)
    ensures (x + wraps * U64_RANGE) % U64_RANGE == x % U64_RANGE
  {
    if wraps > 0 {
      WholeWraps(x, wraps - 1);
      assert x + wraps * U64_RANGE == x + (wraps - 1) * U64_RANGE + U64_RANGE;
    }
  }

  lemma EmittedGroups(hash: Hash, kind: AggKind, cap: nat, rows: seq<(u64, u64)>, w: AggState -> nat)
    requires cap > 0
    ensures WeightOf(Emitted(Grouped(hash, kind, cap, rows)), w) == GroupTotal(hash, kind, cap, rows, w)
  {
    var t := Grouped(hash, kind, cap, rows);
    EmittedTotal(t, |t.states|, w);
    assert t.slots.occupied[..|t.states|] == t.slots.occupied && t.states[..|t.states|] == t.states;
  }

  lemma GroupedCounts(hash: Hash, kind: AggKind, cap: nat, rows: seq<(u64, u64)>)
    requires cap > 0
    ensures WeightOf(Emitted(Grouped(hash, kind, cap, rows)), CountWeight()) == |rows|
  {
    EmittedGroups(hash, kind, cap, rows, CountWeight());
    CountsConserved(hash, kind, cap, rows);
  }

  lemma GroupedSums(hash: Hash, cap: nat, rows: seq<(u64, u64)>)
    requires cap > 0
    ensures WeightOf(Emitted(Grouped(hash, Full, cap, rows)), SumWeight()) % U64_RANGE == SumOf(rows) % U64_RANGE
  {
    EmittedGroups(hash, Full, cap, rows, SumWeight());
    var wraps := SumsConserved(hash, cap, rows);
    WholeWraps(GroupTotal(hash, Full, cap, rows, SumWeight()), wraps);
  }

  lemma GroupedClean(hash: Hash, kind: AggKind, cap: nat, rows: seq<(u64, u64)>)
    requires cap > 0 && CleanRun(hash, kind, cap, rows)
    ensures forall e | e in Emitted(Grouped(hash, kind, cap, rows)) :: e.1 == KeyFold(kind, rows, e.0)
  {
    var t := Grouped(hash, kind, cap, rows);
    EmittedKeys(hash, t, |t.states|);
    CleanRunGroups(hash, kind, cap, rows);
  }

  lemma GroupedSnoc(hash: Hash, kind: AggKind, cap: nat, rows: seq<(u64, u64)>, row: (u64, u64))
    requires cap > 0
    ensures Grouped(hash, kind, cap, rows + [row]) == Feed(hash, kind, Grouped(hash, kind, cap, rows), row)
  {
    assert (rows + [row])[..|rows|] == rows;
  }

  method Fill(table: HashTable, kind: AggKind, rows: seq<(u64, u64)>, ghost cap: nat)
    requires cap > 0 && table.capacity == |table.keys| && table.Contents() == Grouped(table.hash, kind, cap, [])
    modifies table
    ensures table.capacity == |table.keys| && table.Contents() == Grouped(table.hash, kind, cap, rows)
  {
    var i := 0;
    while i < |rows|
      invariant 0 <= i <= |rows| && table.capacity == |table.keys|
      invariant table.Contents() == Grouped(table.hash, kind, cap, rows[..i])
    {
      assert rows[..i + 1] == rows[..i] + [rows[i]];
      GroupedSnoc(table.hash, kind, cap, rows[..i], rows[i]);
      table.Add(kind, rows[i]);
      i := i + 1;
    }
    assert rows[..|rows|] == rows;
  }

  /**
   * `hash_group_by_flat`, for any hash function and any estimate of the group count.  Every key comes
   * out once, counts add up to the number of rows, sums to the sum of the values modulo 2^64, and when
   * nothing was displaced each group is the fold of its own rows: their count, sum, minimum and maximum.
   */
  method GroupByFlat(hash: Hash, kind: AggKind, estimate: nat, rows: seq<(u64, u64)>)
    returns (out: seq<(u64, AggState)>, ghost cap: nat)
    ensures cap > 0 && out == Emitted(Grouped(hash, kind, cap, rows))
    ensures OnceEach(out, rows)
    ensures WeightOf(out, CountWeight()) == |rows|
    ensures kind.Full? ==> WeightOf(out, SumWeight()) % U64_RANGE == SumOf(rows) % U64_RANGE
    ensures CleanRun(hash, kind, cap, rows) ==>
              forall e | e in out :: e.1 == KeyFold(kind, rows, e.0) && Summarizes(kind, ValuesOf(rows, e.0), e.1)
  {
    var table := new HashTable(hash, estimate);
    cap := table.capacity;
    Fill(table, kind, rows, cap);
    out := table.Iterate();
    GroupedOnceEach(hash, kind, cap, rows);
    GroupedCounts(hash, kind, cap, rows);
    if kind.Full? {
      GroupedSums(hash, cap, rows);
    }
    if CleanRun(hash, kind, cap, rows) {
      GroupedClean(hash, kind, cap, rows);
      forall e | e in out ensures Summarizes(kind, ValuesOf(rows, e.0), KeyFold(kind, rows, e.0)) {
        FoldSummarizes(kind, rows, e.0);
      }
    }
  }

  /** The capacity is a power of two, so the home slot is the hash under the mask. */
  lemma HomeIsMasked(hash: Hash, key: u64, cap: nat)
    requires PowerOfTwo(cap)
    ensures Home(hash, key, cap) == And(hash(key), cap - 1)
  {
    var k: nat :| cap == Pow2(k);
    MaskIsMod(hash(key), k);
  }

  // ---------------------------------------------------------------- displacement mixes groups

  /** Keys 0 and 2 share a home slot; key 1 lives in the next one. */
  function Colliding(): Hash { (k: u64) => if k == 2 then 0 else k }

  lemma HomeSmall(k: u64, cap: nat)
    requires Colliding()(k) < cap
    ensures Home(Colliding(), k, cap) == Colliding()(k)
  {
    ModOnce(Colliding()(k), cap);
  }

  /** A row whose key finds its home slot free. */
  lemma DirectFeed(t: Table, row: (u64, u64), h: nat)
    requires Ok(Colliding(), t) && !Overloaded(t) && Colliding()(row.0) == h < |t.slots.keys| && !t.slots.occupied[h]
    ensures Feed(Colliding(), Full, t, row) == Table(
              Slots(t.slots.keys[h := row.0], t.slots.occupied[h := true], t.slots.dist[h := 0]),
              t.states[h := Update(t.states[h], row.1)], t.len + 1)
  {
    HomeSmall(row.0, |t.slots.keys|);
    RoomAfterCheck(Colliding(), t);
  }

  /** Key 2 arrives when keys 0 and 1 are at home. */
  lemma PushOut(t: Slots)
    requires Shape(t) && |t.keys| >= 16 && HasFree(t.occupied)
    requires t.occupied[0] && t.occupied[1] && !t.occupied[2]
    requires t.keys[0] == 0 && t.keys[1] == 1 && t.dist[0] == 0 && t.dist[1] == 0
    ensures var (t', r) := Place(Colliding(), t, 2);
            r == 2 && Shape(t') && At(t', 2, 1) && At(t', 1, 2)
  {
    HomeSmall(2, |t.keys|);
    assert Probe(t, 0, 0, 2) == Probe(t, 1, 1, 2);
    var u := Slots(t.keys[1 := 2], t.occupied, t.dist[1 := 1]);
    assert Probe(t, 1, 1, 2) == Probe(u, 2, 1, 1);
  }

  lemma FirstRow(cap: nat) returns (t: Table)
    requires cap >= 16
    ensures var slots := Empty(cap).slots;
            t.slots == Slots(slots.keys[0 := 0], slots.occupied[0 := true], slots.dist[0 := 0])
    ensures t.states == Empty(cap).states[0 := Update(FRESH, 5)] && t.len == 1
    ensures t == Grouped(Colliding(), Full, cap, [] + [(0, 5)])
  {
    GroupedSnoc(Colliding(), Full, cap, [], (0, 5));
    EmptyOk(Colliding(), cap);
    DirectFeed(Empty(cap), (0, 5), 0);
    t := Feed(Colliding(), Full, Empty(cap), (0, 5));
  }

  lemma SecondRow(cap: nat) returns (t: Table)
    requires cap >= 16
    ensures Shape(t.slots) && |t.slots.keys| == |t.states| == cap
    ensures t.slots.occupied[0] && t.slots.occupied[1] && !t.slots.occupied[2]
    ensures t.slots.keys[0] == 0 && t.slots.keys[1] == 1 && t.slots.dist[0] == 0 && t.slots.dist[1] == 0
    ensures t.states[1].sum == 10 && t.states[2] == FRESH && t.len == 2
    ensures t == Grouped(Colliding(), Full, cap, [] + [(0, 5)] + [(1, 10)])
  {
    var t1 := FirstRow(cap);
    GroupedSnoc(Colliding(), Full, cap, [] + [(0, 5)], (1, 10));
    DirectFeed(t1, (1, 10), 1);
    t := Feed(Colliding(), Full, t1, (1, 10));
  }

  lemma LastRow(t: Table)
    requires Ok(Colliding(), t) && !Overloaded(t) && |t.slots.keys| >= 16
    requires t.slots.occupied[0] && t.slots.occupied[1] && !t.slots.occupied[2]
    requires t.slots.keys[0] == 0 && t.slots.keys[1] == 1 && t.slots.dist[0] == 0 && t.slots.dist[1] == 0
    ensures var t' := Feed(Colliding(), Full, t, (2, 20));
            && Shape(t'.slots) && At(t'.slots, 2, 1) && At(t'.slots, 1, 2)
            && t'.states == t.states[2 := Update(t.states[2], 20)]
  {
    RoomAfterCheck(Colliding(), t);
    PushOut(t.slots);
  }

  /**
   * Three rows are enough: inserting key 2 pushes key 1 one slot on, the states stay where they are, and
   * the sums of the two groups end up exchanged.
   */
  lemma DisplacementMixesGroups(cap: nat) returns (t: Table)
    requires cap >= 16
    ensures Shape(t.slots) && |t.states| == cap
    ensures At(t.slots, 2, 1) && t.states[1].sum == 10
    ensures At(t.slots, 1, 2) && t.states[2].sum == 20
    ensures t == Grouped(Colliding(), Full, cap, [] + [(0, 5)] + [(1, 10)] + [(2, 20)])
  {
    var t2 := SecondRow(cap);
    GroupedSnoc(Colliding(), Full, cap, [] + [(0, 5)] + [(1, 10)], (2, 20));
    LastRow(t2);
    t := Feed(Colliding(), Full, t2, (2, 20));
  }
}
