/**
 * The fixed-array group-by of `src/exec/fixed_agg.rs`: 256 slots, linear probing, and one array per
 * aggregate laid out slot by slot.  Floats are abstract; only the order of the folds matters.
 */
module FixedAgg {
  import opened Counting
  import opened Machine
  import opened Options
  import R = RobinHood

  const SLOTS: nat := 256

  datatype Floats<!F> = Floats(zero: F, infinity: F, negInfinity: F, add: (F, F) -> F, less: (F, F) -> bool)

  /** One input row: its group key and one value per aggregate. */
  datatype Row<F> = Row(key: u64, values: seq<F>)

  // ---------------------------------------------------------------- what each group should hold

  function CountOf<F>(rows: seq<Row<F>>, k: u64): nat {
    if rows == [] then 0
    else CountOf(rows[..|rows| - 1], k) + if rows[|rows| - 1].key == k then 1 else 0
  }

  /** Fold aggregate `a` over exactly the rows of group `k`, in arrival order. */
  function Fold<F>(rows: seq<Row<F>>, k: u64, a: nat, init: F, step: (F, F) -> F): F
    requires forall r | r in rows :: a < |r.values|
  {
    if rows == [] then init
    else
      var last := rows[|rows| - 1];
      var before := Fold(rows[..|rows| - 1], k, a, init, step);
      if last.key == k then step(before, last.values[a]) else before
  }

  function Keys<F>(rows: seq<Row<F>>): set<u64> {
    set i | 0 <= i < |rows| :: rows[i].key
  }

  lemma KeysSnoc<F>(rows: seq<Row<F>>, row: Row<F>)
    ensures Keys(rows + [row]) == Keys(rows) + {row.key}
  {
    var all := rows + [row];
    assert all[|rows|].key in Keys(all);
    forall i | 0 <= i < |rows| ensures rows[i].key in Keys(all) {
      assert all[i] == rows[i];
    }
  }

  lemma {:induction false} AbsentCount<F>(rows: seq<Row<F>>, k: u64)
    requires k !in Keys(rows)
    ensures CountOf(rows, k) == 0
  {
    if rows != [] {
      var n := |rows| - 1;
      assert rows == rows[..n] + [rows[n]];
      KeysSnoc(rows[..n], rows[n]);
      AbsentCount(rows[..n], k);
    }
  }

  lemma {:induction false} AbsentFold<F>(rows: seq<Row<F>>, k: u64, a: nat, init: F, step: (F, F) -> F)
    requires k !in Keys(rows) && forall r | r in rows :: a < |r.values|
    ensures Fold(rows, k, a, init, step) == init
  {
    if rows != [] {
      var n := |rows| - 1;
      assert rows == rows[..n] + [rows[n]];
      KeysSnoc(rows[..n], rows[n]);
      AbsentFold(rows[..n], k, a, init, step);
    }
  }

  function Smaller<F>(fs: Floats<F>): (F, F) -> F { (x, v) => if fs.less(v, x) then v else x }

  function Larger<F>(fs: Floats<F>): (F, F) -> F { (x, v) => if fs.less(x, v) then v else x }

  /** The values of aggregate `a` in the rows of group `k`, in arrival order. */
  function GroupValues<F>(rows: seq<Row<F>>, k: u64, a: nat): seq<F>
    requires forall r | r in rows :: a < |r.values|
  {
    if rows == [] then []
    else
      var n := |rows| - 1;
      if rows[n].key == k then GroupValues(rows[..n], k, a) + [rows[n].values[a]] else GroupValues(rows[..n], k, a)
  }

  /** A strict weak order, as `<` is on floats without NaN. */
  ghost predicate Ordered<F(!new)>(less: (F, F) -> bool) {
    && (forall x :: !less(x, x))
    && (forall x, y, z | less(x, y) && less(y, z) :: less(x, z))
    && (forall x, y, z | less(x, z) :: less(x, y) || less(y, z))
  }

  /** Nothing is better than `m`, which is one of the values unless none is better than the start. */
  ghost predicate Best<F>(values: seq<F>, init: F, better: (F, F) -> bool, m: F) {
    && (forall v | v in values :: !better(v, m))
    && (m in values || (m == init && forall v | v in values :: !better(v, init)))
  }

  lemma BestNext<F(!new)>(values: seq<F>, init: F, better: (F, F) -> bool, m: F, v: F)
    requires Ordered(better) && Best(values, init, better, m)
    ensures Best(values + [v], init, better, if better(v, m) then v else m)
  {
    var all := values + [v];
    assert v in all && forall x | x in all :: x in values || x == v;
    assert forall x | x in values :: x in all;
  }

  lemma {:induction false} FoldBest<F(!new)>(
    rows: seq<Row<F>>, k: u64, a: nat, init: F, step: (F, F) -> F, better: (F, F) -> bool)
    requires Ordered(better) && (forall r | r in rows :: a < |r.values|)
    requires forall x, v :: step(x, v) == if better(v, x) then v else x
    ensures Best(GroupValues(rows, k, a), init, better, Fold(rows, k, a, init, step))
  {
    if rows != [] {
      var n := |rows| - 1;
      FoldBest(rows[..n], k, a, init, step, better);
      if rows[n].key == k {
        BestNext(GroupValues(rows[..n], k, a), init, better, Fold(rows[..n], k, a, init, step), rows[n].values[a]);
      }
    }
  }

  /** MIN and MAX are the least and the greatest value of the group. */
  lemma FoldExtremes<F(!new)>(fs: Floats<F>, rows: seq<Row<F>>, k: u64, a: nat)
    requires Ordered(fs.less) && forall r | r in rows :: a < |r.values|
    ensures var values := GroupValues(rows, k, a);
            && Best(values, fs.infinity, fs.less, Fold(rows, k, a, fs.infinity, Smaller(fs)))
            && Best(values, fs.negInfinity, (x, y) => fs.less(y, x), Fold(rows, k, a, fs.negInfinity, Larger(fs)))
  {
    FoldBest(rows, k, a, fs.infinity, Smaller(fs), fs.less);
    FoldBest(rows, k, a, fs.negInfinity, Larger(fs), (x, y) => fs.less(y, x));
  }

  /** COUNT is the number of those values. */
  lemma {:induction false} CountIsValues<F>(rows: seq<Row<F>>, k: u64, a: nat)
    requires forall r | r in rows :: a < |r.values|
    ensures CountOf(rows, k) == |GroupValues(rows, k, a)|
  {
    if rows != [] {
      CountIsValues(rows[..|rows| - 1], k, a);
    }
  }

  // ---------------------------------------------------------------- probing

  function Taken(slots: seq<Option<u64>>): (t: seq<bool>)
    ensures |t| == |slots| && forall s | 0 <= s < |slots| :: t[s] == slots[s].Some?
  {
    seq(|slots|, s requires 0 <= s < |slots| => slots[s].Some?)
  }

  function NumTaken(slots: seq<Option<u64>>): nat { Count(Taken(slots), IsTrue()) }

  lemma FreeSlot(slots: seq<Option<u64>>)
    requires NumTaken(slots) < |slots|
    ensures exists e | 0 <= e < |slots| :: slots[e].None?
  {
    if forall e | 0 <= e < |slots| :: slots[e].Some? {
      CountAll(Taken(slots), IsTrue());
    }
  }

  lemma TakeOne(slots: seq<Option<u64>>, s: nat, key: u64)
    requires s < |slots| && slots[s].None?
    ensures NumTaken(slots[s := Some(key)]) == NumTaken(slots) + 1
  {
    var t := Taken(slots);
    assert t == t[..s] + [false] + t[s + 1..];
    assert Taken(slots[s := Some(key)]) == t[..s] + [true] + t[s + 1..];
    CountInsert(t[..s], false, t[s + 1..], IsTrue());
    CountInsert(t[..s], true, t[s + 1..], IsTrue());
  }

  function Home(key: u64): (h: nat)
    ensures h < SLOTS
  {
    key % SLOTS
  }

  ghost predicate Holds(slots: seq<Option<u64>>, key: u64) {
    exists s | 0 <= s < |slots| :: slots[s] == Some(key)
  }

  /** No key twice, and no gap between a key's home slot and where it sits. */
  ghost predicate Probed(slots: seq<Option<u64>>) {
    && |slots| == SLOTS
    && (forall s, q | 0 <= s < q < SLOTS && slots[s].Some? :: slots[s] != slots[q])
    && (forall s | 0 <= s < SLOTS && slots[s].Some? :: Unbroken(slots, slots[s].value, s))
  }

  ghost predicate Unbroken(slots: seq<Option<u64>>, key: u64, s: nat)
    requires |slots| == SLOTS && s < SLOTS
  {
    forall q | 0 <= q < SLOTS && R.Steps(SLOTS, Home(key), q) < R.Steps(SLOTS, Home(key), s) ::
      slots[q].Some? && slots[q] != Some(key)
  }

  /** Filling a free slot with a key whose path up to there is unbroken. */
  lemma FillSlot(slots: seq<Option<u64>>, key: u64, s: nat)
    requires Probed(slots) && s < SLOTS && slots[s].None? && Unbroken(slots, key, s) && !Holds(slots, key)
    ensures Probed(slots[s := Some(key)])
  {
    var slots' := slots[s := Some(key)];
    forall q | 0 <= q < SLOTS && slots'[q].Some? ensures Unbroken(slots', slots'[q].value, q) {
      assert q != s ==> Unbroken(slots, slots[q].value, q);
    }
  }

  /** Where the probe for a key stands after `n` steps. */
  function SlotAfter(key: u64, n: nat): (s: nat)
    ensures s < SLOTS
  {
    if n == 0 then Home(key) else R.After(SLOTS, SlotAfter(key, n - 1))
  }

  /** The probing loop stops at this slot: it is free or holds the key. */
  predicate Stops(slots: seq<Option<u64>>, key: u64, s: nat)
    requires |slots| == SLOTS && s < SLOTS
  {
    slots[s].None? || slots[s] == Some(key)
  }

  predicate StopsAfter(slots: seq<Option<u64>>, key: u64, n: nat)
    requires |slots| == SLOTS
  {
    Stops(slots, key, SlotAfter(key, n))
  }

  /** In its first round the probe visits every slot once. */
  lemma {:induction false} FirstRound(key: u64, n: nat)
    requires n < SLOTS
    ensures R.Steps(SLOTS, Home(key), SlotAfter(key, n)) == n
  {
    if n > 0 {
      FirstRound(key, n - 1);
    }
  }

  lemma ReachesAll(key: u64, s: nat)
    requires s < SLOTS
    ensures SlotAfter(key, R.Steps(SLOTS, Home(key), s)) == s
  {
    FirstRound(key, R.Steps(SLOTS, Home(key), s));
  }

  /** The probing loop stops after some number of steps if and only if the key is there or a slot is free. */
  lemma ProbeEndsExact(slots: seq<Option<u64>>, key: u64)
    requires |slots| == SLOTS
    ensures (exists n: nat :: StopsAfter(slots, key, n)) <==> Holds(slots, key) || NumTaken(slots) < SLOTS
  {
    if Holds(slots, key) || NumTaken(slots) < SLOTS {
      var s := StopSlot(slots, key);
      ReachesAll(key, s);
      assert StopsAfter(slots, key, R.Steps(SLOTS, Home(key), s));
    }
    if n: nat :| StopsAfter(slots, key, n) {
      var s := SlotAfter(key, n);
      if slots[s].None? {
        TakeOne(slots, s, key);
      }
    }
  }

  /** The slot at which the probing loop stops: the first that is free or holds the key. */
  ghost predicate Seat(slots: seq<Option<u64>>, key: u64, s: nat)
    requires |slots| == SLOTS
  {
    s < SLOTS && Stops(slots, key, s) && Unbroken(slots, key, s)
  }

  /** It is the one reached first, and no other. */
  lemma SeatIsFirst(slots: seq<Option<u64>>, key: u64, s: nat)
    requires |slots| == SLOTS && Seat(slots, key, s)
    ensures StopsAfter(slots, key, R.Steps(SLOTS, Home(key), s))
    ensures forall n: nat | n < R.Steps(SLOTS, Home(key), s) :: !StopsAfter(slots, key, n)
    ensures forall q: nat | Seat(slots, key, q) :: q == s
  {
    ReachesAll(key, s);
    forall n: nat | n < R.Steps(SLOTS, Home(key), s) ensures !StopsAfter(slots, key, n) {
      FirstRound(key, n);
    }
  }

  /** If the loop stops at all, it has a seat. */
  lemma {:induction false} SeatBy(slots: seq<Option<u64>>, key: u64, n: nat) returns (s: nat)
    requires |slots| == SLOTS && n < SLOTS && StopsAfter(slots, key, n)
    ensures Seat(slots, key, s)
    decreases n
  {
    s := SlotAfter(key, n);
    FirstRound(key, n);
    if !Unbroken(slots, key, s) {
      var q :| 0 <= q < SLOTS && R.Steps(SLOTS, Home(key), q) < n && Stops(slots, key, q);
      ReachesAll(key, q);
      s := SeatBy(slots, key, R.Steps(SLOTS, Home(key), q));
    }
  }

  // ---------------------------------------------------------------- aggregate arrays

  /** Slot `s` of aggregate `a`. */
  function At(a: nat, s: nat): nat { a * SLOTS + s }

  ghost predicate AllWide<F>(rows: seq<Row<F>>, numAggs: nat) {
    forall r | r in rows :: |r.values| == numAggs
  }

  /** Every slot of an aggregate array holds the fold of its own group, and a free slot the initial value. */
  ghost predicate Folded<F>(
    data: seq<F>, numAggs: nat, slots: seq<Option<u64>>, rows: seq<Row<F>>, init: F, step: (F, F) -> F)
  {
    && |slots| == SLOTS && |data| == numAggs * SLOTS && AllWide(rows, numAggs)
    && forall a: nat, s: nat {:trigger At(a, s)} | a < numAggs && s < SLOTS ::
         && At(a, s) < |data|
         && data[At(a, s)] == if slots[s].Some? then Fold(rows, slots[s].value, a, init, step) else init
  }

  /** The array after one row has been folded into its slot. */
  ghost predicate Stepped<F>(data: seq<F>, data': seq<F>, numAggs: nat, slot: nat, values: seq<F>, step: (F, F) -> F) {
    && |values| == numAggs && |data'| == |data| == numAggs * SLOTS
    && forall a: nat, s: nat {:trigger At(a, s)} | a < numAggs && s < SLOTS ::
         At(a, s) < |data| && data'[At(a, s)] == if s == slot then step(data[At(a, s)], values[a]) else data[At(a, s)]
  }

  lemma InLayout(numAggs: nat, a: nat, s: nat)
    requires a < numAggs && s < SLOTS
    ensures At(a, s) < numAggs * SLOTS
  {
  }

  lemma FoldedStep<F>(
    data: seq<F>, data': seq<F>, numAggs: nat, slots: seq<Option<u64>>, rows: seq<Row<F>>, row: Row<F>,
                      slot: nat, init: F, step: (F, F) -> F)
    requires Folded(data, numAggs, slots, rows, init, step) && Stepped(data, data', numAggs, slot, row.values, step)
    requires slot < SLOTS && (slots[slot].None? ==> row.key !in Keys(rows))
    requires slots[slot].Some? ==> slots[slot] == Some(row.key)
    requires forall s | 0 <= s < SLOTS && s != slot :: slots[s] != Some(row.key)
    ensures Folded(data', numAggs, slots[slot := Some(row.key)], rows + [row], init, step)
  {
    var rows', slots' := rows + [row], slots[slot := Some(row.key)];
    assert rows'[..|rows|] == rows;
    forall a: nat, s: nat | a < numAggs && s < SLOTS
      ensures At(a, s) < |data'|
      ensures data'[At(a, s)] == if slots'[s].Some? then Fold(rows', slots'[s].value, a, init, step) else init
    {
      if s == slot && slots[slot].None? {
        AbsentFold(rows, row.key, a, init, step);
      }
    }
  }

  ghost predicate Counted<F>(counts: seq<nat>, slots: seq<Option<u64>>, rows: seq<Row<F>>) {
    && |counts| == |slots| == SLOTS
    && forall s | 0 <= s < SLOTS :: counts[s] == if slots[s].Some? then CountOf(rows, slots[s].value) else 0
  }

  lemma CountedStep<F>(counts: seq<nat>, slots: seq<Option<u64>>, rows: seq<Row<F>>, row: Row<F>, slot: nat)
    requires Counted(counts, slots, rows) && slot < SLOTS
    requires (slots[slot].None? ==> row.key !in Keys(rows)) && (slots[slot].Some? ==> slots[slot] == Some(row.key))
    requires forall s | 0 <= s < SLOTS && s != slot :: slots[s] != Some(row.key)
    ensures Counted(counts[slot := counts[slot] + 1], slots[slot := Some(row.key)], rows + [row])
  {
    assert (rows + [row])[..|rows|] == rows;
    if slots[slot].None? {
      AbsentCount(rows, row.key);
    }
  }

  // ---------------------------------------------------------------- the accumulator

  /** One slot per distinct key of the rows. */
  ghost predicate Seated<F>(slots: seq<Option<u64>>, rows: seq<Row<F>>) {
    && Probed(slots)
    && (forall k: u64 :: Holds(slots, k) <==> k in Keys(rows))
    && NumTaken(slots) == |Keys(rows)|
  }

  /** The slot that already holds the row's key serves the row. */
  lemma SeatedFound<F>(slots: seq<Option<u64>>, rows: seq<Row<F>>, row: Row<F>, s: nat)
    requires Seated(slots, rows) && s < SLOTS && slots[s] == Some(row.key)
    ensures Seated(slots, rows + [row]) && slots[s := Some(row.key)] == slots && Keys(rows + [row]) == Keys(rows)
  {
    KeysSnoc(rows, row);
    assert Holds(slots, row.key);
    assert Keys(rows + [row]) == Keys(rows);
  }

  /** The free slot at the end of the probe takes the row's key, which is new. */
  lemma SeatedClaimed<F>(slots: seq<Option<u64>>, rows: seq<Row<F>>, row: Row<F>, s: nat)
    requires Seated(slots, rows) && s < SLOTS && slots[s].None? && Unbroken(slots, row.key, s)
    ensures Seated(slots[s := Some(row.key)], rows + [row])
    ensures row.key !in Keys(rows) && NumTaken(slots[s := Some(row.key)]) == NumTaken(slots) + 1
  {
    NotHeld(slots, row.key, s);
    FillSlot(slots, row.key, s);
    TakeOne(slots, s, row.key);
    assert forall k: u64 :: Holds(slots[s := Some(row.key)], k) <==> k in Keys(rows + [row]) by {
      KeysSnoc(rows, row);
      NowHeld(slots, row.key, s);
    }
    assert |Keys(rows + [row])| == |Keys(rows)| + 1 by {
      KeysSnoc(rows, row);
    }
  }

  /** The directory with the recorded keys and the number of groups. */
  ghost predicate Maps<F>(slots: seq<Option<u64>>, groupKeys: seq<u64>, numActive: nat, rows: seq<Row<F>>) {
    && |groupKeys| == SLOTS && Seated(slots, rows) && numActive == NumTaken(slots)
    && (forall s | 0 <= s < SLOTS && slots[s].Some? :: groupKeys[s] == slots[s].value)
  }

  /** The groups of the taken slots among the first `n`, in slot order. */
  ghost predicate Listed<F>(slots: seq<Option<u64>>, out: seq<Group<F>>, where: seq<nat>, n: nat)
    requires n <= |slots|
  {
    && |where| == |out|
    && (forall i | 0 <= i < |out| :: where[i] < n && slots[where[i]] == Some(out[i].key))
    && (forall i, j | 0 <= i < j < |out| :: where[i] < where[j])
    && (forall s | 0 <= s < n && slots[s].Some? :: s in where)
  }

  lemma ListedNext<F>(slots: seq<Option<u64>>, out: seq<Group<F>>, where: seq<nat>, n: nat, g: Group<F>)
    requires n < |slots| && Listed(slots, out, where, n) && slots[n] == Some(g.key)
    ensures Listed(slots, out + [g], where + [n], n + 1)
  {
    assert forall s | 0 <= s < n && slots[s].Some? :: s in where + [n];
    assert (where + [n])[|where|] == n;
  }

  /** One entry of the result. */
  datatype Group<F> = Group(key: u64, sums: seq<F>, count: nat, mins: seq<F>, maxs: seq<F>)

  class Accumulator<F> {
    const fs: Floats<F>
    const numAggs: nat
    const slots: array<Option<u64>>
    var sums: seq<F>
    var counts: seq<nat>
    var mins: seq<F>
    var maxs: seq<F>
    var groupKeys: seq<u64>
    var numActive: nat

    /** The slot directory after the given rows: one slot per distinct key. */
    ghost predicate Directory(rows: seq<Row<F>>)
      reads this, slots
    {
      slots.Length == SLOTS && Maps(slots[..], groupKeys, numActive, rows)
    }

    /** The accumulator has absorbed exactly these rows. */
    ghost predicate Absorbed(rows: seq<Row<F>>)
      reads this, slots
    {
      && Directory(rows)
      && Counted(counts, slots[..], rows)
      && Folded(sums, numAggs, slots[..], rows, fs.zero, fs.add)
      && Folded(mins, numAggs, slots[..], rows, fs.infinity, Smaller(fs))
      && Folded(maxs, numAggs, slots[..], rows, fs.negInfinity, Larger(fs))
    }

    constructor (fs: Floats<F>, numAggs: nat)
      ensures this.fs == fs && this.numAggs == numAggs && fresh(slots) && Absorbed([])
    {
      this.fs := fs;
      this.numAggs := numAggs;
      slots := new Option<u64>[SLOTS](_ => None);
      sums := seq(numAggs * SLOTS, _ => fs.zero);
      counts := seq(SLOTS, _ => 0);
      mins := seq(numAggs * SLOTS, _ => fs.infinity);
      maxs := seq(numAggs * SLOTS, _ => fs.negInfinity);
      groupKeys := seq(SLOTS, _ => 0);
      numActive := 0;
      new;
      CountNone(Taken(slots[..]), IsTrue());
      forall a: nat, s: nat | a < numAggs && s < SLOTS ensures At(a, s) < numAggs * SLOTS {
        InLayout(numAggs, a, s);
      }
    }

    /**
     * `get_or_create_slot`.  The probe ends because the key is in the table or some slot is free, which
     * at most 256 distinct keys guarantee.
     */
    method GetOrCreateSlot(key: u64, ghost rows: seq<Row<F>>, ghost row: Row<F>) returns (slot: nat)
      requires Directory(rows) && row.key == key && |Keys(rows + [row])| <= SLOTS
      modifies slots, `groupKeys, `numActive
      ensures Directory(rows + [row])
      ensures Seat(old(slots[..]), key, slot) && slots[..] == old(slots[..])[slot := Some(key)]
      ensures old(slots[slot]) == None || old(slots[slot]) == Some(key)
      ensures old(slots[slot]) == None ==> key !in Keys(rows)
    {
      KeysSnoc(rows, row);
      ghost var start := slots[..];
      ghost var stop := StopSlot(start, key);
      slot := Home(key);
      while true
        invariant slot < SLOTS && slots[..] == start && groupKeys == old(groupKeys) && numActive == old(numActive)
        invariant Unbroken(start, key, slot)
        invariant R.Steps(SLOTS, Home(key), slot) <= R.Steps(SLOTS, Home(key), stop)
        decreases R.Steps(SLOTS, Home(key), stop) - R.Steps(SLOTS, Home(key), slot)
      {
        assert slots[slot] == start[slot];
        if slots[slot] == Some(key) {
          SeatedFound(start, rows, row, slot);
          return;
        }
        if slots[slot].None? {
          SeatedClaimed(start, rows, row, slot);
          slots[slot] := Some(key);
          assert slots[..] == start[slot := Some(key)];
          groupKeys := groupKeys[slot := key];
          numActive := numActive + 1;
          return;
        }
        PassSlot(start, key, slot, stop);
        slot := R.After(SLOTS, slot);
      }
    }

    method AddSum(a: nat, slot: nat, value: F)
      requires a < numAggs && slot < SLOTS && |sums| == numAggs * SLOTS
      modifies `sums
      ensures At(a, slot) < |sums| && sums == old(sums)[At(a, slot) := fs.add(old(sums)[At(a, slot)], value)]
    {
      InLayout(numAggs, a, slot);
      sums := sums[At(a, slot) := fs.add(sums[At(a, slot)], value)];
    }

    method UpdateMin(a: nat, slot: nat, value: F)
      requires a < numAggs && slot < SLOTS && |mins| == numAggs * SLOTS
      modifies `mins
      ensures At(a, slot) < |mins| && mins == old(mins)[At(a, slot) := Smaller(fs)(old(mins)[At(a, slot)], value)]
    {
      InLayout(numAggs, a, slot);
      var idx := At(a, slot);
      if fs.less(value, mins[idx]) {
        mins := mins[idx := value];
      }
    }

    method UpdateMax(a: nat, slot: nat, value: F)
      requires a < numAggs && slot < SLOTS && |maxs| == numAggs * SLOTS
      modifies `maxs
      ensures At(a, slot) < |maxs| && maxs == old(maxs)[At(a, slot) := Larger(fs)(old(maxs)[At(a, slot)], value)]
    {
      InLayout(numAggs, a, slot);
      var idx := At(a, slot);
      if fs.less(maxs[idx], value) {
        maxs := maxs[idx := value];
      }
    }

    /** Update every aggregate of one slot with one row's values. */
    method Fold(slot: nat, values: seq<F>)
      requires slot < SLOTS && |values| == numAggs && |sums| == |mins| == |maxs| == numAggs * SLOTS
      modifies `sums, `mins, `maxs
      ensures Stepped(old(sums), sums, numAggs, slot, values, fs.add)
      ensures Stepped(old(mins), mins, numAggs, slot, values, Smaller(fs))
      ensures Stepped(old(maxs), maxs, numAggs, slot, values, Larger(fs))
    {
      StepStart(sums, numAggs, slot, values, fs.add);
      StepStart(mins, numAggs, slot, values, Smaller(fs));
      StepStart(maxs, numAggs, slot, values, Larger(fs));
      for a := 0 to numAggs
        invariant SteppedUpTo(old(sums), sums, numAggs, slot, values, fs.add, a)
        invariant SteppedUpTo(old(mins), mins, numAggs, slot, values, Smaller(fs), a)
        invariant SteppedUpTo(old(maxs), maxs, numAggs, slot, values, Larger(fs), a)
      {
        StepOne(old(sums), sums, numAggs, slot, values, fs.add, a);
        StepOne(old(mins), mins, numAggs, slot, values, Smaller(fs), a);
        StepOne(old(maxs), maxs, numAggs, slot, values, Larger(fs), a);
        AddSum(a, slot, values[a]);
        UpdateMin(a, slot, values[a]);
        UpdateMax(a, slot, values[a]);
      }
    }

    /** One row: find its slot, then update count and aggregates there. */
    method AddRow(row: Row<F>, ghost rows: seq<Row<F>>)
      requires Absorbed(rows) && |row.values| == numAggs && |Keys(rows + [row])| <= SLOTS
      modifies this, slots
      ensures Absorbed(rows + [row])
    {
      ghost var before := slots[..];
      var slot := GetOrCreateSlot(row.key, rows, row);
      ghost var s0, m0, x0 := sums, mins, maxs;
      Fold(slot, row.values);
      OnlySlot(before, slots[..], row.key, slot);
      CountedStep(counts, before, rows, row, slot);
      counts := counts[slot := counts[slot] + 1];
      FoldedStep(s0, sums, numAggs, before, rows, row, slot, fs.zero, fs.add);
      FoldedStep(m0, mins, numAggs, before, rows, row, slot, fs.infinity, Smaller(fs));
      FoldedStep(x0, maxs, numAggs, before, rows, row, slot, fs.negInfinity, Larger(fs));
    }

    /** The rows of a stream with at most 256 distinct keys, absorbed in order. */
    method AddRows(rows: seq<Row<F>>)
      requires Absorbed([]) && AllWide(rows, numAggs) && |Keys(rows)| <= SLOTS
      modifies this, slots
      ensures Absorbed(rows)
    {
      for i := 0 to |rows|
        invariant Absorbed(rows[..i])
      {
        assert rows[..i + 1] == rows[..i] + [rows[i]];
        FewerKeys(rows, i + 1);
        AddRow(rows[i], rows[..i]);
      }
      assert rows[..|rows|] == rows;
    }

    method Gather(data: seq<F>, slot: nat) returns (column: seq<F>)
      requires slot < SLOTS && |data| == numAggs * SLOTS
      ensures |column| == numAggs
      ensures forall a: nat | a < numAggs :: At(a, slot) < |data| && column[a] == data[At(a, slot)]
    {
      column := [];
      for a := 0 to numAggs
        invariant |column| == a && forall b: nat | b < a :: At(b, slot) < |data| && column[b] == data[At(b, slot)]
      {
        InLayout(numAggs, a, slot);
        column := column + [data[At(a, slot)]];
      }
    }

    method Emit(slot: nat, ghost rows: seq<Row<F>>) returns (g: Group<F>)
      requires Absorbed(rows) && slot < SLOTS && slots[slot].Some?
      ensures slots[slot] == Some(g.key) && GroupOf(fs, numAggs, rows, g)
    {
      var s := Gather(sums, slot);
      var m := Gather(mins, slot);
      var x := Gather(maxs, slot);
      g := Group(groupKeys[slot], s, counts[slot], m, x);
    }

    /** The groups of the taken slots, in slot order. */
    method EmitAll(ghost rows: seq<Row<F>>) returns (out: seq<Group<F>>, ghost where: seq<nat>)
      requires Absorbed(rows)
      ensures Listed(slots[..], out, where, SLOTS)
      ensures forall i | 0 <= i < |out| :: GroupOf(fs, numAggs, rows, out[i])
    {
      out, where := [], [];
      for slot := 0 to SLOTS
        invariant Listed(slots[..], out, where, slot)
        invariant forall i | 0 <= i < |out| :: GroupOf(fs, numAggs, rows, out[i])
      {
        if slots[slot].Some? {
          var g := Emit(slot, rows);
          ListedNext(slots[..], out, where, slot, g);
          out := out + [g];
          where := where + [slot];
        }
      }
    }

    /**
     * `finalize`: every distinct key comes out once, with the count of its rows and each aggregate
     * folded over exactly those rows in arrival order.
     */
    method Finalize(ghost rows: seq<Row<F>>) returns (out: seq<Group<F>>)
      requires Absorbed(rows)
      ensures forall i, j | 0 <= i < j < |out| :: out[i].key != out[j].key
      ensures forall k: u64 :: k in Keys(rows) <==> exists i | 0 <= i < |out| :: out[i].key == k
      ensures forall i | 0 <= i < |out| :: GroupOf(fs, numAggs, rows, out[i])
    {
      ghost var where;
      out, where := EmitAll(rows);
      EmittedOnce(slots[..], out, where);
    }
  }

  /** MIN and MAX of a result entry are the least and the greatest value of its group, COUNT their number. */
  lemma GroupExtremes<F(!new)>(fs: Floats<F>, numAggs: nat, rows: seq<Row<F>>, g: Group<F>, a: nat)
    requires GroupOf(fs, numAggs, rows, g) && a < numAggs && Ordered(fs.less)
    ensures forall r | r in rows :: a < |r.values|
    ensures var values := GroupValues(rows, g.key, a);
            && g.count == |values|
            && Best(values, fs.infinity, fs.less, g.mins[a])
            && Best(values, fs.negInfinity, (x, y) => fs.less(y, x), g.maxs[a])
  {
    FoldExtremes(fs, rows, g.key, a);
    CountIsValues(rows, g.key, a);
  }

  /** A result entry that is right for its key. */
  ghost predicate GroupOf<F>(fs: Floats<F>, numAggs: nat, rows: seq<Row<F>>, g: Group<F>) {
    && AllWide(rows, numAggs) && g.count == CountOf(rows, g.key)
    && |g.sums| == |g.mins| == |g.maxs| == numAggs
    && forall a: nat | a < numAggs ::
         && g.sums[a] == Fold(rows, g.key, a, fs.zero, fs.add)
         && g.mins[a] == Fold(rows, g.key, a, fs.infinity, Smaller(fs))
         && g.maxs[a] == Fold(rows, g.key, a, fs.negInfinity, Larger(fs))
  }

  lemma EmittedOnce<F>(slots: seq<Option<u64>>, out: seq<Group<F>>, where: seq<nat>)
    requires Probed(slots) && Listed(slots, out, where, SLOTS)
    ensures forall i, j | 0 <= i < j < |out| :: out[i].key != out[j].key
    ensures forall k: u64 :: Holds(slots, k) <==> exists i | 0 <= i < |out| :: out[i].key == k
  {
    forall k: u64 ensures Holds(slots, k) <==> exists i | 0 <= i < |out| :: out[i].key == k {
      if Holds(slots, k) {
        var s :| 0 <= s < SLOTS && slots[s] == Some(k);
        var i :| 0 <= i < |out| && where[i] == s;
        assert out[i].key == k;
      }
      if i :| 0 <= i < |out| && out[i].key == k {
        assert slots[where[i]] == Some(k);
      }
    }
  }

  lemma FewerKeys<F>(rows: seq<Row<F>>, i: nat)
    requires i <= |rows|
    ensures |Keys(rows[..i])| <= |Keys(rows)|
  {
    forall k | k in Keys(rows[..i]) ensures k in Keys(rows) {
      var j :| 0 <= j < i && rows[..i][j].key == k;
      assert rows[j].key == k;
    }
    SubsetSize(Keys(rows[..i]), Keys(rows));
  }

  /** After the slot has been found, no other slot holds the key. */
  lemma OnlySlot(before: seq<Option<u64>>, slots: seq<Option<u64>>, key: u64, slot: nat)
    requires Probed(slots) && |before| == SLOTS && slot < SLOTS && slots == before[slot := Some(key)]
    ensures forall s | 0 <= s < SLOTS && s != slot :: before[s] != Some(key)
  {
    assert slots[slot] == Some(key);
    forall s | 0 <= s < SLOTS && s != slot ensures before[s] != Some(key) {
      assert slots[s] == before[s];
    }
  }

  /** The first `n` aggregates have been updated. */
  ghost predicate SteppedUpTo<F>(
    data: seq<F>, data': seq<F>, numAggs: nat, slot: nat, values: seq<F>, step: (F, F) -> F, n: nat)
  {
    && |values| == numAggs && |data'| == |data| == numAggs * SLOTS
    && forall a: nat, s: nat {:trigger At(a, s)} | a < numAggs && s < SLOTS ::
         && At(a, s) < |data|
         && data'[At(a, s)] == if s == slot && a < n then step(data[At(a, s)], values[a]) else data[At(a, s)]
  }

  lemma StepStart<F>(data: seq<F>, numAggs: nat, slot: nat, values: seq<F>, step: (F, F) -> F)
    requires |values| == numAggs && |data| == numAggs * SLOTS
    ensures SteppedUpTo(data, data, numAggs, slot, values, step, 0)
  {
    forall a: nat, s: nat | a < numAggs && s < SLOTS ensures At(a, s) < |data| {
      InLayout(numAggs, a, s);
    }
  }

  lemma StepOne<F>(data: seq<F>, data': seq<F>, numAggs: nat, slot: nat, values: seq<F>, step: (F, F) -> F, n: nat)
    requires SteppedUpTo(data, data', numAggs, slot, values, step, n) && n < numAggs && slot < SLOTS
    ensures At(n, slot) < |data'|
    ensures SteppedUpTo(data, data'[At(n, slot) := step(data'[At(n, slot)], values[n])],
                        numAggs, slot, values, step, n + 1)
  {
    InLayout(numAggs, n, slot);
  }

  /** A slot at which the probe for `key` is bound to stop. */
  ghost function StopSlot(slots: seq<Option<u64>>, key: u64): (e: nat)
    requires |slots| == SLOTS && (Holds(slots, key) || NumTaken(slots) < SLOTS)
    ensures e < SLOTS && (slots[e].None? || slots[e] == Some(key))
  {
    if Holds(slots, key) then
      var e :| 0 <= e < |slots| && slots[e] == Some(key);
      e
    else
      FreeSlot(slots);
      var e :| 0 <= e < |slots| && slots[e].None?;
      e
  }

  lemma PassSlot(slots: seq<Option<u64>>, key: u64, slot: nat, stop: nat)
    requires |slots| == SLOTS && slot < SLOTS && stop < SLOTS && Unbroken(slots, key, slot)
    requires slots[slot].Some? && slots[slot] != Some(key) && (slots[stop].None? || slots[stop] == Some(key))
    requires R.Steps(SLOTS, Home(key), slot) <= R.Steps(SLOTS, Home(key), stop)
    ensures Unbroken(slots, key, R.After(SLOTS, slot))
    ensures R.Steps(SLOTS, Home(key), R.After(SLOTS, slot)) == R.Steps(SLOTS, Home(key), slot) + 1
         <= R.Steps(SLOTS, Home(key), stop)
  {
  }

  lemma NotHeld(slots: seq<Option<u64>>, key: u64, slot: nat)
    requires Probed(slots) && slot < SLOTS && slots[slot].None? && Unbroken(slots, key, slot)
    ensures !Holds(slots, key)
  {
    assert forall s | 0 <= s < SLOTS && slots[s] == Some(key) :: Unbroken(slots, key, s);
  }

  lemma NowHeld(slots: seq<Option<u64>>, key: u64, slot: nat)
    requires |slots| == SLOTS && slot < SLOTS && slots[slot].None?
    ensures forall k: u64 :: Holds(slots[slot := Some(key)], k) <==> Holds(slots, k) || k == key
  {
    var slots' := slots[slot := Some(key)];
    forall k: u64 ensures Holds(slots', k) <==> Holds(slots, k) || k == key {
      if Holds(slots, k) {
        var s :| 0 <= s < SLOTS && slots[s] == Some(k);
        assert slots'[s] == Some(k);
      }
      assert slots'[slot] == Some(key);
    }
  }

  // ---------------------------------------------------------------- streams that are too wide

  /** The slots after a stream of rows, or none if some row never finds a slot. */
  ghost function Streamed<F>(rows: seq<Row<F>>): (slots: Option<seq<Option<u64>>>)
    ensures slots.Some? ==> |slots.value| == SLOTS
  {
    if rows == [] then Some(seq(SLOTS, _ => None))
    else
      var row := rows[|rows| - 1];
      match Streamed(rows[..|rows| - 1])
      case None => None
      case Some(slots) =>
        if s: nat :| Seat(slots, row.key, s) then Some(slots[s := Some(row.key)]) else None
  }

  /** A seat exists exactly when the probing loop stops. */
  lemma SeatExact(slots: seq<Option<u64>>, key: u64)
    requires |slots| == SLOTS
    ensures (exists s: nat :: Seat(slots, key, s)) <==> Holds(slots, key) || NumTaken(slots) < SLOTS
  {
    ProbeEndsExact(slots, key);
    if s: nat :| Seat(slots, key, s) {
      SeatIsFirst(slots, key, s);
    }
    if Holds(slots, key) || NumTaken(slots) < SLOTS {
      var e := StopSlot(slots, key);
      ReachesAll(key, e);
      var s := SeatBy(slots, key, R.Steps(SLOTS, Home(key), e));
    }
  }

  lemma EmptySeated<F>()
    ensures Seated<F>(seq(SLOTS, _ => None), [])
  {
    var slots: seq<Option<u64>> := seq(SLOTS, _ => None);
    CountNone(Taken(slots), IsTrue());
    assert Keys<F>([]) == {};
  }

  /** Some row of a stream never finds a slot if and only if the stream has more than 256 distinct keys. */
  lemma {:induction false} StreamExact<F>(rows: seq<Row<F>>)
    ensures Streamed(rows).None? <==> |Keys(rows)| > 256
    ensures Streamed(rows).Some? ==> Seated(Streamed(rows).value, rows)
    decreases |rows|
  {
    if rows == [] {
      EmptySeated<F>();
    } else {
      var init, row := rows[..|rows| - 1], rows[|rows| - 1];
      assert rows == init + [row];
      StreamExact(init);
      if Streamed(init).Some? {
        SeatRow(Streamed(init).value, init, row);
      } else {
        KeysSnoc(init, row);
        SubsetSize(Keys(init), Keys(rows));
      }
    }
  }

  /** A row for each of the keys below `n`. */
  function FirstKeys<F>(n: nat): (rows: seq<Row<F>>)
    requires n <= SLOTS + 1
    ensures |rows| == n && forall i | 0 <= i < n :: rows[i].key == i
  {
    if n == 0 then [] else FirstKeys<F>(n - 1) + [Row(n - 1, [])]
  }

  lemma {:induction false} FirstKeysCount<F>(n: nat)
    requires n <= SLOTS + 1
    ensures |Keys(FirstKeys<F>(n))| == n && forall k | k in Keys(FirstKeys<F>(n)) :: k < n
  {
    if n > 0 {
      FirstKeysCount<F>(n - 1);
      KeysSnoc(FirstKeys<F>(n - 1), Row(n - 1, []));
    }
  }

  /** The first key goes to the slot of its lowest byte. */
  lemma FirstSeat(key: u64)
    ensures Seat(seq(256, _ => None), key, key % 256)
  {
  }

  /** The keys 0 to 255 find their slots; after them the key 256 never does. */
  lemma KeyTooMany<F>()
    ensures Streamed(FirstKeys<F>(256)).Some? && Streamed(FirstKeys<F>(257)).None?
  {
    FirstKeysCount<F>(SLOTS);
    FirstKeysCount<F>(SLOTS + 1);
    StreamExact(FirstKeys<F>(SLOTS));
    StreamExact(FirstKeys<F>(SLOTS + 1));
  }

  /** One more row: it has a seat unless it is the 257th key, and taking the seat keeps one slot per key. */
  lemma SeatRow<F>(slots: seq<Option<u64>>, rows: seq<Row<F>>, row: Row<F>)
    requires Seated(slots, rows)
    ensures |Keys(rows)| <= SLOTS
    ensures (exists s: nat :: Seat(slots, row.key, s)) <==> |Keys(rows + [row])| <= SLOTS
    ensures forall s: nat | Seat(slots, row.key, s) :: Seated(slots[s := Some(row.key)], rows + [row])
  {
    SeatExact(slots, row.key);
    KeysSnoc(rows, row);
    assert row.key in Keys(rows) ==> Keys(rows + [row]) == Keys(rows);
    forall s: nat | Seat(slots, row.key, s) ensures Seated(slots[s := Some(row.key)], rows + [row]) {
      if slots[s].None? {
        SeatedClaimed(slots, rows, row, s);
      } else {
        SeatedFound(slots, rows, row, s);
      }
    }
  }
}
