/**
 * The chained join hash table of `src/exec/join_hash_table.rs`: a directory of 64-bit words that pack an
 * OR-ed 16-bit tag over the index of the newest entry of a chain, for an arbitrary 64-bit hash function.
 */
module JoinHash {
  import opened Bits
  import opened Machine
  import opened Options
  import opened PackedWord

  type KeyHash = u64 -> u64

  datatype Entry = Entry(key: u64, row: u32, next: nat)

  // ---------------------------------------------------------------- addressing

  /** Where a key goes and which tag it carries. */
  datatype Addressing = Addressing(slot: u64 -> nat, tag: u64 -> nat)

  function HashAddressing(hash: KeyHash, bits: nat): Addressing
    requires bits <= 64
  {
    Addressing((k: u64) => SlotOf(hash(k), bits), (k: u64) => BloomTag(hash(k)))
  }

  // ---------------------------------------------------------------- the abstract multimap

  /** What has been inserted, oldest first. */
  type Log = seq<(u64, u32)>

  /** The rows among the first `n` insertions under a key, newest first. */
  function RowsUpTo(log: Log, n: nat, key: u64): seq<u32>
    requires n <= |log|
  {
    if n == 0 then []
    else if log[n - 1].0 == key then [log[n - 1].1] + RowsUpTo(log, n - 1, key)
    else RowsUpTo(log, n - 1, key)
  }

  /** The multimap: all rows inserted under a key, newest first. */
  function RowsOf(log: Log, key: u64): seq<u32> {
    RowsUpTo(log, |log|, key)
  }

  /** One more than the position of the newest of the first `n` insertions that fell in slot `s`, or 0. */
  function Newest(slot: u64 -> nat, log: Log, n: nat, s: nat): (i: nat)
    requires n <= |log|
    ensures i <= n
    ensures i > 0 ==> slot(log[i - 1].0) == s
  {
    if n == 0 then 0
    else if slot(log[n - 1].0) == s then n
    else Newest(slot, log, n - 1, s)
  }

  /** Everything after the newest insertion in a slot is irrelevant to the keys of that slot. */
  lemma {:induction false} SkipToNewest(slot: u64 -> nat, log: Log, n: nat, key: u64)
    requires n <= |log|
    ensures RowsUpTo(log, n, key) == RowsUpTo(log, Newest(slot, log, n, slot(key)), key)
  {
    if n > 0 && slot(log[n - 1].0) != slot(key) {
      assert log[n - 1].0 != key;
      SkipToNewest(slot, log, n - 1, key);
    }
  }

  lemma {:induction false} AbsentHasNoRows(log: Log, n: nat, key: u64)
    requires n <= |log| && forall i | 0 <= i < n :: log[i].0 != key
    ensures RowsUpTo(log, n, key) == []
  {
    if n > 0 {
      AbsentHasNoRows(log, n - 1, key);
    }
  }

  /** Later insertions do not change what earlier ones look like. */
  lemma {:induction false} NewestStable(slot: u64 -> nat, log: Log, x: (u64, u32), n: nat, s: nat)
    requires n <= |log|
    ensures Newest(slot, log + [x], n, s) == Newest(slot, log, n, s)
  {
    if n > 0 {
      NewestStable(slot, log, x, n - 1, s);
    }
  }

  // ---------------------------------------------------------------- the table

  /** Entry `i + 1` holds insertion `i`, linked to the one before it in the same slot. */
  ghost predicate Linked(slot: u64 -> nat, entries: seq<Entry>, log: Log) {
    && |log| < |entries|
    && forall i {:trigger LinkedAt(slot, entries, log, i)} | 0 <= i < |log| :: LinkedAt(slot, entries, log, i)
  }

  ghost predicate LinkedAt(slot: u64 -> nat, entries: seq<Entry>, log: Log, i: nat)
    requires i < |log| < |entries|
  {
    entries[i + 1] == Entry(log[i].0, log[i].1, Newest(slot, log, i, slot(log[i].0)))
  }

  /** Each slot heads the chain of its insertions and its tag admits all of them. */
  ghost predicate Headed(addr: Addressing, directory: seq<nat>, log: Log) {
    && (forall k: u64 :: addr.slot(k) < |directory|)
    && (forall k: u64 :: 0 < addr.tag(k) < 0x1_0000)
    && (forall s {:trigger HeadAt(addr.slot, directory, log, s)} | 0 <= s < |directory| ::
        HeadAt(addr.slot, directory, log, s))
    && (forall i {:trigger AdmittedAt(addr, directory, log, i)} | 0 <= i < |log| :: AdmittedAt(addr, directory, log, i))
  }

  ghost predicate HeadAt(slot: u64 -> nat, directory: seq<nat>, log: Log, s: nat)
    requires s < |directory|
  {
    IdxOf(directory[s]) == Newest(slot, log, |log|, s)
  }

  ghost predicate AdmittedAt(addr: Addressing, directory: seq<nat>, log: Log, i: nat)
    requires i < |log| && addr.slot(log[i].0) < |directory|
  {
    CouldContain(directory[addr.slot(log[i].0)], addr.tag(log[i].0))
  }

  /** The tags of the first `n` insertions that fell in slot `s`, OR-ed together. */
  function SlotTag(addr: Addressing, log: Log, n: nat, s: nat): nat
    requires n <= |log|
  {
    if n == 0 then 0
    else if addr.slot(log[n - 1].0) == s then Or(SlotTag(addr, log, n - 1, s), addr.tag(log[n - 1].0))
    else SlotTag(addr, log, n - 1, s)
  }

  /** Each slot carries exactly the tags of its insertions. */
  ghost predicate Tagged(addr: Addressing, directory: seq<nat>, log: Log) {
    forall s | 0 <= s < |directory| :: TagOf(directory[s]) == SlotTag(addr, log, |log|, s)
  }

  /** Some of the first `n` insertions fell in slot `s` and has tag bit `j`. */
  ghost predicate BitInserted(addr: Addressing, log: Log, n: nat, s: nat, j: nat)
    requires n <= |log|
  {
    exists i | 0 <= i < n :: addr.slot(log[i].0) == s && Bit(addr.tag(log[i].0), j)
  }

  lemma {:induction false} SlotTagBits(addr: Addressing, log: Log, n: nat, s: nat, j: nat)
    requires n <= |log|
    ensures Bit(SlotTag(addr, log, n, s), j) <==> BitInserted(addr, log, n, s, j)
  {
    if n == 0 {
      BitOfZero(j);
    } else {
      SlotTagBits(addr, log, n - 1, s, j);
      BitOr(SlotTag(addr, log, n - 1, s), addr.tag(log[n - 1].0), j);
    }
  }

  /** A slot's tag is empty exactly when nothing fell in it. */
  lemma {:induction false} SlotTagEmpty(addr: Addressing, log: Log, n: nat, s: nat)
    requires n <= |log| && forall k: u64 :: addr.tag(k) > 0
    ensures SlotTag(addr, log, n, s) == 0 <==> forall i | 0 <= i < n :: addr.slot(log[i].0) != s
  {
    if n > 0 {
      SlotTagEmpty(addr, log, n - 1, s);
      OrPositive(SlotTag(addr, log, n - 1, s), addr.tag(log[n - 1].0));
    }
  }

  lemma {:induction false} SlotTagStable(addr: Addressing, log: Log, e: (u64, u32), n: nat, s: nat)
    requires n <= |log|
    ensures SlotTag(addr, log + [e], n, s) == SlotTag(addr, log, n, s)
  {
    if n > 0 {
      SlotTagStable(addr, log, e, n - 1, s);
    }
  }

  lemma RelinkTagged(addr: Addressing, directory: seq<nat>, log: Log, key: u64, row: u32)
    requires Headed(addr, directory, log) && Tagged(addr, directory, log) && |log| + 1 < U32_RANGE
    ensures var s := addr.slot(key);
            Tagged(addr, directory[s := Relinked(directory[s], addr.tag(key), |log| + 1)], log + [(key, row)])
  {
    var s, word := addr.slot(key), directory[addr.slot(key)];
    TagBound(TagOf(word), addr.tag(key));
    PackTrip(Or(TagOf(word), addr.tag(key)), |log| + 1);
    forall z | 0 <= z < |directory|
      ensures SlotTag(addr, log + [(key, row)], |log|, z) == SlotTag(addr, log, |log|, z)
    {
      SlotTagStable(addr, log, (key, row), |log|, z);
    }
  }

  /**
   * The tag test lets a probe through if and only if something fell in its slot and every bit of its tag came
   * with some insertion there.
   */
  lemma TagTestExact(addr: Addressing, directory: seq<nat>, log: Log, key: u64)
    requires Headed(addr, directory, log) && Tagged(addr, directory, log)
    ensures CouldContain(directory[addr.slot(key)], addr.tag(key))
            <==> && (exists i | 0 <= i < |log| :: addr.slot(log[i].0) == addr.slot(key))
                 && forall j: nat | Bit(addr.tag(key), j) :: BitInserted(addr, log, |log|, addr.slot(key), j)
  {
    var s := addr.slot(key);
    var tag := SlotTag(addr, log, |log|, s);
    SlotTagEmpty(addr, log, |log|, s);
    CoversBits(tag, addr.tag(key));
    forall j: nat ensures Bit(tag, j) <==> BitInserted(addr, log, |log|, s, j) {
      SlotTagBits(addr, log, |log|, s, j);
    }
  }

  function EmptyDirectory(bits: nat): seq<nat> { seq(Pow2(bits), _ => 0) }

  lemma EmptyHeaded(hash: KeyHash, bits: nat)
    requires bits <= 64
    ensures Headed(HashAddressing(hash, bits), EmptyDirectory(bits), [])
  {
    var addr, directory := HashAddressing(hash, bits), EmptyDirectory(bits);
    forall s | 0 <= s < |directory| ensures HeadAt(addr.slot, directory, [], s) {
    }
    forall k: u64 ensures addr.slot(k) < |directory| {
      assert addr.slot(k) == SlotOf(hash(k), bits);
    }
    forall k: u64 ensures 0 < addr.tag(k) < 0x1_0000 {
      assert addr.tag(k) == BloomTag(hash(k));
    }
  }

  lemma RelinkHeaded(addr: Addressing, directory: seq<nat>, log: Log, key: u64, row: u32)
    requires Headed(addr, directory, log) && |log| + 1 < U32_RANGE
    ensures var s := addr.slot(key);
            Headed(addr, directory[s := Relinked(directory[s], addr.tag(key), |log| + 1)], log + [(key, row)])
  {
    var s, word := addr.slot(key), directory[addr.slot(key)];
    var log', idx := log + [(key, row)], |log| + 1;
    var directory' := directory[s := Relinked(word, addr.tag(key), idx)];
    forall z | 0 <= z < |directory| ensures HeadAt(addr.slot, directory', log', z) {
      NewestStable(addr.slot, log, (key, row), |log|, z);
      RelinkedKeeps(word, addr.tag(key), idx, 0);
      assert HeadAt(addr.slot, directory, log, z);
    }
    forall i | 0 <= i < |log'| ensures AdmittedAt(addr, directory', log', i) {
      RelinkedKeeps(word, addr.tag(key), idx, addr.tag(log'[i].0));
      assert i < |log| ==> AdmittedAt(addr, directory, log, i);
    }
  }

  lemma RelinkLinked(slot: u64 -> nat, entries: seq<Entry>, log: Log, e: Entry)
    requires Linked(slot, entries, log) && |log| + 1 < |entries| && e.next == Newest(slot, log, |log|, slot(e.key))
    ensures Linked(slot, entries[|log| + 1 := e], log + [(e.key, e.row)])
  {
    var log', entries' := log + [(e.key, e.row)], entries[|log| + 1 := e];
    forall i | 0 <= i < |log'| ensures LinkedAt(slot, entries', log', i) {
      NewestStable(slot, log, (e.key, e.row), i, slot(log'[i].0));
      assert i < |log| ==> LinkedAt(slot, entries, log, i);
    }
  }

  lemma Spare(slot: u64 -> nat, entries: seq<Entry>, log: Log, e: Entry)
    requires Linked(slot, entries, log)
    ensures Linked(slot, entries + [e], log)
  {
    var entries' := entries + [e];
    forall i | 0 <= i < |log| ensures LinkedAt(slot, entries', log, i) {
      assert LinkedAt(slot, entries, log, i);
    }
  }

  /** The tag test never hides a key that was inserted. */
  lemma TagsNeverHide(addr: Addressing, directory: seq<nat>, log: Log, key: u64)
    requires Headed(addr, directory, log) && !CouldContain(directory[addr.slot(key)], addr.tag(key))
    ensures RowsOf(log, key) == []
  {
    forall i | 0 <= i < |log| ensures log[i].0 != key {
      assert AdmittedAt(addr, directory, log, i);
    }
    AbsentHasNoRows(log, |log|, key);
  }

  /** One link of a chain: the rows at or below it are its own, then those its `next` leads to. */
  lemma ChainLink(slot: u64 -> nat, entries: seq<Entry>, log: Log, key: u64, i: nat)
    requires Linked(slot, entries, log) && 1 <= i <= |log| && slot(log[i - 1].0) == slot(key)
    ensures entries[i].next < i
    ensures entries[i].next > 0 ==> slot(log[entries[i].next - 1].0) == slot(key)
    ensures var rest := RowsUpTo(log, entries[i].next, key);
            RowsUpTo(log, i, key) == if entries[i].key == key then [entries[i].row] + rest else rest
  {
    assert LinkedAt(slot, entries, log, i - 1);
    SkipToNewest(slot, log, i - 1, key);
  }

  class JoinTable {
    const addr: Addressing
    var directory: seq<nat>
    var entries: seq<Entry>
    var len: nat
    /** The insertions so far; entry 0 is the reserved null entry. */
    ghost var log: Log

    ghost predicate Valid()
      reads this
    {
      && len == |log| + 1 && len <= U32_RANGE
      && Headed(addr, directory, log) && Tagged(addr, directory, log)
      && Linked(addr.slot, entries, log)
    }

    constructor (hash: KeyHash, expected: nat, bits: nat)
      requires bits == LogSize(expected) && bits <= 64
      ensures addr == HashAddressing(hash, bits) && |directory| == Pow2(bits)
      ensures Valid() && log == []
    {
      EmptyHeaded(hash, bits);
      addr := HashAddressing(hash, bits);
      directory := EmptyDirectory(bits);
      entries := seq(expected + 1, _ => Entry(0, 0, 0));
      len := 1;
      log := [];
    }

    method Insert(key: u64, row: u32)
      requires Valid() && len < U32_RANGE
      modifies this
      ensures Valid() && log == old(log) + [(key, row)]
    {
      var slot := addr.slot(key);
      var tag := addr.tag(key);
      var entryIdx := len;
      if entryIdx >= |entries| {
        Spare(addr.slot, entries, log, Entry(0, 0, 0));
        entries := entries + [Entry(0, 0, 0)];
      }
      len := len + 1;
      var oldHead := directory[slot];
      var e := Entry(key, row, IdxOf(oldHead));
      assert HeadAt(addr.slot, directory, log, slot);
      RelinkLinked(addr.slot, entries, log, e);
      entries := entries[entryIdx := e];
      RelinkHeaded(addr, directory, log, key, row);
      RelinkTagged(addr, directory, log, key, row);
      directory := directory[slot := Relinked(oldHead, tag, entryIdx)];
      log := log + [(key, row)];
    }

    /** The chain walk; it terminates because `next` always points to an older entry. */
    method Collect(key: u64, head: nat) returns (out: seq<u32>)
      requires Linked(addr.slot, entries, log) && head <= |log|
      requires head > 0 ==> addr.slot(log[head - 1].0) == addr.slot(key)
      ensures out == RowsUpTo(log, head, key)
    {
      out := [];
      var idx: nat := head;
      ghost var all := RowsUpTo(log, head, key);
      while idx != 0
        invariant idx <= |log| && (idx > 0 ==> addr.slot(log[idx - 1].0) == addr.slot(key))
        invariant all == out + RowsUpTo(log, idx, key)
        decreases idx
      {
        ChainLink(addr.slot, entries, log, key, idx);
        var e := entries[idx];
        ghost var rest := RowsUpTo(log, e.next, key);
        if e.key == key {
          assert out + ([e.row] + rest) == out + [e.row] + rest;
          out := out + [e.row];
        }
        idx := e.next;
      }
    }

    method ProbeAll(key: u64) returns (out: seq<u32>)
      requires Valid()
      ensures out == RowsOf(log, key)
    {
      var word := directory[addr.slot(key)];
      if !CouldContain(word, addr.tag(key)) {
        TagsNeverHide(addr, directory, log, key);
        return [];
      }
      assert HeadAt(addr.slot, directory, log, addr.slot(key));
      SkipToNewest(addr.slot, log, |log|, key);
      out := Collect(key, IdxOf(word));
    }

    method Probe(key: u64) returns (r: Option<u32>)
      requires Valid()
      ensures r == if RowsOf(log, key) == [] then None else Some(RowsOf(log, key)[0])
    {
      var word := directory[addr.slot(key)];
      if !CouldContain(word, addr.tag(key)) {
        TagsNeverHide(addr, directory, log, key);
        return None;
      }
      var idx: nat := IdxOf(word);
      assert HeadAt(addr.slot, directory, log, addr.slot(key));
      SkipToNewest(addr.slot, log, |log|, key);
      while idx != 0
        invariant idx <= |log| && (idx > 0 ==> addr.slot(log[idx - 1].0) == addr.slot(key))
        invariant RowsOf(log, key) == RowsUpTo(log, idx, key)
        decreases idx
      {
        ChainLink(addr.slot, entries, log, key, idx);
        var e := entries[idx];
        if e.key == key {
          return Some(e.row);
        }
        idx := e.next;
      }
      return None;
    }
  }

  /** The exponent of `(expected * 2).next_power_of_two().max(16)`. */
  function LogSize(expected: nat): (bits: nat)
    ensures bits >= 4 && Pow2(bits) >= 2 * expected
    ensures bits > 4 ==> Pow2(bits - 1) < 2 * expected
  {
    LogSizeFrom(expected, 4)
  }

  function LogSizeFrom(expected: nat, bits: nat): (r: nat)
    requires bits > 4 ==> Pow2(bits - 1) < 2 * expected
    ensures r >= bits && Pow2(r) >= 2 * expected
    ensures r > 4 ==> bits > 4 || r > bits ==> Pow2(r - 1) < 2 * expected
    decreases 2 * expected - Pow2(bits)
  {
    if Pow2(bits) >= 2 * expected then bits else LogSizeFrom(expected, bits + 1)
  }
}
