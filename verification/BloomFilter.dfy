/** The Bloom filter of `src/exec/bloom_filter.rs`, scalar and batched, for arbitrary hash functions. */
module Bloom {
  import opened Bits
  import opened Machine
  import opened JoinHash

  /** The pair of 64-bit hashes of a key. */
  datatype Hashes = Hashes(first: u64 -> u64, step: u64 -> u64)

  /** The word and the bit within it that a bit index selects; the word count is a power of two. */
  function WordOf(bit: u64, n: nat): (w: nat)
    requires n > 0
    ensures w < n
  {
    (bit / 64) % n
  }

  /** The shift by six and the mask of the word count. */
  lemma WordIsMasked(bit: u64, n: nat)
    requires PowerOfTwo(n)
    ensures WordOf(bit, n) == And(ShiftRight(bit, 6), n - 1)
  {
    var k: nat :| n == Pow2(k);
    assert ShiftRight(bit, 6) == bit / 2 / 2 / 2 / 2 / 2 / 2 == bit / 64;
    MaskIsMod(bit / 64, k);
  }

  function InWord(bit: u64): nat { bit % 64 }

  predicate Test(words: seq<nat>, bit: u64)
    requires |words| > 0
  {
    Bit(words[WordOf(bit, |words|)], InWord(bit))
  }

  function Set(words: seq<nat>, bit: u64): (words': seq<nat>)
    requires |words| > 0
    ensures |words'| == |words|
  {
    var w := WordOf(bit, |words|);
    words[w := Or(words[w], Pow2(InWord(bit)))]
  }

  /** Setting a bit makes it test true and never clears another. */
  lemma SetTest(words: seq<nat>, x: u64, y: u64)
    requires |words| > 0
    ensures Test(Set(words, x), x)
    ensures Test(words, y) ==> Test(Set(words, x), y)
  {
    var w := words[WordOf(x, |words|)];
    BitOr(w, Pow2(InWord(x)), InWord(y));
    BitOr(w, Pow2(InWord(x)), InWord(x));
    BitOfPow2(InWord(x), InWord(x));
  }

  /** Setting a bit that is already set changes nothing. */
  lemma SetAgain(words: seq<nat>, x: u64)
    requires |words| > 0 && Test(words, x)
    ensures Set(words, x) == words
  {
    var w, b := words[WordOf(x, |words|)], InWord(x);
    forall j: nat ensures Bit(Or(w, Pow2(b)), j) <==> Bit(w, j) {
      BitOr(w, Pow2(b), j);
      BitOfPow2(b, j);
    }
    SameBits(Or(w, Pow2(b)), w);
  }

  function Advance(bit: u64, step: u64): u64 { (bit + step) % U64_RANGE }

  /** The `k` positions of a key, starting at `bit`. */
  function SetFrom(words: seq<nat>, bit: u64, step: u64, k: nat): (words': seq<nat>)
    requires |words| > 0
    ensures |words'| == |words|
    decreases k
  {
    if k == 0 then words else SetFrom(Set(words, bit), Advance(bit, step), step, k - 1)
  }

  predicate TestFrom(words: seq<nat>, bit: u64, step: u64, k: nat)
    requires |words| > 0
    decreases k
  {
    k == 0 || (Test(words, bit) && TestFrom(words, Advance(bit, step), step, k - 1))
  }

  ghost predicate Grows(words: seq<nat>, words': seq<nat>)
    requires |words| == |words'| > 0
  {
    forall bit: u64 :: Test(words, bit) ==> Test(words', bit)
  }

  lemma {:induction false} SetFromGrows(words: seq<nat>, bit: u64, step: u64, k: nat)
    requires |words| > 0
    ensures Grows(words, SetFrom(words, bit, step, k))
    decreases k
  {
    if k > 0 {
      forall y: u64 ensures Test(words, y) ==> Test(Set(words, bit), y) {
        SetTest(words, bit, y);
      }
      SetFromGrows(Set(words, bit), Advance(bit, step), step, k - 1);
    }
  }

  lemma {:induction false} SetFromTests(words: seq<nat>, bit: u64, step: u64, k: nat)
    requires |words| > 0
    ensures TestFrom(SetFrom(words, bit, step, k), bit, step, k)
    decreases k
  {
    if k > 0 {
      SetTest(words, bit, bit);
      SetFromGrows(Set(words, bit), Advance(bit, step), step, k - 1);
      SetFromTests(Set(words, bit), Advance(bit, step), step, k - 1);
    }
  }

  lemma {:induction false} TestFromGrows(words: seq<nat>, words': seq<nat>, bit: u64, step: u64, k: nat)
    requires |words| == |words'| > 0 && Grows(words, words') && TestFrom(words, bit, step, k)
    ensures TestFrom(words', bit, step, k)
    decreases k
  {
    if k > 0 {
      TestFromGrows(words, words', Advance(bit, step), step, k - 1);
    }
  }

  lemma {:induction false} SetFromAgain(words: seq<nat>, bit: u64, step: u64, k: nat)
    requires |words| > 0 && TestFrom(words, bit, step, k)
    ensures SetFrom(words, bit, step, k) == words
    decreases k
  {
    if k > 0 {
      SetAgain(words, bit);
      SetFromAgain(words, Advance(bit, step), step, k - 1);
    }
  }

  // ---------------------------------------------------------------- keys

  function WithKey(hs: Hashes, k: nat, words: seq<nat>, key: u64): (words': seq<nat>)
    requires |words| > 0
    ensures |words'| == |words|
  {
    SetFrom(words, hs.first(key), hs.step(key), k)
  }

  predicate MayHold(hs: Hashes, k: nat, words: seq<nat>, key: u64)
    requires |words| > 0
  {
    TestFrom(words, hs.first(key), hs.step(key), k)
  }

  function WithKeys(hs: Hashes, k: nat, words: seq<nat>, keys: seq<u64>): (words': seq<nat>)
    requires |words| > 0
    ensures |words'| == |words|
    decreases |keys|
  {
    if keys == [] then words
    else WithKey(hs, k, WithKeys(hs, k, words, keys[..|keys| - 1]), keys[|keys| - 1])
  }

  /** No run of insertions, from any filter, gives a false negative. */
  lemma {:induction false} NoFalseNegatives(hs: Hashes, k: nat, words: seq<nat>, keys: seq<u64>, i: nat)
    requires |words| > 0 && i < |keys|
    ensures MayHold(hs, k, WithKeys(hs, k, words, keys), keys[i])
    decreases |keys|
  {
    var n := |keys| - 1;
    var before := WithKeys(hs, k, words, keys[..n]);
    if i == n {
      SetFromTests(before, hs.first(keys[n]), hs.step(keys[n]), k);
    } else {
      NoFalseNegatives(hs, k, words, keys[..n], i);
      SetFromGrows(before, hs.first(keys[n]), hs.step(keys[n]), k);
      TestFromGrows(before, WithKeys(hs, k, words, keys), hs.first(keys[i]), hs.step(keys[i]), k);
    }
  }

  /** A key that was inserted before can be skipped. */
  lemma RepeatedKey(hs: Hashes, k: nat, words: seq<nat>, keys: seq<u64>, key: u64)
    requires |words| > 0 && key in keys
    ensures WithKeys(hs, k, words, keys + [key]) == WithKeys(hs, k, words, keys)
  {
    var i :| 0 <= i < |keys| && keys[i] == key;
    NoFalseNegatives(hs, k, words, keys, i);
    assert (keys + [key])[..|keys|] == keys;
    SetFromAgain(WithKeys(hs, k, words, keys), hs.first(key), hs.step(key), k);
  }

  /** An empty filter claims nothing. */
  lemma EmptyHoldsNothing(hs: Hashes, k: nat, n: nat, key: u64)
    requires n > 0 && k > 0
    ensures !MayHold(hs, k, seq(n, _ => 0), key)
  {
    BitOfZero(InWord(hs.first(key)));
  }

  /** Lane `p` repeats an earlier lane of its block of eight. */
  predicate Repeats(keys: seq<u64>, p: nat)
    requires p < |keys|
  {
    exists q | p - p % 8 <= q < p :: keys[q] == keys[p]
  }

  function Distinct(keys: seq<u64>, p: nat): nat
    requires p <= |keys|
  {
    if p == 0 then 0 else Distinct(keys, p - 1) + if Repeats(keys, p - 1) then 0 else 1
  }

  lemma LaneOf(i: nat, j: nat)
    requires i % 8 == 0 && j < 8
    ensures i + j - (i + j) % 8 == i
  {
  }

  lemma NextBlock(n: nat, i: nat)
    requires n % 8 == 0 && i % 8 == 0 && i < n
    ensures i + 8 <= n && (i + 8) % 8 == 0
  {
  }

  class Filter {
    const hs: Hashes
    const numHashes: nat
    var bits: seq<nat>
    var numItems: nat

    constructor (hs: Hashes, expectedItems: nat, numHashes: nat)
      ensures this.hs == hs && this.numHashes == numHashes && numItems == 0
      ensures PowerOfTwo(|bits|) && 64 * |bits| >= 10 * expectedItems && bits == seq(|bits|, _ => 0)
      ensures |bits| > 1 ==> 32 * |bits| < 10 * expectedItems + 64
    {
      var minWords := (expectedItems * 10 + 63) / 64;
      var nwords := 1;
      assert nwords == Pow2(0);
      while nwords < minWords
        invariant nwords > 0 && PowerOfTwo(nwords) && (nwords > 1 ==> nwords < 2 * minWords)
      {
        PowerDoubles(nwords);
        nwords := nwords * 2;
      }
      this.hs := hs;
      this.numHashes := numHashes;
      bits := seq(nwords, _ => 0);
      numItems := 0;
    }

    method Insert(key: u64)
      requires |bits| > 0
      modifies this
      ensures bits == WithKey(hs, numHashes, old(bits), key) && numItems == old(numItems) + 1
    {
      var h1, h2 := hs.first(key), hs.step(key);
      var bit := h1;
      for i := 0 to numHashes
        invariant |bits| > 0 && numItems == old(numItems)
        invariant SetFrom(bits, bit, h2, numHashes - i) == WithKey(hs, numHashes, old(bits), key)
      {
        bits := Set(bits, bit);
        bit := Advance(bit, h2);
      }
      numItems := numItems + 1;
    }

    /** One lane: skipped if an earlier lane of its block, which starts at `i`, holds the same key. */
    method InsertLane(keys: seq<u64>, i: nat, p: nat, ghost start: seq<nat>)
      requires i <= p < |keys| && i == p - p % 8
      requires |start| > 0 && bits == WithKeys(hs, numHashes, start, keys[..p])
      modifies this
      ensures bits == WithKeys(hs, numHashes, start, keys[..p + 1])
      ensures numItems == old(numItems) + if Repeats(keys, p) then 0 else 1
    {
      assert keys[..p + 1] == keys[..p] + [keys[p]];
      if exists q | i <= q < p :: keys[q] == keys[p] {
        assert keys[p] in keys[..p];
        RepeatedKey(hs, numHashes, start, keys[..p], keys[p]);
        return;
      }
      assert keys[..p + 1][..p] == keys[..p];
      Insert(keys[p]);
    }

    method InsertBlock(keys: seq<u64>, i: nat, ghost start: seq<nat>)
      requires i + 8 <= |keys| && i % 8 == 0
      requires |start| > 0 && bits == WithKeys(hs, numHashes, start, keys[..i])
      modifies this
      ensures bits == WithKeys(hs, numHashes, start, keys[..i + 8])
      ensures numItems == old(numItems) + Distinct(keys, i + 8) - Distinct(keys, i)
    {
      for j := 0 to 8
        invariant bits == WithKeys(hs, numHashes, start, keys[..i + j])
        invariant numItems == old(numItems) + Distinct(keys, i + j) - Distinct(keys, i)
      {
        LaneOf(i, j);
        InsertLane(keys, i, i + j, start);
      }
    }

    /** Batches of eight lanes: the same bits as inserting the keys one by one. */
    method InsertBatch(keys: seq<u64>)
      requires |bits| > 0 && |keys| % 8 == 0
      modifies this
      ensures bits == WithKeys(hs, numHashes, old(bits), keys)
      ensures numItems == old(numItems) + Distinct(keys, |keys|)
    {
      var i := 0;
      while i < |keys|
        invariant 0 <= i <= |keys| && i % 8 == 0
        invariant bits == WithKeys(hs, numHashes, old(bits), keys[..i])
        invariant numItems == old(numItems) + Distinct(keys, i)
      {
        NextBlock(|keys|, i);
        InsertBlock(keys, i, old(bits));
        i := i + 8;
      }
      assert keys[..|keys|] == keys;
    }

    method MightContain(key: u64) returns (r: bool)
      requires |bits| > 0
      ensures r == MayHold(hs, numHashes, bits, key)
    {
      var h1, h2 := hs.first(key), hs.step(key);
      var bit := h1;
      for i := 0 to numHashes
        invariant TestFrom(bits, bit, h2, numHashes - i) == MayHold(hs, numHashes, bits, key)
      {
        if !Test(bits, bit) {
          return false;
        }
        bit := Advance(bit, h2);
      }
      return true;
    }

    /** Eight lanes at once: every round clears the lanes whose bit is unset. */
    method MightContainBatch(keys: seq<u64>) returns (mask: seq<bool>)
      requires |bits| > 0 && |keys| == 8
      ensures |mask| == 8
      ensures forall i | 0 <= i < 8 :: mask[i] == MayHold(hs, numHashes, bits, keys[i])
    {
      var h2s := seq<u64>(8, i requires 0 <= i < 8 => hs.step(keys[i]));
      var bit := seq<u64>(8, i requires 0 <= i < 8 => hs.first(keys[i]));
      var words := bits;
      mask := seq(8, _ => true);
      for round := 0 to numHashes
        invariant |mask| == |bit| == 8
        invariant forall i | 0 <= i < 8 ::
          (mask[i] && TestFrom(bits, bit[i], h2s[i], numHashes - round)) == MayHold(hs, numHashes, bits, keys[i])
      {
        var notSet := seq(8, i requires 0 <= i < 8 => !Test(words, bit[i]));
        mask := seq(8, i requires 0 <= i < 8 => mask[i] && !notSet[i]);
        bit := seq<u64>(8, i requires 0 <= i < 8 => Advance(bit[i], h2s[i]));
      }
    }
  }

  function KeysIn(log: Log): seq<u64> { seq(|log|, i requires 0 <= i < |log| => log[i].0) }

  /**
   * Probing a join table through a filter over its build keys: skipping the table on a negative answer
   * never changes what a probe key is joined with.
   */
  method FilteredProbe(
    table: JoinTable, filter: Filter, ghost start: seq<nat>, probes: seq<u64>) returns (out: seq<seq<u32>>)
    requires table.Valid() && |start| > 0
    requires filter.bits == WithKeys(filter.hs, filter.numHashes, start, KeysIn(table.log))
    ensures |out| == |probes|
    ensures forall i | 0 <= i < |probes| :: out[i] == RowsOf(table.log, probes[i])
  {
    out := [];
    for i := 0 to |probes|
      invariant |out| == i
      invariant forall j | 0 <= j < i :: out[j] == RowsOf(table.log, probes[j])
    {
      var maybe := filter.MightContain(probes[i]);
      if maybe {
        var rows := table.ProbeAll(probes[i]);
        out := out + [rows];
      } else {
        forall j | 0 <= j < |table.log| ensures table.log[j].0 != probes[i] {
          NoFalseNegatives(filter.hs, filter.numHashes, start, KeysIn(table.log), j);
        }
        AbsentHasNoRows(table.log, |table.log|, probes[i]);
        out := out + [[]];
      }
    }
  }
}
