/**
 * The 64-bit directory word of `src/exec/join_hash_table.rs`: a 16-bit tag over the index of an entry, and
 * the slot a hash selects.
 */
module PackedWord {
  import opened Bits
  import opened Machine

  const TAG_UNIT: int := 0x1_0000_0000_0000

  /** `(tag << 48) | idx`, for an index below 2^48. */
  function Pack(tag: nat, idx: nat): nat { tag * TAG_UNIT + idx }

  /** `(word >> 48) as u16`. */
  function TagOf(word: nat): nat { (word / TAG_UNIT) % 0x1_0000 }

  /** `word & 0xFFFF_FFFF`. */
  function IdxOf(word: nat): nat { word % U32_RANGE }

  lemma PackTrip(tag: nat, idx: nat)
    requires tag < 0x1_0000 && idx < U32_RANGE
    ensures TagOf(Pack(tag, idx)) == tag && IdxOf(Pack(tag, idx)) == idx
  {
    Quotient(Pack(tag, idx), TAG_UNIT, tag, idx);
    Quotient(Pack(tag, idx), U32_RANGE, tag * 0x1_0000, idx);
  }

  /** `((hash >> 16) as u16) | 1`: never zero. */
  function BloomTag(h: u64): (tag: nat)
    ensures 0 < tag < 0x1_0000
  {
    var x := (h / 0x1_0000) % 0x1_0000;
    TagBound(x, 1);
    Or(x, 1)
  }

  lemma TagBound(x: nat, y: nat)
    requires x < 0x1_0000 && y < 0x1_0000
    ensures Or(x, y) < 0x1_0000
  {
    assert Pow2(8) == 0x100;
    Pow2Split(8, 8);
    OrBound(x, y, 16);
  }

  /** The combined emptiness and tag test on a directory word. */
  predicate CouldContain(word: nat, expected: nat) {
    TagOf(word) != 0 && Covers(TagOf(word), expected)
  }

  /** The word `insert` stores: the new entry, and the new tag OR-ed into the old one. */
  function Relinked(word: nat, tag: nat, idx: nat): nat {
    Pack(Or(TagOf(word), tag), idx)
  }

  lemma RelinkedKeeps(word: nat, tag: nat, idx: nat, t: nat)
    requires idx < U32_RANGE && 0 < tag < 0x1_0000
    ensures IdxOf(Relinked(word, tag, idx)) == idx
    ensures CouldContain(Relinked(word, tag, idx), tag)
    ensures CouldContain(word, t) ==> CouldContain(Relinked(word, tag, idx), t)
  {
    TagBound(TagOf(word), tag);
    PackTrip(Or(TagOf(word), tag), idx);
    CoversGrows(TagOf(word), tag, tag);
    CoversGrows(TagOf(word), tag, t);
  }

  // ---------------------------------------------------------------- slots

  lemma {:induction false} Pow2Split(j: nat, k: nat)
    ensures Pow2(j + k) == Pow2(j) * Pow2(k)
  {
    if j > 0 {
      Pow2Split(j - 1, k);
      assert Pow2(j) * Pow2(k) == 2 * (Pow2(j - 1) * Pow2(k));
    }
  }

  lemma Pow2Of64()
    ensures Pow2(64) == U64_RANGE
  {
    assert Pow2(8) == 0x100;
    Pow2Split(8, 8);
    Pow2Split(16, 16);
    Pow2Split(32, 32);
  }

  /** `hash >> shift` with `shift = 64 - bits`: always a slot of a directory with `2^bits` slots. */
  function SlotOf(h: u64, bits: nat): (slot: nat)
    requires bits <= 64
    ensures slot < Pow2(bits)
  {
    Pow2Of64();
    ShiftBound(h, 64 - bits, bits);
    ShiftRight(h, 64 - bits)
  }

  lemma {:induction false} ShiftIsDivision(n: nat, j: nat)
    ensures ShiftRight(n, j) == n / Pow2(j)
    decreases j
  {
    if j > 0 {
      ShiftIsDivision(n / 2, j - 1);
      var p := Pow2(j - 1);
      var q, r := n / 2 / p, n / 2 % p;
      assert n / 2 == q * p + r;
      assert n == q * (2 * p) + (2 * r + n % 2);
      Quotient(n, 2 * p, q, 2 * r + n % 2);
    }
  }

  /** The slot is the top `bits` bits of the hash. */
  lemma SlotIsTop(h: u64, bits: nat)
    requires bits <= 64
    ensures SlotOf(h, bits) == h / Pow2(64 - bits)
  {
    ShiftIsDivision(h, 64 - bits);
  }

  lemma {:induction false} BitOfShift(n: nat, j: nat, k: nat)
    ensures Bit(ShiftRight(n, j), k) <==> Bit(n, j + k)
    decreases j
  {
    if j > 0 {
      BitOfShift(n / 2, j - 1, k);
    }
  }

  lemma {:induction false} BitOfRemainder(n: nat, k: nat, j: nat)
    ensures Bit(n % Pow2(k), j) <==> j < k && Bit(n, j)
    decreases k
  {
    if k == 0 {
      assert n % 1 == 0;
      BitOfZero(j);
    } else {
      ModDouble(n, Pow2(k - 1));
      var m := n % Pow2(k);
      assert m % 2 == n % 2 && m / 2 == n / 2 % Pow2(k - 1);
      if j > 0 {
        BitOfRemainder(n / 2, k - 1, j - 1);
      }
    }
  }

  /** The tag is bits 16 to 31 of the hash with the lowest one set. */
  lemma TagBits(h: u64, j: nat)
    ensures Bit(BloomTag(h), j) <==> j == 0 || (j < 16 && Bit(h, 16 + j))
  {
    assert Pow2(8) == 0x100 && Pow2(0) == 1;
    Pow2Split(8, 8);
    ShiftIsDivision(h, 16);
    BitOfShift(h, 16, j);
    BitOfRemainder(h / 0x1_0000, 16, j);
    BitOr(h / 0x1_0000 % 0x1_0000, 1, j);
    BitOfPow2(0, j);
  }

  lemma Pow2Of48()
    ensures Pow2(48) == 0x1_0000_0000_0000 && Pow2(32) == U32_RANGE
  {
    assert Pow2(8) == 0x100;
    Pow2Split(8, 8);
    Pow2Split(16, 16);
    Pow2Split(16, 32);
  }

  /** The tag is the top 16 of the 64 bits and the index is the word under the 32-bit mask. */
  lemma WordLayout(word: u64)
    ensures TagOf(word) == ShiftRight(word, 48) && IdxOf(word) == And(word, 0xFFFF_FFFF)
  {
    Pow2Of48();
    ShiftIsDivision(word, 48);
    MaskIsMod(word, 32);
  }
}
