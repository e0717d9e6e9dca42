/** Which bits the Bloom filter of `src/exec/bloom_filter.rs` sets, and exactly which keys it claims. */
module BloomExact {
  import opened Bits
  import opened Bloom
  import opened Machine

  /** The position of probe `i` of a key: `h1 + i * h2`, wrapping. */
  function Position(first: u64, step: u64, i: nat): u64 { (first + i * step) % U64_RANGE }

  /** Two positions are the same bit of a filter of `n` words. */
  predicate SameBit(n: nat, x: u64, y: u64)
    requires n > 0
  {
    x % (64 * n) == y % (64 * n)
  }

  lemma CellOfBit(x: u64, n: nat)
    requires n > 0
    ensures x % (64 * n) == 64 * WordOf(x, n) + InWord(x) && InWord(x) < 64
  {
    var w := x / 64;
    var q := w / n;
    assert w == q * n + w % n;
    assert x == 64 * w + x % 64;
    assert q * (64 * n) == 64 * (q * n);
    Quotient(x, 64 * n, q, 64 * (w % n) + x % 64);
  }

  lemma SameBitIsCell(n: nat, x: u64, y: u64)
    requires n > 0
    ensures SameBit(n, x, y) <==> WordOf(x, n) == WordOf(y, n) && InWord(x) == InWord(y)
  {
    CellOfBit(x, n);
    CellOfBit(y, n);
  }

  /** Setting a bit changes the answer for that bit only. */
  lemma SetTestExact(words: seq<nat>, x: u64, y: u64)
    requires |words| > 0
    ensures Test(Set(words, x), y) <==> Test(words, y) || SameBit(|words|, x, y)
  {
    SameBitIsCell(|words|, x, y);
    BitOr(words[WordOf(x, |words|)], Pow2(InWord(x)), InWord(y));
    BitOfPow2(InWord(x), InWord(y));
  }

  lemma NextPosition(first: u64, step: u64, i: nat)
    ensures Position(Advance(first, step), step, i) == Position(first, step, i + 1)
    ensures Position(first, step, 0) == first
  {
    var x := first + step;
    var q := x / U64_RANGE;
    var y := x % U64_RANGE + i * step;
    assert x == q * U64_RANGE + x % U64_RANGE;
    assert first + (i + 1) * step == (q + y / U64_RANGE) * U64_RANGE + y % U64_RANGE;
    Quotient(first + (i + 1) * step, U64_RANGE, q + y / U64_RANGE, y % U64_RANGE);
  }

  /** One of the `k` positions from `first` on is this bit. */
  ghost predicate Hits(n: nat, first: u64, step: u64, k: nat, y: u64)
    requires n > 0
  {
    exists i: nat | i < k :: SameBit(n, Position(first, step, i), y)
  }

  lemma HitsNext(n: nat, first: u64, step: u64, k: nat, y: u64)
    requires n > 0 && k > 0
    ensures Hits(n, first, step, k, y) <==> SameBit(n, first, y) || Hits(n, Advance(first, step), step, k - 1, y)
  {
    NextPosition(first, step, 0);
    if i: nat :| i < k - 1 && SameBit(n, Position(Advance(first, step), step, i), y) {
      NextPosition(first, step, i);
      assert i + 1 < k && SameBit(n, Position(first, step, i + 1), y);
    }
    if i: nat :| i < k && SameBit(n, Position(first, step, i), y) {
      if i > 0 {
        NextPosition(first, step, i - 1);
        assert SameBit(n, Position(Advance(first, step), step, i - 1), y);
      }
    }
  }

  lemma {:induction false} SetFromExact(words: seq<nat>, first: u64, step: u64, k: nat, y: u64)
    requires |words| > 0
    ensures Test(SetFrom(words, first, step, k), y) <==> Test(words, y) || Hits(|words|, first, step, k, y)
    decreases k
  {
    if k > 0 {
      SetFromExact(Set(words, first), Advance(first, step), step, k - 1, y);
      SetTestExact(words, first, y);
      HitsNext(|words|, first, step, k, y);
    }
  }

  /** All `k` positions from `first` on test true. */
  ghost predicate AllTest(words: seq<nat>, first: u64, step: u64, k: nat)
    requires |words| > 0
  {
    forall i: nat | i < k :: Test(words, Position(first, step, i))
  }

  lemma {:induction false} TestFromExact(words: seq<nat>, first: u64, step: u64, k: nat)
    requires |words| > 0
    ensures TestFrom(words, first, step, k) <==> AllTest(words, first, step, k)
    decreases k
  {
    if k > 0 {
      TestFromExact(words, Advance(first, step), step, k - 1);
      NextPosition(first, step, 0);
      if AllTest(words, Advance(first, step), step, k - 1) && Test(words, first) {
        forall i: nat | i < k ensures Test(words, Position(first, step, i)) {
          if i > 0 {
            NextPosition(first, step, i - 1);
          }
        }
      }
      if AllTest(words, first, step, k) {
        forall i: nat | i < k - 1 ensures Test(words, Position(Advance(first, step), step, i)) {
          NextPosition(first, step, i);
        }
      }
    }
  }

  /** Some key has a position at this bit. */
  ghost predicate KeyHits(hs: Hashes, k: nat, n: nat, keys: seq<u64>, y: u64)
    requires n > 0
  {
    exists q | 0 <= q < |keys| :: Hits(n, hs.first(keys[q]), hs.step(keys[q]), k, y)
  }

  /** A bit is set exactly when it was set before or some inserted key has a position there. */
  lemma {:induction false} BitsExact(hs: Hashes, k: nat, words: seq<nat>, keys: seq<u64>, y: u64)
    requires |words| > 0
    ensures Test(WithKeys(hs, k, words, keys), y) <==> Test(words, y) || KeyHits(hs, k, |words|, keys, y)
    decreases |keys|
  {
    if keys != [] {
      var n := |keys| - 1;
      BitsExact(hs, k, words, keys[..n], y);
      SetFromExact(WithKeys(hs, k, words, keys[..n]), hs.first(keys[n]), hs.step(keys[n]), k, y);
      assert forall q | 0 <= q < n :: keys[..n][q] == keys[q];
    }
  }

  /**
   * A filter filled from empty claims a key if and only if each of its `k` positions, modulo the number of
   * bits, is a position of some inserted key.
   */
  lemma ClaimsExact(hs: Hashes, k: nat, n: nat, keys: seq<u64>, key: u64)
    requires n > 0
    ensures MayHold(hs, k, WithKeys(hs, k, seq(n, _ => 0), keys), key)
            <==> forall i: nat | i < k :: KeyHits(hs, k, n, keys, Position(hs.first(key), hs.step(key), i))
  {
    var empty := seq(n, _ => 0);
    var words := WithKeys(hs, k, empty, keys);
    TestFromExact(words, hs.first(key), hs.step(key), k);
    forall i: nat | i < k
      ensures Test(words, Position(hs.first(key), hs.step(key), i))
              <==> KeyHits(hs, k, n, keys, Position(hs.first(key), hs.step(key), i))
    {
      var y := Position(hs.first(key), hs.step(key), i);
      BitsExact(hs, k, empty, keys, y);
      BitOfZero(InWord(y));
    }
  }
}
