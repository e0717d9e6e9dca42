/** The machine integers of the engine, as ranges of mathematical integers. */
module Machine {
  const U32_RANGE: int := 0x1_0000_0000
  const U64_RANGE: int := 0x1_0000_0000_0000_0000

  type byte = x: int | 0 <= x < 256
  type u32 = x: int | 0 <= x < 0x1_0000_0000
  type u64 = x: int | 0 <= x < 0x1_0000_0000_0000_0000

  /** Reinterpretation of a signed number as an unsigned one. */
  function AsU64(n: int): u64 { n % U64_RANGE }

  /** A remainder below twice its divisor needs at most one subtraction. */
  lemma ModOnce(x: nat, n: nat)
    requires x < n + n
    ensures x % n == if x < n then x else x - n
  {
    var q := x / n;
    assert x == q * n + x % n;
    assert q < 2;
  }

  lemma Multiple(a: int, d: int)
    requires d > 0
    ensures a >= 1 ==> a * d >= d
    ensures a <= -1 ==> a * d <= -d
  {
    if a >= 1 {
      assert (a - 1) * d >= 0;
    }
    if a <= -1 {
      assert (-1 - a) * d >= 0;
    }
  }

  lemma SameQuotient(d: int, q: int, r: int, q': int, r': int)
    requires 0 <= r < d && 0 <= r' < d && q * d + r == q' * d + r'
    ensures q == q' && r == r'
  {
    Multiple(q - q', d);
    assert (q - q') * d == q * d - q' * d;
  }

  lemma Quotient(x: int, d: int, q: int, r: int)
    requires x == q * d + r && 0 <= r < d
    ensures x / d == q && x % d == r
  {
    SameQuotient(d, q, r, x / d, x % d);
  }
}
