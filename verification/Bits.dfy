/** Bitwise operations on natural numbers, defined bit by bit. */
module Bits {
  import opened Machine

  function Pow2(k: nat): (p: nat)
    ensures p > 0
  {
    if k == 0 then 1 else 2 * Pow2(k - 1)
  }

  /** `(n >> j) & 1 != 0`. */
  predicate Bit(n: nat, j: nat)
    decreases j
  {
    if j == 0 then n % 2 == 1 else Bit(n / 2, j - 1)
  }

  /** `n >> j`. */
  function ShiftRight(n: nat, j: nat): nat
    decreases j
  {
    if j == 0 then n else ShiftRight(n / 2, j - 1)
  }

  function Or(a: nat, b: nat): nat
    decreases a + b
  {
    if a == 0 then b else if b == 0 then a
    else (if a % 2 == 1 || b % 2 == 1 then 1 else 0) + 2 * Or(a / 2, b / 2)
  }

  function And(a: nat, b: nat): nat
    decreases a + b
  {
    if a == 0 || b == 0 then 0
    else (if a % 2 == 1 && b % 2 == 1 then 1 else 0) + 2 * And(a / 2, b / 2)
  }

  lemma {:induction false} BitOfZero(j: nat)
    ensures !Bit(0, j)
  {
    if j > 0 {
      BitOfZero(j - 1);
    }
  }

  lemma {:induction false} BitOr(a: nat, b: nat, j: nat)
    ensures Bit(Or(a, b), j) <==> Bit(a, j) || Bit(b, j)
    decreases j
  {
    BitOfZero(j);
    if a != 0 && b != 0 && j > 0 {
      assert Or(a, b) / 2 == Or(a / 2, b / 2);
      BitOr(a / 2, b / 2, j - 1);
    }
  }

  lemma {:induction false} BitAnd(a: nat, b: nat, j: nat)
    ensures Bit(And(a, b), j) <==> Bit(a, j) && Bit(b, j)
    decreases j
  {
    BitOfZero(j);
    if a != 0 && b != 0 && j > 0 {
      assert And(a, b) / 2 == And(a / 2, b / 2);
      BitAnd(a / 2, b / 2, j - 1);
    }
  }

  lemma {:induction false} BitOfPow2(b: nat, j: nat)
    ensures Bit(Pow2(b), j) <==> j == b
    decreases j
  {
    if j > 0 {
      if b > 0 {
        assert Pow2(b) / 2 == Pow2(b - 1);
        BitOfPow2(b - 1, j - 1);
      } else {
        BitOfZero(j - 1);
      }
    }
  }

  /** Numbers with the same bits are equal. */
  lemma {:induction false} SameBits(a: nat, b: nat)
    requires forall j: nat :: Bit(a, j) <==> Bit(b, j)
    ensures a == b
    decreases a + b
  {
    assert Bit(a, 0) <==> Bit(b, 0);
    if a + b > 0 {
      forall j: nat ensures Bit(a / 2, j) <==> Bit(b / 2, j) {
        assert Bit(a, j + 1) <==> Bit(b, j + 1);
      }
      SameBits(a / 2, b / 2);
    }
  }

  lemma {:induction false} OrPositive(a: nat, b: nat)
    requires b > 0
    ensures Or(a, b) > 0
    decreases b
  {
    if a != 0 && b % 2 == 0 {
      OrPositive(a / 2, b / 2);
    }
  }

  lemma {:induction false} OrBound(a: nat, b: nat, k: nat)
    requires a < Pow2(k) && b < Pow2(k)
    ensures Or(a, b) < Pow2(k)
    decreases k
  {
    if a != 0 && b != 0 {
      OrBound(a / 2, b / 2, k - 1);
    }
  }

  lemma {:induction false} ShiftBound(n: nat, j: nat, k: nat)
    requires n < Pow2(j + k)
    ensures ShiftRight(n, j) < Pow2(k)
    decreases j
  {
    if j > 0 {
      ShiftBound(n / 2, j - 1, k);
    }
  }

  /** Every bit of `e` is in `x`: the test `x & e == e`. */
  predicate Covers(x: nat, e: nat) { And(x, e) == e }

  ghost predicate BitsWithin(e: nat, x: nat) {
    forall j: nat :: Bit(e, j) ==> Bit(x, j)
  }

  lemma CoversBits(x: nat, e: nat)
    ensures Covers(x, e) <==> BitsWithin(e, x)
  {
    if Covers(x, e) {
      forall j: nat ensures Bit(e, j) ==> Bit(x, j) {
        BitAnd(x, e, j);
      }
    }
    if BitsWithin(e, x) {
      forall j: nat ensures Bit(And(x, e), j) <==> Bit(e, j) {
        BitAnd(x, e, j);
      }
      SameBits(And(x, e), e);
    }
  }

  /** OR-ing bits in never uncovers anything. */
  lemma CoversGrows(x: nat, y: nat, e: nat)
    ensures Covers(Or(x, e), e)
    ensures Covers(x, e) ==> Covers(Or(x, y), e)
  {
    CoversBits(Or(x, e), e);
    CoversBits(x, e);
    CoversBits(Or(x, y), e);
    forall j: nat
      ensures Bit(Or(x, e), j) <==> Bit(x, j) || Bit(e, j)
      ensures Bit(Or(x, y), j) <==> Bit(x, j) || Bit(y, j)
    {
      BitOr(x, e, j);
      BitOr(x, y, j);
    }
  }

  // ---------------------------------------------------------------- masks

  ghost predicate PowerOfTwo(n: nat) {
    exists k: nat :: n == Pow2(k)
  }

  lemma PowerDoubles(n: nat)
    requires PowerOfTwo(n)
    ensures PowerOfTwo(2 * n)
  {
    var k: nat :| n == Pow2(k);
    assert 2 * n == Pow2(k + 1);
  }

  lemma ModDouble(x: nat, p: nat)
    requires p > 0
    ensures x % (2 * p) == x % 2 + 2 * (x / 2 % p)
  {
    var h := x / 2;
    var q, r := h / p, h % p;
    assert h == q * p + r;
    assert x == q * (2 * p) + (2 * r + x % 2);
    Quotient(x, 2 * p, q, 2 * r + x % 2);
  }

  lemma AndOdd(x: nat, p: nat)
    requires p > 0
    ensures And(x, 2 * p - 1) == x % 2 + 2 * And(x / 2, p - 1)
  {
    var m := 2 * p - 1;
    assert m % 2 == 1 && m / 2 == p - 1;
    assert And(0, p - 1) == 0;
  }

  lemma MaskStep(x: nat, p: nat)
    requires p > 0 && And(x / 2, p - 1) == x / 2 % p
    ensures And(x, 2 * p - 1) == x % (2 * p)
  {
    AndOdd(x, p);
    ModDouble(x, p);
  }

  /** Masking with a power of two less one is the remainder. */
  lemma {:induction false} MaskIsMod(x: nat, k: nat)
    ensures And(x, Pow2(k) - 1) == x % Pow2(k)
    decreases k
  {
    if k == 0 {
      assert And(x, 0) == 0;
    } else {
      MaskIsMod(x / 2, k - 1);
      MaskStep(x, Pow2(k - 1));
      assert 2 * Pow2(k - 1) == Pow2(k);
    }
  }
}
