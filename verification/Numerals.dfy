/** Decimal numerals, as `to_string` prints a column number and `str::parse::<usize>` reads one. */
module Numerals {
  import opened Machine
  import opened Options

  function Digit(d: nat): (c: char)
    requires d < 10
    ensures '0' <= c <= '9'
  {
    '0' + d as char
  }

  function DigitValue(c: char): (d: nat)
    requires '0' <= c <= '9'
    ensures d < 10
  {
    (c - '0') as nat
  }

  lemma DigitTrip(d: nat)
    requires d < 10
    ensures DigitValue(Digit(d)) == d
  {
  }

  function Numeral(n: nat): (s: string)
    ensures s != "" && forall i | 0 <= i < |s| :: '0' <= s[i] <= '9'
  {
    if n < 10 then [Digit(n)] else Numeral(n / 10) + [Digit(n % 10)]
  }

  function ParseDigits(s: string): Option<nat> {
    if s == "" then Some(0)
    else
      var last := s[|s| - 1];
      match ParseDigits(s[..|s| - 1])
      case None => None
      case Some(n) => if '0' <= last <= '9' then Some(10 * n + DigitValue(last)) else None
  }

  /** `str::parse::<usize>`: digits after at most one plus sign, within 64 bits. */
  function ParseIndex(s: string): Option<nat> {
    var digits := if s != "" && s[0] == '+' then s[1..] else s;
    if digits == "" then None
    else match ParseDigits(digits)
      case None => None
      case Some(n) => if n < U64_RANGE then Some(n) else None
  }

  lemma ParseSnoc(s: string, d: nat)
    requires d < 10 && ParseDigits(s).Some?
    ensures ParseDigits(s + [Digit(d)]) == Some(10 * ParseDigits(s).value + d)
  {
    assert (s + [Digit(d)])[..|s|] == s;
    DigitTrip(d);
  }

  /** A printed number parses back to itself. */
  lemma {:induction false} DigitsTrip(n: nat)
    ensures ParseDigits(Numeral(n)) == Some(n)
  {
    if n < 10 {
      ParseSnoc("", n);
      assert "" + [Digit(n)] == [Digit(n)];
    } else {
      DigitsTrip(n / 10);
      ParseSnoc(Numeral(n / 10), n % 10);
    }
  }

  ghost predicate AllDigits(s: string) { forall i | 0 <= i < |s| :: '0' <= s[i] <= '9' }

  lemma {:induction false} DigitsExact(s: string)
    ensures ParseDigits(s).Some? <==> AllDigits(s)
  {
    if s != "" {
      DigitsExact(s[..|s| - 1]);
      assert forall i | 0 <= i < |s| - 1 :: s[..|s| - 1][i] == s[i];
    }
  }

  /** A printed number is an index exactly below 2^64, with or without a plus sign. */
  lemma IndexTrip(n: nat)
    ensures ParseIndex(Numeral(n)) == if n < 0x1_0000_0000_0000_0000 then Some(n) else None
    ensures ParseIndex("+" + Numeral(n)) == ParseIndex(Numeral(n))
  {
    DigitsTrip(n);
    assert Numeral(n)[0] != '+' && ("+" + Numeral(n))[1..] == Numeral(n);
  }

  /** Anything but digits after at most one plus sign is no index. */
  lemma IndexExact(s: string)
    ensures ParseIndex(s).Some? ==> s != "" && s != "+" && AllDigits(if s[0] == '+' then s[1..] else s)
  {
    if s != "" {
      DigitsExact(if s[0] == '+' then s[1..] else s);
    }
  }
}
