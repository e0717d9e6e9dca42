/** Calendar arithmetic of `src/datasource/csv.rs`: `days_from_civil` and `parse_date_to_days`. */
module Calendar {
  import opened Machine

  /** Rust's integer division truncates toward zero. */
  function TruncDiv(a: int, b: int): int
    requires b > 0
  {
    if a >= 0 then a / b else -((-a) / b)
  }

  /** The Gregorian rules. */
  predicate Leap(y: int) { y % 4 == 0 && (y % 100 != 0 || y % 400 == 0) }

  function DaysIn(y: int, m: int): int
    requires 1 <= m <= 12
  {
    if m == 2 then (if Leap(y) then 29 else 28)
    else if m == 4 || m == 6 || m == 9 || m == 11 then 30
    else 31
  }

  datatype Date = Date(y: int, m: int, d: int)

  predicate Valid(a: Date) {
    1 <= a.m <= 12 && 1 <= a.d <= DaysIn(a.y, a.m)
  }

  function Tomorrow(a: Date): (b: Date)
    requires Valid(a)
    ensures Valid(b)
  {
    if a.d < DaysIn(a.y, a.m) then Date(a.y, a.m, a.d + 1)
    else if a.m < 12 then Date(a.y, a.m + 1, 1)
    else Date(a.y + 1, 1, 1)
  }

  predicate Before(a: Date, b: Date) {
    a.y < b.y || (a.y == b.y && (a.m < b.m || (a.m == b.m && a.d < b.d)))
  }

  // ---------------------------------------------------------------- the algorithm

  /** Years are counted from March. */
  function MarchYear(y: int, m: int): int { if m <= 2 then y - 1 else y }

  function MarchMonth(m: int): int { if m > 2 then m - 3 else m + 9 }

  function Era(y: int): int { TruncDiv(if y >= 0 then y else y - 399, 400) }

  function DayOfEra(y: int, m: int, d: int): int {
    var y' := MarchYear(y, m);
    var yoe := y' - Era(y') * 400;
    var doy := (153 * MarchMonth(m) + 2) / 5 + d - 1;
    yoe * 365 + yoe / 4 - yoe / 100 + doy
  }

  function DaysFromCivil(y: int, m: int, d: int): int {
    Era(MarchYear(y, m)) * 146097 + DayOfEra(y, m, d) - 719468
  }

  const EPOCH: Date := Date(1970, 1, 1)

  function Days(a: Date): int { DaysFromCivil(a.y, a.m, a.d) }

  // ---------------------------------------------------------------- why it is right

  /** The era formula turns truncation into flooring, for negative years too. */
  lemma EraIsFloor(y: int)
    ensures Era(y) == y / 400
    ensures 0 <= y - Era(y) * 400 <= 399
  {
    if y < 0 {
      var q, r := (399 - y) / 400, (399 - y) % 400;
      assert y == -q * 400 + (399 - r);
    }
  }

  /** Days before 1 March of year `y`, counted from 1 March of year 0. */
  function YearStart(y: int): int { 365 * y + y / 4 - y / 100 + y / 400 }

  lemma EraParts(y: int, e: int, r: int)
    requires y == 400 * e + r && 0 <= r < 400
    ensures y / 4 == 100 * e + r / 4 && y / 100 == 4 * e + r / 100 && y / 400 == e
  {
  }

  /** The day number without eras. */
  function Civil(y: int, m: int, d: int): int {
    YearStart(MarchYear(y, m)) + (153 * MarchMonth(m) + 2) / 5 + d - 1 - 719468
  }

  lemma ClosedForm(y: int, m: int, d: int)
    ensures DaysFromCivil(y, m, d) == Civil(y, m, d)
  {
    var y' := MarchYear(y, m);
    EraIsFloor(y');
    EraParts(y', Era(y'), y' - Era(y') * 400);
  }

  lemma YearLength(y: int)
    ensures YearStart(y + 1) == YearStart(y) + if Leap(y + 1) then 366 else 365
  {
    StepDiv(y, 4);
    StepDiv(y, 100);
    StepDiv(y, 400);
    LeapNesting(y + 1);
  }

  lemma StepDiv(y: int, k: int)
    requires k == 4 || k == 100 || k == 400
    ensures (y + 1) / k == y / k + if (y + 1) % k == 0 then 1 else 0
  {
  }

  lemma LeapNesting(y: int)
    ensures y % 400 == 0 ==> y % 100 == 0
    ensures y % 100 == 0 ==> y % 4 == 0
  {
  }

  /** Month 13 is January of the next year. */
  function First(y: int, m: int): int { if m == 13 then Civil(y + 1, 1, 1) else Civil(y, m, 1) }

  /** The first day of the next month comes as many days later as this month is long. */
  lemma MonthStep(y: int, m: int)
    requires 1 <= m <= 12
    ensures First(y, m + 1) == First(y, m) + DaysIn(y, m)
  {
    if m == 2 {
      YearLength(y - 1);
    }
  }

  lemma CivilStep(a: Date)
    requires Valid(a)
    ensures var b := Tomorrow(a); Civil(b.y, b.m, b.d) == Civil(a.y, a.m, a.d) + 1
  {
    MonthStep(a.y, a.m);
    assert Civil(a.y, a.m, a.d) == First(a.y, a.m) + a.d - 1;
  }

  /** The epoch is day 0, and every valid date is one day before the next, over all years. */
  lemma SuccessorIsNextDay(a: Date)
    requires Valid(a)
    ensures Days(EPOCH) == 0
    ensures Days(Tomorrow(a)) == Days(a) + 1
  {
    var b := Tomorrow(a);
    ClosedForm(a.y, a.m, a.d);
    ClosedForm(b.y, b.m, b.d);
    CivilStep(a);
  }

  /** A valid date falls inside its era of 400 years. */
  lemma DayOfEraRange(a: Date)
    requires Valid(a)
    ensures 0 <= DayOfEra(a.y, a.m, a.d) <= 146096
  {
    var y' := MarchYear(a.y, a.m);
    EraIsFloor(y');
    var yoe := y' - Era(y') * 400;
    if yoe == 399 {
      assert (y' + 1) % 400 == 0;
    } else {
      var doy := (153 * MarchMonth(a.m) + 2) / 5 + a.d - 1;
      assert doy <= 365;
      EraDayBound(yoe);
    }
  }

  lemma EraDayBound(yoe: int)
    requires 0 <= yoe < 399
    ensures 0 <= yoe * 365 + yoe / 4 - yoe / 100 <= 146096 - 365
  {
  }

  /** Any number of days later is that many steps of the calendar. */
  function Later(a: Date, n: nat): (b: Date)
    requires Valid(a)
    ensures Valid(b)
  {
    if n == 0 then a else Tomorrow(Later(a, n - 1))
  }

  lemma {:induction false} CountsOn(days: Date -> int, a: Date, n: nat)
    requires Valid(a) && forall b: Date | Valid(b) :: days(Tomorrow(b)) == days(b) + 1
    ensures days(Later(a, n)) == days(a) + n
  {
    if n > 0 {
      CountsOn(days, a, n - 1);
    }
  }

  lemma LaterCounts(a: Date, n: nat)
    requires Valid(a)
    ensures Days(Later(a, n)) == Days(a) + n
  {
    forall b: Date | Valid(b) ensures Days(Tomorrow(b)) == Days(b) + 1 {
      SuccessorIsNextDay(b);
    }
    CountsOn(Days, a, n);
  }

  // ---------------------------------------------------------------- order

  lemma {:induction false} MonthsAscend(y: int, m: int, n: int)
    requires 1 <= m < n <= 13
    ensures First(y, n) >= First(y, m) + DaysIn(y, m)
    decreases n
  {
    MonthStep(y, n - 1);
    if n - 1 > m {
      MonthsAscend(y, m, n - 1);
    }
  }

  lemma {:induction false} YearsAscend(y: int, z: int)
    requires y <= z
    ensures First(z, 1) >= First(y, 1)
    decreases z - y
  {
    if y < z {
      YearsAscend(y, z - 1);
      MonthsAscend(z - 1, 1, 13);
    }
  }

  /** The first of any later month comes after all of this month. */
  lemma FirstsAscend(y: int, m: int, z: int, n: int)
    requires 1 <= m <= 12 && 1 <= n <= 12 && (y < z || (y == z && m < n))
    ensures First(z, n) >= First(y, m) + DaysIn(y, m)
  {
    if y < z {
      MonthsAscend(y, m, 13);
      YearsAscend(y + 1, z);
      if n > 1 {
        MonthsAscend(z, 1, n);
      }
    } else {
      MonthsAscend(y, m, n);
    }
  }

  lemma DaysFromFirst(a: Date)
    requires 1 <= a.m <= 12
    ensures Days(a) == First(a.y, a.m) + a.d - 1
  {
    ClosedForm(a.y, a.m, a.d);
  }

  lemma EarlierIsSmaller(a: Date, b: Date)
    requires Valid(a) && Valid(b) && Before(a, b)
    ensures Days(a) < Days(b)
  {
    DaysFromFirst(a);
    DaysFromFirst(b);
    if a.y < b.y || a.m < b.m {
      FirstsAscend(a.y, a.m, b.y, b.m);
    }
  }

  /** Day numbers order valid dates exactly as the calendar does; in particular they are distinct. */
  lemma DaysOrder(a: Date, b: Date)
    requires Valid(a) && Valid(b)
    ensures Before(a, b) <==> Days(a) < Days(b)
  {
    if Before(a, b) {
      EarlierIsSmaller(a, b);
    } else if Before(b, a) {
      EarlierIsSmaller(b, a);
    } else {
      assert a == b;
    }
  }

  // ---------------------------------------------------------------- dates as text

  predicate IsDigit(b: byte) { 48 <= b <= 57 }

  /** `parse_date_to_days`; a negative day number is reinterpreted as an unsigned one. */
  function ParseDateToDays(s: seq<byte>): u64 {
    if |s| < 10 then 0
    else if !(IsDigit(s[0]) && IsDigit(s[1]) && IsDigit(s[2]) && IsDigit(s[3])
              && IsDigit(s[5]) && IsDigit(s[6]) && IsDigit(s[8]) && IsDigit(s[9])) then 0
    else AsU64(Days(DateOf(s)))
  }

  /** Only the first ten bytes are read, and a text without the eight digits there is day 0. */
  lemma OnlyTenBytes(s: seq<byte>)
    ensures |s| >= 10 ==> ParseDateToDays(s) == ParseDateToDays(s[..10])
    ensures |s| < 10 || (exists i | 0 <= i < 10 && i != 4 && i != 7 :: !IsDigit(s[i])) ==> ParseDateToDays(s) == 0
  {
  }

  function Digit(b: byte): int {
    var n: int := b;
    n - 48
  }

  function DateOf(s: seq<byte>): Date
    requires |s| >= 10
  {
    Date(Digit(s[0]) * 1000 + Digit(s[1]) * 100 + Digit(s[2]) * 10 + Digit(s[3]),
         Digit(s[5]) * 10 + Digit(s[6]),
         Digit(s[8]) * 10 + Digit(s[9]))
  }

  /** Ten bytes `YYYY-MM-DD` that name a valid date. */
  predicate DateText(s: seq<byte>) {
    && |s| == 10 && s[4] == 45 && s[7] == 45
    && (forall i | 0 <= i < 10 && i != 4 && i != 7 :: IsDigit(s[i]))
    && Valid(DateOf(s))
  }

  /** Byte-wise lexicographic order of texts of the same length, from position `i`. */
  predicate TextLess(s: seq<byte>, t: seq<byte>, i: nat)
    requires |s| == |t| && i <= |s|
    decreases |s| - i
  {
    i < |s| && (s[i] < t[i] || (s[i] == t[i] && TextLess(s, t, i + 1)))
  }

  /** The text order of dates is the calendar order. */
  lemma TextOrder(s: seq<byte>, t: seq<byte>)
    requires DateText(s) && DateText(t)
    ensures TextLess(s, t, 0) <==> Before(DateOf(s), DateOf(t))
  {
    DayPart(s, t);
    MonthPart(s, t);
    assert IsDigit(s[0]) && IsDigit(s[1]) && IsDigit(s[2]) && IsDigit(s[3]);
    assert IsDigit(t[0]) && IsDigit(t[1]) && IsDigit(t[2]) && IsDigit(t[3]);
    assert TextLess(s, t, 3) <==> s[3] < t[3] || (s[3] == t[3] && TextLess(s, t, 5));
    assert TextLess(s, t, 1) <==> s[1] < t[1] || (s[1] == t[1] && TextLess(s, t, 2));
  }

  lemma DayPart(s: seq<byte>, t: seq<byte>)
    requires DateText(s) && DateText(t)
    ensures TextLess(s, t, 8) <==> DateOf(s).d < DateOf(t).d
  {
    assert IsDigit(s[8]) && IsDigit(s[9]) && IsDigit(t[8]) && IsDigit(t[9]);
    assert TextLess(s, t, 9) <==> s[9] < t[9];
  }

  lemma MonthPart(s: seq<byte>, t: seq<byte>)
    requires DateText(s) && DateText(t)
    ensures TextLess(s, t, 5)
            <==> DateOf(s).m < DateOf(t).m || (DateOf(s).m == DateOf(t).m && DateOf(s).d < DateOf(t).d)
  {
    DayPart(s, t);
    assert IsDigit(s[5]) && IsDigit(s[6]) && IsDigit(t[5]) && IsDigit(t[6]);
    assert TextLess(s, t, 6) <==> s[6] < t[6] || (s[6] == t[6] && TextLess(s, t, 7));
    assert TextLess(s, t, 7) <==> TextLess(s, t, 8);
  }

  lemma DaysInRange(s: seq<byte>)
    requires DateText(s)
    ensures -1_000_000 < Days(DateOf(s)) < 10_000_000
    ensures Days(DateOf(s)) < 0 <==> Before(DateOf(s), EPOCH)
  {
    var a := DateOf(s);
    assert IsDigit(s[0]) && IsDigit(s[1]) && IsDigit(s[2]) && IsDigit(s[3]);
    ClosedForm(a.y, a.m, a.d);
    DaysOrder(a, EPOCH);
    SuccessorIsNextDay(a);
  }

  /**
   * The encoded day numbers order two dates as their texts do, exactly when they lie on the same side
   * of 1970-01-01: an earlier date wraps to the top of the unsigned range.
   */
  lemma EncodedOrder(s: seq<byte>, t: seq<byte>)
    requires DateText(s) && DateText(t)
    ensures (ParseDateToDays(s) < ParseDateToDays(t) <==> TextLess(s, t, 0))
            <==> (Before(DateOf(s), EPOCH) <==> Before(DateOf(t), EPOCH))
  {
    TextOrder(s, t);
    DaysOrder(DateOf(s), DateOf(t));
    DaysInRange(s);
    DaysInRange(t);
    Encodes(s);
    Encodes(t);
    DaysOrder(DateOf(s), EPOCH);
    DaysOrder(DateOf(t), EPOCH);
  }

  /** The text 1969-12-31 comes before 1970-01-01, and its cell after. */
  lemma LastDayOf1969()
    ensures var s: seq<byte> := [49, 57, 54, 57, 45, 49, 50, 45, 51, 49];
            var t: seq<byte> := [49, 57, 55, 48, 45, 48, 49, 45, 48, 49];
            TextLess(s, t, 0) && ParseDateToDays(t) == 0 && ParseDateToDays(s) == U64_RANGE - 1
  {
    var s: seq<byte> := [49, 57, 54, 57, 45, 49, 50, 45, 51, 49];
    var t: seq<byte> := [49, 57, 55, 48, 45, 48, 49, 45, 48, 49];
    assert DateOf(s) == Date(1969, 12, 31) && DateOf(t) == EPOCH;
    TextOrder(s, t);
    SuccessorIsNextDay(DateOf(s));
    assert Tomorrow(DateOf(s)) == EPOCH;
    Encodes(s);
    Encodes(t);
  }

  lemma Encodes(s: seq<byte>)
    requires DateText(s)
    ensures ParseDateToDays(s) == if Days(DateOf(s)) >= 0 then Days(DateOf(s)) else Days(DateOf(s)) + U64_RANGE
  {
    DaysInRange(s);
    assert IsDigit(s[0]) && IsDigit(s[1]) && IsDigit(s[2]) && IsDigit(s[3]);
    assert IsDigit(s[5]) && IsDigit(s[6]) && IsDigit(s[8]) && IsDigit(s[9]);
    Unsigned(Days(DateOf(s)));
  }

  lemma Unsigned(n: int)
    requires -1_000_000 < n < 10_000_000
    ensures AsU64(n) == if n >= 0 then n else n + U64_RANGE
  {
  }
}
