/** mktime and localtime of the C library (mktime.c, localtime.c). Signed fields are
    mathematical integers; the unsigned day count wraps at 16 bits and the result at
    32 bits, as on the target. */
module Calendar {

  // ----- the Gregorian calendar, by counting

  predicate IsLeapYear(y: int) {
    y % 4 == 0 && (y % 100 != 0 || y % 400 == 0)
  }

  function YearLength(y: int): int { if IsLeapYear(y) then 366 else 365 }

  /** Days from 1 January 1970 to 1 January of year y, one year at a time. */
  function DaysToYear(y: int): int
    decreases if y > 1970 then y - 1970 else 1970 - y
  {
    if y == 1970 then 0
    else if y > 1970 then DaysToYear(y - 1) + YearLength(y - 1)
    else DaysToYear(y + 1) - YearLength(y)
  }

  /** Month m counts from 0. */
  function MonthLength(y: int, m: nat): int {
    if m == 1 then if IsLeapYear(y) then 29 else 28
    else if m == 3 || m == 5 || m == 8 || m == 10 then 30
    else 31
  }

  /** Days from 1 January to the first of month m, one month at a time. */
  function DaysToMonth(y: int, m: nat): int {
    if m == 0 then 0 else DaysToMonth(y, m - 1) + MonthLength(y, m - 1)
  }

  /** The number, counted from the epoch, of the day before the first of a month;
      month numbers beyond 11 run on into later years. */
  function MonthStart(y: int, m: int): int {
    DaysToYear(y + m / 12) + DaysToMonth(y + m / 12, m % 12) - 1
  }

  lemma TwelveMonths(y: int)
    ensures DaysToMonth(y, 12) == YearLength(y)
  {
    MonthTable(y, 12);
  }

  const MONTH_DAYS: seq<nat> := [0, 31, 59, 90, 120, 151, 181, 212, 243, 273, 304, 334, 365]

  /** The library's table of days before each month, and its correction in leap years. */
  lemma {:induction false} MonthTable(y: int, m: nat)
    requires m <= 12
    ensures DaysToMonth(y, m) == MONTH_DAYS[m] + if m > 1 && IsLeapYear(y) then 1 else 0
  {
    hide IsLeapYear;
    if m > 0 {
      MonthTable(y, m - 1);
    }
  }

  /** A month starts when the month before it is over, also across a year's end. */
  lemma NextMonth(y: int, m: nat)
    requires m < 12
    ensures MonthStart(y, m) + MonthLength(y, m) == if m == 11 then MonthStart(y + 1, 0) else MonthStart(y, m + 1)
  {
    TwelveMonths(y);
    YearStep(y);
  }

  lemma YearStep(y: int)
    ensures DaysToYear(y + 1) == DaysToYear(y) + YearLength(y)
  {
  }

  /** How many days too many the rule "one leap day per year divisible by 4" has counted
      before 1 January 1900 + y: the centuries that are no leap years. Negative before 1900. */
  function Excess(y: int): int { (y - 70) * 365 + (y - 69) / 4 - DaysToYear(1900 + y) }

  /** The rule is exact from 1901 up to the start of 2101, and never again. */
  lemma {:induction false} ExcessBounds(y: int)
    requires 0 <= y
    ensures if y == 0 then Excess(y) == -1 else if y <= 200 then Excess(y) == 0 else 1 <= Excess(y) <= y
    decreases if y >= 70 then y - 70 else 70 - y
  {
    hide IsLeapYear, Excess;
    if y > 70 {
      ExcessBounds(y - 1);
      ExcessStep(y - 1);
      if y <= 201 {
        Turns(y - 1);
      }
    } else if y < 70 {
      ExcessBounds(y + 1);
      ExcessStep(y);
      Turns(y);
    } else {
      ExcessAtEpoch();
    }
  }

  lemma ExcessAtEpoch()
    ensures Excess(70) == 0
  {
  }

  /** Of the years from 1900 to 2100 the first and the last are the exceptions. */
  lemma Turns(y: int)
    requires 0 <= y <= 200
    ensures y % 100 == 0 && y % 400 != 100 <==> y == 0 || y == 200
  {
  }

  lemma ExcessStep(y: int)
    ensures Excess(y + 1) == Excess(y) + if y % 100 == 0 && y % 400 != 100 then 1 else 0
  {
    YearStep(1900 + y);
    var q, r := (1900 + y) / 4, (1900 + y) % 4;
    assert y - 69 == 4 * (q - 493) + r + 3;
    assert (y - 69) / 4 == if r == 0 then q - 493 else q - 492;
    assert (y + 1 - 69) / 4 == q - 492;
    CenturyLeap(y);
  }

  lemma CenturyLeap(y: int)
    ensures IsLeapYear(1900 + y) <==> (1900 + y) % 4 == 0 && !(y % 100 == 0 && y % 400 != 100)
    ensures y % 100 == 0 ==> (1900 + y) % 4 == 0
  {
    var c, d, b := y / 400, y % 400 / 100, y % 100;
    Centuries(y, c, d, b);
    Centuries(1900 + y, if d == 0 then c + 4 else c + 5, if d == 0 then 3 else d - 1, b);
  }

  /** The remainders the leap rule asks for, of a year given by 400 years, centuries and years. */
  lemma Centuries(n: int, c: int, d: int, b: int)
    requires 0 <= d < 4 && 0 <= b < 100 && n == 400 * c + 100 * d + b
    ensures n % 400 == 100 * d + b && n % 100 == b
    ensures n % 4 == b % 4
  {
    DivMod400(n, c, 100 * d + b);
    DivMod100(n, 4 * c + d, b);
    DivMod4(n, 100 * c + 25 * d + b / 4, b % 4);
  }

  lemma DivMod4(n: int, q: int, r: int)
    requires 0 <= r < 4 && n == 4 * q + r
    ensures n / 4 == q && n % 4 == r
  {
  }

  lemma DivMod100(n: int, q: int, r: int)
    requires 0 <= r < 100 && n == 100 * q + r
    ensures n / 100 == q && n % 100 == r
  {
  }

  lemma DivMod400(n: int, q: int, r: int)
    requires 0 <= r < 400 && n == 400 * q + r
    ensures n / 400 == q && n % 400 == r
  {
  }

  lemma {:induction false} DaysIncrease(a: int, b: int)
    requires a <= b
    ensures DaysToYear(a) + 365 * (b - a) <= DaysToYear(b)
    decreases b - a
  {
    if a < b {
      DaysIncrease(a, b - 1);
      YearStep(b - 1);
    }
  }

  lemma {:induction false} MonthsIncrease(y: int, a: nat, b: nat)
    requires a <= b
    ensures DaysToMonth(y, a) + 28 * (b - a) <= DaysToMonth(y, b)
    ensures a < b ==> DaysToMonth(y, a) + MonthLength(y, a) <= DaysToMonth(y, b)
    decreases b - a
  {
    if a < b {
      MonthsIncrease(y, a, b - 1);
    }
  }

  // ----- broken-down time

  /** The fields that say when. */
  datatype Fields = Fields(sec: int, min: int, hour: int, mday: int, mon: int, year: int) {
    predicate InRange() {
      && 0 <= sec < 60 && 0 <= min < 60 && 0 <= hour < 24
      && 0 <= mon < 12 && 1 <= mday <= MonthLength(1900 + year, mon)
    }

    /** Days since the epoch, for any fields. */
    function Day(): int { MonthStart(1900 + year, mon) + mday }

    /** Seconds since the epoch, for any fields. */
    function Instant(): int { Day() * 86400 + hour * 3600 + min * 60 + sec }
  }

  /** In-range fields are determined by the instant they denote. */
  lemma FieldsUnique(a: Fields, b: Fields)
    requires a.InRange() && b.InRange() && a.Instant() == b.Instant()
    ensures a == b
  {
    SameClock(a, b);
    if a.year < b.year {
      LaterYear(a, b);
    } else if b.year < a.year {
      LaterYear(b, a);
    } else if a.mon < b.mon {
      LaterMonth(a, b);
    } else if b.mon < a.mon {
      LaterMonth(b, a);
    }
  }

  lemma LaterMonth(a: Fields, b: Fields)
    requires a.InRange() && b.InRange() && a.year == b.year && a.mon < b.mon
    ensures a.Day() < b.Day()
  {
    hide DaysToYear, MonthLength;
    MonthsIncrease(1900 + a.year, a.mon, b.mon);
  }

  lemma SameClock(a: Fields, b: Fields)
    requires a.InRange() && b.InRange() && a.Instant() == b.Instant()
    ensures a.Day() == b.Day() && a.hour == b.hour && a.min == b.min && a.sec == b.sec
  {
    hide MonthStart, MonthLength;
    var x, y := a.hour * 3600 + a.min * 60 + a.sec, b.hour * 3600 + b.min * 60 + b.sec;
    assert 0 <= x < 86400 && 0 <= y < 86400;
  }

  lemma LaterYear(a: Fields, b: Fields)
    requires a.InRange() && b.InRange() && a.year < b.year
    ensures a.Day() < b.Day()
  {
    hide DaysToYear, MonthLength;
    var y := 1900 + a.year;
    MonthsIncrease(y, a.mon, 12);
    TwelveMonths(y);
    YearStep(y);
    DaysIncrease(y + 1, 1900 + b.year);
    MonthsIncrease(1900 + b.year, 0, b.mon);
  }

  // ----- mktime

  /** C's div: the quotient is rounded toward zero, the remainder has the sign of a. */
  function TruncQuot(a: int, b: int): int
    requires b > 0
  {
    if a >= 0 then a / b else -(-a / b)
  }

  function TruncRem(a: int, b: int): int
    requires b > 0
  {
    if a >= 0 then a % b else -(-a % b)
  }

  lemma Divides12(a: int)
    ensures a == 12 * TruncQuot(a, 12) + TruncRem(a, 12) && -12 < TruncRem(a, 12) < 12
    ensures TruncRem(a, 12) < 0 <==> a < 0 && a % 12 != 0
    ensures a >= 0 ==> TruncQuot(a, 12) == a / 12 && TruncRem(a, 12) == a % 12
  {
  }

  lemma Divides24(a: int)
    ensures a == 24 * TruncQuot(a, 24) + TruncRem(a, 24) && -24 < TruncRem(a, 24) < 24
    ensures TruncRem(a, 24) < 0 <==> a < 0 && a % 24 != 0
    ensures a >= 0 ==> TruncQuot(a, 24) == a / 24 && TruncRem(a, 24) == a % 24
  {
  }

  lemma Divides60(a: int)
    ensures a == 60 * TruncQuot(a, 60) + TruncRem(a, 60) && -60 < TruncRem(a, 60) < 60
    ensures TruncRem(a, 60) < 0 <==> a < 0 && a % 60 != 0
    ensures a >= 0 ==> TruncQuot(a, 60) == a / 60 && TruncRem(a, 60) == a % 60
  {
  }

  /** The clock fields after the carries into minutes, hours and days. */
  function Carried(f: Fields): Fields {
    var min := f.min + TruncQuot(f.sec, 60);
    var hour := f.hour + TruncQuot(min, 60);
    Fields(TruncRem(f.sec, 60), TruncRem(min, 60), TruncRem(hour, 24), f.mday + TruncQuot(hour, 24), f.mon, f.year)
  }

  /** The calls mktime refuses: minutes, hours, days or the year below zero after the carry. */
  predicate Refused(f: Fields) {
    var min := f.min + TruncQuot(f.sec, 60);
    var hour := f.hour + TruncQuot(min, 60);
    min < 0 || hour < 0 || f.mday + TruncQuot(hour, 24) < 0 || f.year + TruncQuot(f.mon, 12) < 0
  }

  /** The unsigned 16-bit day count. */
  function DayCount(year: int, yday: int): nat {
    ((year - 70) % 0x1_0000 * 365 + (year - 69) % 0x1_0000 / 4 + yday) % 0x1_0000
  }

  /** The unsigned 32-bit result. */
  function Seconds(f: Fields, yday: int): nat {
    (DayCount(f.year, yday) * 86400 + f.hour % 0x1_0000 * 3600 + f.min % 0x1_0000 * 60 + f.sec % 0x1_0000)
    % 0x1_0000_0000
  }

  lemma CarryKeeps(f: Fields)
    requires !Refused(f)
    ensures Carried(f).Instant() == f.Instant()
    ensures var c := Carried(f);
      && 0 <= c.min < 60 && 0 <= c.hour < 24 && 0 <= c.mday && -60 < c.sec < 60
      && (c.sec < 0 <==> f.sec < 0 && f.sec % 60 != 0)
  {
    hide MonthStart;
    var min := f.min + TruncQuot(f.sec, 60);
    var hour := f.hour + TruncQuot(min, 60);
    Divides60(f.sec);
    Divides60(min);
    Divides24(hour);
  }

  /** INVERSE_675 is the inverse of 675 modulo 2^25. */
  const INVERSE_675: int := 18989323
  const INVERSE_CARRY: int := 382

  /** A day count that is d days off, less than 2^25, is seen in the seconds modulo 2^32. */
  lemma DaysSeen(d: int)
    requires d * 86400 % 0x1_0000_0000 == 0 && -0x200_0000 < d < 0x200_0000
    ensures d == 0
  {
    var q := d * 86400 / 0x1_0000_0000;
    assert 675 * d == 0x200_0000 * q;
    assert d == 0x200_0000 * (INVERSE_675 * q - INVERSE_CARRY * d);
  }

  /** And the 2^16 seconds by which a negative second is off are made up for by no day count
      that is off by less. */
  lemma SecondSeen(d: int)
    requires -25_302_528 < d < 8_251_904
    ensures (d * 86400 + 0x1_0000) % 0x1_0000_0000 != 0
  {
    var q := (d * 86400 + 0x1_0000) / 0x1_0000_0000;
    assert (d * 86400 + 0x1_0000) % 0x1_0000_0000 == 0 ==> 675 * d + 512 == 0x200_0000 * q;
    assert 675 * d + 512 == 0x200_0000 * q ==>
        d + 25_302_528 == 0x200_0000 * (INVERSE_675 * q - INVERSE_CARRY * d - 289);
  }

  function DayOfYear(f: Fields): int
    requires 0 <= f.mon < 12
  {
    DaysToMonth(1900 + f.year, f.mon) + f.mday - 1
  }

  /** What mktime leaves of an accepted call: all in range, save that a second may be
      negative and a day 0. */
  predicate Settled(f: Fields) {
    && -60 < f.sec < 60 && 0 <= f.min < 60 && 0 <= f.hour < 24
    && 0 <= f.mon < 12 && 0 <= f.mday <= MonthLength(1900 + f.year, f.mon)
  }

  /** Day 0 of January 1970, the only settled date before 1970 whose year is not. */
  predicate IsDayBefore(f: Fields) { f.year == 70 && f.mon == 0 && f.mday == 0 }

  lemma DayOfYearBounds(f: Fields)
    requires Settled(f)
    ensures -1 <= DayOfYear(f) < YearLength(1900 + f.year)
    ensures DayOfYear(f) == -1 <==> f.mon == 0 && f.mday == 0
    ensures f.year == 69 ==> DayOfYear(f) < 365
  {
    hide DaysToYear;
    MonthTable(1900 + f.year, f.mon);
  }

  lemma DaySum(f: Fields)
    requires 0 <= f.mon < 12
    ensures DaySumOf(f.year, DayOfYear(f)) == f.Day() + Excess(f.year)
  {
  }

  /** How far the 16-bit day count is off. It is right from 1970 to the end of 2100; before,
      it wraps; after, 2100 was taken for a leap year. */
  lemma DayCountOff(f: Fields)
    requires Settled(f) && 0 <= f.year <= 0x7FFF
    ensures var d := DayCount(f.year, DayOfYear(f)) - f.Day();
      && -25_000_000 < d < 200_000
      && (d == 0 <==> 70 <= f.year <= 200 && !IsDayBefore(f))
    ensures 70 <= f.year <= 200 ==> -1 <= f.Day() < 0xFFF0 && (f.Day() == -1 <==> IsDayBefore(f))
  {
    hide DaysToYear, IsLeapYear, Excess, DayOfYear, MonthStart, Settled, DayCount, Fields.Day;
    ExcessBounds(f.year);
    MonthOf(f);
    DayOfYearBounds(f);
    DaySum(f);
    var yday := DayOfYear(f);
    if f.year < 70 {
      CountBefore(f.year, yday);
    } else if f.year <= 200 {
      CountWithin(f.year, yday);
    } else {
      CountAfter(f.year, yday);
    }
  }

  lemma MonthOf(f: Fields)
    requires Settled(f)
    ensures 0 <= f.mon < 12 && f.mday >= 0
  {
  }

  /** What the 16-bit count should be, by its own rule for leap years. */
  function DaySumOf(year: int, yday: int): int { (year - 70) * 365 + (year - 69) / 4 + yday }

  lemma CountBefore(year: int, yday: int)
    requires 0 <= year < 70 && -1 <= yday < if year == 69 then 365 else 366
    ensures 16384 <= DayCount(year, yday) - DaySumOf(year, yday) < 0x2_0000
    ensures -26000 < DaySumOf(year, yday)
  {
    var m := (year - 69) / 4;
    assert (year - 70) % 0x1_0000 == 0x1_0000 + year - 70;
    if year < 69 {
      assert (year - 69) % 0x1_0000 == 0x1_0000 + year - 69;
      assert (0x1_0000 + year - 69) / 4 == 16384 + m;
    }
    var n := DaySumOf(year, yday) + if year < 69 then 16384 else 0;
    Wraps(n, DayCount(year, yday), 365);
  }

  lemma Wraps(n: int, count: int, k: int)
    requires count == (n + 0x1_0000 * k) % 0x1_0000
    ensures count == n % 0x1_0000
  {
  }

  lemma CountWithin(year: int, yday: int)
    requires 70 <= year <= 200 && -1 <= yday < 366
    ensures var n := DaySumOf(year, yday);
      -1 <= n < 0xFFF0 && (n == -1 <==> year == 70 && yday == -1)
      && DayCount(year, yday) == if n == -1 then 0xFFFF else n
  {
    assert 0 <= (year - 69) / 4 <= 32;
  }

  lemma CountAfter(year: int, yday: int)
    requires 200 < year <= 0x7FFF && -1 <= yday < 366
    ensures exists k :: 0 <= k < 200 && DayCount(year, yday) == DaySumOf(year, yday) - 0x1_0000 * k
  {
    var n := DaySumOf(year, yday);
    assert n < 12_000_000;
    assert DayCount(year, yday) == n - 0x1_0000 * (n / 0x1_0000);
  }

  /** mktime's arithmetic yields the instant its fields denote exactly when no second is
      negative, since seconds are taken for unsigned, and the day count is right. */
  lemma SecondsRight(f: Fields)
    requires Settled(f) && 0 <= f.year <= 0x7FFF
    ensures Seconds(f, DayOfYear(f)) == f.Instant() % 0x1_0000_0000
      <==> f.sec >= 0 && 70 <= f.year <= 200 && !IsDayBefore(f)
  {
    hide MonthStart, DaysToYear, IsLeapYear, DayOfYear, DayCount, MonthLength;
    var c := f.hour * 3600 + f.min * 60 + f.sec;
    var n := DayCount(f.year, DayOfYear(f));
    var d := n - f.Day();
    DayCountOff(f);
    var off := if f.sec < 0 then 0x1_0000 else 0;
    SecondsAre(f, DayOfYear(f));
    if (n * 86400 + c + off) % 0x1_0000_0000 == f.Instant() % 0x1_0000_0000 {
      SameRemainder(n * 86400 + c + off, f.Instant());
      assert n * 86400 + c + off - f.Instant() == d * 86400 + off;
      if off == 0 {
        DaysSeen(d);
      } else {
        SecondSeen(d);
        assert false;
      }
    }
  }

  lemma SecondsAre(f: Fields, yday: int)
    requires -60 < f.sec < 60 && 0 <= f.min < 60 && 0 <= f.hour < 24
    ensures Seconds(f, yday) ==
      (DayCount(f.year, yday) * 86400 + (f.hour * 3600 + f.min * 60 + f.sec) + if f.sec < 0 then 0x1_0000 else 0)
      % 0x1_0000_0000
  {
    hide DayCount;
  }

  /** The first day mktime gets wrong: 1 January 2101. */
  lemma NewYear2101(f: Fields)
    requires f == Fields(0, 0, 0, 1, 0, 201)
    ensures f.InRange() && Seconds(f, DayOfYear(f)) != f.Instant() % 0x1_0000_0000
  {
    hide Fields.Instant, Seconds, DayOfYear;
    SecondsRight(f);
  }

  /** Five seconds before 00:01 on 1 January 2000 come out 2^16 seconds too late. */
  lemma NegativeSecond(f: Fields)
    requires f == Fields(-5, 1, 0, 1, 0, 100)
    ensures Settled(f) && Seconds(f, DayOfYear(f)) == (f.Instant() + 0x1_0000) % 0x1_0000_0000
  {
    hide Seconds, DayOfYear, MonthStart, DayCount;
    SecondsAre(f, DayOfYear(f));
    DayCountOff(f);
  }

  /** And they get that far: they are refused by nothing and carried nowhere. */
  lemma NegativeSecondAccepted(f: Fields)
    requires f == Fields(-5, 1, 0, 1, 0, 100)
    ensures !Refused(f) && Carried(f) == f
  {
    Divides60(f.sec);
  }

  lemma InRangeIsSettled(f: Fields)
    requires f.InRange()
    ensures Settled(f)
  {
  }

  /** A day of 0 is right, save in January 1970. */
  lemma DayZero(f: Fields, g: Fields)
    requires f == Fields(0, 0, 0, 0, 0, 70) && g == Fields(0, 0, 0, 0, 2, 100)
    ensures Settled(f) && Seconds(f, DayOfYear(f)) != f.Instant() % 0x1_0000_0000
    ensures Settled(g) && Seconds(g, DayOfYear(g)) == g.Instant() % 0x1_0000_0000
  {
    hide Fields.Instant, Seconds, DayOfYear;
    SecondsRight(f);
    SecondsRight(g);
  }

  /** The days from 1 January 1970 to 31 December 2100, by any name but day 0 of
      January 2101. */
  predicate Covered(f: Fields) {
    0 <= f.Day() < DaysToYear(2101) && !(f.mday == 0 && f.Day() == DaysToYear(2101) - 1)
  }

  /** Before the months are carried, the day tells what year it is going to be. */
  lemma CoveredIs(f: Fields, g: Fields)
    requires Settled(g) && f.Day() == g.Day() && (f.mday == 0 <==> g.mday == 0)
    ensures 70 <= g.year <= 200 && !IsDayBefore(g) <==> Covered(f)
  {
    hide DaysToYear, MonthStart, DayOfYear, Fields.Day, Settled;
    MonthOf(g);
    DayOfYearBounds(g);
    DayParts(g);
    YearStep(1900 + g.year);
    EpochDay(Fields(0, 0, 0, 1, 0, 70));
    if g.year < 70 {
      DaysIncrease(1901 + g.year, 1970);
    } else if g.year <= 200 {
      DaysIncrease(1970, 1900 + g.year);
      DaysIncrease(1901 + g.year, 2101);
      if g.mday == 0 {
        LastDay(g);
      }
    } else {
      DaysIncrease(2101, 1900 + g.year);
    }
  }

  /** Day 0 of a month is never the last day of a year. */
  lemma LastDay(g: Fields)
    requires Settled(g) && g.mday == 0
    ensures DayOfYear(g) < YearLength(1900 + g.year) - 1
  {
    MonthTable(1900 + g.year, g.mon);
  }

  lemma SameRemainder(a: int, b: int)
    requires a % 0x1_0000_0000 == b % 0x1_0000_0000
    ensures (a - b) % 0x1_0000_0000 == 0
  {
  }

  lemma SameDay(f: Fields, g: Fields)
    requires f.Day() == g.Day() && f.hour == g.hour && f.min == g.min && f.sec == g.sec
    ensures f.Instant() == g.Instant()
  {
  }

  /** Carrying a month number out of range into the year does not move its start. */
  lemma MonthCarry(y: int, m: int)
    requires m >= 0 || m % 12 == 0
    ensures MonthStart(y + TruncQuot(m, 12), TruncRem(m, 12)) == MonthStart(y, m)
  {
    hide DaysToYear, DaysToMonth;
    Divides12(m);
    assert TruncQuot(m, 12) == m / 12 && TruncRem(m, 12) == m % 12;
    assert TruncRem(m, 12) / 12 == 0;
  }

  /** What the results mean, together. */
  lemma Finished(f: Fields, g: Fields)
    requires g.Instant() == f.Instant() && Settled(g)
    ensures f.InRange() && g.InRange() ==> f == g
    ensures 0 <= g.year <= 0x7FFF ==>
      (Seconds(g, DayOfYear(g)) == g.Instant() % 0x1_0000_0000
       <==> g.sec >= 0 && 70 <= g.year <= 200 && !IsDayBefore(g))
    ensures 70 <= g.year <= 200 ==>
      (THURSDAY + DayCount(g.year, DayOfYear(g))) % 0x1_0000 % 7 == (THURSDAY + g.Day()) % 7
  {
    hide MonthStart, DaysToYear, DaysToMonth, IsLeapYear, MonthLength, Fields.Instant, Seconds, DayCount, DayOfYear;
    hide Settled;
    MonthOf(g);
    if f.InRange() && g.InRange() {
      FieldsUnique(f, g);
    }
    if 0 <= g.year <= 0x7FFF {
      SecondsRight(g);
      DayCountOff(g);
      if 70 <= g.year <= 200 {
        WeekdayOf(g);
      }
    }
  }

  /** The day before the epoch is a Wednesday even by the count that has wrapped. */
  lemma WeekdayOf(g: Fields)
    requires Settled(g) && 70 <= g.year <= 200
    ensures (THURSDAY + DayCount(g.year, DayOfYear(g))) % 0x1_0000 % 7 == (THURSDAY + g.Day()) % 7
  {
    hide MonthStart, DaysToYear, DaysToMonth, IsLeapYear, MonthLength, DayOfYear, Settled, Excess;
    DayCountOff(g);
    if IsDayBefore(g) {
      MonthOf(g);
      ExcessBounds(g.year);
      DayOfYearBounds(g);
      DaySum(g);
    }
  }

  class Tm {
    var sec: int
    var min: int
    var hour: int
    var mday: int
    var mon: int
    var year: int
    var wday: int
    var yday: int
    var isdst: int

    ghost function When(): Fields
      reads this
    {
      Fields(sec, min, hour, mday, mon, year)
    }

    constructor ()
      ensures When() == Fields(0, 0, 0, 0, 0, 0)
    {
      sec, min, hour, mday, mon, year := 0, 0, 0, 0, 0, 0;
    }

    /** The carries of seconds, minutes and hours; stops where the sum goes below zero. */
    method CarryClock() returns (ok: bool)
      modifies this
      ensures ok ==> When() == Carried(old(When())) && mday >= 0
      ensures !ok ==> Refused(old(When()))
      ensures Refused(old(When())) && ok ==> old(year) + TruncQuot(old(mon), 12) < 0
      ensures year == old(year) && mon == old(mon) && wday == old(wday) && yday == old(yday) && isdst == old(isdst)
    {
      var quot := TruncQuot(sec, 60);
      sec := TruncRem(sec, 60);
      if min + quot < 0 {
        return false;
      }
      min := min + quot;
      quot := TruncQuot(min, 60);
      min := TruncRem(min, 60);
      if hour + quot < 0 {
        return false;
      }
      hour := hour + quot;
      quot := TruncQuot(hour, 24);
      hour := TruncRem(hour, 24);
      if mday + quot < 0 {
        return false;
      }
      mday := mday + quot;
      return true;
    }

    /** The month loop: moves whole months out of the day until it fits its month. */
    method CarryMonths() returns (ok: bool)
      requires 0 <= mday && (mon >= 0 || mon % 12 == 0 || year + TruncQuot(mon, 12) < 0)
      modifies this`mday, this`mon, this`year
      ensures ok <==> old(year + TruncQuot(mon, 12)) >= 0
      ensures ok ==> MonthStart(1900 + year, mon) + mday == old(MonthStart(1900 + year, mon) + mday)
      ensures ok ==>
        0 <= mon < 12 && 0 <= year && 0 <= mday <= MonthLength(1900 + year, mon) && (mday >= 1 <==> old(mday) >= 1)
    {
      hide MonthStart, DaysToYear, DaysToMonth, IsLeapYear;
      ghost var y := year + TruncQuot(mon, 12);
      while true
        invariant 0 <= mday && (mday >= 1 <==> old(mday) >= 1)
        invariant mon >= 0 || mon % 12 == 0 || year + TruncQuot(mon, 12) < 0
        invariant year + TruncQuot(mon, 12) >= 0 <==> y >= 0
        invariant MonthStart(1900 + year, mon) + mday == old(MonthStart(1900 + year, mon) + mday)
        decreases mday
      {
        Divides12(mon);
        var quot := TruncQuot(mon, 12);
        if year + quot >= 0 {
          MonthCarry(1900 + year, mon);
        }
        mon := TruncRem(mon, 12);
        if year + quot < 0 {
          return false;
        }
        year := year + quot;
        var max := MonthLength(year + 1900, mon);
        if mday > max {
          NextMonth(1900 + year, mon);
          if mon == 11 {
            mon := 0;
            year := year + 1;
          } else {
            mon := mon + 1;
          }
          mday := mday - max;
        } else {
          return true;
        }
      }
    }

    /** Fields denoting an instant are brought into range without moving it, as far as
        seconds are not negative and the day is not 0. The result of a call that is not
        refused is that instant, modulo 2^32, exactly if the seconds are not negative (or
        nothing but whole minutes) and the day, after the carries of the clock, is one of
        1970 to 2100. */
    method MkTime() returns (t: nat)
      requires mon >= 0 || mon % 12 == 0 || Refused(When())
      modifies this
      ensures Refused(old(When())) ==> t == 0xFFFF_FFFF && wday == old(wday) && yday == old(yday) && isdst == old(isdst)
      ensures !Refused(old(When())) ==>
        && When().Instant() == old(When()).Instant()
        && (When().InRange() <==> (old(sec) >= 0 || old(sec) % 60 == 0) && Carried(old(When())).mday >= 1)
        && (old(When()).InRange() ==> When() == old(When()))
        && Settled(When()) && year >= 0 && isdst == 0
      ensures !Refused(old(When())) ==>
        && yday == DayOfYear(When()) && t == Seconds(When(), yday)
        && (year <= 0x7FFF ==>
              (t == old(When()).Instant() % 0x1_0000_0000 <==>
               (old(sec) >= 0 || old(sec) % 60 == 0) && Covered(Carried(old(When())))))
        && (70 <= year <= 200 && !IsDayBefore(When()) <==> Covered(Carried(old(When()))))
        && (70 <= year <= 200 ==> wday == (THURSDAY + When().Day()) % 7)
    {
      hide IsDayBefore, Seconds, DayCount, MonthStart, DaysToYear, DaysToMonth, IsLeapYear, Fields.Instant;
      ghost var f := When();
      var ok := CarryClock();
      if !ok {
        return 0xFFFF_FFFF;
      }
      ghost var g := When();
      if !Refused(f) {
        CarryKeeps(f);
      }
      ok := CarryMonths();
      if !ok {
        return 0xFFFF_FFFF;
      }
      SameDay(g, When());
      yday := MONTH_DAYS[mon] + mday - 1;
      if mon > 1 && IsLeapYear(year + 1900) {
        yday := yday + 1;
      }
      MonthTable(1900 + year, mon);
      var days := DayCount(year, yday);
      wday := (THURSDAY + days) % 0x1_0000 % 7;
      isdst := 0;
      t := Seconds(Fields(sec, min, hour, mday, mon, year), yday);
      Finished(f, When());
      if !Refused(f) {
        CoveredIs(g, When());
      }
    }
  }

  const THURSDAY := 4

  /** Seconds since the epoch to broken-down time: the one in-range date that denotes them.
      Null for values whose signed reading is negative. */
  method LocalTime(tm: Tm, t: nat) returns (ok: bool)
    requires t < 0x1_0000_0000
    modifies tm
    ensures ok <==> t < 0x8000_0000
    ensures ok ==>
      && tm.When().InRange() && tm.When().Instant() == t && 70 <= tm.year < 139
      && tm.yday == DayOfYear(tm.When()) && tm.wday == (THURSDAY + t / 86400) % 7 && tm.isdst == 0
    ensures !ok ==> tm.When() == old(tm.When()) && tm.yday == old(tm.yday) && tm.wday == old(tm.wday)
  {
    hide DaysToYear, MonthStart, MonthLength, Fields.Instant, Carried, DayOfYear;
    if t >= 0x8000_0000 {
      return false;
    }
    tm.sec := t % 3600;
    tm.min := 0;
    tm.hour := t / 3600 % 24;
    tm.mday := t / 86400 + 1;
    tm.mon := 0;
    tm.year := 70;
    SplitTime(t);
    var _ := tm.MkTime();
    EpochYears(tm.When(), t);
    return true;
  }

  /** The fields localtime hands to mktime. */
  lemma SplitTime(t: nat)
    requires t < 0x8000_0000
    ensures var f := Fields(t % 3600, 0, t / 3600 % 24, t / 86400 + 1, 0, 70);
      f.Instant() == t && !Refused(f) && Carried(f).mday >= 1
  {
    hide DaysToYear, MonthLength;
    var q, r := t / 3600, t % 3600;
    var d, h := q / 24, q % 24;
    assert t == 86400 * d + (3600 * h + r);
    DayAndClock(t, d, 3600 * h + r);
    EpochMonth();
    assert TruncQuot(r, 60) == r / 60 && TruncQuot(r / 60, 60) == 0;
  }

  lemma DayAndClock(t: nat, d: nat, c: nat)
    requires t == 86400 * d + c && c < 86400
    ensures t / 86400 == d
  {
  }

  lemma EpochMonth()
    ensures MonthStart(1970, 0) == -1
  {
  }

  lemma EpochYears(f: Fields, t: nat)
    requires f.InRange() && f.Instant() == t < 0x8000_0000
    ensures 70 <= f.year < 139 && f.Day() == t / 86400
  {
    hide Fields.InRange, Fields.Instant, Fields.Day;
    WholeDays(f);
    YearOfDay(f);
  }

  lemma YearOfDay(f: Fields)
    requires f.InRange() && 0 <= f.Day() < 24856
    ensures 70 <= f.year < 139
  {
    hide Fields.InRange, Fields.Day, DaysToYear, DayOfYear, YearLength, MonthLength;
    assert 0 <= f.mon < 12 by { MonthInRange(f); }
    var start := Fields(0, 0, 0, 1, 0, 70);
    EpochDay(start);
    if f.year < 70 {
      LaterYear(f, start);
    } else if f.year >= 139 {
      DaysIncrease(1970, 1900 + f.year);
      InRangeIsSettled(f);
      DayOfYearBounds(f);
      DayParts(f);
    }
  }

  lemma MonthInRange(f: Fields)
    requires f.InRange()
    ensures 0 <= f.mon < 12
  {
  }

  lemma DayParts(f: Fields)
    requires 0 <= f.mon < 12
    ensures f.Day() == DaysToYear(1900 + f.year) + DayOfYear(f)
  {
  }

  lemma EpochDay(f: Fields)
    requires f == Fields(0, 0, 0, 1, 0, 70)
    ensures f.InRange() && f.Day() == 0 && DaysToYear(1970) == 0
  {
  }

  lemma WholeDays(f: Fields)
    requires f.InRange()
    ensures f.Day() == f.Instant() / 86400
  {
    hide MonthStart, MonthLength;
  }

  lemma InRangeAccepted(f: Fields)
    requires f.InRange() && f.year >= 0
    ensures !Refused(f) && Carried(f) == f
  {
    hide MonthLength;
  }

  /** mktime after localtime gives the time back and leaves the fields alone. */
  method RoundTrip(tm: Tm, t: nat) returns (back: nat)
    requires t < 0x8000_0000
    modifies tm
    ensures back == t && tm.When().InRange() && tm.When().Instant() == t
  {
    hide MonthStart, MonthLength, Fields.Instant, Refused, Carried, DayOfYear;
    var _ := LocalTime(tm, t);
    InRangeAccepted(tm.When());
    ghost var f := tm.When();
    back := tm.MkTime();
    assert tm.When() == f;
  }
}
