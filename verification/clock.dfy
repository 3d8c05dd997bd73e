/**
 * Instants, their broken-down calendar form and the `strftime` formats the
 * reporter and the capture code use (`%Y-%m-%d`, `%F`, `%H`, `%H:%M:%S`,
 * `%H:%M:00`).
 *
 * An instant is a whole number of seconds since 1970-01-01 00:00:00 of the
 * wall clock the host reports, so `Time.now - 60 * n` is subtraction and
 * `strftime` reads the proleptic Gregorian calendar.
 */
module Clock {
  import opened Text

  const EpochYear: int := 1970
  const SecondsPerDay: int := 86400

  predicate IsLeap(y: int)
  {
    y % 4 == 0 && (y % 100 != 0 || y % 400 == 0)
  }

  function DaysInYear(y: int): int
  {
    if IsLeap(y) then 366 else 365
  }

  function DaysInMonth(y: int, m: int): int
    requires 1 <= m <= 12
  {
    if m == 2 then (if IsLeap(y) then 29 else 28)
    else if m == 4 || m == 6 || m == 9 || m == 11 then 30
    else 31
  }

  /** Days of year `y` that lie before month `m`; month 13 stands for the end of the year. */
  function DaysBeforeMonth(y: int, m: int): int
    requires 1 <= m <= 13
  {
    [0, 31, 59, 90, 120, 151, 181, 212, 243, 273, 304, 334, 365][m - 1]
      + (if m > 2 && IsLeap(y) then 1 else 0)
  }

  lemma DaysBeforeMonthStep(y: int, m: int)
    requires 1 <= m <= 12
    ensures DaysBeforeMonth(y, m + 1) == DaysBeforeMonth(y, m) + DaysInMonth(y, m)
    ensures DaysBeforeMonth(y, 13) == DaysInYear(y)
  {
  }

  datatype Date = Date(year: int, month: int, day: int)

  predicate ValidDate(d: Date)
  {
    1 <= d.month <= 12 && 1 <= d.day <= DaysInMonth(d.year, d.month)
  }

  /** Days from 1970-01-01 to January 1st of year `y` (negative before 1970). */
  function DaysBeforeYear(y: int): int
    decreases if y >= EpochYear then y - EpochYear else EpochYear - y
  {
    if y == EpochYear then 0
    else if y > EpochYear then DaysBeforeYear(y - 1) + DaysInYear(y - 1)
    else DaysBeforeYear(y + 1) - DaysInYear(y)
  }

  lemma DaysBeforeYearStep(y: int)
    ensures DaysBeforeYear(y + 1) == DaysBeforeYear(y) + DaysInYear(y)
  {
  }

  /** Days from 1970-01-01 to `d`. */
  function DayNumber(d: Date): int
    requires ValidDate(d)
  {
    DaysBeforeYear(d.year) + DaysBeforeMonth(d.year, d.month) + d.day - 1
  }

  /** The year holding the day `d` days after January 1st of `y` (`d >= 0`), and its day of year. */
  function YearForward(y: int, d: int): (r: (int, int))
    requires d >= 0
    ensures 0 <= r.1 < DaysInYear(r.0)
    ensures DaysBeforeYear(r.0) + r.1 == DaysBeforeYear(y) + d
    decreases d
  {
    if d < DaysInYear(y) then (y, d)
    else
      DaysBeforeYearStep(y);
      YearForward(y + 1, d - DaysInYear(y))
  }

  /** The year holding the day `-d` days before January 1st of `y` (`d < 0`), and its day of year. */
  function YearBackward(y: int, d: int): (r: (int, int))
    requires d < 0
    ensures 0 <= r.1 < DaysInYear(r.0)
    ensures DaysBeforeYear(r.0) + r.1 == DaysBeforeYear(y) + d
    decreases -d
  {
    DaysBeforeYearStep(y - 1);
    var d' := d + DaysInYear(y - 1);
    if d' >= 0 then (y - 1, d') else YearBackward(y - 1, d')
  }

  /** The month and day of the day of year `doy`, searching from month `m`. */
  function MonthWalk(y: int, m: int, doy: int): (r: Date)
    requires 1 <= m <= 12
    requires DaysBeforeMonth(y, m) <= doy < DaysInYear(y)
    ensures ValidDate(r) && r.year == y
    ensures DaysBeforeMonth(y, r.month) + r.day - 1 == doy
    decreases 12 - m
  {
    DaysBeforeMonthStep(y, m);
    if doy < DaysBeforeMonth(y, m + 1) then Date(y, m, doy - DaysBeforeMonth(y, m) + 1)
    else MonthWalk(y, m + 1, doy)
  }

  /** The calendar date `n` days after 1970-01-01. */
  function DateOfDay(n: int): (r: Date)
    ensures ValidDate(r)
    ensures DayNumber(r) == n
  {
    var yd := if n >= 0 then YearForward(EpochYear, n) else YearBackward(EpochYear, n);
    MonthWalk(yd.0, 1, yd.1)
  }

  /** A broken-down wall-clock time, as `Time#year`, `#month`, … would report it. */
  datatype Stamp = Stamp(date: Date, hour: int, minute: int, second: int)

  predicate ValidStamp(s: Stamp)
  {
    ValidDate(s.date) && 0 <= s.hour < 24 && 0 <= s.minute < 60 && 0 <= s.second < 60
  }

  /** Seconds since midnight of a time of day. */
  function SecondOfDay(hour: int, minute: int, second: int): int
  {
    hour * 3600 + minute * 60 + second
  }

  /** The instant a valid broken-down time denotes. */
  function InstantOf(s: Stamp): int
    requires ValidStamp(s)
  {
    DayNumber(s.date) * SecondsPerDay + SecondOfDay(s.hour, s.minute, s.second)
  }

  /** The broken-down form of instant `t`: a valid time that denotes `t`. */
  function Breakdown(t: int): (s: Stamp)
    ensures ValidStamp(s)
    ensures InstantOf(s) == t
  {
    var sod := t % SecondsPerDay;
    Stamp(DateOfDay(t / SecondsPerDay), sod / 3600, sod % 3600 / 60, sod % 60)
  }

  /** `%Y`: the year padded to at least four digits, with a minus sign before year 0. */
  function YearString(y: int): string
  {
    if y >= 0 then Pad(y, 4) else "-" + Pad(-y, 4)
  }

  /** `%Y-%m-%d`, which is also `%F`. */
  function FormatDate(d: Date): string
    requires ValidDate(d)
  {
    YearString(d.year) + "-" + Pad(d.month, 2) + "-" + Pad(d.day, 2)
  }

  /** `%H:%M:%S`. */
  function FormatClock(hour: nat, minute: nat, second: nat): string
  {
    Pad(hour, 2) + ":" + Pad(minute, 2) + ":" + Pad(second, 2)
  }

  /** `t.strftime('%Y-%m-%d')`. */
  function DateString(t: int): string
  {
    FormatDate(Breakdown(t).date)
  }

  /** `t.strftime('%H:%M:%S')`. */
  function ClockString(t: int): string
  {
    var s := Breakdown(t);
    FormatClock(s.hour, s.minute, s.second)
  }

  /** `t.strftime('%H')`. */
  function HourString(t: int): string
  {
    Pad(Breakdown(t).hour, 2)
  }

  /** `t.strftime('%H:%M:00')`: the time of day truncated to the minute. */
  function MinuteString(t: int): string
  {
    var s := Breakdown(t);
    FormatClock(s.hour, s.minute, 0)
  }

  /** A time of day in `%H:%M:%S` form is eight characters: digits with colons at 2 and 5. */
  lemma ClockShape(hour: nat, minute: nat, second: nat)
    requires hour < 24 && minute < 60 && second < 60
    ensures var r := FormatClock(hour, minute, second);
            |r| == 8 && r[2] == ':' && r[5] == ':' &&
            r[0..2] == Pad(hour, 2) && r[3..5] == Pad(minute, 2) && r[6..8] == Pad(second, 2) &&
            IsDigit(r[0]) && IsDigit(r[1]) && IsDigit(r[3]) && IsDigit(r[4]) && IsDigit(r[6]) && IsDigit(r[7])
  {
    Pad2Digits(hour);
    Pad2Digits(minute);
    Pad2Digits(second);
  }

  /** Of two strings whose equally long heads differ, the heads decide the order. */
  lemma {:induction false} LexLessByHead(x: string, x': string, y: string, y': string)
    requires |x| == |x'| && x != x'
    ensures LexLess(x + y, x' + y') == LexLess(x, x')
    decreases |x|
  {
    assert (x + y)[0] == x[0] && (x' + y')[0] == x'[0];
    if x[0] == x'[0] {
      assert x[1..] != x'[1..];
      assert (x + y)[1..] == x[1..] + y;
      assert (x' + y')[1..] == x'[1..] + y';
      LexLessByHead(x[1..], x'[1..], y, y');
    }
  }

  /** Two-digit padded numbers compare as strings as they compare as numbers. */
  lemma Pad2Order(a: nat, b: nat)
    requires a < 100 && b < 100
    ensures LexLess(Pad(a, 2), Pad(b, 2)) <==> a < b
    ensures Pad(a, 2) == Pad(b, 2) <==> a == b
  {
    Pad2Digits(a);
    Pad2Digits(b);
    DigitOrder(a / 10, b / 10);
    DigitOrder(a % 10, b % 10);
    var p := Pad(a, 2);
    var q := Pad(b, 2);
    assert a == 10 * (a / 10) + a % 10;
    assert b == 10 * (b / 10) + b % 10;
    assert p == [DigitChar(a / 10), DigitChar(a % 10)];
    assert q == [DigitChar(b / 10), DigitChar(b % 10)];
    if a / 10 == b / 10 {
      assert p[1..] == [DigitChar(a % 10)] && q[1..] == [DigitChar(b % 10)];
      assert LexLess(p, q) == LexLess(p[1..], q[1..]);
    } else {
      assert p[0] != q[0];
      assert LexLess(p, q) == (p[0] < q[0]);
    }
  }

  /**
   * Comparing `AA:rest` with `BB:rest'` for two-digit fields: the fields
   * decide when they differ, the rests otherwise.
   */
  lemma FieldThenRest(a: nat, b: nat, r1: string, r2: string)
    requires a < 100 && b < 100
    ensures LexLess(Pad(a, 2) + ":" + r1, Pad(b, 2) + ":" + r2)
            == if a != b then a < b else LexLess(r1, r2)
  {
    Pad2Order(a, b);
    Pad2Digits(a);
    Pad2Digits(b);
    assert Pad(a, 2) + ":" + r1 == Pad(a, 2) + (":" + r1);
    assert Pad(b, 2) + ":" + r2 == Pad(b, 2) + (":" + r2);
    if a != b {
      LexLessByHead(Pad(a, 2), Pad(b, 2), ":" + r1, ":" + r2);
    } else {
      assert Pad(a, 2) + ":" + r1 == (Pad(a, 2) + ":") + r1;
      assert Pad(b, 2) + ":" + r2 == (Pad(a, 2) + ":") + r2;
      LexLessCommonPrefix(Pad(a, 2) + ":", r1, r2);
    }
  }

  /** Times of day are ordered by hour, then minute, then second. */
  lemma SecondOfDayOrder(h1: nat, m1: nat, s1: nat, h2: nat, m2: nat, s2: nat)
    requires h1 < 24 && m1 < 60 && s1 < 60
    requires h2 < 24 && m2 < 60 && s2 < 60
    ensures SecondOfDay(h1, m1, s1) < SecondOfDay(h2, m2, s2)
            <==> if h1 != h2 then h1 < h2 else if m1 != m2 then m1 < m2 else s1 < s2
  {
    if h1 < h2 {
      assert h1 * 3600 + 3600 <= h2 * 3600;
    } else if h1 > h2 {
      assert h2 * 3600 + 3600 <= h1 * 3600;
    } else if m1 < m2 {
      assert m1 * 60 + 60 <= m2 * 60;
    } else if m1 > m2 {
      assert m2 * 60 + 60 <= m1 * 60;
    }
  }

  lemma ClockRegroup(h: nat, m: nat, s: nat)
    ensures FormatClock(h, m, s) == Pad(h, 2) + ":" + (Pad(m, 2) + ":" + Pad(s, 2))
  {
  }

  /** `HH:MM:SS` strings compare field by field. */
  lemma ClockFieldsOrder(h1: nat, m1: nat, s1: nat, h2: nat, m2: nat, s2: nat)
    requires h1 < 24 && m1 < 60 && s1 < 60
    requires h2 < 24 && m2 < 60 && s2 < 60
    ensures LexLess(FormatClock(h1, m1, s1), FormatClock(h2, m2, s2))
            <==> if h1 != h2 then h1 < h2 else if m1 != m2 then m1 < m2 else s1 < s2
  {
    var tailA := Pad(m1, 2) + ":" + Pad(s1, 2);
    var tailB := Pad(m2, 2) + ":" + Pad(s2, 2);
    ClockRegroup(h1, m1, s1);
    ClockRegroup(h2, m2, s2);
    FieldThenRest(h1, h2, tailA, tailB);
    if h1 == h2 {
      FieldThenRest(m1, m2, Pad(s1, 2), Pad(s2, 2));
      if m1 == m2 {
        Pad2Order(s1, s2);
      }
    }
  }

  /**
   * Zero-padded `HH:MM:SS` strings compare lexicographically exactly as the
   * times of day they denote: the reason a plain string comparison can
   * select records by time.
   */
  lemma ClockOrder(h1: nat, m1: nat, s1: nat, h2: nat, m2: nat, s2: nat)
    requires h1 < 24 && m1 < 60 && s1 < 60
    requires h2 < 24 && m2 < 60 && s2 < 60
    ensures LexLess(FormatClock(h1, m1, s1), FormatClock(h2, m2, s2))
            <==> SecondOfDay(h1, m1, s1) < SecondOfDay(h2, m2, s2)
  {
    ClockFieldsOrder(h1, m1, s1, h2, m2, s2);
    SecondOfDayOrder(h1, m1, s1, h2, m2, s2);
  }
  /** The parts of `Breakdown(t)`: the date of day `t / SecondsPerDay` and the time `t % SecondsPerDay`. */
  lemma BreakdownParts(t: int)
    ensures Breakdown(t).date == DateOfDay(t / SecondsPerDay)
    ensures var s := Breakdown(t);
            SecondOfDay(s.hour, s.minute, s.second) == t % SecondsPerDay
  {
    var sod := t % SecondsPerDay;
    assert sod == sod / 3600 * 3600 + sod % 3600;
    assert sod % 3600 == sod % 3600 / 60 * 60 + sod % 3600 % 60;
    assert sod % 3600 % 60 == sod % 60;
  }

  /**
   * `%H:%M:00` of `t` denotes the start of the minute holding `t`: its
   * seconds since midnight are `t`'s rounded down to a multiple of 60.
   */
  lemma MinuteFloor(t: int)
    ensures var s := Breakdown(t);
            SecondOfDay(s.hour, s.minute, 0) == t % SecondsPerDay / 60 * 60
  {
    var sod := t % SecondsPerDay;
    var q := sod / 3600;
    var r := sod % 3600;
    assert sod == q * 3600 + r;
    assert r == r / 60 * 60 + r % 60;
    assert sod == (q * 60 + r / 60) * 60 + r % 60;
    assert sod / 60 == q * 60 + r / 60;
  }

  /** `%Y` is never empty, and starts with a digit or the minus sign. */
  lemma YearStringShape(y: int)
    ensures |YearString(y)| >= 4
    ensures forall i :: 0 <= i < |YearString(y)| ==> IsDigit(YearString(y)[i]) || YearString(y)[i] == '-'
    ensures y >= 0 <==> IsDigit(YearString(y)[0])
  {
    if y < 0 {
      assert YearString(y)[1..] == Pad(-y, 4);
    }
  }

  /** Different years print differently. */
  lemma YearStringInjective(y1: int, y2: int)
    requires YearString(y1) == YearString(y2)
    ensures y1 == y2
  {
    YearStringShape(y1);
    YearStringShape(y2);
    if y1 >= 0 {
      PadRoundTrip(y1, 4);
      PadRoundTrip(y2, 4);
    } else {
      assert Pad(-y1, 4) == YearString(y1)[1..] == YearString(y2)[1..] == Pad(-y2, 4);
      PadRoundTrip(-y1, 4);
      PadRoundTrip(-y2, 4);
    }
  }

  /** Where the fields of a `%Y-%m-%d` string lie. */
  lemma DateFields(d: Date)
    requires ValidDate(d)
    ensures var s := FormatDate(d);
            var n := |YearString(d.year)|;
            |s| == n + 6 && s[..n] == YearString(d.year) &&
            s[n + 1..n + 3] == Pad(d.month, 2) && s[n + 4..] == Pad(d.day, 2)
  {
    Pad2Digits(d.month);
    Pad2Digits(d.day);
  }

  /** `%Y-%m-%d` tells valid dates apart. */
  lemma FormatDateInjective(d1: Date, d2: Date)
    requires ValidDate(d1) && ValidDate(d2)
    requires FormatDate(d1) == FormatDate(d2)
    ensures d1 == d2
  {
    DateFields(d1);
    DateFields(d2);
    Pad2Order(d1.month, d2.month);
    Pad2Order(d1.day, d2.day);
    YearStringInjective(d1.year, d2.year);
  }

  /** Two instants print the same `%Y-%m-%d` exactly when they fall on the same day. */
  lemma DateStringSameDay(t: int, u: int)
    ensures DateString(t) == DateString(u) <==> t / SecondsPerDay == u / SecondsPerDay
  {
    BreakdownParts(t);
    BreakdownParts(u);
    if DateString(t) == DateString(u) {
      FormatDateInjective(Breakdown(t).date, Breakdown(u).date);
    }
  }

  /** A `%Y-%m-%d` string is digits and dashes, starting with either. */
  lemma DateStringChars(t: int)
    ensures |DateString(t)| >= 1
    ensures forall i :: 0 <= i < |DateString(t)| ==> IsDigit(DateString(t)[i]) || DateString(t)[i] == '-'
  {
    var d := Breakdown(t).date;
    YearStringShape(d.year);
    Pad2Digits(d.month);
    Pad2Digits(d.day);
  }

  /** A `%H` string is two digits. */
  lemma HourStringChars(t: int)
    ensures |HourString(t)| == 2 && AllDigits(HourString(t))
  {
    Pad2Digits(Breakdown(t).hour);
  }

  /** A `%H:%M:%S` string is two digits, a colon, two digits, a colon and two digits. */
  lemma ClockStringChars(t: int)
    ensures |ClockString(t)| == 8
    ensures forall i :: 0 <= i < 8 ==> IsDigit(ClockString(t)[i]) || ClockString(t)[i] == ':'
  {
    var b := Breakdown(t);
    ClockShape(b.hour, b.minute, b.second);
  }
}
