/**
 * System.DateTime and System.DateTimeOffset as the engine sees them.
 *
 * A DateTime is a count of 100-nanosecond ticks since 0001-01-01 00:00:00
 * in the proleptic Gregorian calendar, between 0 and the ticks of
 * 9999-12-31 23:59:59.9999999. Its calendar components come from the same
 * 400/100/4/1-year decomposition of the day number as .NET uses; the
 * decomposition is proved to be the inverse of the days-from-civil count.
 * A DateTimeOffset is a clock DateTime plus an offset from UTC in minutes.
 */
module Calendar {
  import opened ClrTypes

  const TicksPerMillisecond: int := 10_000
  const TicksPerMicrosecond: int := 10
  const TicksPerSecond: int := 10_000_000
  const TicksPerMinute: int := 600_000_000
  const TicksPerHour: int := 36_000_000_000
  const TicksPerDay: int := 864_000_000_000

  const DaysPer4Years: int := 1461
  const DaysPer100Years: int := 36524
  const DaysPer400Years: int := 146097
  /** Days from 0001-01-01 to 10000-01-01. */
  const DaysTo10000: int := 3_652_059
  /** The ticks of DateTime.MaxValue, DaysTo10000 * TicksPerDay - 1. */
  const MaxTicks: int := 3_155_378_975_999_999_999
  /** A DateTimeOffset's offset lies within 14 hours of UTC. */
  const MaxOffsetMinutes: int := 840

  type Ticks = t: int | 0 <= t <= MaxTicks

  // ---------------------------------------------------------------------
  // The proleptic Gregorian calendar
  // ---------------------------------------------------------------------

  datatype Civil = Civil(year: int, month: int, day: int)

  predicate IsLeapYear(year: int) {
    year % 4 == 0 && (year % 100 != 0 || year % 400 == 0)
  }

  function DaysInYear(year: int): int {
    if IsLeapYear(year) then 366 else 365
  }

  /** Days from 0001-01-01 to January 1 of `year`. */
  function DaysBeforeYear(year: int): int
    requires year >= 1
  {
    var p := year - 1;
    365 * p + p / 4 - p / 100 + p / 400
  }

  /** Days from January 1 to the first of `month` (13 stands for the next January 1). */
  function DaysBeforeMonth(month: int, leap: bool): int
    requires 1 <= month <= 13
  {
    [0, 31, 59, 90, 120, 151, 181, 212, 243, 273, 304, 334, 365][month - 1]
      + (if leap && month > 2 then 1 else 0)
  }

  function DaysInMonth(year: int, month: int): int
    requires 1 <= month <= 12
  {
    DaysBeforeMonth(month + 1, IsLeapYear(year)) - DaysBeforeMonth(month, IsLeapYear(year))
  }

  predicate ValidCivil(c: Civil) {
    && 1 <= c.year <= 9999
    && 1 <= c.month <= 12
    && 1 <= c.day <= DaysInMonth(c.year, c.month)
  }

  /** Days from 0001-01-01 to the date `c`. */
  function DayNumberOfCivil(c: Civil): int
    requires ValidCivil(c)
  {
    DaysBeforeYear(c.year) + DaysBeforeMonth(c.month, IsLeapYear(c.year)) + c.day - 1
  }

  /** A year written as 400*a + 100*b + 4*c + d + 1 starts after this many days. */
  lemma DaysBeforeYearParts(a: int, b: int, c: int, d: int)
    requires a >= 0 && 0 <= b <= 3 && 0 <= c <= 24 && 0 <= d <= 3
    ensures DaysBeforeYear(400 * a + 100 * b + 4 * c + d + 1)
         == DaysPer400Years * a + DaysPer100Years * b + DaysPer4Years * c + 365 * d
  {
    var p := 400 * a + 100 * b + 4 * c + d;
    assert p / 4 == 100 * a + 25 * b + c;
    assert p / 100 == 4 * a + b;
    assert p / 400 == a;
  }

  /** Which years of the decomposition are leap years. */
  lemma LeapOfParts(a: int, b: int, c: int, d: int)
    requires a >= 0 && 0 <= b <= 3 && 0 <= c <= 24 && 0 <= d <= 3
    ensures IsLeapYear(400 * a + 100 * b + 4 * c + d + 1) <==> d == 3 && (c < 24 || b == 3)
  {
    var year := 400 * a + 100 * b + 4 * c + d + 1;
    if d < 3 {
      RemainderBy4(100 * a + 25 * b + c, d + 1);
    } else if c < 24 {
      RemainderBy4(100 * a + 25 * b + c + 1, 0);
      RemainderBy100(4 * a + b, 4 * c + 4);
    } else if b < 3 {
      RemainderBy4(100 * a + 25 * b + 25, 0);
      RemainderBy100(4 * a + b + 1, 0);
      RemainderBy400(a, 100 * (b + 1));
    } else {
      RemainderBy4(100 * a + 100, 0);
      RemainderBy100(4 * a + 4, 0);
      RemainderBy400(a + 1, 0);
    }
  }

  lemma RemainderBy4(q: int, r: int)
    requires 0 <= r < 4
    ensures (4 * q + r) % 4 == r
  {
  }

  lemma RemainderBy100(q: int, r: int)
    requires 0 <= r < 100
    ensures (100 * q + r) % 100 == r
  {
  }

  lemma RemainderBy400(q: int, r: int)
    requires 0 <= r < 400
    ensures (400 * q + r) % 400 == r
  {
  }

  /** Consecutive years are DaysInYear apart. */
  lemma DaysBeforeNextYear(year: int)
    requires year >= 1
    ensures DaysBeforeYear(year + 1) == DaysBeforeYear(year) + DaysInYear(year)
  {
    QuotientStep4(year - 1);
    QuotientStep100(year - 1);
    QuotientStep400(year - 1);
    DivisibilityChain(year);
  }

  /** A multiple of 400 is a multiple of 100, and a multiple of 100 one of 4. */
  lemma DivisibilityChain(year: int)
    ensures year % 400 == 0 ==> year % 100 == 0
    ensures year % 100 == 0 ==> year % 4 == 0
  {
    if year % 400 == 0 {
      RemainderBy100(4 * (year / 400), 0);
      assert year == 100 * (4 * (year / 400));
    }
    if year % 100 == 0 {
      RemainderBy4(25 * (year / 100), 0);
      assert year == 4 * (25 * (year / 100));
    }
  }

  lemma QuotientStep4(p: nat)
    ensures (p + 1) / 4 == p / 4 + (if (p + 1) % 4 == 0 then 1 else 0)
  {
    var q, r := p / 4, p % 4;
    assert p == 4 * q + r;
    if r == 3 {
      assert p + 1 == 4 * (q + 1);
    } else {
      assert p + 1 == 4 * q + (r + 1);
    }
  }

  lemma QuotientStep100(p: nat)
    ensures (p + 1) / 100 == p / 100 + (if (p + 1) % 100 == 0 then 1 else 0)
  {
    var q, r := p / 100, p % 100;
    assert p == 100 * q + r;
    if r == 99 {
      assert p + 1 == 100 * (q + 1);
    } else {
      assert p + 1 == 100 * q + (r + 1);
    }
  }

  lemma QuotientStep400(p: nat)
    ensures (p + 1) / 400 == p / 400 + (if (p + 1) % 400 == 0 then 1 else 0)
  {
    var q, r := p / 400, p % 400;
    assert p == 400 * q + r;
    if r == 399 {
      assert p + 1 == 400 * (q + 1);
    } else {
      assert p + 1 == 400 * q + (r + 1);
    }
  }

  lemma {:induction false} DaysBeforeYearMonotone(year: int, later: int)
    requires 1 <= year <= later
    ensures DaysBeforeYear(year) + 365 * (later - year) <= DaysBeforeYear(later)
    decreases later - year
  {
    if year < later {
      DaysBeforeNextYear(year);
      DaysBeforeYearMonotone(year + 1, later);
    }
  }

  /** The month containing day `r` (0-based) of a year. */
  function MonthOfDayInYear(r: int, leap: bool): (m: int)
    requires 0 <= r < DaysBeforeMonth(13, leap)
    ensures 1 <= m <= 12
    ensures DaysBeforeMonth(m, leap) <= r < DaysBeforeMonth(m + 1, leap)
  {
    if r < DaysBeforeMonth(2, leap) then 1
    else if r < DaysBeforeMonth(3, leap) then 2
    else if r < DaysBeforeMonth(4, leap) then 3
    else if r < DaysBeforeMonth(5, leap) then 4
    else if r < DaysBeforeMonth(6, leap) then 5
    else if r < DaysBeforeMonth(7, leap) then 6
    else if r < DaysBeforeMonth(8, leap) then 7
    else if r < DaysBeforeMonth(9, leap) then 8
    else if r < DaysBeforeMonth(10, leap) then 9
    else if r < DaysBeforeMonth(11, leap) then 10
    else if r < DaysBeforeMonth(12, leap) then 11
    else 12
  }

  /**
   * The year containing day number `n`, and the day's 0-based position in
   * it, by the 400/100/4/1-year decomposition; the last day of a 400-year
   * or 4-year cycle falls in the cycle's fourth century or year.
   */
  function YearOfDay(n: int): (yd: (int, int))
    requires 0 <= n < DaysTo10000
    ensures 1 <= yd.0 <= 9999 && 0 <= yd.1 < DaysInYear(yd.0)
    ensures DaysBeforeYear(yd.0) + yd.1 == n
  {
    var y400 := n / DaysPer400Years;
    var n1 := n % DaysPer400Years;
    var y100 := if n1 / DaysPer100Years == 4 then 3 else n1 / DaysPer100Years;
    var n2 := n1 - y100 * DaysPer100Years;
    var y4 := n2 / DaysPer4Years;
    var n3 := n2 % DaysPer4Years;
    var y1 := if n3 / 365 == 4 then 3 else n3 / 365;
    var r := n3 - y1 * 365;
    var year := 400 * y400 + 100 * y100 + 4 * y4 + y1 + 1;
    assert y400 <= 24;
    assert n == DaysPer400Years * y400 + DaysPer100Years * y100 + DaysPer4Years * y4 + 365 * y1 + r;
    LeapOfParts(y400, y100, y4, y1);
    assert r < DaysInYear(year) by {
      if y1 == 3 && y4 == 24 && y100 < 3 {
        assert n2 < DaysPer100Years;
      }
    }
    DaysBeforeYearParts(y400, y100, y4, y1);
    (year, r)
  }

  /** The calendar date of day number `n`: a valid date whose day number is `n`. */
  function CivilOfDay(n: int): (c: Civil)
    requires 0 <= n < DaysTo10000
    ensures ValidCivil(c)
    ensures DayNumberOfCivil(c) == n
  {
    var (year, r) := YearOfDay(n);
    var leap := IsLeapYear(year);
    var m := MonthOfDayInYear(r, leap);
    Civil(year, m, r - DaysBeforeMonth(m, leap) + 1)
  }

  /** Year and month of a date determine the range of its day numbers. */
  lemma DayNumberWithinYear(c: Civil)
    requires ValidCivil(c)
    ensures DaysBeforeYear(c.year) <= DayNumberOfCivil(c) < DaysBeforeYear(c.year) + DaysInYear(c.year)
    ensures DaysBeforeMonth(c.month, IsLeapYear(c.year))
         <= DayNumberOfCivil(c) - DaysBeforeYear(c.year)
         < DaysBeforeMonth(c.month + 1, IsLeapYear(c.year))
  {
  }

  /** Every valid date has a day number below DaysTo10000. */
  lemma DayNumberInRange(c: Civil)
    requires ValidCivil(c)
    ensures 0 <= DayNumberOfCivil(c) < DaysTo10000
  {
    DayNumberWithinYear(c);
    DaysBeforeYearMonotone(c.year, 9999);
    DaysBeforeNextYear(c.year);
    DaysBeforeYearMonotone(c.year + 1, 10000);
    assert DaysBeforeYear(10000) == DaysTo10000;
  }

  /** Two valid dates with the same day number fall in the same year. */
  lemma DayNumberDeterminesYear(c: Civil, d: Civil)
    requires ValidCivil(c) && ValidCivil(d)
    requires DayNumberOfCivil(c) == DayNumberOfCivil(d)
    ensures c.year == d.year
  {
    DayNumberWithinYear(c);
    DayNumberWithinYear(d);
    if c.year < d.year {
      DaysBeforeNextYear(c.year);
      DaysBeforeYearMonotone(c.year + 1, d.year);
    } else if d.year < c.year {
      DaysBeforeNextYear(d.year);
      DaysBeforeYearMonotone(d.year + 1, c.year);
    }
  }

  /** Two valid dates with the same day number are the same date. */
  lemma DayNumberInjective(c: Civil, d: Civil)
    requires ValidCivil(c) && ValidCivil(d)
    requires DayNumberOfCivil(c) == DayNumberOfCivil(d)
    ensures c == d
  {
    DayNumberDeterminesYear(c, d);
    var leap := IsLeapYear(c.year);
    var k := DayNumberOfCivil(c) - DaysBeforeYear(c.year);
    assert k == DaysBeforeMonth(c.month, leap) + c.day - 1;
    assert k == DaysBeforeMonth(d.month, leap) + d.day - 1;
    if c.month < d.month {
      DaysBeforeMonthMonotone(c.month + 1, d.month, leap);
    } else if d.month < c.month {
      DaysBeforeMonthMonotone(d.month + 1, c.month, leap);
    }
  }

  lemma DaysBeforeMonthMonotone(m: int, later: int, leap: bool)
    requires 1 <= m <= later <= 13
    ensures DaysBeforeMonth(m, leap) <= DaysBeforeMonth(later, leap)
  {
  }

  /** Decomposing the day number of a valid date gives that date back. */
  lemma CivilRoundTrip(c: Civil)
    requires ValidCivil(c)
    ensures 0 <= DayNumberOfCivil(c) < DaysTo10000
    ensures CivilOfDay(DayNumberOfCivil(c)) == c
  {
    DayNumberInRange(c);
    DayNumberInjective(CivilOfDay(DayNumberOfCivil(c)), c);
  }

  // ---------------------------------------------------------------------
  // System.DateTime
  // ---------------------------------------------------------------------

  datatype DateTime = DateTime(ticks: Ticks) {

    /** Whole days since 0001-01-01. */
    function DayNumber(): (n: int)
      ensures 0 <= n < DaysTo10000
    {
      ticks / TicksPerDay
    }

    /** The `Date` property: the same day at midnight. */
    function Date(): (d: DateTime)
      ensures d.ticks % TicksPerDay == 0
      ensures d.DayNumber() == DayNumber()
      ensures d.ticks <= ticks < d.ticks + TicksPerDay
    {
      DateTime(DayNumber() * TicksPerDay)
    }

    function CivilDate(): Civil {
      CivilOfDay(DayNumber())
    }

    function Year(): (y: int)
      ensures 1 <= y <= 9999
    {
      CivilDate().year
    }

    function Month(): (m: int)
      ensures 1 <= m <= 12
    {
      CivilDate().month
    }

    function Hour(): (h: int)
      ensures 0 <= h < 24
    {
      (ticks / TicksPerHour) % 24
    }

    function Minute(): (m: int)
      ensures 0 <= m < 60
    {
      (ticks / TicksPerMinute) % 60
    }

    function Second(): (s: int)
      ensures 0 <= s < 60
    {
      (ticks / TicksPerSecond) % 60
    }

    function Millisecond(): (ms: int)
      ensures 0 <= ms < 1000
    {
      (ticks / TicksPerMillisecond) % 1000
    }

    /** Whole hours since 0001-01-01 00:00: the day number and the hour of that day. */
    function HourNumber(): (n: int)
      ensures n == DayNumber() * 24 + Hour()
    {
      HoursOfDays(ticks);
      ticks / TicksPerHour
    }

    /** Whole minutes since the epoch: the hour number and the minute of that hour. */
    function MinuteNumber(): (n: int)
      ensures n == HourNumber() * 60 + Minute()
    {
      MinutesOfHours(ticks);
      ticks / TicksPerMinute
    }

    /** Whole seconds since the epoch: the minute number and the second of that minute. */
    function SecondNumber(): (n: int)
      ensures n == MinuteNumber() * 60 + Second()
    {
      SecondsOfMinutes(ticks);
      ticks / TicksPerSecond
    }

    /** Whole milliseconds since the epoch: the second number and the millisecond of that second. */
    function MillisecondNumber(): (n: int)
      ensures n == SecondNumber() * 1000 + Millisecond()
    {
      MillisecondsOfSeconds(ticks);
      ticks / TicksPerMillisecond
    }

    /** The microsecond of the millisecond, as .NET's `Microsecond` property gives it. */
    function Microsecond(): (us: int)
      ensures 0 <= us < 1000
    {
      (ticks / TicksPerMicrosecond) % 1000
    }

    /** Whole microseconds since the epoch: the millisecond number and the microsecond of that millisecond. */
    function MicrosecondNumber(): (n: int)
      ensures n == MillisecondNumber() * 1000 + Microsecond()
    {
      MicrosecondsOfMilliseconds(ticks);
      ticks / TicksPerMicrosecond
    }
  }

  // Each clock unit splits into whole units of the next larger one and a remainder.

  lemma HoursOfDays(t: nat)
    ensures t / TicksPerHour == (t / TicksPerDay) * 24 + (t / TicksPerHour) % 24
  {
    var q, rest := t / TicksPerHour, t % TicksPerHour;
    var hi, lo := q / 24, q % 24;
    assert t == TicksPerHour * q + rest;
    assert q == 24 * hi + lo;
    assert t == TicksPerDay * hi + (TicksPerHour * lo + rest);
    assert t / TicksPerDay == hi;
  }

  lemma MinutesOfHours(t: nat)
    ensures t / TicksPerMinute == (t / TicksPerHour) * 60 + (t / TicksPerMinute) % 60
  {
    var q, rest := t / TicksPerMinute, t % TicksPerMinute;
    var hi, lo := q / 60, q % 60;
    assert t == TicksPerMinute * q + rest;
    assert q == 60 * hi + lo;
    assert t == TicksPerHour * hi + (TicksPerMinute * lo + rest);
    assert t / TicksPerHour == hi;
  }

  lemma SecondsOfMinutes(t: nat)
    ensures t / TicksPerSecond == (t / TicksPerMinute) * 60 + (t / TicksPerSecond) % 60
  {
    var q, rest := t / TicksPerSecond, t % TicksPerSecond;
    var hi, lo := q / 60, q % 60;
    assert t == TicksPerSecond * q + rest;
    assert q == 60 * hi + lo;
    assert t == TicksPerMinute * hi + (TicksPerSecond * lo + rest);
    assert t / TicksPerMinute == hi;
  }

  lemma MillisecondsOfSeconds(t: nat)
    ensures t / TicksPerMillisecond == (t / TicksPerSecond) * 1000 + (t / TicksPerMillisecond) % 1000
  {
    var q, rest := t / TicksPerMillisecond, t % TicksPerMillisecond;
    var hi, lo := q / 1000, q % 1000;
    assert t == TicksPerMillisecond * q + rest;
    assert q == 1000 * hi + lo;
    assert t == TicksPerSecond * hi + (TicksPerMillisecond * lo + rest);
    assert t / TicksPerSecond == hi;
  }

  lemma MicrosecondsOfMilliseconds(t: nat)
    ensures t / TicksPerMicrosecond == (t / TicksPerMillisecond) * 1000 + (t / TicksPerMicrosecond) % 1000
  {
    var q, rest := t / TicksPerMicrosecond, t % TicksPerMicrosecond;
    var hi, lo := q / 1000, q % 1000;
    assert t == TicksPerMicrosecond * q + rest;
    assert q == 1000 * hi + lo;
    assert t == TicksPerMillisecond * hi + (TicksPerMicrosecond * lo + rest);
    assert t / TicksPerMillisecond == hi;
  }

  /** The first tick of day `n` has day number `n` and every time-of-day field zero. */
  lemma MidnightOfDay(n: int)
    requires 0 <= n < DaysTo10000
    ensures 0 <= n * TicksPerDay <= MaxTicks
    ensures var d := DateTime(n * TicksPerDay);
      d.DayNumber() == n && d.Hour() == 0 && d.Minute() == 0 && d.Second() == 0 && d.Millisecond() == 0
  {
    MidnightHour(n);
    MidnightMinute(n);
    MidnightSecond(n);
    MidnightMillisecond(n);
  }

  lemma MidnightHour(n: nat)
    ensures (n * TicksPerDay / TicksPerHour) % 24 == 0
  {
    var k := n * 24;
    assert n * TicksPerDay == k * TicksPerHour;
    assert k * TicksPerHour / TicksPerHour == k;
  }

  lemma MidnightMinute(n: nat)
    ensures (n * TicksPerDay / TicksPerMinute) % 60 == 0
  {
    var k := n * 24;
    assert n * TicksPerDay == (k * 60) * TicksPerMinute;
    assert (k * 60) * TicksPerMinute / TicksPerMinute == k * 60;
  }

  lemma MidnightSecond(n: nat)
    ensures (n * TicksPerDay / TicksPerSecond) % 60 == 0
  {
    var k := n * 1440;
    assert n * TicksPerDay == (k * 60) * TicksPerSecond;
    assert (k * 60) * TicksPerSecond / TicksPerSecond == k * 60;
  }

  lemma MidnightMillisecond(n: nat)
    ensures (n * TicksPerDay / TicksPerMillisecond) % 1000 == 0
  {
    var k := n * 86400;
    assert n * TicksPerDay == (k * 1000) * TicksPerMillisecond;
    assert (k * 1000) * TicksPerMillisecond / TicksPerMillisecond == k * 1000;
  }

  /** Midnight at the start of a valid date: its components read back as that date. */
  function FromCivil(c: Civil): (d: DateTime)
    requires ValidCivil(c)
    ensures d.CivilDate() == c
    ensures d.DayNumber() == DayNumberOfCivil(c)
    ensures d.Hour() == 0 && d.Minute() == 0 && d.Second() == 0 && d.Millisecond() == 0
  {
    CivilRoundTrip(c);
    var n := DayNumberOfCivil(c);
    MidnightOfDay(n);
    DateTime(n * TicksPerDay)
  }

  // ---------------------------------------------------------------------
  // System.DateTimeOffset
  // ---------------------------------------------------------------------

  datatype ClockAndOffset = ClockAndOffset(clock: DateTime, offsetMinutes: int) {
    function UtcTicks(): int {
      clock.ticks - offsetMinutes * TicksPerMinute
    }
  }

  /** What the DateTimeOffset constructors check: the offset and the UTC instant are in range. */
  predicate IsValidDateTimeOffset(d: ClockAndOffset) {
    -MaxOffsetMinutes <= d.offsetMinutes <= MaxOffsetMinutes && 0 <= d.UtcTicks() <= MaxTicks
  }

  type DateTimeOffset = d: ClockAndOffset | IsValidDateTimeOffset(d)
    witness ClockAndOffset(DateTime(0), 0)

  /** The `UtcDateTime` property: the same instant as a UTC DateTime. */
  function UtcDateTime(d: DateTimeOffset): (u: DateTime)
    ensures u.ticks + d.offsetMinutes * TicksPerMinute == d.clock.ticks
  {
    DateTime(d.UtcTicks())
  }

  /**
   * `new DateTimeOffset(dateTime, offset)` for an offset in whole minutes,
   * which is what the implicit conversion from DateTime does with the
   * offset of the local time zone: ArgumentOutOfRangeException when the
   * offset exceeds 14 hours or the UTC instant leaves the DateTime range.
   */
  function ToDateTimeOffset(dt: DateTime, offsetMinutes: int): (r: Result<DateTimeOffset>)
    ensures r.Ok? <==> -MaxOffsetMinutes <= offsetMinutes <= MaxOffsetMinutes
                       && 0 <= dt.ticks - offsetMinutes * TicksPerMinute <= MaxTicks
    ensures r.Ok? ==> r.value.clock == dt && r.value.offsetMinutes == offsetMinutes
    ensures r.Fail? ==> r.error == ArgumentOutOfRange
  {
    var d := ClockAndOffset(dt, offsetMinutes);
    if IsValidDateTimeOffset(d) then Ok(d) else Fail(ArgumentOutOfRange)
  }

  /** A converted DateTime denotes the instant its ticks less the offset. */
  lemma ToDateTimeOffsetUtc(dt: DateTime, offsetMinutes: int)
    requires ToDateTimeOffset(dt, offsetMinutes).Ok?
    ensures UtcDateTime(ToDateTimeOffset(dt, offsetMinutes).value) == DateTime(dt.ticks - offsetMinutes * TicksPerMinute)
  {
  }
}
