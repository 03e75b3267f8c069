/**
 * The `EFFunctions` boundary counts. For each of the nine units there is a
 * DateTime overload written out below, and three overloads built the same
 * way from it for every unit: the DateTimeOffset one (both instants taken in
 * UTC), and a nullable one for each of the two (null in, null out).
 *
 * Year, month and day subtract calendar components and cannot overflow.
 * Hour, minute, second and millisecond cascade from the next coarser unit
 * in `checked` int arithmetic, checked after every operation. Microsecond
 * and nanosecond work on the 64-bit tick difference and narrow it to int
 * with checking.
 */
module EFFunctions {
  import opened ClrTypes
  import opened Calendar
  import opened EFEnum

  /** Months since January of year 1. */
  function MonthNumber(t: DateTime): int {
    12 * (t.Year() - 1) + t.Month() - 1
  }

  // ---------------------------------------------------------------------
  // The DateTime overloads
  // ---------------------------------------------------------------------

  /** `endDate.Year - startDate.Year`, outside `checked`; the years 1-9999 keep it in range. */
  function DiffYear(s: DateTime, e: DateTime): (r: Int32)
    ensures -9998 <= r <= 9998
  {
    e.Year() - s.Year()
  }

  /** `12 * (endDate.Year - startDate.Year) + endDate.Month - startDate.Month`. */
  function DiffMonth(s: DateTime, e: DateTime): (r: Int32)
    ensures r == MonthNumber(e) - MonthNumber(s)
    ensures -119987 <= r <= 119987
  {
    12 * (e.Year() - s.Year()) + e.Month() - s.Month()
  }

  /**
   * `(endDate.Date - startDate.Date).Days`: the TimeSpan between the two
   * midnights, whose `Days` truncates toward zero.
   */
  function DiffDay(s: DateTime, e: DateTime): (r: Int32)
    ensures r == e.DayNumber() - s.DayNumber()
  {
    var span := e.Date().ticks - s.Date().ticks;
    TruncDiv(span, TicksPerDay)
  }

  /**
   * `checked(DateDiffDay(s, e) * 24 + endDate.Hour - startDate.Hour)`. No
   * step can overflow, since whole days differ by less than 3652059.
   */
  function DiffHour(s: DateTime, e: DateTime): (r: Result<Int32>)
    ensures r.Ok? && r.value == e.HourNumber() - s.HourNumber()
  {
    var d := DiffDay(s, e);
    assert InInt32(d * 24) && InInt32(d * 24 + e.Hour());
    Sub32(d * 24 + e.Hour(), s.Hour())
  }

  /**
   * `checked(DateDiffHour(s, e) * 60 + endDate.Minute - startDate.Minute)`.
   * A success is the exact count of minute boundaries; a count outside int
   * is an overflow, and every count 60 or more inside the int range succeeds.
   */
  function DiffMinute(s: DateTime, e: DateTime): (r: Result<Int32>)
    ensures r.Ok? ==> r.value == e.MinuteNumber() - s.MinuteNumber()
    ensures r.Fail? ==> r.error == Overflow
    ensures !InInt32(e.MinuteNumber() - s.MinuteNumber()) ==> r.Fail?
    ensures -(MaxInt32 - 60) <= e.MinuteNumber() - s.MinuteNumber() <= MaxInt32 - 60 ==> r.Ok?
  {
    var h := DiffHour(s, e).value;
    var m :- Mul32(h, 60);
    var m' :- Add32(m, e.Minute());
    Sub32(m', s.Minute())
  }

  /** `checked(DateDiffMinute(s, e) * 60 + endDate.Second - startDate.Second)`. */
  function DiffSecond(s: DateTime, e: DateTime): (r: Result<Int32>)
    ensures r.Ok? ==> r.value == e.SecondNumber() - s.SecondNumber()
    ensures r.Fail? ==> r.error == Overflow
    ensures !InInt32(e.SecondNumber() - s.SecondNumber()) ==> r.Fail?
    ensures -(MaxInt32 - 60) <= e.SecondNumber() - s.SecondNumber() <= MaxInt32 - 60 ==> r.Ok?
  {
    var m :- DiffMinute(s, e);
    var x :- Mul32(m, 60);
    var x' :- Add32(x, e.Second());
    Sub32(x', s.Second())
  }

  /** `checked(DateDiffSecond(s, e) * 1000 + endDate.Millisecond - startDate.Millisecond)`. */
  function DiffMillisecond(s: DateTime, e: DateTime): (r: Result<Int32>)
    ensures r.Ok? ==> r.value == e.MillisecondNumber() - s.MillisecondNumber()
    ensures r.Fail? ==> r.error == Overflow
    ensures !InInt32(e.MillisecondNumber() - s.MillisecondNumber()) ==> r.Fail?
    ensures -(MaxInt32 - 1000) <= e.MillisecondNumber() - s.MillisecondNumber() <= MaxInt32 - 1000 ==> r.Ok?
  {
    var x :- DiffSecond(s, e);
    var y :- Mul32(x, 1000);
    var y' :- Add32(y, e.Millisecond());
    Sub32(y', s.Millisecond())
  }

  /**
   * `checked((int)((endDate.Ticks - startDate.Ticks) / 10))`: the elapsed
   * time in whole microseconds, truncated toward zero. It succeeds exactly
   * when the quotient fits in int.
   */
  function DiffMicrosecond(s: DateTime, e: DateTime): (r: Result<Int32>)
    ensures r.Ok? <==> -21_474_836_489 <= e.ticks - s.ticks <= 21_474_836_479
    ensures r.Ok? && e.ticks >= s.ticks ==> 0 <= (e.ticks - s.ticks) - 10 * r.value < 10
    ensures r.Ok? && e.ticks < s.ticks ==> -10 < (e.ticks - s.ticks) - 10 * r.value <= 0
    ensures r.Fail? ==> r.error == Overflow
  {
    // the checked long subtraction cannot overflow: both operands lie in [0, MaxTicks]
    var delta: Int64 := e.ticks - s.ticks;
    NarrowToInt32(TruncDiv(delta, 10))
  }

  /**
   * `checked((int)((endDate.Ticks - startDate.Ticks) * 100))`: the elapsed
   * nanoseconds (a tick is 100 ns). It succeeds exactly when the instants are
   * at most 21474836 ticks (about 2.147 s) apart.
   */
  function DiffNanosecond(s: DateTime, e: DateTime): (r: Result<Int32>)
    ensures r.Ok? <==> -21_474_836 <= e.ticks - s.ticks <= 21_474_836
    ensures r.Ok? ==> r.value == 100 * (e.ticks - s.ticks)
    ensures r.Fail? ==> r.error == Overflow
  {
    // the checked long subtraction cannot overflow: both operands lie in [0, MaxTicks]
    var delta: Int64 := e.ticks - s.ticks;
    var ns :- Mul64(delta, 100);
    NarrowToInt32(ns)
  }

  // ---------------------------------------------------------------------
  // The overload families, one member per unit
  // ---------------------------------------------------------------------

  /** The DateTime overload for `unit`; the int results of year, month and day never fail. */
  function DiffOf(unit: DatePart, s: DateTime, e: DateTime): (r: Result<Int32>)
    ensures r.Fail? ==> r.error == Overflow
    ensures unit == Year || unit == Month || unit == Day || unit == Hour ==> r.Ok?
  {
    match unit
    case Year => Ok(DiffYear(s, e))
    case Month => Ok(DiffMonth(s, e))
    case Day => Ok(DiffDay(s, e))
    case Hour => DiffHour(s, e)
    case Minute => DiffMinute(s, e)
    case Second => DiffSecond(s, e)
    case Millisecond => DiffMillisecond(s, e)
    case Microsecond => DiffMicrosecond(s, e)
    case Nanosecond => DiffNanosecond(s, e)
  }

  /** The DateTimeOffset overload for `unit`: the DateTime one on `UtcDateTime`. */
  function DiffOffset(unit: DatePart, s: DateTimeOffset, e: DateTimeOffset): (r: Result<Int32>)
    ensures r.Fail? ==> r.error == Overflow
    ensures unit == Year || unit == Month || unit == Day || unit == Hour ==> r.Ok?
  {
    DiffOf(unit, UtcDateTime(s), UtcDateTime(e))
  }

  /** The `DateTime?` overload for `unit`. */
  function DiffNullable(unit: DatePart, s: Option<DateTime>, e: Option<DateTime>): (r: Result<Option<Int32>>)
    ensures r == Ok(None) <==> s.None? || e.None?
    ensures r.Ok? && r.value.Some? ==> s.Some? && e.Some? && DiffOf(unit, s.value, e.value) == Ok(r.value.value)
    ensures r.Fail? ==> r.error == Overflow
  {
    if s.Some? && e.Some? then SomeOf(DiffOf(unit, s.value, e.value)) else Ok(None)
  }

  /** The `DateTimeOffset?` overload for `unit`. */
  function DiffOffsetNullable(unit: DatePart, s: Option<DateTimeOffset>, e: Option<DateTimeOffset>)
    : (r: Result<Option<Int32>>)
    ensures r == Ok(None) <==> s.None? || e.None?
    ensures r.Ok? && r.value.Some? ==> s.Some? && e.Some? && DiffOffset(unit, s.value, e.value) == Ok(r.value.value)
    ensures r.Fail? ==> r.error == Overflow
  {
    if s.Some? && e.Some? then SomeOf(DiffOffset(unit, s.value, e.value)) else Ok(None)
  }

  // ---------------------------------------------------------------------
  // Properties
  // ---------------------------------------------------------------------

  /** Year difference: zero exactly within one year, and antisymmetric. */
  lemma DiffYearProperties(s: DateTime, e: DateTime)
    ensures DiffYear(s, e) == 0 <==> s.Year() == e.Year()
    ensures DiffYear(e, s) == -DiffYear(s, e)
  {
  }

  /** Month difference: the month numbers, so only year and month matter. */
  lemma DiffMonthOnlyYearAndMonth(s: DateTime, e: DateTime, s': DateTime, e': DateTime)
    requires s.Year() == s'.Year() && s.Month() == s'.Month()
    requires e.Year() == e'.Year() && e.Month() == e'.Month()
    ensures DiffMonth(s, e) == DiffMonth(s', e')
    ensures DiffMonth(s, e) == 12 * DiffYear(s, e) + e.Month() - s.Month()
  {
  }

  /** Day difference ignores the time of day: it is zero on one date and equals the midnights' difference. */
  lemma DiffDayIgnoresTimeOfDay(s: DateTime, e: DateTime)
    ensures DiffDay(s, e) == DiffDay(s.Date(), e.Date())
    ensures DiffDay(s, e) == 0 <==> s.Date() == e.Date()
  {
  }

  /** Moving the end by whole days moves the day difference by exactly that many. */
  lemma DiffDayAddDays(s: DateTime, e: DateTime, i: int)
    requires e.ticks == s.ticks + i * TicksPerDay
    ensures DiffDay(s, e) == i
  {
    assert e.ticks / TicksPerDay == s.ticks / TicksPerDay + i;
  }

  /** Each cascaded unit is the next coarser difference scaled, plus the difference of its own field. */
  lemma CascadeConsistency(s: DateTime, e: DateTime)
    ensures DiffHour(s, e).value == DiffDay(s, e) * 24 + e.Hour() - s.Hour()
    ensures DiffMinute(s, e).Ok? ==> DiffMinute(s, e).value == DiffHour(s, e).value * 60 + e.Minute() - s.Minute()
    ensures DiffSecond(s, e).Ok? ==>
      DiffMinute(s, e).Ok? && DiffSecond(s, e).value == DiffMinute(s, e).value * 60 + e.Second() - s.Second()
    ensures DiffMillisecond(s, e).Ok? ==>
      DiffSecond(s, e).Ok? &&
      DiffMillisecond(s, e).value == DiffSecond(s, e).value * 1000 + e.Millisecond() - s.Millisecond()
  {
  }

  /** Every unit gives zero for equal instants. */
  lemma DiffOfSameInstant(unit: DatePart, t: DateTime)
    ensures DiffOf(unit, t, t) == Ok(0)
  {
  }

  /**
   * Swapping the arguments negates the result where both directions succeed.
   * Year, month, day, hour and nanosecond succeed in both directions alike;
   * the step-wise checks of minute, second and millisecond do not (see
   * DiffMinuteOverflowAsymmetric and its neighbours), nor does the int
   * narrowing of microsecond.
   */
  lemma DiffOfAntisymmetric(unit: DatePart, s: DateTime, e: DateTime)
    ensures unit in {Year, Month, Day, Hour, Nanosecond} ==> DiffOf(unit, s, e).Ok? == DiffOf(unit, e, s).Ok?
    ensures DiffOf(unit, s, e).Ok? && DiffOf(unit, e, s).Ok? ==>
      DiffOf(unit, e, s).value == -DiffOf(unit, s, e).value
  {
    if unit == Microsecond {
      TruncDivNegate(e.ticks - s.ticks, 10);
      var a := TruncDiv(e.ticks - s.ticks, 10);
      assert DiffMicrosecond(s, e).Ok? ==> DiffMicrosecond(s, e).value == a;
      assert DiffMicrosecond(e, s).Ok? ==> DiffMicrosecond(e, s).value == TruncDiv(s.ticks - e.ticks, 10);
    }
  }

  /** Microsecond: swapping the arguments negates a successful result unless it is int.MinValue. */
  lemma DiffMicrosecondAntisymmetric(s: DateTime, e: DateTime)
    requires DiffMicrosecond(s, e).Ok? && DiffMicrosecond(s, e).value != MinInt32
    ensures DiffMicrosecond(e, s) == Ok(-DiffMicrosecond(s, e).value)
  {
    TruncDivNegate(e.ticks - s.ticks, 10);
  }

  /**
   * Minute overflows although the count fits: the intermediate
   * `DateDiffHour * 60 + endDate.Minute` passes int.MaxValue before
   * `startDate.Minute` is subtracted.
   */
  lemma DiffMinuteStepOverflow()
    ensures var s := DateTime(TicksPerMinute);
            var e := DateTime(35_791_394 * TicksPerHour + 8 * TicksPerMinute);
            e.MinuteNumber() - s.MinuteNumber() == MaxInt32 && DiffMinute(s, e) == Fail(Overflow)
  {
    var s := DateTime(TicksPerMinute);
    var e := DateTime(35_791_394 * TicksPerHour + 8 * TicksPerMinute);
    assert s.HourNumber() == 0 && s.Minute() == 1;
    assert e.HourNumber() == 35_791_394 && e.Minute() == 8;
    assert DiffHour(s, e) == Ok(35_791_394);
  }

  /**
   * Overflow depends on the order of the arguments: for each of these pairs
   * one order throws and the other succeeds. The cascades add the end's field
   * before subtracting the start's, and the microsecond quotient may reach
   * int.MinValue but not its negation.
   */
  lemma DiffMinuteOverflowAsymmetric()
    ensures var s := DateTime(TicksPerMinute);
            var e := DateTime(35_791_394 * TicksPerHour + 8 * TicksPerMinute);
            DiffMinute(s, e) == Fail(Overflow) && DiffMinute(e, s) == Ok(-MaxInt32)
  {
    var s := DateTime(TicksPerMinute);
    var e := DateTime(35_791_394 * TicksPerHour + 8 * TicksPerMinute);
    DiffMinuteStepOverflow();
    assert s.HourNumber() == 0 && s.Minute() == 1;
    assert e.HourNumber() == 35_791_394 && e.Minute() == 8;
    assert DiffHour(e, s) == Ok(-35_791_394);
  }

  lemma DiffSecondOverflowAsymmetric()
    ensures var s := DateTime(TicksPerSecond);
            var e := DateTime(35_791_394 * TicksPerMinute + 8 * TicksPerSecond);
            e.SecondNumber() - s.SecondNumber() == MaxInt32 &&
            DiffSecond(s, e) == Fail(Overflow) && DiffSecond(e, s) == Ok(-MaxInt32)
  {
    var s := DateTime(TicksPerSecond);
    var e := DateTime(35_791_394 * TicksPerMinute + 8 * TicksPerSecond);
    assert s.MinuteNumber() == 0 && s.Second() == 1;
    assert e.MinuteNumber() == 35_791_394 && e.Second() == 8;
    assert DiffMinute(s, e) == Ok(35_791_394);
    assert DiffMinute(e, s) == Ok(-35_791_394);
  }

  lemma DiffMillisecondOverflowAsymmetric()
    ensures var s := DateTime(TicksPerMillisecond);
            var e := DateTime(2_147_483 * TicksPerSecond + 648 * TicksPerMillisecond);
            e.MillisecondNumber() - s.MillisecondNumber() == MaxInt32 &&
            DiffMillisecond(s, e) == Fail(Overflow) && DiffMillisecond(e, s) == Ok(-MaxInt32)
  {
    var s := DateTime(TicksPerMillisecond);
    var e := DateTime(2_147_483 * TicksPerSecond + 648 * TicksPerMillisecond);
    assert s.SecondNumber() == 0 && s.Millisecond() == 1;
    assert e.SecondNumber() == 2_147_483 && e.Millisecond() == 648;
    assert DiffSecond(s, e) == Ok(2_147_483);
    assert DiffSecond(e, s) == Ok(-2_147_483);
  }

  lemma DiffMicrosecondOverflowAsymmetric()
    ensures DiffMicrosecond(DateTime(21_474_836_480), DateTime(0)) == Ok(MinInt32)
    ensures DiffMicrosecond(DateTime(0), DateTime(21_474_836_480)) == Fail(Overflow)
  {
  }

  /**
   * Microsecond truncates the elapsed time rather than counting boundaries:
   * from tick 9 to tick 10 a microsecond boundary is crossed, yet the result
   * is 0. The two never differ by more than one.
   */
  lemma DiffMicrosecondIsNotBoundaryCount(s: DateTime, e: DateTime)
    ensures DiffMicrosecond(DateTime(9), DateTime(10)) == Ok(0)
    ensures DateTime(10).MicrosecondNumber() - DateTime(9).MicrosecondNumber() == 1
    ensures DiffMicrosecond(s, e).Ok? ==>
      -1 <= (e.MicrosecondNumber() - s.MicrosecondNumber()) - DiffMicrosecond(s, e).value <= 1
  {
  }

  /** Nullable overloads: null exactly when an argument is null, else the wrapped non-null result. */
  lemma NullableOverloads(unit: DatePart, s: Option<DateTime>, e: Option<DateTime>,
                          so: Option<DateTimeOffset>, eo: Option<DateTimeOffset>)
    ensures DiffNullable(unit, s, e) == Ok(None) <==> s.None? || e.None?
    ensures s.Some? && e.Some? ==> DiffNullable(unit, s, e) == SomeOf(DiffOf(unit, s.value, e.value))
    ensures DiffOffsetNullable(unit, so, eo) == Ok(None) <==> so.None? || eo.None?
    ensures so.Some? && eo.Some? ==>
      DiffOffsetNullable(unit, so, eo) == SomeOf(DiffOffset(unit, so.value, eo.value))
  {
  }

  /** Offset pairs that denote the same two instants give the same result for every unit. */
  lemma DiffOffsetDependsOnInstantsOnly(unit: DatePart, s: DateTimeOffset, e: DateTimeOffset,
                                        s': DateTimeOffset, e': DateTimeOffset)
    requires s.UtcTicks() == s'.UtcTicks() && e.UtcTicks() == e'.UtcTicks()
    ensures DiffOffset(unit, s, e) == DiffOffset(unit, s', e')
  {
  }

  /**
   * With one offset on both sides the tick-based units see the clock
   * difference, and the minute, second and millisecond successes equal the
   * clock-based ones (the offset is whole minutes).
   */
  lemma DiffOffsetSameOffset(unit: DatePart, s: DateTimeOffset, e: DateTimeOffset)
    requires s.offsetMinutes == e.offsetMinutes
    ensures unit == Microsecond || unit == Nanosecond ==>
      DiffOffset(unit, s, e) == DiffOf(unit, s.clock, e.clock)
    ensures unit == Minute || unit == Second || unit == Millisecond ==>
      DiffOffset(unit, s, e).Ok? && DiffOf(unit, s.clock, e.clock).Ok? ==>
      DiffOffset(unit, s, e).value == DiffOf(unit, s.clock, e.clock).value
  {
    var us, ue := UtcDateTime(s), UtcDateTime(e);
    if unit == Microsecond || unit == Nanosecond {
      assert ue.ticks - us.ticks == e.clock.ticks - s.clock.ticks;
    } else if unit == Minute || unit == Second || unit == Millisecond {
      ShiftByWholeMinutes(s.clock, us, s.offsetMinutes);
      ShiftByWholeMinutes(e.clock, ue, s.offsetMinutes);
    }
  }

  /** Moving an instant back by k whole minutes moves its minute, second and millisecond numbers alike. */
  lemma ShiftByWholeMinutes(t: DateTime, u: DateTime, k: int)
    requires u.ticks == t.ticks - k * TicksPerMinute
    ensures u.MinuteNumber() == t.MinuteNumber() - k
    ensures u.SecondNumber() == t.SecondNumber() - 60 * k
    ensures u.MillisecondNumber() == t.MillisecondNumber() - 60_000 * k
  {
    assert u.ticks == t.ticks + (-k) * TicksPerMinute;
    assert u.ticks == t.ticks + (-60 * k) * TicksPerSecond;
    assert u.ticks == t.ticks + (-60_000 * k) * TicksPerMillisecond;
  }
}
