/**
 * Facts about concrete uses of the engine: a January-to-March example,
 * and the client-evaluation test, which builds 100 birthdays one day apart
 * starting today and keeps those fewer than 50 days away.
 */
module Scenarios {
  import opened ClrTypes
  import opened Calendar
  import opened EFEnum
  import opened EFFunctions
  import opened EFCore

  /** From January 1 to March 1 of any year: two months, and 59 or 60 days. */
  lemma JanuaryToMarch(year: int)
    requires 1 <= year <= 9999
    ensures var s, e := FromCivil(Civil(year, 1, 1)), FromCivil(Civil(year, 3, 1));
      DiffMonth(s, e) == 2 && DiffDay(s, e) == if IsLeapYear(year) then 60 else 59
  {
  }

  /**
   * Two DateTimeOffsets whose UTC instants are 2024-01-01T00:00:00Z and
   * 2024-03-01T00:00:00Z, whatever their offsets: DateDiff reports 2 months
   * and 60 days.
   */
  lemma MonthAndDayIn2024(s: DateTimeOffset, e: DateTimeOffset, localOffset: DateTime -> int)
    requires UtcDateTime(s) == FromCivil(Civil(2024, 1, 1))
    requires UtcDateTime(e) == FromCivil(Civil(2024, 3, 1))
    ensures DateDiff(Ordinal(Month), BoxedDateTimeOffset(s), BoxedDateTimeOffset(e), localOffset) == Ok(Some(2))
    ensures DateDiff(Ordinal(Day), BoxedDateTimeOffset(s), BoxedDateTimeOffset(e), localOffset) == Ok(Some(60))
  {
    JanuaryToMarch(2024);
    DateDiffDispatch(Month, s, e, localOffset);
    DateDiffDispatch(Day, s, e, localOffset);
  }

  /** `DateTime.Now.AddDays(i)` for i = 0 .. n-1. */
  function Birthdays(now: DateTime, n: nat): (b: seq<DateTime>)
    requires n == 0 || now.ticks + (n - 1) * TicksPerDay <= MaxTicks
    ensures |b| == n
    ensures forall i :: 0 <= i < n ==> b[i].ticks == now.ticks + i * TicksPerDay
  {
    seq(n, (i: int) requires 0 <= i < n => DateTime(now.ticks + i * TicksPerDay))
  }

  /**
   * LINQ's `Where(...).ToList()` over a list, evaluated in order: each
   * element is tested once, and the first exception ends the query.
   */
  function Where<T>(xs: seq<T>, keep: T -> Result<bool>): Result<seq<T>>
    decreases |xs|
  {
    if xs == [] then Ok([])
    else
      var kept :- Where(xs[..|xs| - 1], keep);
      var k :- keep(xs[|xs| - 1]);
      Ok(if k then kept + [xs[|xs| - 1]] else kept)
  }

  /** A filter that holds for the first `m` elements and fails on the rest keeps exactly the first `m`. */
  lemma {:induction false} WhereKeepsPrefix<T>(xs: seq<T>, keep: T -> Result<bool>, m: nat)
    requires m <= |xs|
    requires forall i :: 0 <= i < |xs| ==> keep(xs[i]) == Ok(i < m)
    ensures Where(xs, keep) == Ok(xs[..m])
    decreases |xs|
  {
    if xs != [] {
      var init := xs[..|xs| - 1];
      assert forall i :: 0 <= i < |init| ==> init[i] == xs[i];
      if m < |xs| {
        WhereKeepsPrefix(init, keep, m);
        assert init[..m] == xs[..m];
      } else {
        WhereKeepsPrefix(init, keep, |init|);
        assert init[..|init|] == init;
        assert init + [xs[|xs| - 1]] == xs[..m];
      }
    }
  }

  /**
   * The test's filter `EFCore.DateDiff(DatePart.day, now, p) < bound`: a
   * lifted `int? < int` is false for null.
   */
  function DayDiffBelow(now: DateTime, localOffset: DateTime -> int, bound: int, p: DateTime): Result<bool> {
    var d :- DateDiff(Ordinal(Day), BoxedDateTime(now), BoxedDateTime(p), localOffset);
    Ok(d.Some? && d.value < bound)
  }

  /** The filter as the lambda passed to `Where`. */
  function DayDiffFilter(now: DateTime, localOffset: DateTime -> int, bound: int): DateTime -> Result<bool> {
    p => DayDiffBelow(now, localOffset, bound, p)
  }

  /**
   * The birthday `i` days after `created` is `i` days from `queried` when
   * both are read on the same UTC day under one local offset.
   */
  lemma BirthdayIsDaysAway(created: DateTime, queried: DateTime, localOffset: DateTime -> int,
                           offset: int, i: int)
    requires forall t :: localOffset(t) == offset
    requires -MaxOffsetMinutes <= offset <= MaxOffsetMinutes
    requires 0 <= created.ticks + i * TicksPerDay <= MaxTicks
    requires 0 <= created.ticks + i * TicksPerDay - offset * TicksPerMinute <= MaxTicks
    requires 0 <= queried.ticks - offset * TicksPerMinute <= MaxTicks
    requires (created.ticks - offset * TicksPerMinute) / TicksPerDay
          == (queried.ticks - offset * TicksPerMinute) / TicksPerDay
    ensures DateDiff(Ordinal(Day), BoxedDateTime(queried), BoxedDateTime(DateTime(created.ticks + i * TicksPerDay)),
                     localOffset) == Ok(Some(i))
  {
    var birthday := DateTime(created.ticks + i * TicksPerDay);
    var su := DateTime(queried.ticks - offset * TicksPerMinute);
    var eu := DateTime(birthday.ticks - offset * TicksPerMinute);
    assert eu.ticks / TicksPerDay == su.ticks / TicksPerDay + i;
    assert DiffDay(su, eu) == i;
    DateDiffOnDateTimes(Day, queried, birthday, localOffset);
  }

  /**
   * With one local offset throughout, and the query run on the same UTC day
   * as the list was built, the birthday i days ahead is exactly i days away,
   * so the query keeps the first `bound` birthdays.
   */
  lemma WhereKeepsFirstBirthdays(created: DateTime, queried: DateTime,
                                 localOffset: DateTime -> int, offset: int, n: nat, bound: nat)
    requires forall t :: localOffset(t) == offset
    requires -MaxOffsetMinutes <= offset <= MaxOffsetMinutes
    requires n == 0 || created.ticks + (n - 1) * TicksPerDay - offset * TicksPerMinute <= MaxTicks
    requires n == 0 || created.ticks + (n - 1) * TicksPerDay <= MaxTicks
    requires 0 <= created.ticks - offset * TicksPerMinute
    requires 0 <= queried.ticks - offset * TicksPerMinute <= MaxTicks
    requires (created.ticks - offset * TicksPerMinute) / TicksPerDay
          == (queried.ticks - offset * TicksPerMinute) / TicksPerDay
    ensures Where(Birthdays(created, n), DayDiffFilter(queried, localOffset, bound))
         == Ok(Birthdays(created, if n < bound then n else bound))
  {
    var people := Birthdays(created, n);
    var keep := DayDiffFilter(queried, localOffset, bound);
    var m := if n < bound then n else bound;
    forall i | 0 <= i < n
      ensures keep(people[i]) == Ok(i < m)
    {
      BirthdayIsDaysAway(created, queried, localOffset, offset, i);
      assert people[i] == DateTime(created.ticks + i * TicksPerDay);
    }
    WhereKeepsPrefix(people, keep, m);
    assert people[..m] == Birthdays(created, m);
  }

  /** The client-evaluation test: of 100 birthdays, exactly 50 are fewer than 50 days away. */
  lemma ClientEvalKeepsFifty(created: DateTime, queried: DateTime, localOffset: DateTime -> int, offset: int)
    requires forall t :: localOffset(t) == offset
    requires -MaxOffsetMinutes <= offset <= MaxOffsetMinutes
    requires created.ticks + 99 * TicksPerDay - offset * TicksPerMinute <= MaxTicks
    requires created.ticks + 99 * TicksPerDay <= MaxTicks
    requires 0 <= created.ticks - offset * TicksPerMinute
    requires 0 <= queried.ticks - offset * TicksPerMinute <= MaxTicks
    requires (created.ticks - offset * TicksPerMinute) / TicksPerDay
          == (queried.ticks - offset * TicksPerMinute) / TicksPerDay
    ensures var r := Where(Birthdays(created, 100), DayDiffFilter(queried, localOffset, 50));
      r.Ok? && |r.value| == 50
  {
    WhereKeepsFirstBirthdays(created, queried, localOffset, offset, 100, 50);
  }
}
