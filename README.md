# DATEDIFF for Entity Framework Core, modelled in Dafny

This project models the `DateDiff` extension of the Ralms EF Core
extensions library and proves properties of the model. The library
counts the boundaries of one calendar or clock unit that lie between two
instants. The same call can run in memory (`EFCore.DateDiff`) or be
rewritten into SQL Server's `DATEDIFF(unit, start, end)`.

The model has six modules:

- `ClrTypes` covers the .NET behaviour the formulas depend on:
  - the 32/64-bit ranges, and `checked` arithmetic as a `Result` that fails with `OverflowException`;
  - C#'s integer division, which truncates toward zero;
  - the exceptions the code can throw.
- `Calendar` models `System.DateTime` as a tick count in [0, 3155378975999999999]:
  - calendar fields come from the same 400/100/4/1-year decomposition .NET uses;
  - that decomposition is proved to invert the days-from-civil count (`CivilOfDay`, `CivilRoundTrip`);
  - clock fields and whole hour, minute, second, millisecond and microsecond numbers are proved to nest;
  - `System.DateTimeOffset` is a clock DateTime plus an offset in minutes, validated as the .NET constructor does.
- `EFEnum` models the `DatePart` enum:
  - its ordinals and member names;
  - `Enum.ToString()` of any raw `int`, since a C# enum variable can hold any value.
- `EFFunctions` has the nine DateTime formulas. `DiffOf` dispatches them; `DiffOffset`, `DiffNullable` and `DiffOffsetNullable` build the other three overloads of every unit from it:
  - the DateTimeOffset overload runs the DateTime one on `UtcDateTime`;
  - the nullable overloads return null when either argument is null.
- `EFCore` models the `DateDiff(DatePart, object, object)` dispatcher on boxed arguments, and the translation lambda as a method over an `Expr` datatype.
- `Scenarios` covers concrete uses:
  - January 1 to March 1;
  - the client-evaluation test, which builds 100 birthdays one day apart and keeps those fewer than 50 days away.

Where the code does something its comments or a first reading do not
suggest, the model follows the code:

- `DateDiffMicrosecond` is documented as a count of microsecond boundaries. The code computes the elapsed whole microseconds, truncated toward zero, which is a different number. From tick 9 to tick 10 the result is 0 (`DiffMicrosecondIsNotBoundaryCount`).
- `DateDiffNanosecond` multiplies the tick difference by 100. That is the right scale, because a tick is 100 ns. The consequence is that it overflows `int` beyond about 2.147 seconds.
- The minute, second and millisecond cascades check every intermediate step. So they can overflow although the final count fits: `DiffMinuteStepOverflow` exhibits a pair exactly `int.MaxValue` minutes apart. Such overflow also depends on the order of the arguments: for each of minute, second, millisecond and microsecond there is a pair that throws one way and succeeds the other way (`DiffMinuteOverflowAsymmetric` and its neighbours).
- `DateDiff` converts a boxed `DateTime` to `DateTimeOffset` through the local offset, then uses the UTC overloads. So days are counted at UTC midnights. Three hours west of UTC, 20:00 and 22:00 on one local day are one day apart (`DateDiffCountsUtcDays`).
- A null argument throws `NullReferenceException` at `GetType()`; it never yields a null result.
- The translation is typed `int`, not `int?`.

## Model

| member | source | states |
|---|---|---|
| ClrTypes.CheckedInt32 | Ralms.Microsoft.EntityFrameworkCore.Extensions/EFFunctions.cs:192-195 | a `checked` int result succeeds exactly when the value is in the int range, and otherwise throws OverflowException |
| ClrTypes.CheckedInt64 | Ralms.Microsoft.EntityFrameworkCore.Extensions/EFFunctions.cs:497-500 | a `checked` long result succeeds exactly when the value is in the long range, and otherwise throws OverflowException |
| ClrTypes.TruncDiv | Ralms.Microsoft.EntityFrameworkCore.Extensions/EFFunctions.cs:438 | C# `/` by a positive divisor leaves a remainder of the dividend's sign and smaller than the divisor |
| ClrTypes.TruncDivNegate | Ralms.Microsoft.EntityFrameworkCore.Extensions/EFFunctions.cs:438 | truncating division commutes with negation |
| Calendar.CivilOfDay | Ralms.Microsoft.EntityFrameworkCore.Extensions/EFFunctions.cs:78 | the Year and Month the formulas read form a valid Gregorian date whose day number is the DateTime's day number |
| Calendar.YearOfDay | Ralms.Microsoft.EntityFrameworkCore.Extensions/EFFunctions.cs:21 | the year comes from the 400/100/4/1 decomposition, lies in 1..9999, and the day falls inside that year |
| Calendar.CivilRoundTrip | Ralms.Microsoft.EntityFrameworkCore.Extensions/EFFunctions.cs:75-78 | decomposing a valid date's day number gives back that date |
| Calendar.DayNumberInjective | Ralms.Microsoft.EntityFrameworkCore.Extensions/EFFunctions.cs:75-78 | two valid dates with the same day number are equal |
| Calendar.DayNumberInRange | Ralms.Microsoft.EntityFrameworkCore.Extensions/EFFunctions.cs:131-135 | every date from 0001-01-01 to 9999-12-31 has a day number below 3652059 |
| Calendar.DaysBeforeNextYear | Ralms.Microsoft.EntityFrameworkCore.Extensions/EFFunctions.cs:21 | consecutive years start DaysInYear days apart, under the Gregorian leap rule |
| Calendar.LeapOfParts | Ralms.Microsoft.EntityFrameworkCore.Extensions/EFFunctions.cs:21 | in the 400/100/4/1 decomposition, a year is a leap year exactly when it is the fourth of its 4-year group, and that group is not a century end unless the century is the fourth |
| Calendar.DateTime.DayNumber | Ralms.Microsoft.EntityFrameworkCore.Extensions/EFFunctions.cs:135 | whole days since 0001-01-01 lie below 3652059 |
| Calendar.DateTime.Date | Ralms.Microsoft.EntityFrameworkCore.Extensions/EFFunctions.cs:135 | `.Date` is a midnight on the same day, at or before the instant and less than a day before it |
| Calendar.DateTime.Year | Ralms.Microsoft.EntityFrameworkCore.Extensions/EFFunctions.cs:21 | `Year` lies in 1..9999 |
| Calendar.DateTime.Month | Ralms.Microsoft.EntityFrameworkCore.Extensions/EFFunctions.cs:78 | `Month` is the month, in 1..12, of the date the decomposition gives |
| Calendar.DateTime.Hour | Ralms.Microsoft.EntityFrameworkCore.Extensions/EFFunctions.cs:194 | `Hour` lies in 0..23 |
| Calendar.DateTime.Minute | Ralms.Microsoft.EntityFrameworkCore.Extensions/EFFunctions.cs:255 | `Minute` lies in 0..59 |
| Calendar.DateTime.Second | Ralms.Microsoft.EntityFrameworkCore.Extensions/EFFunctions.cs:316 | `Second` lies in 0..59 |
| Calendar.DateTime.Millisecond | Ralms.Microsoft.EntityFrameworkCore.Extensions/EFFunctions.cs:377 | `Millisecond` lies in 0..999 |
| Calendar.DateTime.HourNumber | Ralms.Microsoft.EntityFrameworkCore.Extensions/EFFunctions.cs:194 | whole hours since the epoch are the day number times 24 plus `Hour` |
| Calendar.DateTime.MinuteNumber | Ralms.Microsoft.EntityFrameworkCore.Extensions/EFFunctions.cs:255 | whole minutes since the epoch are the hour number times 60 plus `Minute` |
| Calendar.DateTime.SecondNumber | Ralms.Microsoft.EntityFrameworkCore.Extensions/EFFunctions.cs:316 | whole seconds since the epoch are the minute number times 60 plus `Second` |
| Calendar.DateTime.MillisecondNumber | Ralms.Microsoft.EntityFrameworkCore.Extensions/EFFunctions.cs:377 | whole milliseconds since the epoch are the second number times 1000 plus `Millisecond` |
| Calendar.DateTime.Microsecond | Ralms.Microsoft.EntityFrameworkCore.Extensions/EFFunctions.cs:438 | the microsecond within the millisecond lies in 0..999 |
| Calendar.DateTime.MicrosecondNumber | Ralms.Microsoft.EntityFrameworkCore.Extensions/EFFunctions.cs:438 | whole microseconds since the epoch, `Ticks / 10`, are the millisecond number times 1000 plus the microsecond |
| Calendar.MidnightOfDay | Ralms.Microsoft.EntityFrameworkCore.Extensions/EFFunctions.cs:135 | the first tick of a day has that day number and zero hour, minute, second and millisecond |
| Calendar.FromCivil | Ralms.Microsoft.EntityFrameworkCore.Extensions/EFFunctions.cs:75-78 | midnight of a valid date reads back that date, with zero clock fields |
| Calendar.UtcDateTime | Ralms.Microsoft.EntityFrameworkCore.Extensions/EFFunctions.cs:50 | `UtcDateTime` is the clock time less the offset |
| Calendar.ToDateTimeOffset | Ralms.Microsoft.EntityFrameworkCore.Extensions/EFCore.cs:27-29 | the conversion succeeds exactly when the offset is within 14 hours and the UTC instant is in range; it keeps the clock and offset, and otherwise throws ArgumentOutOfRangeException |
| Calendar.ToDateTimeOffsetUtc | Ralms.Microsoft.EntityFrameworkCore.Extensions/EFCore.cs:27-29 | a converted DateTime denotes its ticks less the offset |
| EFEnum.Ordinal | Ralms.Microsoft.EntityFrameworkCore.Extensions/EFEnum.cs:5-13 | each member's value is its position in declaration order |
| EFEnum.Name | Ralms.Microsoft.EntityFrameworkCore.Extensions/EFEnum.cs:5-13 | each member's name is a non-empty lower-case identifier |
| EFEnum.FromOrdinal | Ralms.Microsoft.EntityFrameworkCore.Extensions/EFEnum.cs:3-14 | a raw value names a member exactly when it is in 0..8, and that member's ordinal is the raw value |
| EFEnum.NineMembers | Ralms.Microsoft.EntityFrameworkCore.Extensions/EFEnum.cs:3-14 | there are exactly nine members, each listed once |
| EFEnum.OrdinalRoundTrip | Ralms.Microsoft.EntityFrameworkCore.Extensions/EFEnum.cs:5-13 | a member's value maps back to that member |
| EFEnum.NameInjective | Ralms.Microsoft.EntityFrameworkCore.Extensions/EFEnum.cs:5-13 | two members have the same name exactly when they are the same member |
| EFEnum.NatToStringDigits | Ralms.Microsoft.EntityFrameworkCore.Extensions/EFCore.cs:17 | a natural number prints as a non-empty run of decimal digits, without a leading zero, whose value is that number |
| EFEnum.IntToStringDigits | Ralms.Microsoft.EntityFrameworkCore.Extensions/EFCore.cs:17 | an int prints as a minus sign exactly when it is negative, followed by the digits of its magnitude |
| EFEnum.IntToStringIsNoName | Ralms.Microsoft.EntityFrameworkCore.Extensions/EFCore.cs:17 | no int prints as a member name, since its first character is a digit or a minus sign |
| EFEnum.EnumToString | Ralms.Microsoft.EntityFrameworkCore.Extensions/EFCore.cs:17 | `Value.ToString()` of a raw DatePart value is some member's name exactly when the value is in 0..8, and then it is that member's name |
| EFFunctions.DiffYear | Ralms.Microsoft.EntityFrameworkCore.Extensions/EFFunctions.cs:18-21 | the year difference stays within ±9998, so it cannot overflow |
| EFFunctions.DiffMonth | Ralms.Microsoft.EntityFrameworkCore.Extensions/EFFunctions.cs:75-78 | the month difference is the difference of months since year 1, within ±119987 |
| EFFunctions.DiffDay | Ralms.Microsoft.EntityFrameworkCore.Extensions/EFFunctions.cs:131-135 | the truncated `Days` of the span between the two `.Date` values is the difference of day numbers |
| EFFunctions.DiffHour | Ralms.Microsoft.EntityFrameworkCore.Extensions/EFFunctions.cs:188-197 | the checked hour cascade never overflows and is the difference of whole hour numbers |
| EFFunctions.DiffMinute | Ralms.Microsoft.EntityFrameworkCore.Extensions/EFFunctions.cs:249-258 | a success is the difference of whole minute numbers; any failure is OverflowException; a count outside int fails; a count within int.MaxValue−60 succeeds |
| EFFunctions.DiffSecond | Ralms.Microsoft.EntityFrameworkCore.Extensions/EFFunctions.cs:310-319 | as for minutes, with whole second numbers and margin 60 |
| EFFunctions.DiffMillisecond | Ralms.Microsoft.EntityFrameworkCore.Extensions/EFFunctions.cs:371-380 | as for minutes, with whole millisecond numbers and margin 1000 |
| EFFunctions.DiffMicrosecond | Ralms.Microsoft.EntityFrameworkCore.Extensions/EFFunctions.cs:432-441 | it succeeds exactly when the tick difference is in [−21474836489, 21474836479]; a success is the tick difference over 10 truncated toward zero; a failure is OverflowException |
| EFFunctions.DiffNanosecond | Ralms.Microsoft.EntityFrameworkCore.Extensions/EFFunctions.cs:493-502 | it succeeds exactly when the instants are at most 21474836 ticks apart; a success is 100 times the tick difference; a failure is OverflowException |
| EFFunctions.DiffOf | Ralms.Microsoft.EntityFrameworkCore.Extensions/EFFunctions.cs:18-502 | the DateTime overload of a unit fails only with OverflowException, and never fails for year, month, day or hour |
| EFFunctions.DiffOffset | Ralms.Microsoft.EntityFrameworkCore.Extensions/EFFunctions.cs:47-50 | the DateTimeOffset overload of every unit (also lines 103-106, 160-163, 221-224, 282-285, 343-346, 404-407, 465-468, 526-529) runs the DateTime one on the two `UtcDateTime`s; it fails only with OverflowException, and never for year, month, day or hour |
| EFFunctions.DiffNullable | Ralms.Microsoft.EntityFrameworkCore.Extensions/EFFunctions.cs:32-37 | the `DateTime?` overload of every unit (also lines 88-93, 145-150, 206-211, 267-272, 328-333, 389-394, 450-455, 511-516) is null exactly when an argument is null; otherwise it is the DateTime overload's value; it fails only with OverflowException |
| EFFunctions.DiffOffsetNullable | Ralms.Microsoft.EntityFrameworkCore.Extensions/EFFunctions.cs:60-65 | the `DateTimeOffset?` overload of every unit (also lines 116-121, 173-178, 234-239, 295-300, 356-361, 417-422, 478-483, 539-544) is null exactly when an argument is null; otherwise it is the DateTimeOffset overload's value; it fails only with OverflowException |
| EFFunctions.DiffYearProperties | Ralms.Microsoft.EntityFrameworkCore.Extensions/EFFunctions.cs:18-21 | the year difference is zero exactly within one year, and swapping the arguments negates it |
| EFFunctions.DiffMonthOnlyYearAndMonth | Ralms.Microsoft.EntityFrameworkCore.Extensions/EFFunctions.cs:75-78 | the month difference depends only on the two years and months, and is 12 times the year difference plus the month difference |
| EFFunctions.DiffDayIgnoresTimeOfDay | Ralms.Microsoft.EntityFrameworkCore.Extensions/EFFunctions.cs:131-135 | the day difference equals that of the two midnights, and is zero exactly on the same date |
| EFFunctions.DiffDayAddDays | Ralms.Microsoft.EntityFrameworkCore.Extensions/EFFunctions.cs:131-135 | moving the end by i whole days gives a day difference of exactly i |
| EFFunctions.CascadeConsistency | Ralms.Microsoft.EntityFrameworkCore.Extensions/EFFunctions.cs:188-380 | each cascaded unit is the next coarser difference times 24, 60, 60 or 1000 plus the difference of its own field, and a finer success implies the coarser one |
| EFFunctions.DiffOfSameInstant | Ralms.Microsoft.EntityFrameworkCore.Extensions/EFFunctions.cs:18-502 | every unit gives 0 for two equal instants |
| EFFunctions.DiffOfAntisymmetric | Ralms.Microsoft.EntityFrameworkCore.Extensions/EFFunctions.cs:18-502 | year, month, day, hour and nanosecond succeed in both argument orders alike; whenever both orders succeed, the results are negatives of each other |
| EFFunctions.DiffMicrosecondAntisymmetric | Ralms.Microsoft.EntityFrameworkCore.Extensions/EFFunctions.cs:432-441 | swapping the arguments negates a successful microsecond result other than int.MinValue |
| EFFunctions.DiffMinuteStepOverflow | Ralms.Microsoft.EntityFrameworkCore.Extensions/EFFunctions.cs:249-258 | two instants exactly int.MaxValue minutes apart still overflow, because an intermediate step leaves int |
| EFFunctions.DiffMinuteOverflowAsymmetric | Ralms.Microsoft.EntityFrameworkCore.Extensions/EFFunctions.cs:249-258 | that pair throws OverflowException in one order and gives −int.MaxValue in the other |
| EFFunctions.DiffSecondOverflowAsymmetric | Ralms.Microsoft.EntityFrameworkCore.Extensions/EFFunctions.cs:310-319 | two instants exactly int.MaxValue seconds apart throw OverflowException in one order and give −int.MaxValue in the other |
| EFFunctions.DiffMillisecondOverflowAsymmetric | Ralms.Microsoft.EntityFrameworkCore.Extensions/EFFunctions.cs:371-380 | two instants exactly int.MaxValue milliseconds apart throw OverflowException in one order and give −int.MaxValue in the other |
| EFFunctions.DiffMicrosecondOverflowAsymmetric | Ralms.Microsoft.EntityFrameworkCore.Extensions/EFFunctions.cs:432-441 | from tick 21474836480 back to tick 0 the result is int.MinValue, and the reverse order throws OverflowException |
| EFFunctions.DiffMicrosecondIsNotBoundaryCount | Ralms.Microsoft.EntityFrameworkCore.Extensions/EFFunctions.cs:431-441 | from tick 9 to tick 10 the whole-microsecond number rises by one, so one boundary is crossed, yet the result is 0; a success differs from the difference of microsecond numbers by at most one |
| EFFunctions.NullableOverloads | Ralms.Microsoft.EntityFrameworkCore.Extensions/EFFunctions.cs:32-37 | each nullable overload returns null exactly when an argument is null, and otherwise the non-nullable overload's result |
| EFFunctions.DiffOffsetDependsOnInstantsOnly | Ralms.Microsoft.EntityFrameworkCore.Extensions/EFFunctions.cs:47-50 | two offset pairs denoting the same instants give the same result for every unit |
| EFFunctions.DiffOffsetSameOffset | Ralms.Microsoft.EntityFrameworkCore.Extensions/EFFunctions.cs:282-285 | with one offset on both sides, microsecond and nanosecond equal the clock-based results, and successful minute, second and millisecond results equal the clock-based successes |
| EFFunctions.ShiftByWholeMinutes | Ralms.Microsoft.EntityFrameworkCore.Extensions/EFFunctions.cs:282-285 | moving an instant by k whole minutes moves its minute, second and millisecond numbers by k, 60k and 60000k |
| EFCore.AsDateTimeOffset | Ralms.Microsoft.EntityFrameworkCore.Extensions/EFCore.cs:27-33 | null throws NullReferenceException; a DateTimeOffset passes unchanged; a DateTime keeps its clock, takes the local offset and denotes its ticks less that offset, or throws ArgumentOutOfRangeException; anything else throws InvalidCastException |
| EFCore.DateDiff | Ralms.Microsoft.EntityFrameworkCore.Extensions/EFCore.cs:25-58 | a success is never null and comes only from a member value 0..8; a null or non-date start fails with its exception; every failure is one of the five possible exceptions |
| EFCore.DateDiffDispatch | Ralms.Microsoft.EntityFrameworkCore.Extensions/EFCore.cs:35-54 | for each of the nine members, DateDiff on two DateTimeOffsets is that member's DateTimeOffset overload |
| EFCore.DateDiffOnDateTimes | Ralms.Microsoft.EntityFrameworkCore.Extensions/EFCore.cs:27-33 | two DateTimes are compared as UTC instants, each shifted by its local offset; when a shift leaves the range, the call throws ArgumentOutOfRangeException |
| EFCore.DateTimesConverted | Ralms.Microsoft.EntityFrameworkCore.Extensions/EFCore.cs:27-33 | when both DateTimes convert, the member's overload runs on the shifted instants |
| EFCore.DateTimesNotConverted | Ralms.Microsoft.EntityFrameworkCore.Extensions/EFCore.cs:27-33 | when a DateTime does not convert, the call throws ArgumentOutOfRangeException whatever the unit |
| EFCore.DateDiffConversionFails | Ralms.Microsoft.EntityFrameworkCore.Extensions/EFCore.cs:27-33 | a failed conversion ends the call with that conversion's exception, start first |
| EFCore.DateDiffConverted | Ralms.Microsoft.EntityFrameworkCore.Extensions/EFCore.cs:35-54 | once both arguments have converted, a member's DateDiff is its DateTimeOffset overload |
| EFCore.DateDiffInvalidDatePart | Ralms.Microsoft.EntityFrameworkCore.Extensions/EFCore.cs:55-56 | a raw value outside the members always fails, and once both arguments convert it throws "Please enter a valid DATEPART!" |
| EFCore.DateDiffCountsUtcDays | Ralms.Microsoft.EntityFrameworkCore.Extensions/EFCore.cs:27-38 | at offset −03:00, 20:00 and 22:00 on one local day are zero days apart as DateTimes and one day apart through DateDiff |
| EFCore.Translate | Ralms.Microsoft.EntityFrameworkCore.Extensions/EFCore.cs:14-22 | it succeeds exactly when argument 0 is a constant; an empty list throws InvalidOperationException and a non-constant first argument InvalidCastException; the result is `DATEDIFF` typed int with as many arguments, slot 0 is the constant's `ToString()` as a raw fragment, and the rest are unchanged |
| EFCore.TranslateLiteralUnit | Ralms.Microsoft.EntityFrameworkCore.Extensions/EFCore.cs:16-21 | a literal member translates to `DATEDIFF(<member name>, start, end)` |
| Scenarios.JanuaryToMarch | Ralms.Microsoft.EntityFrameworkCore.Extensions/EFFunctions.cs:75-78 | from January 1 to March 1 of any year: 2 months, and 60 days in a leap year or 59 otherwise |
| Scenarios.MonthAndDayIn2024 | Ralms.Microsoft.EntityFrameworkCore.Extensions/EFCore.cs:35-40 | two DateTimeOffsets at 2024-01-01Z and 2024-03-01Z, whatever their offsets, give 2 months and 60 days through DateDiff |
| Scenarios.Birthdays | Ralms.Microsoft.EntityFrameworkCore.Extensions.Tests/Test.cs:22-29 | birthday i is today plus i whole days |
| Scenarios.WhereKeepsPrefix | Ralms.Microsoft.EntityFrameworkCore.Extensions.Tests/Test.cs:35-37 | `Where(...).ToList()` with a filter that holds for exactly the first m elements keeps exactly those |
| Scenarios.BirthdayIsDaysAway | Ralms.Microsoft.EntityFrameworkCore.Extensions.Tests/Test.cs:36 | under one local offset, with both reads on the same UTC day, the birthday i days ahead is i days away through DateDiff |
| Scenarios.WhereKeepsFirstBirthdays | Ralms.Microsoft.EntityFrameworkCore.Extensions.Tests/Test.cs:35-37 | filtering n birthdays by a day difference below `bound` keeps exactly the first min(n, bound) |
| Scenarios.ClientEvalKeepsFifty | Ralms.Microsoft.EntityFrameworkCore.Extensions.Tests/Test.cs:32-40 | of the 100 birthdays, the client-side query keeps exactly 50 |

## Left out

- `CreateFunctionDateDiff` registration (`HasDbFunction`, `GetMethod`) is left out. It writes to EF Core's model builder, which is not part of this model. Only the translation lambda's body is modelled (`EFCore.Translate`).
- SQL Server's own DATEDIFF is left out. Its code is not available, so the model cannot show that client and server evaluation agree.
- The EF Core expression classes (`SqlFragmentExpression`, `SqlFunctionExpression`, `ConstantExpression`) are represented by the `Expr` datatype.
- A constant holds a DatePart's raw value. A `ConstantExpression` whose value is null or of another type is not modelled.
- The local time zone (TimeZoneInfo, daylight saving) is the parameter `localOffset`. It gives the offset in whole minutes that the implicit DateTime-to-DateTimeOffset conversion uses for a DateTime.
- `DateTime.Kind` is not modelled. A UTC-kind DateTime converts with offset 0 in .NET; here that is only expressible through the choice of `localOffset`.
- `DateTime.Now` is read afresh on every evaluation in the test. `Scenarios` takes one creation time, one query time and a constant local offset, and assumes both reads fall on the same UTC day.
- The constant offset hides daylight-saving changes. If one falls within the next 50 days, today and the later birthdays get different local offsets, and the UTC instants of the later birthdays move by an hour. Take Europe/Berlin in February, with the test run between 01:00 and 02:00 local time. After the spring change, those UTC instants fall one day earlier, so birthday 50 counts as 49 days away and the real test keeps 51. In autumn it keeps 49. `ClientEvalKeepsFifty` does not cover these runs.
- `AddDays(double)` is modelled as adding whole days of ticks. That is exact for the integers the test passes.
- SQL Server connection, schema creation and `SaveChanges` are left out, and so is the server-side test (Test.cs:43-54): they are I/O.
- EFFunctions.DiffMinute: the contract does not state the exact set of inputs whose step-wise check overflows. It states only that counts outside int fail and counts within int.MaxValue−60 succeed; `DiffMinuteStepOverflow` shows that the band between them can fail.
- EFFunctions.DiffSecond: the same as for minutes, with margin 60.
- EFFunctions.DiffMillisecond: the same as for minutes, with margin 1000.
- EFFunctions.DiffOfAntisymmetric: equal success in both argument orders is stated only for year, month, day, hour and nanosecond. For minute, second, millisecond and microsecond it does not hold, because the checks are not symmetric; the four `...OverflowAsymmetric` lemmas give a pair for each.
