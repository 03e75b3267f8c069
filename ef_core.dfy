/**
 * `EFCore`: the `DateDiff` entry point that queries call, and the
 * translation rule that the model builder registers for it.
 *
 * `DateDiff` takes its two instants as `object`. Each is converted by
 * `x.GetType() == typeof(DateTime) ? (DateTime)x : (DateTimeOffset)x`, an
 * expression of type DateTimeOffset, so a DateTime goes through the
 * implicit conversion with the local time zone's offset, and the switch
 * always calls the DateTimeOffset overloads.
 *
 * The translation copies the argument list, overwrites slot 0 with a raw
 * SQL fragment holding the unit's name, and wraps the list in a DATEDIFF
 * call typed `int`.
 */
module EFCore {
  import opened ClrTypes
  import opened Calendar
  import opened EFEnum
  import opened EFFunctions

  // ---------------------------------------------------------------------
  // DateDiff
  // ---------------------------------------------------------------------

  /** An `object` argument: null, a boxed DateTime, a boxed DateTimeOffset, or anything else. */
  datatype Boxed =
    | Null
    | BoxedDateTime(dateTime: DateTime)
    | BoxedDateTimeOffset(dateTimeOffset: DateTimeOffset)
    | BoxedOther(typeName: string)

  const InvalidDatePartMessage: string := "Please enter a valid DATEPART!"

  /**
   * One argument's conversion: `GetType()` on null throws
   * NullReferenceException; a DateTime is converted with the offset
   * `localOffset` gives it; any other type fails the unboxing cast.
   */
  function AsDateTimeOffset(x: Boxed, localOffset: DateTime -> int): (r: Result<DateTimeOffset>)
    ensures x.Null? ==> r == Fail(NullReference)
    ensures x.BoxedOther? ==> r == Fail(InvalidCast)
    ensures x.BoxedDateTimeOffset? ==> r == Ok(x.dateTimeOffset)
    ensures x.BoxedDateTime? && r.Ok? ==>
      r.value.clock == x.dateTime && r.value.offsetMinutes == localOffset(x.dateTime) &&
      UtcDateTime(r.value).ticks == x.dateTime.ticks - localOffset(x.dateTime) * TicksPerMinute
    ensures x.BoxedDateTime? && r.Fail? ==> r.error == ArgumentOutOfRange
  {
    match x
    case Null => Fail(NullReference)
    case BoxedDateTime(dt) => ToDateTimeOffset(dt, localOffset(dt))
    case BoxedDateTimeOffset(d) => Ok(d)
    case BoxedOther(_) => Fail(InvalidCast)
  }

  /**
   * `EFCore.DateDiff(datePart, start, end)`: both arguments are converted
   * (start first), then the switch over the raw enum value calls the
   * DateTimeOffset overload of the unit, or throws for a value that is not
   * a member. The result of a successful call is never null.
   */
  function DateDiff(datePart: Int32, start: Boxed, end: Boxed, localOffset: DateTime -> int)
    : (r: Result<Option<Int32>>)
    ensures r.Ok? ==> r.value.Some?
    ensures start.Null? ==> r == Fail(NullReference)
    ensures start.BoxedOther? ==> r == Fail(InvalidCast)
    ensures r.Ok? ==> 0 <= datePart < |AllDateParts|
    ensures r.Fail? ==> r.error in {NullReference, InvalidCast, ArgumentOutOfRange, Overflow,
                                    Thrown(InvalidDatePartMessage)}
  {
    var startDate :- AsDateTimeOffset(start, localOffset);
    var endDate :- AsDateTimeOffset(end, localOffset);
    match FromOrdinal(datePart)
    case Some(unit) => SomeOf(DiffOffset(unit, startDate, endDate))
    case None => Fail(Thrown(InvalidDatePartMessage))
  }

  /** For each member, DateDiff on two DateTimeOffsets is that member's DateTimeOffset overload. */
  lemma DateDiffDispatch(unit: DatePart, s: DateTimeOffset, e: DateTimeOffset, localOffset: DateTime -> int)
    ensures DateDiff(Ordinal(unit), BoxedDateTimeOffset(s), BoxedDateTimeOffset(e), localOffset)
         == SomeOf(DiffOffset(unit, s, e))
  {
  }

  /**
   * Two DateTimes are compared as UTC instants: each is shifted by its local
   * offset before the DateTime overload runs, or the conversion fails.
   */
  lemma DateDiffOnDateTimes(unit: DatePart, s: DateTime, e: DateTime, localOffset: DateTime -> int)
    ensures var so, eo := localOffset(s), localOffset(e);
      ToDateTimeOffset(s, so).Ok? && ToDateTimeOffset(e, eo).Ok? ==>
      DateDiff(Ordinal(unit), BoxedDateTime(s), BoxedDateTime(e), localOffset)
      == SomeOf(DiffOf(unit, DateTime(s.ticks - so * TicksPerMinute), DateTime(e.ticks - eo * TicksPerMinute)))
    ensures var so, eo := localOffset(s), localOffset(e);
      !(ToDateTimeOffset(s, so).Ok? && ToDateTimeOffset(e, eo).Ok?) ==>
      DateDiff(Ordinal(unit), BoxedDateTime(s), BoxedDateTime(e), localOffset) == Fail(ArgumentOutOfRange)
  {
    var so, eo := localOffset(s), localOffset(e);
    if ToDateTimeOffset(s, so).Ok? && ToDateTimeOffset(e, eo).Ok? {
      DateTimesConverted(unit, s, e, localOffset);
    } else {
      DateTimesNotConverted(Ordinal(unit), s, e, localOffset);
    }
  }

  /** Both conversions succeed: the member's overload runs on the two shifted instants. */
  lemma DateTimesConverted(unit: DatePart, s: DateTime, e: DateTime, localOffset: DateTime -> int)
    requires ToDateTimeOffset(s, localOffset(s)).Ok? && ToDateTimeOffset(e, localOffset(e)).Ok?
    ensures DateDiff(Ordinal(unit), BoxedDateTime(s), BoxedDateTime(e), localOffset)
         == SomeOf(DiffOf(unit, DateTime(s.ticks - localOffset(s) * TicksPerMinute),
                                DateTime(e.ticks - localOffset(e) * TicksPerMinute)))
  {
    var a := AsDateTimeOffset(BoxedDateTime(s), localOffset);
    var b := AsDateTimeOffset(BoxedDateTime(e), localOffset);
    assert a == ToDateTimeOffset(s, localOffset(s));
    assert b == ToDateTimeOffset(e, localOffset(e));
    DateDiffConverted(unit, BoxedDateTime(s), BoxedDateTime(e), localOffset);
    ToDateTimeOffsetUtc(s, localOffset(s));
    ToDateTimeOffsetUtc(e, localOffset(e));
    var us, ue := UtcDateTime(a.value), UtcDateTime(b.value);
    assert us == DateTime(s.ticks - localOffset(s) * TicksPerMinute);
    assert ue == DateTime(e.ticks - localOffset(e) * TicksPerMinute);
    assert DiffOffset(unit, a.value, b.value) == DiffOf(unit, us, ue);
  }

  /** A conversion fails: the shift left the DateTime range, whatever the unit. */
  lemma DateTimesNotConverted(datePart: Int32, s: DateTime, e: DateTime, localOffset: DateTime -> int)
    requires !(ToDateTimeOffset(s, localOffset(s)).Ok? && ToDateTimeOffset(e, localOffset(e)).Ok?)
    ensures DateDiff(datePart, BoxedDateTime(s), BoxedDateTime(e), localOffset) == Fail(ArgumentOutOfRange)
  {
    DateDiffConversionFails(datePart, BoxedDateTime(s), BoxedDateTime(e), localOffset);
  }

  /** A failed conversion ends the call with that conversion's exception, start first. */
  lemma DateDiffConversionFails(datePart: Int32, start: Boxed, end: Boxed, localOffset: DateTime -> int)
    requires AsDateTimeOffset(start, localOffset).Fail? || AsDateTimeOffset(end, localOffset).Fail?
    ensures DateDiff(datePart, start, end, localOffset)
         == if AsDateTimeOffset(start, localOffset).Fail? then Fail(AsDateTimeOffset(start, localOffset).error)
            else Fail(AsDateTimeOffset(end, localOffset).error)
  {
  }

  /** Once both arguments have converted, a member's DateDiff is its DateTimeOffset overload. */
  lemma DateDiffConverted(unit: DatePart, start: Boxed, end: Boxed, localOffset: DateTime -> int)
    requires AsDateTimeOffset(start, localOffset).Ok? && AsDateTimeOffset(end, localOffset).Ok?
    ensures DateDiff(Ordinal(unit), start, end, localOffset)
         == SomeOf(DiffOffset(unit, AsDateTimeOffset(start, localOffset).value,
                                    AsDateTimeOffset(end, localOffset).value))
  {
    OrdinalRoundTrip(unit);
  }

  /** A raw value outside the nine members is rejected once both arguments have converted. */
  lemma DateDiffInvalidDatePart(datePart: Int32, start: Boxed, end: Boxed, localOffset: DateTime -> int)
    requires FromOrdinal(datePart).None?
    ensures AsDateTimeOffset(start, localOffset).Ok? && AsDateTimeOffset(end, localOffset).Ok? ==>
      DateDiff(datePart, start, end, localOffset) == Fail(Thrown(InvalidDatePartMessage))
    ensures DateDiff(datePart, start, end, localOffset).Fail?
  {
  }

  /**
   * Days are counted at UTC midnights, not local ones: three hours west of
   * UTC, 20:00 and 22:00 on 0001-01-01 local time are one day apart.
   */
  lemma DateDiffCountsUtcDays()
    ensures var s, e := DateTime(20 * TicksPerHour), DateTime(22 * TicksPerHour);
      DiffDay(s, e) == 0 &&
      DateDiff(Ordinal(Day), BoxedDateTime(s), BoxedDateTime(e), (_: DateTime) => -180) == Ok(Some(1))
  {
    var s, e := DateTime(20 * TicksPerHour), DateTime(22 * TicksPerHour);
    assert UtcDateTime(ClockAndOffset(s, -180)).DayNumber() == 0;
    assert UtcDateTime(ClockAndOffset(e, -180)).DayNumber() == 1;
  }

  // ---------------------------------------------------------------------
  // The translation rule
  // ---------------------------------------------------------------------

  datatype ClrType = Int32Type

  /** The query expressions the rule sees and builds. */
  datatype Expr =
    | Constant(datePart: Int32)                 // a ConstantExpression holding a DatePart value
    | Fragment(sql: string)                     // SqlFragmentExpression: raw SQL text
    | SqlFunction(name: string, returnType: ClrType, arguments: seq<Expr>)
    | Other(id: nat)                        // any other expression: column, parameter, ...

  /**
   * The body of the `HasTranslation` lambda. `arguments.First()` on an empty
   * list throws InvalidOperationException before the element is assigned;
   * a first argument that is not a ConstantExpression fails the cast.
   */
  method Translate(args: seq<Expr>) returns (r: Result<Expr>)
    ensures r.Ok? <==> |args| > 0 && args[0].Constant?
    ensures |args| == 0 ==> r == Fail(InvalidOperation)
    ensures |args| > 0 && !args[0].Constant? ==> r == Fail(InvalidCast)
    ensures r.Ok? ==> r.value.SqlFunction? && r.value.name == "DATEDIFF" && r.value.returnType == Int32Type
    ensures r.Ok? ==> |r.value.arguments| == |args|
    ensures r.Ok? ==> r.value.arguments[0] == Fragment(EnumToString(args[0].datePart))
    ensures r.Ok? ==> forall i :: 1 <= i < |args| ==> r.value.arguments[i] == args[i]
  {
    var arguments := new Expr[|args|](i requires 0 <= i < |args| => args[i]);
    if arguments.Length == 0 {
      return Fail(InvalidOperation);
    }
    var first := arguments[0];
    if !first.Constant? {
      return Fail(InvalidCast);
    }
    arguments[0] := Fragment(EnumToString(first.datePart));
    return Ok(SqlFunction("DATEDIFF", Int32Type, arguments[..]));
  }

  /** A call with a literal member as its unit gets that member's name as the bare datepart token. */
  method TranslateLiteralUnit(unit: DatePart, start: Expr, end: Expr) returns (r: Result<Expr>)
    ensures r == Ok(SqlFunction("DATEDIFF", Int32Type, [Fragment(Name(unit)), start, end]))
  {
    r := Translate([Constant(Ordinal(unit)), start, end]);
    assert r.value.arguments == [Fragment(Name(unit)), start, end];
  }
}
