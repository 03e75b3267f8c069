/**
 * The `DatePart` enumeration: nine members in declaration order, whose
 * names double as the SQL datepart tokens of DATEDIFF. A C# enum variable
 * can hold any `int`; `FromOrdinal` says which raw values are members,
 * and `EnumToString` is what `Enum.ToString()` prints for a raw value.
 */
module EFEnum {
  import opened ClrTypes

  datatype DatePart =
    | Day | Month | Year | Hour | Minute | Second | Millisecond | Microsecond | Nanosecond

  /** The members in declaration order. */
  const AllDateParts: seq<DatePart> :=
    [Day, Month, Year, Hour, Minute, Second, Millisecond, Microsecond, Nanosecond]

  /** The underlying value the compiler assigns: the position in the declaration. */
  function Ordinal(p: DatePart): (n: int)
    ensures 0 <= n < |AllDateParts| && AllDateParts[n] == p
  {
    match p
    case Day => 0
    case Month => 1
    case Year => 2
    case Hour => 3
    case Minute => 4
    case Second => 5
    case Millisecond => 6
    case Microsecond => 7
    case Nanosecond => 8
  }

  /** The member's identifier, which is also its SQL Server datepart keyword. */
  function Name(p: DatePart): (s: string)
    ensures |s| > 0 && forall i :: 0 <= i < |s| ==> 'a' <= s[i] <= 'z'
  {
    match p
    case Day => "day"
    case Month => "month"
    case Year => "year"
    case Hour => "hour"
    case Minute => "minute"
    case Second => "second"
    case Millisecond => "millisecond"
    case Microsecond => "microsecond"
    case Nanosecond => "nanosecond"
  }

  /** The member whose underlying value is `raw`, if there is one. */
  function FromOrdinal(raw: int): (r: Option<DatePart>)
    ensures r.Some? <==> 0 <= raw < |AllDateParts|
    ensures r.Some? ==> Ordinal(r.value) == raw
  {
    if 0 <= raw < |AllDateParts| then Some(AllDateParts[raw]) else None
  }

  /** There are exactly nine members, each once, in declaration order. */
  lemma NineMembers()
    ensures |AllDateParts| == 9
    ensures forall p: DatePart :: p in AllDateParts
    ensures forall i, j :: 0 <= i < j < |AllDateParts| ==> AllDateParts[i] != AllDateParts[j]
  {
    forall p: DatePart ensures p in AllDateParts {
      assert AllDateParts[Ordinal(p)] == p;
    }
  }

  lemma OrdinalRoundTrip(p: DatePart)
    ensures FromOrdinal(Ordinal(p)) == Some(p)
  {
  }

  /** Distinct members have distinct names, so a token names one member. */
  lemma NameInjective(p: DatePart, q: DatePart)
    ensures Name(p) == Name(q) <==> p == q
  {
  }

  function DigitChar(d: int): (c: char)
    requires 0 <= d < 10
    ensures '0' <= c <= '9' && c as int - '0' as int == d
  {
    "0123456789"[d]
  }

  /** The decimal digits of `n`, most significant first, without leading zeros. */
  function NatToString(n: nat): (s: string)
    decreases n
  {
    if n < 10 then [DigitChar(n)] else NatToString(n / 10) + [DigitChar(n % 10)]
  }

  /** `Int32.ToString()`: an optional minus sign and the decimal digits. */
  function IntToString(n: int): string {
    if n < 0 then "-" + NatToString(-n) else NatToString(n)
  }

  predicate IsDigits(s: string) {
    forall i :: 0 <= i < |s| ==> '0' <= s[i] <= '9'
  }

  /** The number a string of decimal digits denotes, most significant digit first. */
  function DecimalValue(s: string): nat
    requires IsDigits(s)
    decreases |s|
  {
    if s == [] then 0 else 10 * DecimalValue(s[..|s| - 1]) + (s[|s| - 1] as int - '0' as int)
  }

  /** `n` prints as a non-empty run of digits denoting `n`, with no leading zero. */
  lemma {:induction false} NatToStringDigits(n: nat)
    ensures var s := NatToString(n);
      |s| > 0 && IsDigits(s) && DecimalValue(s) == n && (n > 0 ==> s[0] != '0')
    decreases n
  {
    if n >= 10 {
      NatToStringDigits(n / 10);
      var init := NatToString(n / 10);
      var s := NatToString(n);
      assert s == init + [DigitChar(n % 10)];
      assert s[..|s| - 1] == init;
    }
  }

  /** An int prints as its digits, after a minus sign exactly when it is negative. */
  lemma IntToStringDigits(n: int)
    ensures var s := IntToString(n);
      |s| > 0 && (s[0] == '-' <==> n < 0) &&
      (n < 0 ==> IsDigits(s[1..]) && DecimalValue(s[1..]) == -n && s[1] != '0') &&
      (n >= 0 ==> IsDigits(s) && DecimalValue(s) == n)
  {
    NatToStringDigits(if n < 0 then -n else n);
    if n < 0 {
      assert IntToString(n)[1..] == NatToString(-n);
    }
  }

  /** No number prints as a member name: its first character is a digit or a minus sign. */
  lemma IntToStringIsNoName(n: int)
    ensures forall p :: IntToString(n) != Name(p)
  {
    var s := IntToString(n);
    IntToStringDigits(n);
    assert |s| > 0 && (s[0] == '-' || '0' <= s[0] <= '9');
    forall p ensures s != Name(p) {
      assert 'a' <= Name(p)[0] <= 'z';
    }
  }

  /**
   * `Enum.ToString()` of a DatePart value: the member's name for the nine
   * member values; any other value prints as a number, which is no datepart
   * keyword.
   */
  function EnumToString(raw: Int32): (s: string)
    ensures (exists p :: s == Name(p)) <==> 0 <= raw < |AllDateParts|
    ensures 0 <= raw < |AllDateParts| ==> s == Name(AllDateParts[raw])
  {
    match FromOrdinal(raw)
    case Some(p) => Name(p)
    case None => IntToStringIsNoName(raw); IntToString(raw)
  }
}
