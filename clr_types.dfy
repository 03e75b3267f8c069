/**
 * The parts of the .NET runtime that the DATEDIFF engine relies on: 32- and
 * 64-bit integers, the `checked` arithmetic of C#, C#'s integer division
 * (which truncates toward zero), the exceptions the engine can raise, and
 * the nullable wrapper `T?`.
 */
module ClrTypes {

  const MinInt32: int := -0x8000_0000
  const MaxInt32: int := 0x7FFF_FFFF
  const MinInt64: int := -0x8000_0000_0000_0000
  const MaxInt64: int := 0x7FFF_FFFF_FFFF_FFFF

  /** System.Int32 (C# `int`). */
  type Int32 = x: int | MinInt32 <= x <= MaxInt32

  /** System.Int64 (C# `long`). */
  type Int64 = x: int | MinInt64 <= x <= MaxInt64

  predicate InInt32(x: int) {
    MinInt32 <= x <= MaxInt32
  }

  predicate InInt64(x: int) {
    MinInt64 <= x <= MaxInt64
  }

  /** The exceptions the modelled code can raise. */
  datatype Exception =
    | NullReference        // System.NullReferenceException
    | InvalidCast          // System.InvalidCastException
    | InvalidOperation     // System.InvalidOperationException
    | ArgumentOutOfRange   // System.ArgumentOutOfRangeException
    | Overflow             // System.OverflowException, raised by `checked` arithmetic
    | Thrown(message: string) // a plain System.Exception with its message

  /** A value, or the exception that was thrown instead of returning one. */
  datatype Result<+T> = Ok(value: T) | Fail(error: Exception) {

    predicate IsFailure() {
      Fail?
    }

    function PropagateFailure<U>(): Result<U>
      requires Fail?
    {
      Fail(error)
    }

    function Extract(): T
      requires Ok?
    {
      value
    }
  }

  /** C#'s nullable value type `T?`: `None` is `null`. */
  datatype Option<+T> = None | Some(value: T)

  /** Lifts a result to the nullable type, as the implicit conversion `int` to `int?` does. */
  function SomeOf<T>(r: Result<T>): Result<Option<T>> {
    match r
    case Ok(v) => Ok(Some(v))
    case Fail(x) => Fail(x)
  }

  /** The `int` result of an `int` operation inside `checked`: the exact value or OverflowException. */
  function CheckedInt32(x: int): (r: Result<Int32>)
    ensures r.Ok? <==> InInt32(x)
    ensures r.Ok? ==> r.value == x
    ensures r.Fail? ==> r.error == Overflow
  {
    if InInt32(x) then Ok(x) else Fail(Overflow)
  }

  /** The `long` result of a `long` operation inside `checked`. */
  function CheckedInt64(x: int): (r: Result<Int64>)
    ensures r.Ok? <==> InInt64(x)
    ensures r.Ok? ==> r.value == x
    ensures r.Fail? ==> r.error == Overflow
  {
    if InInt64(x) then Ok(x) else Fail(Overflow)
  }

  function Add32(a: Int32, b: Int32): Result<Int32> {
    CheckedInt32(a + b)
  }

  function Sub32(a: Int32, b: Int32): Result<Int32> {
    CheckedInt32(a - b)
  }

  function Mul32(a: Int32, b: Int32): Result<Int32> {
    CheckedInt32(a * b)
  }

  function Mul64(a: Int64, b: Int64): Result<Int64> {
    CheckedInt64(a * b)
  }

  /** The explicit cast `(int)` of a `long` inside `checked`. */
  function NarrowToInt32(x: Int64): Result<Int32> {
    CheckedInt32(x)
  }

  /**
   * C#'s integer `/` for a positive divisor: the quotient truncated toward
   * zero (Dafny's own `/` rounds toward negative infinity for a negative
   * dividend).
   */
  function TruncDiv(a: int, b: int): (q: int)
    requires b > 0
    ensures a >= 0 ==> 0 <= a - q * b < b
    ensures a < 0 ==> -b < a - q * b <= 0
  {
    if a >= 0 then a / b else -((-a) / b)
  }

  /** Truncating division commutes with negation, which Euclidean division does not. */
  lemma TruncDivNegate(a: int, b: int)
    requires b > 0
    ensures TruncDiv(-a, b) == -TruncDiv(a, b)
  {
    if a == 0 {
    } else if a > 0 {
      assert TruncDiv(-a, b) == -(a / b);
    } else {
      assert TruncDiv(-a, b) == (-a) / b;
    }
  }
}
