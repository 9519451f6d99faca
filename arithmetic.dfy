/**
 * The demo producer of example.cpp, `ElementaryArithmeticFromZeroToMillion`,
 * for `T = int`: both arguments and the outcome must lie in [0, 1000000];
 * failures are reported as a `Result` holding a type-erased `Error`.
 */
module Arithmetic {

  import opened Kinds
  import Errors
  import opened Results

  const Million: int := 1_000_000

  predicate InDomain(n: int) {
    0 <= n <= Million
  }

  function Failure(k: Kind): Result<int, Errors.Error> {
    Err(Errors.Holding(k))
  }

  /** The range check applied to every computed outcome. */
  function RangeChecked(n: int): (r: Result<int, Errors.Error>)
    ensures r.HasValue() <==> InDomain(n)
    ensures r.HasValue() ==> r.value == n
    ensures !r.HasValue() ==> r == Failure(Range)
  {
    if InDomain(n) then Ok(n) else Failure(Range)
  }

  /** The operators the producer understands. */
  predicate IsOperator(op: char) {
    op == '+' || op == '-' || op == '*' || op == '/'
  }

  /**
   * Arguments are checked before the operator is looked at. On the
   * non-negative operands that reach it, Dafny's `/` agrees with the
   * truncating C++ `/`. Products are exact here; see ElementaryArithmeticInt32.
   */
  function ElementaryArithmeticFromZeroToMillion(op: char, x: int, y: int): (r: Result<int, Errors.Error>)
    ensures r.HasValue() ==> InDomain(r.value)
    ensures !r.HasValue() ==> r.error.HasValue()
    ensures !r.HasValue() ==> r.error.kind in {OutOfRange, Range, DivideByZero, InvalidArgument}
  {
    if !InDomain(x) || !InDomain(y) then Failure(OutOfRange)
    else
      match op
      case '+' => RangeChecked(x + y)
      case '-' => RangeChecked(x - y)
      case '*' => RangeChecked(x * y)
      case '/' => if y == 0 then Failure(DivideByZero) else RangeChecked(x / y)
      case _ => Failure(InvalidArgument)
  }

  /** The argument check comes first, whatever the operator (even an unknown one). */
  lemma ArgumentsCheckedFirst(op: char, x: int, y: int)
    requires !InDomain(x) || !InDomain(y)
    ensures ElementaryArithmeticFromZeroToMillion(op, x, y) == Failure(OutOfRange)
  {
  }

  /** `+`, `-`, `*` succeed exactly when the exact outcome is in range. */
  lemma RingOperatorsAreRangeChecked(op: char, x: int, y: int)
    requires InDomain(x) && InDomain(y)
    requires op == '+' || op == '-' || op == '*'
    ensures var n := if op == '+' then x + y else if op == '-' then x - y else x * y;
      var r := ElementaryArithmeticFromZeroToMillion(op, x, y);
      (r.HasValue() <==> InDomain(n)) && (r.HasValue() ==> r.value == n) && (!r.HasValue() ==> r == Failure(Range))
  {
  }

  lemma DivisionByZeroIsReported(x: int)
    requires InDomain(x)
    ensures ElementaryArithmeticFromZeroToMillion('/', x, 0) == Failure(DivideByZero)
  {
  }

  /** Division of in-range arguments by a non-zero divisor never fails the range check. */
  lemma DivisionAlwaysSucceeds(x: int, y: int)
    requires InDomain(x) && InDomain(y) && y != 0
    ensures ElementaryArithmeticFromZeroToMillion('/', x, y) == Ok(x / y)
  {
  }

  lemma UnknownOperatorIsInvalid(op: char, x: int, y: int)
    requires InDomain(x) && InDomain(y) && !IsOperator(op)
    ensures ElementaryArithmeticFromZeroToMillion(op, x, y) == Failure(InvalidArgument)
  {
  }

  /** The two's-complement wrap-around of a 32-bit `int`. */
  function WrapInt32(n: int): (w: int)
    ensures -0x8000_0000 <= w < 0x8000_0000
    ensures (n - w) % 0x1_0000_0000 == 0
    ensures -0x8000_0000 <= n < 0x8000_0000 ==> w == n
  {
    (n + 0x8000_0000) % 0x1_0000_0000 - 0x8000_0000
  }

  /**
   * The producer as compiled for a 32-bit `int` whose product wraps: for
   * in-range arguments only `*` can leave the `int` range (sums and
   * differences stay within [-1000000, 2000000]).
   */
  function ElementaryArithmeticInt32(op: char, x: int, y: int): (r: Result<int, Errors.Error>)
    ensures op != '*' ==> r == ElementaryArithmeticFromZeroToMillion(op, x, y)
  {
    if op == '*' && InDomain(x) && InDomain(y) then RangeChecked(WrapInt32(x * y))
    else ElementaryArithmeticFromZeroToMillion(op, x, y)
  }

  /** ('*', 65536, 65536): the product 2^32 wraps to 0 and is accepted as a success. */
  lemma WrappedProductIsAccepted()
    ensures 65536 * 65536 > Million
    ensures ElementaryArithmeticInt32('*', 65536, 65536) == Ok(0)
    ensures ElementaryArithmeticFromZeroToMillion('*', 65536, 65536) == Failure(Range)
  {
    assert WrapInt32(65536 * 65536) == 0;
  }

  /** Where the product fits in 32 bits the two readings agree. */
  lemma Int32AgreesWithoutOverflow(op: char, x: int, y: int)
    requires op == '*' ==> x * y < 0x8000_0000
    ensures ElementaryArithmeticInt32(op, x, y) == ElementaryArithmeticFromZeroToMillion(op, x, y)
  {
    if op == '*' && InDomain(x) && InDomain(y) {
      assert 0 <= x * y;
    }
  }
}
