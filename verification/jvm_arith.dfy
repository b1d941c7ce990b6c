/** Kotlin/JVM integer semantics, written out over Dafny's unbounded `int`:
    two's-complement wrap-around of `Long` and `Int`, division that truncates
    toward zero, and the exception thrown by a division by zero. */
module JvmArith {
  import opened Results

  const TWO_32: int := 0x1_0000_0000
  const TWO_64: int := 0x1_0000_0000_0000_0000
  const INT_MIN: int := -0x8000_0000
  const INT_MAX: int := 0x7fff_ffff
  const LONG_MIN: int := -0x8000_0000_0000_0000
  const LONG_MAX: int := 0x7fff_ffff_ffff_ffff

  /** Kotlin `Int` (32-bit signed). */
  type Int32 = x: int | INT_MIN <= x <= INT_MAX

  /** Kotlin `Long` (64-bit signed). */
  type Int64 = x: int | LONG_MIN <= x <= LONG_MAX

  /** The exception a JVM integer division throws. */
  datatype ArithmeticException = DivideByZero

  function Abs(x: int): nat
  {
    if x < 0 then -x else x
  }

  /** The unique `Long` congruent to `x` modulo 2^64 (what a 64-bit overflow yields). */
  function WrapLong(x: int): (r: Int64)
    ensures (x - r) % TWO_64 == 0
    ensures LONG_MIN <= x <= LONG_MAX ==> r == x
  {
    var m := x % TWO_64;
    if m <= LONG_MAX then m else m - TWO_64
  }

  /** `Long.toInt()`: keeps the low 32 bits, read as a signed `Int`. */
  function LongToInt(x: Int64): (r: Int32)
    ensures (x - r) % TWO_32 == 0
    ensures INT_MIN <= x <= INT_MAX ==> r == x
  {
    var m := x % TWO_32;
    if m <= INT_MAX then m else m - TWO_32
  }

  /** `a * b` on two `Long`s, wrapping on overflow. */
  function LongMul(a: Int64, b: Int64): (r: Int64)
    ensures LONG_MIN <= a * b <= LONG_MAX ==> r == a * b
  {
    WrapLong(a * b)
  }

  /** Integer division rounding toward zero, as the JVM divides (Dafny's own
      `/` is Euclidean and rounds negative quotients down instead). */
  function TruncDiv(a: int, b: int): (q: int)
    requires b != 0
    ensures Abs(q) == Abs(a) / Abs(b)
    ensures q > 0 ==> (a < 0) == (b < 0)
    ensures q < 0 ==> (a < 0) != (b < 0)
  {
    var n := Abs(a) / Abs(b);
    assert 0 <= n by { DivNonNegative(Abs(a), Abs(b)); }
    if (a < 0) == (b < 0) then n else -n
  }

  lemma QuotientBelowDividend(x: nat, y: nat)
    requires y > 0
    ensures 0 <= x / y <= x
  {
    var q := x / y;
    assert x == q * y + x % y;
    assert q >= 0;
    assert q * y == q * (y - 1) + q;
    MulNonNegative(q, y - 1);
  }

  lemma MulNonNegative(a: nat, b: nat)
    ensures a * b >= 0
  {
  }

  lemma DivNonNegative(x: nat, y: nat)
    requires y > 0
    ensures x / y >= 0
  {
  }

  /** `a / b` on two `Long`s: throws on a zero divisor, and the one
      overflowing quotient (`LONG_MIN / -1`) wraps back to `LONG_MIN`. */
  function LongDiv(a: Int64, b: Int64): (r: Result<Int64, ArithmeticException>)
    ensures r.Failure? <==> b == 0
    ensures r.Failure? ==> r.error == DivideByZero
    ensures 0 <= a && 0 < b ==> r == Success(a / b)
    ensures b != 0 && !(a == LONG_MIN && b == -1) ==>
              && Abs(r.value) == Abs(a) / Abs(b)
              && (r.value > 0 ==> (a < 0) == (b < 0))
              && (r.value < 0 ==> (a < 0) != (b < 0))
    ensures a == LONG_MIN && b == -1 ==> r == Success(LONG_MIN)
  {
    if b == 0 then Failure(DivideByZero)
    else
      var q := TruncDiv(a, b);
      assert 0 <= a && 0 < b ==> q == a / b && 0 <= q <= a by {
        if 0 <= a && 0 < b { QuotientBelowDividend(a, b); }
      }
      assert !(a == LONG_MIN && b == -1) ==> LONG_MIN <= q <= LONG_MAX by {
        QuotientBelowDividend(Abs(a), Abs(b));
        if Abs(b) >= 2 { QuotientAtMostHalf(Abs(a), Abs(b)); }
      }
      Success(WrapLong(q))
  }

  /** Dividing by at least 2 at least halves. */
  lemma QuotientAtMostHalf(x: nat, y: nat)
    requires y >= 2
    ensures x / y <= x / 2
  {
    var q := x / y;
    assert q * y <= x;
    MulNonNegative(q, y - 2);
    assert q * y == q * 2 + q * (y - 2);
  }
}
