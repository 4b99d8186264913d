/**
 * The few pieces of the .NET runtime that both components depend on:
 * the exceptions their code can raise, 32-bit `int` arithmetic with
 * unchecked wrap-around, and the range contracts of `System.Random`.
 */
module Runtime {

  /** The exceptions the modelled code can raise. */
  datatype Exception =
    | IndexOutOfRange      // an array index outside [0, Length)
    | NullReference        // an access through a null array reference
    | ArgumentOutOfRange   // Random.Next(a, b) called with b < a

  /** A value, or the exception that ended the computation. */
  datatype Result<T> = Success(value: T) | Failure(error: Exception)

  /** Normal completion of a `void` method, or the exception it raised. */
  datatype Outcome = Pass | Fail(error: Exception)

  const Int32Min: int := -0x8000_0000
  const Int32Max: int := 0x7fff_ffff

  /** C#'s `int`. */
  type Int32 = x: int | Int32Min <= x <= Int32Max

  /** Unchecked C# `int` arithmetic: the mathematical result reduced modulo 2^32. */
  function Wrap32(x: int): (r: Int32)
    ensures (r - x) % 0x1_0000_0000 == 0
    ensures Int32Min <= x <= Int32Max ==> r == x
  {
    (x - Int32Min) % 0x1_0000_0000 + Int32Min
  }

  /**
   * The contract of `Random.Next(lo, hi)` when it returns: a value in
   * [lo, hi), or `lo` itself when `lo == hi`. When `hi < lo` it throws and
   * no value satisfies this predicate.
   */
  predicate NextContract(d: int, lo: int, hi: int) {
    (lo < hi && lo <= d < hi) || (lo == hi && d == lo)
  }

  /** The contract of `Random.NextDouble()`: a value in [0, 1). */
  predicate NextDoubleContract(u: real) {
    0.0 <= u < 1.0
  }

  lemma {:induction false} NextThrowsOnlyBelow(lo: int, hi: int)
    ensures hi < lo <==> forall d :: !NextContract(d, lo, hi)
  {
    if lo <= hi {
      assert NextContract(lo, lo, hi);
    }
  }
}
