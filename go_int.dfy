/** Go's 64-bit integer arithmetic, as the pool uses it for expiry timestamps.
    Dafny's `int` is unbounded and its `/` is Euclidean; Go's `int64` wraps
    around and its `/` truncates toward zero. Both are written out here. */
module GoInt {

  const MinInt64: int := -0x8000_0000_0000_0000
  const MaxInt64: int := 0x7fff_ffff_ffff_ffff
  const TwoTo64: int := 0x1_0000_0000_0000_0000

  /** Go's `int64`; also `time.Duration`, which counts nanoseconds. */
  type Int64 = x: int | MinInt64 <= x <= MaxInt64

  const NanosPerMilli: int := 1_000_000

  /** The largest magnitude a millisecond count derived from an `int64`
      nanosecond count can have. */
  const MaxMillis: int := MaxInt64 / NanosPerMilli

  /** Two's-complement wrap-around of an `int64` sum. */
  function Wrap64(x: int): (r: Int64)
    ensures MinInt64 <= x <= MaxInt64 ==> r == x
    ensures (x - r) % TwoTo64 == 0
  {
    (x - MinInt64) % TwoTo64 + MinInt64
  }

  /** `d.Nanoseconds() / 1000000` for a duration `d`: Go's integer division
      truncates toward zero, so a negative duration of less than a
      millisecond gives 0, not -1. */
  function Millis(d: Int64): (ms: int)
    ensures -MaxMillis <= ms <= MaxMillis
    ensures 0 <= d ==> 0 <= ms && ms * NanosPerMilli <= d < ms * NanosPerMilli + NanosPerMilli
    ensures d < 0 ==> ms <= 0 && ms * NanosPerMilli - NanosPerMilli < d <= ms * NanosPerMilli
  {
    if d >= 0 then d / NanosPerMilli else -((-(d as int)) / NanosPerMilli)
  }

  /** Where Go's truncating division and Dafny's Euclidean division part:
      for a negative duration that is not a whole number of milliseconds,
      Go's quotient is one more than Dafny's. */
  lemma MillisTruncatesTowardZero(d: Int64)
    requires d < 0
    ensures d % NanosPerMilli == 0 ==> Millis(d) == d / NanosPerMilli
    ensures d % NanosPerMilli != 0 ==> Millis(d) == d / NanosPerMilli + 1
  {
  }
}
