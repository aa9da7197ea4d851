/** Go's 64-bit signed integers: the range of `int` and `int64` (and of
    `time.Duration`, which counts nanoseconds), wrap-around multiplication,
    the saturation `time.Time.Sub` applies, and division that truncates
    toward zero. */
module GoInt {
  const Int64Min: int := -0x8000_0000_0000_0000
  const Int64Max: int := 0x7FFF_FFFF_FFFF_FFFF
  const TwoTo64: int := 0x1_0000_0000_0000_0000

  predicate InInt64(v: int) {
    Int64Min <= v <= Int64Max
  }

  /** The int64 value congruent to `x` modulo 2^64, which is what Go's
      int64 arithmetic yields for the exact result `x`. */
  function Wrap(x: int): (w: int)
    ensures InInt64(w)
    ensures (x - w) % TwoTo64 == 0
    ensures InInt64(x) ==> w == x
  {
    (x - Int64Min) % TwoTo64 + Int64Min
  }

  /** The int64 value nearest to `x`. */
  function Saturate(x: int): (s: int)
    ensures InInt64(s)
    ensures InInt64(x) ==> s == x
    ensures x < Int64Min ==> s == Int64Min
    ensures x > Int64Max ==> s == Int64Max
  {
    if x < Int64Min then Int64Min else if x > Int64Max then Int64Max else x
  }

  /** Go's `/` on integers: the quotient rounded toward zero. */
  function TruncDiv(x: int, d: int): (q: int)
    requires d > 0
    ensures x >= 0 ==> q * d <= x < q * d + d
    ensures x < 0 ==> q * d - d < x <= q * d
  {
    if x >= 0 then x / d else -((-x) / d)
  }
}
