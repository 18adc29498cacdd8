/** The JVM's fixed-width integers as the services use them: 64-bit `Long`
    arithmetic that wraps around, division that truncates toward zero, and
    Kotlin's `Double.toInt()`, which truncates and saturates. */
module JavaNumbers {

  const LONG_MIN: int := -0x8000_0000_0000_0000
  const LONG_MAX: int := 0x7FFF_FFFF_FFFF_FFFF
  const INT_MIN: int := -0x8000_0000
  const INT_MAX: int := 0x7FFF_FFFF

  predicate InLongRange(n: int) {
    LONG_MIN <= n <= LONG_MAX
  }

  predicate InIntRange(n: int) {
    INT_MIN <= n <= INT_MAX
  }

  /** The two's-complement result of a `Long` operation whose exact value is `x`. */
  function WrapLong(x: int): (r: int)
    ensures InLongRange(r)
    ensures (r - x) % 0x1_0000_0000_0000_0000 == 0
    ensures InLongRange(x) ==> r == x
  {
    (x - LONG_MIN) % 0x1_0000_0000_0000_0000 + LONG_MIN
  }

  /** The narrowing cast `(int) x` of a `long` whose value is `x`: the low 32
      bits read as two's complement. */
  function WrapInt(x: int): (r: int)
    ensures InIntRange(r)
    ensures (r - x) % 0x1_0000_0000 == 0
    ensures InIntRange(x) ==> r == x
  {
    (x - INT_MIN) % 0x1_0000_0000 + INT_MIN
  }

  /** `ms / 1000` on a JVM `Long`: whole seconds, the quotient rounded toward zero. */
  function MillisToSeconds(ms: int): (s: int)
    ensures ms >= 0 ==> 0 <= ms - s * 1000 < 1000
    ensures ms < 0 ==> -1000 < ms - s * 1000 <= 0
  {
    if ms >= 0 then ms / 1000 else -((-ms) / 1000)
  }

  /** A JVM `double`: a real value or one of the three special values. */
  datatype Double = Finite(value: real) | NaN | PositiveInfinity | NegativeInfinity

  /** `x` rounded toward zero. */
  function TruncReal(x: real): (n: int)
    ensures x >= 0.0 ==> 0.0 <= n as real <= x < n as real + 1.0
    ensures x < 0.0 ==> n as real - 1.0 < x <= n as real <= 0.0
  {
    if x >= 0.0 then x.Floor else -((-x).Floor)
  }

  /** Kotlin `Double.toInt()`: NaN is 0, anything beyond the `Int` range
      saturates at its ends, everything else is rounded toward zero. */
  function DoubleToInt(d: Double): (n: int)
    ensures InIntRange(n)
    ensures d.NaN? ==> n == 0
    ensures d.Finite? && InIntRange(TruncReal(d.value)) ==> n == TruncReal(d.value)
    ensures d.PositiveInfinity? || (d.Finite? && TruncReal(d.value) > INT_MAX) ==> n == INT_MAX
    ensures d.NegativeInfinity? || (d.Finite? && TruncReal(d.value) < INT_MIN) ==> n == INT_MIN
  {
    match d
    case NaN => 0
    case PositiveInfinity => INT_MAX
    case NegativeInfinity => INT_MIN
    case Finite(x) =>
      var t := TruncReal(x);
      if t > INT_MAX then INT_MAX else if t < INT_MIN then INT_MIN else t
  }
}
