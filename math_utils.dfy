/**
 * The numeric helpers of the library: `clamp` and `clampByte`.  JavaScript
 * numbers are modelled as exact reals.
 */
module MathUtils {

  /** `Math.trunc`: the integer part of `x`, rounding toward zero. */
  function Trunc(x: real): (n: int)
    ensures x >= 0.0 ==> n as real <= x < n as real + 1.0
    ensures x < 0.0 ==> n as real - 1.0 < x <= n as real
  {
    if x >= 0.0 then x.Floor else -((-x).Floor)
  }

  /** `Math.round`: rounds half-way cases up, toward positive infinity. */
  function Round(x: real): (n: int)
    ensures n as real - 0.5 <= x < n as real + 0.5
  {
    (x + 0.5).Floor
  }

  /**
   * `clamp(value, min, max)`, computed as `Math.min(Math.max(value, min), max)`.
   * When the bounds are crossed (`min > max`) the outer `Math.min` wins and the
   * result is `max`.
   */
  function Clamp(value: real, min: real, max: real): (r: real)
    ensures min <= max ==> min <= r <= max
    ensures min <= value <= max ==> r == value
    ensures value < min && min <= max ==> r == min
    ensures value > max ==> r == max
    ensures min > max ==> r == max
  {
    var lower := if value > min then value else min;
    if lower < max then lower else max
  }

  /** `clamp(value)` with its default bounds 0 and 1. */
  function ClampUnit(value: real): (r: real)
    ensures 0.0 <= r <= 1.0
    ensures 0.0 <= value <= 1.0 ==> r == value
    ensures value < 0.0 ==> r == 0.0
    ensures value > 1.0 ==> r == 1.0
  {
    Clamp(value, 0.0, 1.0)
  }

  predicate IsByte(n: int) { 0 <= n < 256 }

  /** `clampByte`: clamps to 0..255 and then truncates, so a fraction is dropped, never rounded. */
  function ClampByte(value: real): (b: int)
    ensures IsByte(b)
    ensures 0.0 <= value <= 255.0 ==> b == value.Floor
    ensures value < 0.0 ==> b == 0
    ensures value > 255.0 ==> b == 255
  {
    Trunc(Clamp(value, 0.0, 255.0))
  }

  /** The values exercised by the library's tests of `clamp`. */
  lemma ClampScenarios()
    ensures ClampUnit(0.5) == 0.5 && ClampUnit(-1.5) == 0.0 && ClampUnit(5.2) == 1.0
    ensures Clamp(0.5, -1.0, 1.0) == 0.5 && Clamp(-0.3, -1.0, 1.0) == -0.3
    ensures Clamp(-3.0, -1.0, -0.5) == -1.0 && Clamp(1.0, -3.0, -0.5) == -0.5
  {
  }

  /** `clampByte` truncates: the values exercised by the library's tests. */
  lemma ClampByteScenarios()
    ensures ClampByte(64.0) == 64 && ClampByte(-2.0) == 0 && ClampByte(512.0) == 255
    ensures ClampByte(32.5) == 32 && ClampByte(-0.5) == 0 && ClampByte(254.6) == 254
  {
  }

  /** `clampByte` is the identity on the byte values 0..255. */
  lemma ClampByteOfByte(n: int)
    requires IsByte(n)
    ensures ClampByte(n as real) == n
  {
  }

  /** Applying `clampByte` twice gives the same byte as applying it once. */
  lemma ClampByteIdempotent(value: real)
    ensures ClampByte(ClampByte(value) as real) == ClampByte(value)
  {
    ClampByteOfByte(ClampByte(value));
  }
}
