/** Types and small numeric helpers shared by every module.

    A duty is the project's 0-255 scale and an rpm is a 16-bit speed; both are
    integers here with the machine width in the type. Floating-point numbers are
    modelled as reals, and NaN or an infinity as `NonFinite`.
 */
module Prelude {

  datatype Option<+T> = None | Some(value: T)

  datatype Result<+R, +E> = Ok(value: R) | Err(error: E)

  type Duty = d: int | 0 <= d <= 255

  type Rpm = r: int | 0 <= r <= 65535

  /** A sensor reading that exists: a finite temperature, or a NaN or infinity. */
  datatype Celsius = NonFinite | Finite(celsius: real)

  /** The lowest non-zero duty any board is allowed. */
  const STICTION_DUTY: Duty := 33

  function Max(a: int, b: int): int { if a >= b then a else b }

  function Min(a: int, b: int): int { if a <= b then a else b }

  function MaxReal(a: real, b: real): real { if a >= b then a else b }

  function MinReal(a: real, b: real): real { if a <= b then a else b }

  function AbsReal(a: real): real { if a >= 0.0 then a else -a }

  function AbsDiff(a: int, b: int): nat { if a >= b then a - b else b - a }

  /** `u8::saturating_add`. */
  function SaturatingAdd(a: Duty, b: Duty): Duty { Min(a + b, 255) }

  /** `u8::saturating_sub`. */
  function SaturatingSub(a: Duty, b: Duty): Duty { Max(a - b, 0) }

  /** The least integer not below `x`. */
  function Ceil(x: real): int { -((-x).Floor) }

  /** Round half away from zero. */
  function Round(x: real): int { if x < 0.0 then -((0.5 - x).Floor) else (x + 0.5).Floor }

  /** The value at `x` on the straight line through (x0, y0) and (x1, y1). */
  function Between(x0: real, y0: real, x1: real, y1: real, x: real): real
    requires x0 < x1
  {
    y0 + ((x - x0) / (x1 - x0)) * (y1 - y0)
  }

  function Clamp01(t: real): real { if t < 0.0 then 0.0 else if t > 1.0 then 1.0 else t }

  function Lerp(a: real, b: real, t: real): real { a + (b - a) * Clamp01(t) }

  /** The defining equation of `Between`, free of division. */
  lemma BetweenScaled(x0: real, y0: real, x1: real, y1: real, x: real)
    requires x0 < x1
    ensures (Between(x0, y0, x1, y1, x) - y0) * (x1 - x0) == (y1 - y0) * (x - x0)
  {
    var w := x1 - x0;
    var t := (x - x0) / w;
    assert t * w == x - x0;
    calc {
      (t * (y1 - y0)) * w;
      (t * w) * (y1 - y0);
      (x - x0) * (y1 - y0);
    }
  }

  lemma MulOrder(a: real, b: real, w: real)
    requires w > 0.0
    ensures a * w <= b * w <==> a <= b
    ensures a * w < b * w <==> a < b
  {
    if a < b { assert (b - a) * w > 0.0; }
    if a > b { assert (a - b) * w > 0.0; }
  }

  lemma BetweenEnds(x0: real, y0: real, x1: real, y1: real)
    requires x0 < x1
    ensures Between(x0, y0, x1, y1, x0) == y0
    ensures Between(x0, y0, x1, y1, x1) == y1
  {
    assert (x1 - x0) / (x1 - x0) == 1.0;
  }

  /** A line that does not fall is monotone. */
  lemma BetweenMonotone(x0: real, y0: real, x1: real, y1: real, x: real, x': real)
    requires x0 < x1 && y0 <= y1 && x <= x'
    ensures Between(x0, y0, x1, y1, x) <= Between(x0, y0, x1, y1, x')
  {
    var w := x1 - x0;
    var (b, b') := (Between(x0, y0, x1, y1, x), Between(x0, y0, x1, y1, x'));
    BetweenScaled(x0, y0, x1, y1, x);
    BetweenScaled(x0, y0, x1, y1, x');
    assert (y1 - y0) * (x' - x0) - (y1 - y0) * (x - x0) == (y1 - y0) * (x' - x) >= 0.0;
    MulOrder(b - y0, b' - y0, w);
  }

  lemma BetweenBounds(x0: real, y0: real, x1: real, y1: real, x: real)
    requires x0 < x1 && y0 <= y1 && x0 <= x <= x1
    ensures y0 <= Between(x0, y0, x1, y1, x) <= y1
  {
    BetweenEnds(x0, y0, x1, y1);
    BetweenMonotone(x0, y0, x1, y1, x0, x);
    BetweenMonotone(x0, y0, x1, y1, x, x1);
  }

  /** Exchanging the axes of a rising line inverts it. */
  lemma BetweenAdjoint(x0: real, y0: real, x1: real, y1: real, x: real, y: real)
    requires x0 < x1 && y0 < y1
    ensures Between(x0, y0, x1, y1, x) >= y <==> x >= Between(y0, x0, y1, x1, y)
  {
    var (w, h) := (x1 - x0, y1 - y0);
    var (b, inv) := (Between(x0, y0, x1, y1, x), Between(y0, x0, y1, x1, y));
    BetweenScaled(x0, y0, x1, y1, x);
    BetweenScaled(y0, x0, y1, x1, y);
    assert (b - y0) * w == h * (x - x0);
    assert (inv - x0) * h == w * (y - y0);
    MulOrder(y - y0, b - y0, w);
    MulOrder(inv - x0, x - x0, h);
  }

  lemma UnitRatio(a: real, w: real)
    requires 0.0 <= a <= w && w > 0.0
    ensures 0.0 <= a / w <= 1.0
  {
    var t := a / w;
    assert t * w == a;
    MulOrder(0.0, t, w);
    MulOrder(t, 1.0, w);
  }

  lemma MulCommutes(a: real, b: real)
    ensures a * b == b * a
  {}

  /** Inside the segment the clamp in `Lerp` does nothing. */
  lemma LerpIsBetween(x0: real, y0: real, x1: real, y1: real, x: real)
    requires x0 < x1 && x0 <= x <= x1
    ensures Lerp(y0, y1, (x - x0) / (x1 - x0)) == Between(x0, y0, x1, y1, x)
  {
    UnitRatio(x - x0, x1 - x0);
    MulCommutes(y1 - y0, (x - x0) / (x1 - x0));
  }

  lemma LerpBounds(a: real, b: real, t: real)
    ensures MinReal(a, b) <= Lerp(a, b, t) <= MaxReal(a, b)
  {
    var c := Clamp01(t);
    var h := AbsReal(b - a);
    ProductNonNegative(h, c);
    ProductNonNegative(h, 1.0 - c);
    assert h * (1.0 - c) == h - h * c;
  }

  lemma ProductNonNegative(a: real, b: real)
    requires a >= 0.0 && b >= 0.0
    ensures a * b >= 0.0
  {}
}
