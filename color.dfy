// Colour model shared by the three LED scripts: RGB triples with 8-bit
// channels, the hue-to-colour helper `hsv_color` and the truncating
// `int(channel * factor)` dimming used by the breathing and scanner effects.
// Floating point is replaced by exact reals throughout.
module Color {

  /** NUM_LEDS: the strip has thirty pixels. */
  const N: nat := 30

  /** One 8-bit colour intensity. */
  type Channel = x: int | 0 <= x <= 255

  datatype RGB = RGB(r: Channel, g: Channel, b: Channel)

  const Black: RGB := RGB(0, 0, 0)

  /** Each channel of `c` is at most the matching channel of `base`. */
  predicate NoBrighter(c: RGB, base: RGB) {
    c.r <= base.r && c.g <= base.g && c.b <= base.b
  }

  function Abs(x: real): real { if x < 0.0 then -x else x }

  function Max(x: real, y: real): real { if x < y then y else x }

  /** Python's `x % 1.0`: the fractional part, taken by flooring. */
  function Frac(x: real): (f: real)
    ensures 0.0 <= f < 1.0
    ensures (x - f).Floor as real == x - f
  {
    x - x.Floor as real
  }

  /** Adding a whole number of turns does not change the fractional part. */
  lemma FracShift(x: real, k: int)
    ensures Frac(x + k as real) == Frac(x)
  {
    assert (x + k as real).Floor == x.Floor + k;
  }

  /** Python's `int(x)` on a float: truncation toward zero. */
  function Trunc(x: real): (n: int)
    ensures 0.0 <= x ==> 0 <= n && n as real <= x < n as real + 1.0
    ensures x < 0.0 ==> n <= 0 && x <= n as real && n as real < x + 1.0
  {
    if 0.0 <= x then x.Floor else -((-x).Floor)
  }

  /** `int(x * 255)` for a colorsys channel value `x` in [0, 1]. */
  function ToChannel(x: real): (c: Channel)
    requires 0.0 <= x <= 1.0
    ensures c as real <= x * 255.0 < c as real + 1.0
  {
    (x * 255.0).Floor
  }

  /**
   * colorsys.hsv_to_rgb(h, 1.0, 1.0) for a hue in [0, 1), scaled to
   * channels: the six-sector conversion with p = 0, q = 1 - f, t = f.
   * A fully saturated, full-value colour has one channel at 255 and one at 0.
   */
  function HueToRgb(h: real): (c: RGB)
    requires 0.0 <= h < 1.0
    ensures c.r == 255 || c.g == 255 || c.b == 255
    ensures c.r == 0 || c.g == 0 || c.b == 0
  {
    var i := (h * 6.0).Floor;
    var f := h * 6.0 - i as real;
    var q := ToChannel(1.0 - f);
    var t := ToChannel(f);
    if i == 0 then RGB(255, t, 0)
    else if i == 1 then RGB(q, 255, 0)
    else if i == 2 then RGB(0, 255, t)
    else if i == 3 then RGB(0, q, 255)
    else if i == 4 then RGB(t, 0, 255)
    else RGB(255, 0, q)
  }

  /** `hsv_color(h)`: the hue is reduced modulo 1.0 before conversion. */
  function HsvColor(h: real): (c: RGB)
    ensures c.r == 255 || c.g == 255 || c.b == 255
    ensures c.r == 0 || c.g == 0 || c.b == 0
  {
    HueToRgb(Frac(h))
  }

  /** Hue wraparound: `hsv_color` is periodic with period one turn. */
  lemma HsvColorPeriodic(h: real, k: int)
    ensures HsvColor(h + k as real) == HsvColor(h)
  {
    FracShift(h, k);
  }

  /** Scaling a non-negative amount by a factor in [0, 1] keeps it in [0, x]. */
  lemma ProductBounds(x: real, k: real)
    requires 0.0 <= x && 0.0 <= k <= 1.0
    ensures 0.0 <= x * k <= x
  {
  }

  /** `int(x * k)` for a channel `x` and a factor `k` in [0, 1]. */
  function Scale(x: Channel, k: real): (y: Channel)
    requires 0.0 <= k <= 1.0
    ensures y <= x
  {
    ProductBounds(x as real, k);
    var y := (x as real * k).Floor;
    assert y as real <= x as real;
    y
  }

  /** The dimming multiply: every channel scaled by `k` and truncated. */
  function Dim(c: RGB, k: real): (d: RGB)
    requires 0.0 <= k <= 1.0
    ensures NoBrighter(d, c)
    ensures k == 0.0 ==> d == Black
    ensures k == 1.0 ==> d == c
  {
    RGB(Scale(c.r, k), Scale(c.g, k), Scale(c.b, k))
  }
}
