// The animation effects of the three LED scripts, as writes into the
// driver's fixed-length pixel buffer (`strip.set_pixel`, `pixels[i] = ...`).
// Each effect is a method on the buffer proved against a function that gives
// the whole frame it leaves behind; the properties the effects promise are
// stated about those frame functions.
module Effects {
  import opened Color

  /** Every pixel set to one colour. */
  function Solid(c: RGB): seq<RGB> {
    seq(N, _ => c)
  }

  /** Distance between two pixel indices. */
  function Dist(i: int, j: int): nat {
    if i < j then j - i else i - j
  }

  /** `strip.clear_strip()` / `pixels.fill((0, 0, 0))`: blank every pixel. */
  method Clear(strip: array<RGB>)
    modifies strip
    ensures forall i :: 0 <= i < strip.Length ==> strip[i] == Black
  {
    for i := 0 to strip.Length
      invariant forall j :: 0 <= j < i ==> strip[j] == Black
    {
      strip[i] := Black;
    }
  }

  // ---------------------------------------------------------------- rainbow

  /** The hue of one pixel of the rainbow: `(pixel / NUM_LEDS + step) % 1.0`. */
  function RainbowHue(pixel: int, step: real): real {
    Frac(pixel as real / N as real + step)
  }

  function RainbowFrame(step: real): seq<RGB> {
    seq(N, i => HsvColor(RainbowHue(i, step)))
  }

  /** `rainbow(step)`: every pixel 0..N-1 is written once, with its own hue. */
  method Rainbow(strip: array<RGB>, step: real)
    requires strip.Length == N
    modifies strip
    ensures strip[..] == RainbowFrame(step)
  {
    for pixel := 0 to N
      invariant forall j :: 0 <= j < pixel ==> strip[j] == RainbowFrame(step)[j]
    {
      var hue := Frac(pixel as real / N as real + step);
      strip[pixel] := HsvColor(hue);
    }
  }

  /** The rainbow depends on `step` only modulo one whole turn. */
  lemma {:induction false} RainbowPeriodic(step: real, k: int)
    ensures RainbowFrame(step + k as real) == RainbowFrame(step)
  {
    forall i | 0 <= i < N
      ensures RainbowFrame(step + k as real)[i] == RainbowFrame(step)[i]
    {
      FracShift(i as real / N as real + step, k);
    }
  }

  /** Advancing `step` by 1/N moves the whole rainbow one pixel towards index 0. */
  lemma RainbowTravels(step: real, i: int)
    requires 0 <= i < N - 1
    ensures RainbowFrame(step + 1.0 / N as real)[i] == RainbowFrame(step)[i + 1]
  {
  }

  /** Pixel N/2 always shows the hue half a turn away from pixel 0. */
  lemma RainbowOpposite(step: real)
    ensures RainbowHue(N / 2, step) == Frac(RainbowHue(0, step) + 0.5)
  {
    var x := step;
    FracShift(x + 0.5, -x.Floor);
    assert (N / 2) as real / N as real + step == x + 0.5;
  }

  /** No rainbow pixel is dark: each has one channel at full intensity. */
  lemma RainbowFullyLit(step: real, i: int)
    requires 0 <= i < N
    ensures RainbowFrame(step)[i] != Black
  {
  }

  // ------------------------------------------------------- breathe_outwards

  /** `center = (NUM_LEDS - 1) / 2`, which is 14.5: between two pixels. */
  const Center: real := (N - 1) as real / 2.0

  /** `max(0.0, 1.0 - dist / center)`: linear falloff from the centre. */
  function Falloff(pixel: int): (w: real)
    ensures 0.0 <= w <= 1.0
  {
    Max(0.0, 1.0 - Abs(pixel as real - Center) / Center)
  }

  /** `brightness = breath * falloff` for one pixel. */
  function Brightness(pixel: int, breath: real): (w: real)
    requires 0.0 <= breath <= 1.0
    ensures 0.0 <= w <= 1.0
  {
    ProductBounds(breath, Falloff(pixel));
    breath * Falloff(pixel)
  }

  function BreathePixel(pixel: int, breath: real, base: RGB): (c: RGB)
    requires 0.0 <= breath <= 1.0
    ensures NoBrighter(c, base)
  {
    Dim(base, Brightness(pixel, breath))
  }

  /**
   * The frame `breathe_outwards` leaves for envelope value `breath`
   * (standing for `(sin(t) + 1) / 2`): never brighter than the base colour.
   */
  function BreatheFrame(breath: real, baseHue: real): (f: seq<RGB>)
    requires 0.0 <= breath <= 1.0
    ensures |f| == N
    ensures forall i :: 0 <= i < N ==> NoBrighter(f[i], HsvColor(baseHue))
  {
    seq(N, i => BreathePixel(i, breath, HsvColor(baseHue)))
  }

  /** `dist` equals `center` at both ends, so the end pixels get no light. */
  lemma BreatheEndsDark(breath: real, baseHue: real)
    requires 0.0 <= breath <= 1.0
    ensures BreatheFrame(breath, baseHue)[0] == Black
    ensures BreatheFrame(breath, baseHue)[N - 1] == Black
  {
  }

  /** Pixel i and pixel N-1-i are equally far from the centre. */
  lemma FalloffMirror(i: int)
    ensures Falloff(i) == Falloff(N - 1 - i)
  {
  }

  lemma BreathePixelMirror(breath: real, base: RGB, i: int)
    requires 0.0 <= breath <= 1.0
    ensures BreathePixel(i, breath, base) == BreathePixel(N - 1 - i, breath, base)
  {
    FalloffMirror(i);
    assert Brightness(i, breath) == Brightness(N - 1 - i, breath);
  }

  /** The breathing frame is mirror-symmetric about the centre of the strip. */
  lemma BreatheMirror(breath: real, baseHue: real, i: int)
    requires 0.0 <= breath <= 1.0
    requires 0 <= i < N
    ensures BreatheFrame(breath, baseHue)[i] == BreatheFrame(breath, baseHue)[N - 1 - i]
  {
    var base := HsvColor(baseHue);
    var f := BreatheFrame(breath, baseHue);
    var j := N - 1 - i;
    assert f[i] == BreathePixel(i, breath, base);
    assert f[j] == BreathePixel(j, breath, base);
    BreathePixelMirror(breath, base, i);
  }

  /** At the envelope's trough the whole strip is dark. */
  lemma BreatheTroughDark(baseHue: real)
    ensures BreatheFrame(0.0, baseHue) == Solid(Black)
  {
  }

  /** `breathe_outwards(t, base_hue)`, with the envelope value as input. */
  method BreatheOutwards(strip: array<RGB>, breath: real, baseHue: real)
    requires strip.Length == N
    requires 0.0 <= breath <= 1.0
    modifies strip
    ensures strip[..] == BreatheFrame(breath, baseHue)
  {
    var baseColor := HsvColor(baseHue);
    for pixel := 0 to N
      invariant forall j :: 0 <= j < pixel ==> strip[j] == BreathePixel(j, breath, baseColor)
    {
      var dist := Abs(pixel as real - Center);
      var falloff := Max(0.0, 1.0 - dist / Center);
      assert falloff == Falloff(pixel);
      ProductBounds(breath, falloff);
      var brightness := breath * falloff;
      assert brightness == Brightness(pixel, breath);
      strip[pixel] := Dim(baseColor, brightness);
    }
    forall j | 0 <= j < N
      ensures strip[j] == BreatheFrame(breath, baseHue)[j]
    {
    }
  }

  /** With an even pixel count no pixel sits at the centre, so none gets full weight. */
  lemma FalloffBelowOne(pixel: int)
    ensures Falloff(pixel) < 1.0
  {
  }

  // ---------------------------------------------------------------- scanner

  /** `max(0.0, 1.0 - offset / 6)`. */
  function Fade(offset: nat): (w: real)
    ensures 0.0 <= w <= 1.0
  {
    Max(0.0, 1.0 - offset as real / 6.0)
  }

  /** `int(position) % NUM_LEDS`: the head of the scanner. */
  function ScannerIndex(position: real): (pos: nat)
    ensures pos < N
  {
    Trunc(position) % N
  }

  function ScannerPixel(j: int, pos: int, main: RGB): (c: RGB)
    ensures NoBrighter(c, main)
  {
    if j == pos then main
    else if Dist(j, pos) <= 5 then Dim(main, Fade(Dist(j, pos)))
    else Black
  }

  /**
   * The frame `scanner` leaves: the full colour at the head, a fading tail
   * of five pixels on each side, and black beyond it; the tail is clipped at
   * the strip's ends rather than wrapped around.
   */
  function ScannerFrame(position: real, hue: real): (f: seq<RGB>)
    ensures |f| == N
    ensures f[ScannerIndex(position)] == HsvColor(hue)
    ensures forall j :: 0 <= j < N && Dist(j, ScannerIndex(position)) > 5 ==> f[j] == Black
    ensures forall j :: 0 <= j < N ==> NoBrighter(f[j], HsvColor(hue))
    ensures forall i, j :: 0 <= i < N && 0 <= j < N && i + j == 2 * ScannerIndex(position) ==> f[i] == f[j]
  {
    var pos := ScannerIndex(position);
    seq(N, j => ScannerPixel(j, pos, HsvColor(hue)))
  }

  /** `scanner(position, hue)`. */
  method Scanner(strip: array<RGB>, position: real, hue: real)
    requires strip.Length == N
    modifies strip
    ensures strip[..] == ScannerFrame(position, hue)
  {
    Clear(strip);
    var main := HsvColor(hue);
    var pos := Trunc(position) % N;
    strip[pos] := main;
    for offset := 1 to 6
      invariant forall j :: 0 <= j < N ==>
        strip[j] == if Dist(j, pos) < offset then ScannerFrame(position, hue)[j] else Black
    {
      var fade := Max(0.0, 1.0 - offset as real / 6.0);
      var dimmed := Dim(main, fade);
      if pos - offset >= 0 {
        strip[pos - offset] := dimmed;
      }
      if pos + offset < N {
        strip[pos + offset] := dimmed;
      }
    }
  }

  /** Number of pixels that are not black. */
  function CountLit(f: seq<RGB>): (n: nat)
    ensures n <= |f|
  {
    if f == [] then 0
    else CountLit(f[..|f| - 1]) + (if f[|f| - 1] != Black then 1 else 0)
  }

  /** A frame that is black outside the window [lo, hi) lights at most hi - lo pixels. */
  lemma {:induction false} LitWithin(f: seq<RGB>, lo: int, hi: int)
    requires lo <= hi
    requires forall j :: 0 <= j < |f| && (j < lo || hi <= j) ==> f[j] == Black
    ensures CountLit(f) <= hi - lo
  {
    if f != [] {
      var m := |f| - 1;
      var g := f[..m];
      assert forall j :: 0 <= j < |g| ==> g[j] == f[j];
      if lo <= m < hi {
        LitWithin(g, lo, m);
      } else {
        LitWithin(g, lo, hi);
      }
    }
  }

  /** Scanner locality: at most 11 pixels (head and five on each side) are lit. */
  lemma ScannerAtMostEleven(position: real, hue: real)
    ensures CountLit(ScannerFrame(position, hue)) <= 11
  {
    var pos := ScannerIndex(position);
    LitWithin(ScannerFrame(position, hue), pos as int - 5, pos + 6);
  }

  // ------------------------------------------------------------ static fill

  /** The palette of the static mode, indexed by `current_mode_type`. */
  const StaticColors: seq<RGB> := [
    RGB(255, 0, 0), RGB(255, 255, 0), RGB(0, 255, 0),
    RGB(0, 255, 255), RGB(0, 0, 255), RGB(255, 0, 255)
  ]

  /** No palette colour is black, so a static colour always differs from the off state. */
  lemma PaletteNotBlack(k: int)
    requires 0 <= k < |StaticColors|
    ensures StaticColors[k] != Black
  {
  }

  /** The static branch of the extended tick: clear, then set every pixel to `c`. */
  method StaticFill(strip: array<RGB>, c: RGB)
    requires strip.Length == N
    modifies strip
    ensures strip[..] == Solid(c)
  {
    Clear(strip);
    for pixel := 0 to N
      invariant forall j :: 0 <= j < pixel ==> strip[j] == c
    {
      strip[pixel] := c;
    }
  }

  /** The off branch of the extended tick: `clear_strip()` leaves every pixel black. */
  method Blank(strip: array<RGB>)
    requires strip.Length == N
    modifies strip
    ensures strip[..] == Solid(Black)
  {
    Clear(strip);
  }
}
