// One iteration of the render loop `main` of the three scripts. The loop
// owns the phase accumulators and (in the extended script) the cache
// `current_static_color`; each tick takes a snapshot (mode, sub-mode) of the
// shared mode state, draws the selected effect into the strip buffer and
// advances only the accumulators of the effect it drew. The envelope value
// `(sin(breath_t) + 1) / 2` is an input of the tick.
module Render {
  import opened Color
  import opened Effects
  import Input

  /** `rainbow_step`, `breath_t`, `breath_hue`, `last_breath`, `scanner_pos`, `scanner_hue`. */
  datatype Phase = Phase(
    rainbowStep: real,
    breathT: real,
    breathHue: real,
    lastBreath: real,
    scannerPos: real,
    scannerHue: real)

  /** All accumulators start at 0.0. */
  const Start: Phase := Phase(0.0, 0.0, 0.0, 0.0, 0.0, 0.0)

  const RainbowRate: real := 0.002
  const BreathRate: real := 0.06
  const BreathHueRate: real := 0.12
  const BreathLow: real := 0.05
  const ScannerRate: real := 0.3
  const ScannerHueRate: real := 0.002

  /** The falling edge `current_breath < 0.05 <= last_breath` that ends one breathing cycle. */
  predicate CycleEnds(lastBreath: real, breath: real) {
    breath < BreathLow <= lastBreath
  }

  /**
   * The accumulators after a tick that showed `effect` (0 rainbow, 1 breathe,
   * 2 scanner; anything else shows nothing): only the shown effect's
   * accumulators move, each of them forward; the breathing hue moves exactly
   * on a falling edge of the envelope, and `last_breath` records the envelope
   * only while breathing is shown.
   */
  function Advance(p: Phase, effect: int, breath: real): (q: Phase)
    ensures effect != 0 ==> q.rainbowStep == p.rainbowStep
    ensures effect != 1 ==> q.breathT == p.breathT && q.breathHue == p.breathHue && q.lastBreath == p.lastBreath
    ensures effect != 2 ==> q.scannerPos == p.scannerPos && q.scannerHue == p.scannerHue
    ensures effect == 0 ==> q.rainbowStep > p.rainbowStep
    ensures effect == 1 ==> q.breathT > p.breathT && q.lastBreath == breath
    ensures q.breathHue != p.breathHue <==> effect == 1 && CycleEnds(p.lastBreath, breath)
    ensures q.breathHue >= p.breathHue
    ensures effect == 2 ==> q.scannerPos > p.scannerPos && q.scannerHue > p.scannerHue
  {
    if effect == 0 then
      p.(rainbowStep := p.rainbowStep + RainbowRate)
    else if effect == 1 then
      p.(breathHue := if CycleEnds(p.lastBreath, breath) then p.breathHue + BreathHueRate else p.breathHue,
         lastBreath := breath,
         breathT := p.breathT + BreathRate)
    else if effect == 2 then
      p.(scannerPos := p.scannerPos + ScannerRate, scannerHue := p.scannerHue + ScannerHueRate)
    else
      p
  }

  /** The frame drawn for `effect` from the accumulators as they were before the tick. */
  function EffectFrame(p: Phase, effect: int, breath: real): (f: seq<RGB>)
    requires 0 <= effect < 3
    requires 0.0 <= breath <= 1.0
    ensures |f| == N
  {
    if effect == 0 then RainbowFrame(p.rainbowStep)
    else if effect == 1 then BreatheFrame(breath, p.breathHue)
    else ScannerFrame(p.scannerPos, p.scannerHue)
  }

  // ------------------------------------------------ extended script's tick

  /** The colour the strip should show in Static (a palette entry) and Off (black). */
  function StaticTarget(mode: int, subMode: int): RGB
    requires mode == 1 ==> 0 <= subMode < |StaticColors|
  {
    if mode == 1 then StaticColors[subMode] else Black
  }

  /** The static palette index is in bounds in every state the listener can reach. */
  lemma PaletteIndexInBounds(mode: int, subMode: int)
    requires Input.ModeInvariant(mode, subMode)
    ensures mode == 1 ==> 0 <= subMode < |StaticColors|
  {
  }

  /** The render loop's own state: accumulators, `current_static_color` and the strip buffer. */
  datatype RenderState = RenderState(phase: Phase, cache: RGB, strip: seq<RGB>)

  const InitialRender: RenderState := RenderState(Start, Black, Solid(Black))

  /**
   * One tick of the extended script for the snapshot (mode, subMode).
   * Colorful never touches the cache; Static and Off freeze every
   * accumulator, record their target in the cache and write the strip only
   * when the cache differs from the target, so a repeated tick writes nothing.
   */
  function NextState(st: RenderState, mode: int, subMode: int, breath: real): (r: RenderState)
    requires 0.0 <= breath <= 1.0
    requires mode == 1 ==> 0 <= subMode < |StaticColors|
    ensures mode == 0 ==> r.cache == st.cache
    ensures mode != 0 ==> r.phase == st.phase
    ensures (mode == 1 || mode == 2) ==> r.cache == StaticTarget(mode, subMode)
    ensures (mode == 1 || mode == 2) && st.cache == StaticTarget(mode, subMode) ==> r == st
    ensures |st.strip| == N ==> |r.strip| == N
  {
    if mode == 0 then
      RenderState(
        Advance(st.phase, subMode, breath),
        st.cache,
        if 0 <= subMode < 3 then EffectFrame(st.phase, subMode, breath) else st.strip)
    else if mode == 1 && st.cache != StaticColors[subMode] then
      RenderState(st.phase, StaticColors[subMode], Solid(StaticColors[subMode]))
    else if mode == 2 && st.cache != Black then
      RenderState(st.phase, Black, Solid(Black))
    else
      st
  }

  /** In Static and Off, a second tick with the same snapshot changes nothing. */
  lemma RepeatedTickIsIdle(st: RenderState, mode: int, subMode: int, breath: real)
    requires 0.0 <= breath <= 1.0
    requires mode == 1 ==> 0 <= subMode < |StaticColors|
    requires mode == 1 || mode == 2
    ensures NextState(NextState(st, mode, subMode, breath), mode, subMode, breath)
         == NextState(st, mode, subMode, breath)
  {
  }

  /**
   * What the edge-triggered cache relies on, given that the mode was
   * `shown` at the previous tick: after Colorful or Off the cache is black,
   * and after Static or Off the strip is filled with the cached colour.
   */
  predicate CacheAgrees(st: RenderState, shown: int) {
    && |st.strip| == N
    && 0 <= shown < 3
    && (shown == 0 || shown == 2 ==> st.cache == Black)
    && (shown == 1 || shown == 2 ==> st.strip == Solid(st.cache))
  }

  lemma InitialCacheAgrees()
    ensures CacheAgrees(InitialRender, 0)
  {
  }

  /**
   * If the mode moves by at most one step between two ticks (mode changes
   * are at least 250 ms apart, ticks 20 ms), then after every Static or Off
   * tick the strip shows exactly that mode's target colour, although those
   * ticks write only when the cache differs.
   */
  lemma {:induction false} StaticTargetShown(st: RenderState, shown: int, mode: int, subMode: int, breath: real)
    requires CacheAgrees(st, shown)
    requires mode == shown || mode == (shown + 1) % 3
    requires Input.ModeInvariant(mode, subMode)
    requires 0.0 <= breath <= 1.0
    ensures CacheAgrees(NextState(st, mode, subMode, breath), mode)
    ensures mode != 0 ==> NextState(st, mode, subMode, breath).strip == Solid(StaticTarget(mode, subMode))
  {
  }

  /**
   * Why the step-by-step assumption is needed: were Static skipped between
   * two ticks, an Off tick would find the cache already black and leave the
   * last animation frame on the strip.
   */
  lemma SkippedStaticLeavesFrame(step: real)
    ensures var st := RenderState(Start, Black, RainbowFrame(step));
            NextState(st, 2, 0, 0.0).strip != Solid(Black)
  {
    RainbowFullyLit(step, 0);
    assert Solid(Black)[0] == Black;
  }

  /** The render loop's state: the accumulators, the static-colour cache and the strip buffer. */
  class Renderer {
    var rainbowStep: real
    var breathT: real
    var breathHue: real
    var lastBreath: real
    var scannerPos: real
    var scannerHue: real
    var currentStaticColor: RGB
    /** The driver's pixel buffer. */
    const strip: array<RGB>

    function Accumulators(): Phase
      reads this
    {
      Phase(rainbowStep, breathT, breathHue, lastBreath, scannerPos, scannerHue)
    }

    function State(): RenderState
      reads this, strip
    {
      RenderState(Accumulators(), currentStaticColor, strip[..])
    }

    constructor ()
      ensures fresh(strip) && strip.Length == N
      ensures State() == InitialRender
    {
      rainbowStep, breathT, breathHue, lastBreath, scannerPos, scannerHue := 0.0, 0.0, 0.0, 0.0, 0.0, 0.0;
      currentStaticColor := Black;
      strip := new RGB[N](_ => Black);
      new;
      assert strip[..] == Solid(Black);
    }

    /**
     * Draw `effect` and advance its accumulators: the whole tick of the base
     * scripts (where `effect` is their mode), and the Colorful branch of the
     * extended one (where it is the sub-mode).
     */
    method ColorfulTick(effect: int, breath: real)
      requires strip.Length == N
      requires 0.0 <= breath <= 1.0
      modifies this, strip
      ensures Accumulators() == Advance(old(Accumulators()), effect, breath)
      ensures currentStaticColor == old(currentStaticColor)
      ensures strip[..] == if 0 <= effect < 3 then EffectFrame(old(Accumulators()), effect, breath) else old(strip[..])
    {
      if effect == 0 {
        Rainbow(strip, rainbowStep);
        rainbowStep := rainbowStep + RainbowRate;
      } else if effect == 1 {
        BreatheOutwards(strip, breath, breathHue);
        var currentBreath := breath;
        if currentBreath < BreathLow <= lastBreath {
          breathHue := breathHue + BreathHueRate;
        }
        lastBreath := currentBreath;
        breathT := breathT + BreathRate;
      } else if effect == 2 {
        Scanner(strip, scannerPos, scannerHue);
        scannerPos := scannerPos + ScannerRate;
        scannerHue := scannerHue + ScannerHueRate;
      }
    }

    /** One tick of the extended script for the snapshot (mode, subMode). */
    method Tick(mode: int, subMode: int, breath: real)
      requires strip.Length == N
      requires 0.0 <= breath <= 1.0
      requires mode == 1 ==> 0 <= subMode < |StaticColors|
      modifies this, strip
      ensures State() == NextState(old(State()), mode, subMode, breath)
    {
      if mode == 0 {
        ColorfulTick(subMode, breath);
      } else if mode == 1 && currentStaticColor != StaticColors[subMode] {
        StaticFill(strip, StaticColors[subMode]);
        currentStaticColor := StaticColors[subMode];
      } else if mode == 2 && currentStaticColor != Black {
        Blank(strip);
        currentStaticColor := Black;
      }
    }
  }
}
