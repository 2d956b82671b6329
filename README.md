# LED strip animation engine — Dafny model

The repository holds three near-duplicate Python scripts that drive a
30-pixel addressable LED strip from a button on a USB joystick:
`src/raspberry-led-gpio.py` (NeoPixel driver, button BTN_BASE5 = 298),
`src/raspberry-led-spi.py` (APA102 driver, button BTN_TOP2 = 292) and the
extended `src/toTest/raspberry-led-spi.py` (APA102, button 292, with a
Colorful / Static / Off mode and a sub-mode selected by short and long
presses). This project models their common core:

- `color.dfy` (module `Color`): RGB triples with 8-bit channels,
  `hsv_color` (the hue reduced modulo 1.0, then the six-sector
  `colorsys.hsv_to_rgb` formula at full saturation and value, truncated to
  0..255) and the truncating `int(channel * factor)` dimming multiply.
- `effects.dfy` (module `Effects`): the effects `rainbow`,
  `breathe_outwards`, `scanner`, the static fill and `clear_strip`, as
  methods that write the driver's pixel buffer (an `array<RGB>` of length
  30), each proved against a function giving the frame it leaves.
- `input.dfy` (module `Input`): the `input_listener` event handling of the
  extended script (filter to one button, separate 250 ms debounce of
  presses and releases, long press > 2 s advances the mode and resets the
  sub-mode, short press cycles the sub-mode) and of the two base scripts
  (a debounced press advances the mode modulo 3). Each listener is a class
  whose fields the handler updates in place, proved against a pure
  transition function (`Step`, `BaseStep`) and its fold over an event
  sequence (`Run`, `BaseRun`).
- `render.dfy` (module `Render`): one iteration of `main`: dispatch on the
  snapshot (mode, sub-mode), draw the effect, advance only that effect's
  accumulators, the falling-edge detection of the breathing envelope, and
  the edge-triggered `current_static_color` cache of the extended script.

Modelling choices:

- `time.time()` becomes an integer number of milliseconds handed to the
  handler with each event; the thresholds are 250 and 2000 with the
  source's strict `>`.
- The accumulators and the hues are exact reals, advanced by the source's
  constants (0.002, 0.06, 0.12, 0.3, 0.002).
- `sin` is not modelled: the tick takes the envelope value
  `(sin(breath_t) + 1) / 2` as an input in [0, 1], used both for drawing
  and for the edge detection, as the source computes the same value twice.
- The tick takes the snapshot (mode, sub-mode) as its input; the
  self-assignment `current_mode_type = current_mode_type`
  (src/toTest/raspberry-led-spi.py:166) copies nothing.
- The base scripts' tick is `Renderer.ColorfulTick` with their mode as the
  effect index; it is the same code as the Colorful branch of the extended
  tick. The effects are identical in the three scripts (the NeoPixel
  script writes `pixels[i] = ...` and `pixels.fill(...)` where the APA102
  scripts call `set_pixel` and `clear_strip`).

Behaviour of the code that the model reproduces as written:

- The extended listener counts a release only for event value 4, never for
  value 0; values 0 and 2 change nothing.
- A sub-mode is reset only by a long press; a short press in Off changes
  nothing but still updates `last_release`.
- With 30 pixels the centre of `breathe_outwards` is 14.5, between two
  pixels, so no pixel reaches the base colour even at the envelope's peak
  (`Effects.FalloffBelowOne`).
- The edge-triggered cache is correct only if the render loop sees every
  mode on the way round: were Static skipped between two ticks, Off would
  leave the last animation frame lit (`Render.SkippedStaticLeavesFrame`).
  Mode changes are at least 250 ms apart and ticks 20 ms, so the model
  states the guarantee under that assumption (`Render.StaticTargetShown`).

## Model

| member | source | states |
|---|---|---|
| `Color.Frac` | src/toTest/raspberry-led-spi.py:54 | `h % 1.0` lies in [0, 1) and differs from `h` by a whole number |
| `Color.FracShift` | src/raspberry-led-gpio.py:59 | adding whole turns to a hue does not change its reduction modulo 1.0 |
| `Color.Trunc` | src/toTest/raspberry-led-spi.py:87 | `int(position)` truncates toward zero: within one of the position, on its side of zero |
| `Color.ToChannel` | src/toTest/raspberry-led-spi.py:55 | `int(x * 255)` is a channel in 0..255 within one of `255 x` |
| `Color.HueToRgb` | src/toTest/raspberry-led-spi.py:53-55 | a fully saturated, full-value colour has one channel at 255 and one at 0 |
| `Color.HsvColor` | src/raspberry-led-spi.py:51-53 | `hsv_color` yields channels in 0..255, one at 255 and one at 0, for every real hue |
| `Color.HsvColorPeriodic` | src/raspberry-led-gpio.py:58-60 | `hsv_color(h + k) == hsv_color(h)` for every whole number `k` |
| `Color.Scale` | src/toTest/raspberry-led-spi.py:77-79 | `int(c * k)` for `k` in [0, 1] is a channel no larger than `c` |
| `Color.Dim` | src/toTest/raspberry-led-spi.py:91-93 | the dimmed colour is no brighter than the original in any channel; factor 0 gives black, factor 1 the original |
| `Effects.Clear` | src/toTest/raspberry-led-spi.py:85 | `clear_strip()` leaves every pixel black |
| `Effects.Rainbow` | src/toTest/raspberry-led-spi.py:61-66 | every pixel 0..N-1 is written, each with `hsv_color((pixel / N + step) % 1.0)` |
| `Effects.RainbowPeriodic` | src/raspberry-led-gpio.py:66-70 | the rainbow frame depends on `step` only modulo 1 |
| `Effects.RainbowTravels` | src/raspberry-led-spi.py:59-64 | advancing `step` by 1/N shifts the rainbow one pixel along the strip |
| `Effects.RainbowOpposite` | src/toTest/raspberry-led-spi.py:63 | pixel N/2 always has the hue half a turn from pixel 0 |
| `Effects.RainbowFullyLit` | src/raspberry-led-gpio.py:67-69 | no rainbow pixel is black |
| `Effects.Falloff` | src/toTest/raspberry-led-spi.py:74-75 | the falloff weight lies in [0, 1] |
| `Effects.Brightness` | src/toTest/raspberry-led-spi.py:76 | `breath * falloff` lies in [0, 1] for an envelope in [0, 1] |
| `Effects.BreathePixel` | src/toTest/raspberry-led-spi.py:74-79 | a breathing pixel is no brighter than the base colour |
| `Effects.BreatheFrame` | src/toTest/raspberry-led-spi.py:69-81 | the breathing frame has N pixels, none brighter than the base colour in any channel |
| `Effects.BreatheOutwards` | src/toTest/raspberry-led-spi.py:69-81 | the strip afterwards holds exactly the breathing frame for the envelope value and base hue |
| `Effects.BreatheEndsDark` | src/raspberry-led-gpio.py:73-85 | pixels 0 and N-1 are black, because their distance equals the centre |
| `Effects.FalloffMirror` | src/raspberry-led-gpio.py:78-79 | pixels i and N-1-i get the same falloff |
| `Effects.BreathePixelMirror` | src/raspberry-led-spi.py:72-77 | pixels i and N-1-i get the same colour from the same base |
| `Effects.BreatheMirror` | src/raspberry-led-spi.py:67-79 | the breathing frame is mirror-symmetric: pixel i equals pixel N-1-i |
| `Effects.BreatheTroughDark` | src/toTest/raspberry-led-spi.py:71-80 | at envelope 0 every pixel is black |
| `Effects.FalloffBelowOne` | src/toTest/raspberry-led-spi.py:70-75 | with an even pixel count no pixel gets full weight |
| `Effects.Fade` | src/toTest/raspberry-led-spi.py:90 | the scanner's fade factor lies in [0, 1] |
| `Effects.ScannerIndex` | src/toTest/raspberry-led-spi.py:87 | `int(position) % N` is a valid pixel index |
| `Effects.ScannerPixel` | src/toTest/raspberry-led-spi.py:88-97 | a scanner pixel is no brighter than the head colour |
| `Effects.ScannerFrame` | src/toTest/raspberry-led-spi.py:84-98 | the head pixel has the full colour; pixels more than 5 from the head are black, with no wraparound; no pixel is brighter than the head; pixels at equal distance on both sides are equal |
| `Effects.Scanner` | src/raspberry-led-gpio.py:88-102 | after clearing, writing the head and the clipped offsets 1..5, the strip holds exactly the scanner frame |
| `Effects.ScannerAtMostEleven` | src/raspberry-led-spi.py:82-96 | at most 11 pixels are lit after `scanner` |
| `Effects.PaletteNotBlack` | src/toTest/raspberry-led-spi.py:29 | no static palette colour is black |
| `Effects.StaticFill` | src/toTest/raspberry-led-spi.py:187-190 | the static branch leaves every pixel with the palette colour |
| `Effects.Blank` | src/toTest/raspberry-led-spi.py:195 | the off branch leaves every pixel black |
| `Input.Step` | src/toTest/raspberry-led-spi.py:117-142 | events of other types or buttons, and values other than 1 and 4, change nothing; the mode/sub-mode invariant is kept; a mode change is one step modulo 3 and resets the sub-mode |
| `Input.PressDebounce` | src/toTest/raspberry-led-spi.py:125-126 | a press is accepted, recording its time, exactly when it comes more than 250 ms after the last accepted press; otherwise nothing changes |
| `Input.ReleaseDebounce` | src/toTest/raspberry-led-spi.py:128-129 | a value-4 release is accepted exactly when it comes more than 250 ms after the last accepted release; otherwise nothing changes |
| `Input.LongPress` | src/toTest/raspberry-led-spi.py:131-134 | an accepted release more than 2 s after the last accepted press sets mode to (mode+1) mod 3 and the sub-mode to 0 |
| `Input.ShortPress` | src/toTest/raspberry-led-spi.py:136-142 | an accepted short release keeps the mode and cycles the sub-mode mod 3 in Colorful, mod 6 in Static, not at all in Off |
| `Input.FirstReleaseIsLong` | src/toTest/raspberry-led-spi.py:107-134 | with `last_press` starting at 0, a first release with no accepted press is a long press |
| `Input.TapSelectsNextEffect` | src/toTest/raspberry-led-spi.py:123-139 | from the start state, a press followed 100 ms later by its release selects Colorful effect 1 |
| `Input.RunKeepsModeInvariant` | src/toTest/raspberry-led-spi.py:131-142 | after any event sequence the mode is in {0,1,2} and the sub-mode in range for it |
| `Input.Listener.constructor` | src/toTest/raspberry-led-spi.py:25-26 | the listener starts with both timestamps 0, mode 0 and sub-mode 0 |
| `Input.Listener.HandleEvent` | src/toTest/raspberry-led-spi.py:120-142 | the fields after handling an event are the transition function applied to the fields before |
| `Input.Listener.HandleEvents` | src/toTest/raspberry-led-spi.py:117-142 | draining a batch of events handles them in order |
| `Input.BaseStep` | src/raspberry-led-gpio.py:117-123 | only presses of the button count; a press within 250 ms of the last accepted one changes nothing; an accepted press records its time and sets mode to (mode+1) mod 3; the mode stays in {0,1,2} |
| `Input.BaseRunKeepsMode` | src/raspberry-led-spi.py:111-117 | after any event sequence the mode is in {0,1,2} |
| `Input.ThreePressesRestoreMode` | src/raspberry-led-spi.py:116-117 | three accepted presses bring the mode back to its value |
| `Input.AlternatePresses` | src/raspberry-led-gpio.py:119-121 | because a rejected press does not move `last_press`, k presses 200 ms apart advance the mode (k+1)/2 times |
| `Input.DebounceScenarios` | src/raspberry-led-spi.py:113-115 | two presses 100 ms apart advance the mode once, 300 ms apart twice |
| `Input.BaseListener.constructor` | src/raspberry-led-gpio.py:34 | the base listener starts with `last_press` 0 and mode 0 |
| `Input.BaseListener.HandleEvent` | src/raspberry-led-gpio.py:118-123 | the fields after handling an event are the base transition function applied to the fields before |
| `Input.BaseListener.HandleEvents` | src/raspberry-led-spi.py:111-117 | draining a batch of events handles them in order |
| `Render.Advance` | src/raspberry-led-spi.py:139-154 | only the shown effect's accumulators move, each forward; `breath_hue` moves exactly on the falling edge below 0.05; `last_breath` records the envelope only while breathing is shown |
| `Render.PaletteIndexInBounds` | src/toTest/raspberry-led-spi.py:186-189 | in every reachable mode state the static palette index is in bounds |
| `Render.NextState` | src/toTest/raspberry-led-spi.py:163-199 | Colorful never touches the cache; Static and Off freeze the accumulators, leave their target in the cache and change nothing when the cache already holds it |
| `Render.RepeatedTickIsIdle` | src/toTest/raspberry-led-spi.py:186-197 | in Static and Off a second identical tick writes nothing |
| `Render.InitialCacheAgrees` | src/toTest/raspberry-led-spi.py:161 | the start state (black cache, dark strip) satisfies the cache agreement |
| `Render.StaticTargetShown` | src/toTest/raspberry-led-spi.py:186-197 | if the mode moves at most one step per tick, after every Static or Off tick the strip shows exactly that mode's colour |
| `Render.SkippedStaticLeavesFrame` | src/toTest/raspberry-led-spi.py:194-197 | an Off tick with a black cache leaves a rainbow frame lit |
| `Render.Renderer.constructor` | src/toTest/raspberry-led-spi.py:154-161 | the accumulators start at 0, the cache black, the strip dark |
| `Render.Renderer.ColorfulTick` | src/raspberry-led-gpio.py:141-162 | the accumulators advance as `Advance` says, the cache is untouched, and the strip holds the shown effect's frame |
| `Render.Renderer.Tick` | src/toTest/raspberry-led-spi.py:163-199 | the render state after the tick is `NextState` of the state before |

## Left out

- Threads and locking: the daemon listener thread, `mode_lock`, and the unlocked reads of `mode` and `current_mode_type`; one event or one tick is modelled at a time.
- Input I/O: `select.select`, `evdev` device reads, and the errno-11 `OSError` filtering and error printing.
- Shutdown: the `cleanup` signal handlers, their registration, and `sys.exit`.
- `math.sin`: the tick takes the envelope value as an input in [0, 1].
- Floating point: hues, accumulators, the falloff, the fade and the dimming are exact reals, and times are whole milliseconds; float rounding (for instance ten additions of 0.3 falling short of 3.0) is not captured.
- `colorsys.hsv_to_rgb` is taken at its mathematical definition; float rounding inside it is not modelled.
- `strip.show()` / `pixels.show()`, the `BRIGHTNESS` scalar and the driver internals: the model ends at the pixel buffer.
- `time.sleep(0.02)` pacing of the render loop.
