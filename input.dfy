// The button listeners of the three scripts (`input_listener`). Each event
// read from the input device is handled on its own, with the wall-clock time
// `time.time()` returned while handling it, taken here in whole milliseconds.
// Every listener is a class whose fields the handler updates in place, proved
// against a pure transition function; the listener's promises are stated
// about that function.
module Input {

  /** `ecodes.EV_KEY`: the event type of keys and buttons. */
  const EvKey: int := 1

  /** BTN_TOP2: the LED button of both APA102 (SPI) scripts. */
  const SpiButton: int := 292

  /** BTN_BASE5: the LED button of the NeoPixel (GPIO) script. */
  const GpioButton: int := 298

  /** The event value of a press. */
  const PressValue: int := 1

  /** The event value the extended script takes for a release. */
  const ReleaseValue: int := 4

  /** Debounce window: an edge must come more than 0.25 s after the last accepted one. */
  const DebounceMs: int := 250

  /** A release more than 2 s after the last accepted press is a long press. */
  const LongPressMs: int := 2000

  datatype InputEvent = InputEvent(evType: int, code: int, value: int)

  /** An event together with the time, in ms, at which it was handled. */
  datatype TimedEvent = TimedEvent(event: InputEvent, nowMs: int)

  // ------------------------------------------------------ extended listener

  /** `last_press`, `last_release`, `mode` and `current_mode_type`. */
  datatype ListenerState = ListenerState(lastPress: int, lastRelease: int, mode: int, subMode: int)

  /** Both timestamps start at 0; the mode starts at Colorful with effect 0. */
  const Initial: ListenerState := ListenerState(0, 0, 0, 0)

  /**
   * The sub-mode is in range for its mode: one of 3 effects under Colorful
   * (mode 0), one of 6 colours under Static (mode 1), and 0 under Off (mode 2).
   */
  predicate ModeInvariant(mode: int, subMode: int) {
    || (mode == 0 && 0 <= subMode < 3)
    || (mode == 1 && 0 <= subMode < 6)
    || (mode == 2 && subMode == 0)
  }

  predicate IsLedButton(e: InputEvent) {
    e.evType == EvKey && e.code == SpiButton
  }

  /** One pass of the extended listener's loop body over a single event. */
  function Step(s: ListenerState, e: InputEvent, nowMs: int): (r: ListenerState)
    ensures !IsLedButton(e) ==> r == s
    ensures e.value != PressValue && e.value != ReleaseValue ==> r == s
    ensures ModeInvariant(s.mode, s.subMode) ==> ModeInvariant(r.mode, r.subMode)
    ensures r.mode != s.mode ==> r.mode == (s.mode + 1) % 3 && r.subMode == 0
  {
    if !IsLedButton(e) then s
    else if e.value == PressValue && nowMs - s.lastPress > DebounceMs then
      s.(lastPress := nowMs)
    else if e.value == ReleaseValue && nowMs - s.lastRelease > DebounceMs then
      var released := s.(lastRelease := nowMs);
      if nowMs - s.lastPress > LongPressMs then
        released.(mode := (s.mode + 1) % 3, subMode := 0)
      else if s.mode == 0 then
        released.(subMode := (s.subMode + 1) % 3)
      else if s.mode == 1 then
        released.(subMode := (s.subMode + 1) % 6)
      else
        released
    else s
  }

  /** The state after handling a sequence of events in order. */
  function Run(s: ListenerState, evs: seq<TimedEvent>): ListenerState
    decreases |evs|
  {
    if evs == [] then s
    else
      var last := evs[|evs| - 1];
      Step(Run(s, evs[..|evs| - 1]), last.event, last.nowMs)
  }

  /** A press is accepted exactly when it comes more than 250 ms after the last accepted press. */
  lemma PressDebounce(s: ListenerState, e: InputEvent, nowMs: int)
    requires IsLedButton(e) && e.value == PressValue
    ensures nowMs - s.lastPress > DebounceMs ==> Step(s, e, nowMs) == s.(lastPress := nowMs)
    ensures nowMs - s.lastPress <= DebounceMs ==> Step(s, e, nowMs) == s
  {
  }

  /** A release (value 4) is accepted exactly when it comes more than 250 ms after the last accepted release. */
  lemma ReleaseDebounce(s: ListenerState, e: InputEvent, nowMs: int)
    requires IsLedButton(e) && e.value == ReleaseValue
    ensures Step(s, e, nowMs).lastPress == s.lastPress
    ensures nowMs - s.lastRelease > DebounceMs ==> Step(s, e, nowMs).lastRelease == nowMs
    ensures nowMs - s.lastRelease <= DebounceMs ==> Step(s, e, nowMs) == s
  {
  }

  /** An accepted release more than 2 s after the last accepted press advances the mode and resets the sub-mode. */
  lemma LongPress(s: ListenerState, e: InputEvent, nowMs: int)
    requires IsLedButton(e) && e.value == ReleaseValue
    requires nowMs - s.lastRelease > DebounceMs
    requires nowMs - s.lastPress > LongPressMs
    ensures Step(s, e, nowMs) == ListenerState(s.lastPress, nowMs, (s.mode + 1) % 3, 0)
  {
  }

  /**
   * An accepted release within 2 s of the last accepted press never changes
   * the mode; it cycles the effect under Colorful, the colour under Static,
   * and does nothing else under Off.
   */
  lemma ShortPress(s: ListenerState, e: InputEvent, nowMs: int)
    requires IsLedButton(e) && e.value == ReleaseValue
    requires nowMs - s.lastRelease > DebounceMs
    requires nowMs - s.lastPress <= LongPressMs
    ensures Step(s, e, nowMs).mode == s.mode
    ensures s.mode == 0 ==> Step(s, e, nowMs).subMode == (s.subMode + 1) % 3
    ensures s.mode == 1 ==> Step(s, e, nowMs).subMode == (s.subMode + 1) % 6
    ensures s.mode != 0 && s.mode != 1 ==> Step(s, e, nowMs).subMode == s.subMode
  {
  }

  /** Since `last_press` starts at 0, a first release with no accepted press before it counts as long. */
  lemma FirstReleaseIsLong(nowMs: int)
    requires nowMs > LongPressMs
    ensures Step(Initial, InputEvent(EvKey, SpiButton, ReleaseValue), nowMs) == ListenerState(0, nowMs, 1, 0)
  {
  }

  /** A tap (release 100 ms after its press) from the start state selects the next Colorful effect. */
  lemma TapSelectsNextEffect(t: int)
    requires t > LongPressMs
    ensures var s := Run(Initial, [TimedEvent(InputEvent(EvKey, SpiButton, PressValue), t),
                                  TimedEvent(InputEvent(EvKey, SpiButton, ReleaseValue), t + 100)]);
            s.mode == 0 && s.subMode == 1
  {
    var press := TimedEvent(InputEvent(EvKey, SpiButton, PressValue), t);
    var release := TimedEvent(InputEvent(EvKey, SpiButton, ReleaseValue), t + 100);
    assert [press, release][..1] == [press];
    assert [press][..0] == [];
    assert Run(Initial, [press][..0]) == Initial;
    assert Run(Initial, [press]) == Initial.(lastPress := t);
  }

  /** Whatever events arrive, the sub-mode stays in range for the mode. */
  lemma {:induction false} RunKeepsModeInvariant(s: ListenerState, evs: seq<TimedEvent>)
    requires ModeInvariant(s.mode, s.subMode)
    ensures ModeInvariant(Run(s, evs).mode, Run(s, evs).subMode)
  {
    if evs != [] {
      RunKeepsModeInvariant(s, evs[..|evs| - 1]);
    }
  }

  /** The extended script's listener: the timestamps and the shared mode state. */
  class Listener {
    var lastPress: int
    var lastRelease: int
    var mode: int
    var subMode: int

    function State(): ListenerState
      reads this
    {
      ListenerState(lastPress, lastRelease, mode, subMode)
    }

    constructor ()
      ensures State() == Initial
    {
      lastPress, lastRelease, mode, subMode := 0, 0, 0, 0;
    }

    /** Handle one event read from the device at time `nowMs`. */
    method HandleEvent(e: InputEvent, nowMs: int)
      modifies this
      ensures State() == Step(old(State()), e, nowMs)
    {
      if e.evType != EvKey || e.code != SpiButton {
        return;
      }
      if e.value == PressValue && nowMs - lastPress > DebounceMs {
        lastPress := nowMs;
      } else if e.value == ReleaseValue && nowMs - lastRelease > DebounceMs {
        lastRelease := nowMs;
        if lastRelease - lastPress > LongPressMs {
          mode := (mode + 1) % 3;
          subMode := 0;
        } else if mode == 0 {
          subMode := (subMode + 1) % 3;
        } else if mode == 1 {
          subMode := (subMode + 1) % 6;
        }
      }
    }

    /** Drain a batch of pending events, each with the time it was handled at. */
    method HandleEvents(evs: seq<TimedEvent>)
      modifies this
      ensures State() == Run(old(State()), evs)
    {
      for i := 0 to |evs|
        invariant State() == Run(old(State()), evs[..i])
      {
        assert evs[..i + 1][..i] == evs[..i];
        HandleEvent(evs[i].event, evs[i].nowMs);
      }
      assert evs[..|evs|] == evs;
    }
  }

  // ---------------------------------------------------------- base listener

  /** `last_press` and the shared `mode` of the two base scripts. */
  datatype BaseState = BaseState(lastPress: int, mode: int)

  const BaseInitial: BaseState := BaseState(0, 0)

  predicate IsPressOf(button: int, e: InputEvent) {
    e.evType == EvKey && e.code == button && e.value == PressValue
  }

  /**
   * One pass of a base listener's loop body: only presses of `button` are
   * looked at; an accepted press advances the mode by one, modulo 3.
   */
  function BaseStep(button: int, s: BaseState, e: InputEvent, nowMs: int): (r: BaseState)
    ensures !IsPressOf(button, e) ==> r == s
    ensures nowMs - s.lastPress <= DebounceMs ==> r == s
    ensures IsPressOf(button, e) && nowMs - s.lastPress > DebounceMs ==>
      r.lastPress == nowMs && r.mode == (s.mode + 1) % 3
    ensures 0 <= s.mode < 3 ==> 0 <= r.mode < 3
  {
    if IsPressOf(button, e) then
      if nowMs - s.lastPress > DebounceMs then BaseState(nowMs, (s.mode + 1) % 3)
      else s
    else s
  }

  function BaseRun(button: int, s: BaseState, evs: seq<TimedEvent>): BaseState
    decreases |evs|
  {
    if evs == [] then s
    else
      var last := evs[|evs| - 1];
      BaseStep(button, BaseRun(button, s, evs[..|evs| - 1]), last.event, last.nowMs)
  }

  /** Whatever events arrive, the mode stays in {0, 1, 2}. */
  lemma {:induction false} BaseRunKeepsMode(button: int, s: BaseState, evs: seq<TimedEvent>)
    requires 0 <= s.mode < 3
    ensures 0 <= BaseRun(button, s, evs).mode < 3
  {
    if evs != [] {
      BaseRunKeepsMode(button, s, evs[..|evs| - 1]);
    }
  }

  /** Three accepted presses bring the mode back to where it was. */
  lemma ThreePressesRestoreMode(button: int, s: BaseState, t1: int, t2: int, t3: int)
    requires 0 <= s.mode < 3
    requires t1 - s.lastPress > DebounceMs && t2 - t1 > DebounceMs && t3 - t2 > DebounceMs
    ensures var e := InputEvent(EvKey, button, PressValue);
            BaseStep(button, BaseStep(button, BaseStep(button, s, e, t1), e, t2), e, t3).mode == s.mode
  {
  }

  /** Presses of `button` every 200 ms, starting at `t0`. */
  function PressesEvery200(button: int, t0: int, k: nat): (evs: seq<TimedEvent>)
    ensures |evs| == k
  {
    seq(k, j => TimedEvent(InputEvent(EvKey, button, PressValue), t0 + 200 * j))
  }

  /**
   * A rejected press does not move `last_press`, so of presses 200 ms apart
   * every other one is accepted: k presses advance the mode (k + 1) / 2 times.
   */
  lemma {:induction false} AlternatePresses(button: int, s: BaseState, t0: int, k: nat)
    requires 0 <= s.mode < 3
    requires t0 - s.lastPress > DebounceMs
    ensures BaseRun(button, s, PressesEvery200(button, t0, k)).mode == (s.mode + (k + 1) / 2) % 3
    ensures k > 0 ==> BaseRun(button, s, PressesEvery200(button, t0, k)).lastPress == t0 + 400 * ((k - 1) / 2)
  {
    var evs := PressesEvery200(button, t0, k);
    if k == 0 {
      assert evs == [];
    } else {
      assert evs[..k - 1] == PressesEvery200(button, t0, k - 1);
      AlternatePresses(button, s, t0, k - 1);
      var prev := BaseRun(button, s, evs[..k - 1]);
      var e := InputEvent(EvKey, button, PressValue);
      assert evs[k - 1] == TimedEvent(e, t0 + 200 * (k - 1));
      assert BaseRun(button, s, evs) == BaseStep(button, prev, e, t0 + 200 * (k - 1));
      AlternateStep(button, s, prev, t0, k);
    }
  }

  /** The k-th press of the 200 ms train, given where the first k - 1 presses left the state. */
  lemma AlternateStep(button: int, s: BaseState, prev: BaseState, t0: int, k: nat)
    requires 0 <= s.mode < 3 && k >= 1
    requires t0 - s.lastPress > DebounceMs
    requires k == 1 ==> prev == s
    requires k > 1 ==> prev.mode == (s.mode + k / 2) % 3 && prev.lastPress == t0 + 400 * ((k - 2) / 2)
    ensures var r := BaseStep(button, prev, InputEvent(EvKey, button, PressValue), t0 + 200 * (k - 1));
            r.mode == (s.mode + (k + 1) / 2) % 3 && r.lastPress == t0 + 400 * ((k - 1) / 2)
  {
  }

  /** Two presses 100 ms apart advance the mode once; 300 ms apart, twice. */
  lemma DebounceScenarios(button: int, s: BaseState, t: int)
    requires t - s.lastPress > DebounceMs
    ensures var e := InputEvent(EvKey, button, PressValue);
            BaseStep(button, BaseStep(button, s, e, t), e, t + 100).mode == (s.mode + 1) % 3
    ensures var e := InputEvent(EvKey, button, PressValue);
            BaseStep(button, BaseStep(button, s, e, t), e, t + 300).mode == (s.mode + 2) % 3
  {
  }

  /** The listener of the two base scripts, for the button code of its setup. */
  class BaseListener {
    const button: int
    var lastPress: int
    var mode: int

    function State(): BaseState
      reads this
    {
      BaseState(lastPress, mode)
    }

    constructor (button: int)
      ensures this.button == button && State() == BaseInitial
    {
      this.button := button;
      lastPress, mode := 0, 0;
    }

    method HandleEvent(e: InputEvent, nowMs: int)
      modifies this
      ensures State() == BaseStep(button, old(State()), e, nowMs)
    {
      if e.evType == EvKey && e.code == button && e.value == PressValue {
        if nowMs - lastPress > DebounceMs {
          lastPress := nowMs;
          mode := (mode + 1) % 3;
        }
      }
    }

    method HandleEvents(evs: seq<TimedEvent>)
      modifies this
      ensures State() == BaseRun(button, old(State()), evs)
    {
      for i := 0 to |evs|
        invariant State() == BaseRun(button, old(State()), evs[..i])
      {
        assert evs[..i + 1][..i] == evs[..i];
        HandleEvent(evs[i].event, evs[i].nowMs);
      }
      assert evs[..|evs|] == evs;
    }
  }
}
