/** display.cpp: power state and backlight. The dimmer starts the backlight on a counter alarm and stops
    it on another; the time between the two alarms is the brightness. */
module Backlight {
  import opened Arithmetic

  const MAX_BRIGHTNESS: nat := 32
  const UINT32: nat := 0x1_0000_0000

  datatype Power = On | Sleep

  // The alarm window

  /** period * (npulses + 1) in the 32-bit arithmetic of the target, in nanoseconds. */
  function WindowNs(period: nat, brightness: nat): nat
    requires brightness <= MAX_BRIGHTNESS
  {
    period * (32 - brightness + 1) % UINT32
  }

  function WindowUs(period: nat, brightness: nat): nat
    requires brightness <= MAX_BRIGHTNESS
  {
    WindowNs(period, brightness) / 1000
  }

  /** The window without the 32-bit arithmetic. */
  function IdealUs(period: nat, brightness: nat): nat
    requires brightness <= MAX_BRIGHTNESS
  {
    var pulses: nat := 33 - brightness;
    period * pulses / 1000
  }

  function StopTicks(runTicks: nat, toTicks: nat -> nat, period: nat, brightness: nat): nat
    requires brightness <= MAX_BRIGHTNESS
  {
    (runTicks + toTicks(WindowUs(period, brightness))) % UINT32
  }

  ghost predicate Monotone(f: nat -> nat) {
    forall a, b :: a <= b ==> f(a) <= f(b)
  }

  lemma WindowInRange(period: nat, brightness: nat)
    requires period * 33 < UINT32 && brightness <= MAX_BRIGHTNESS
    ensures WindowNs(period, brightness) == period * (33 - brightness) <= period * 33
  {
    MulMonotone(33 - brightness, 33, period);
  }

  /** A period whose 33-fold fits 32 bits: the window is period * (33 - brightness) cut to microseconds,
      the stop alarm is never before the run alarm, and dimming never brings it forward. */
  lemma StopAlarm(runTicks: nat, toTicks: nat -> nat, period: nat, dim: nat, bright: nat)
    requires period * 33 < UINT32 && dim <= bright <= MAX_BRIGHTNESS
    requires Monotone(toTicks) && runTicks + toTicks(period * 33 / 1000) < UINT32
    ensures WindowUs(period, bright) == IdealUs(period, bright) == period * (33 - bright) / 1000
    ensures StopTicks(runTicks, toTicks, period, bright) == runTicks + toTicks(IdealUs(period, bright))
    ensures runTicks <= StopTicks(runTicks, toTicks, period, bright) <= StopTicks(runTicks, toTicks, period, dim)
  {
    hide WindowUs, IdealUs;
    WindowOrder(period, dim, bright);
    var a, b, m := WindowUs(period, bright), WindowUs(period, dim), period * 33 / 1000;
    assert toTicks(a) <= toTicks(b) <= toTicks(m);
  }

  lemma WindowOrder(period: nat, dim: nat, bright: nat)
    requires period * 33 < UINT32 && dim <= bright <= MAX_BRIGHTNESS
    ensures WindowUs(period, bright) == IdealUs(period, bright) == period * (33 - bright) / 1000
    ensures WindowUs(period, bright) <= WindowUs(period, dim) <= period * 33 / 1000
  {
    hide WindowNs;
    WindowInRange(period, bright);
    WindowInRange(period, dim);
    MulMonotone(33 - bright, 33 - dim, period);
    DivMonotone(WindowNs(period, bright), WindowNs(period, dim), 1000);
    DivMonotone(WindowNs(period, dim), period * 33, 1000);
  }

  /** The window never shrinks as the brightness falls. */
  ghost predicate Grows(period: nat) {
    forall dim: nat, bright: nat ::
      dim <= bright <= MAX_BRIGHTNESS ==> WindowUs(period, bright) <= WindowUs(period, dim)
  }

  /** Dimming never shortens the window exactly for the periods whose 33-fold fits 32 bits, and for those
      within 8 ns of 2^32, where all windows wrap around to the same number of microseconds. */
  lemma WindowGrows(period: nat)
    requires period < UINT32
    ensures Grows(period) <==> period * 33 < 0x1_0000_0000 || period >= 0xFFFF_FFF8
  {
    hide WindowUs, Grows;
    if period * 33 < UINT32 {
      GrowsInRange(period);
    } else if UINT32 - period < 1000 {
      GrowsNearWrap(period);
    } else {
      var k := FirstWrap(period, 33);
      WrapShortens(period, k);
      WindowShorter(period, 33 - k, 34 - k);
    }
  }

  lemma GrowsInRange(period: nat)
    requires period * 33 < UINT32
    ensures Grows(period)
  {
    hide WindowUs;
    forall dim: nat, bright: nat | dim <= bright <= MAX_BRIGHTNESS
      ensures WindowUs(period, bright) <= WindowUs(period, dim)
    {
      WindowOrder(period, dim, bright);
    }
  }

  lemma WindowShorter(period: nat, dim: nat, bright: nat)
    requires dim <= bright <= MAX_BRIGHTNESS && WindowNs(period, dim) + 1000 <= WindowNs(period, bright)
    ensures !Grows(period)
  {
    hide WindowNs;
    assert WindowUs(period, dim) < WindowUs(period, bright);
  }

  lemma GrowsNearWrap(period: nat)
    requires period < UINT32 && UINT32 - period < 1000
    ensures Grows(period) <==> period >= UINT32 - 8
  {
    hide WindowNs;
    if period >= UINT32 - 8 {
      forall b: nat | b <= MAX_BRIGHTNESS
        ensures WindowUs(period, b) == 4294967
      {
        NearWrap(period, b);
        MulMonotone(33 - b, 33, UINT32 - period);
      }
    } else {
      NearWrap(period, 0);
      NearWrap(period, 32);
      assert WindowUs(period, 0) < WindowUs(period, 32);
    }
  }

  /** A period just below 2^32 loses its distance to 2^32 with every pulse. */
  lemma NearWrap(period: nat, brightness: nat)
    requires period < UINT32 && UINT32 - period < 1000 && brightness <= MAX_BRIGHTNESS
    ensures WindowNs(period, brightness) == UINT32 - (33 - brightness) * (UINT32 - period)
  {
    var k, d := 33 - brightness, UINT32 - period;
    MulMonotone(1, k, d);
    MulMonotone(k, 33, d);
    assert period * k == UINT32 * (k - 1) + (UINT32 - k * d);
    ModOf(k - 1, UINT32 - k * d);
  }

  lemma ModOf(q: nat, r: nat)
    requires r < UINT32
    ensures (UINT32 * q + r) % UINT32 == r
  {
  }

  /** At the first wrap the window drops by the period's distance to 2^32. */
  lemma WrapShortens(period: nat, k: nat)
    requires period < UINT32 && 2 <= k <= 33 && period * (k - 1) < UINT32 <= period * k
    ensures WindowNs(period, 33 - k) == WindowNs(period, 34 - k) - (UINT32 - period)
  {
    assert period * k == period * (k - 1) + period;
    assert 33 - (33 - k) == k && 33 - (34 - k) == k - 1;
    assert WindowNs(period, 33 - k) == period * k % UINT32 == period * k - UINT32;
    assert WindowNs(period, 34 - k) == period * (k - 1) % UINT32 == period * (k - 1);
  }

  /** The first multiple of the period that does not fit. */
  lemma FirstWrap(period: nat, n: nat) returns (k: nat)
    requires period < UINT32 && period * n >= UINT32
    ensures 2 <= k <= n && period * (k - 1) < UINT32 <= period * k
    decreases n
  {
    assert n == 1 ==> period * n == period;
    assert n == 0 ==> period * n == 0;
    if period * (n - 1) < UINT32 {
      k := n;
    } else {
      k := FirstWrap(period, n - 1);
    }
  }

  // The display

  class Display {
    const period: nat  // of the backlight's PWM, in nanoseconds
    const toTicks: nat -> nat  // counter_us_to_ticks of the counter device
    var state: Power
    var brightness: nat
    var lastBrightness: nat
    var runTicks: nat
    var stopTicks: nat
    ghost var beforeSleep: nat  // in force when the latest sleep began; full before the first

    ghost predicate Valid()
      reads this
    {
      && brightness <= MAX_BRIGHTNESS && lastBrightness == beforeSleep <= MAX_BRIGHTNESS
      && runTicks == toTicks(750)
    }

    /** The counter keeps the order of times, and neither the longest window nor the stop alarm wraps around. */
    ghost predicate InRange() {
      && period * 33 < UINT32 && Monotone(toTicks)
      && toTicks(750) + toTicks(period * 33 / 1000) < UINT32
    }

    constructor (period: nat, toTicks: nat -> nat)
      ensures Valid() && state == Sleep && brightness == beforeSleep == 32 && runTicks == toTicks(750)
      ensures this.period == period && this.toTicks == toTicks
    {
      this.period, this.toTicks := period, toTicks;
      state, brightness, lastBrightness := Sleep, MAX_BRIGHTNESS, MAX_BRIGHTNESS;
      runTicks, stopTicks := toTicks(750), 0;
      beforeSleep := MAX_BRIGHTNESS;
    }

    /** Waking restores the brightness in force when the sleep began; a second call changes nothing. */
    method TurnOn()
      requires Valid()
      modifies this
      ensures Valid() && state == On && beforeSleep == old(beforeSleep) && lastBrightness == old(lastBrightness)
      ensures old(state) == On ==> unchanged(this)
      ensures old(state) == Sleep ==> brightness == beforeSleep
      ensures runTicks == old(runTicks) && stopTicks == old(stopTicks)
    {
      if state == On {
        return;
      }
      state := On;
      SetBrightness(lastBrightness);
    }

    method GoToSleep()
      requires Valid()
      modifies this
      ensures Valid() && state == Sleep
      ensures old(state) == Sleep ==> unchanged(this)
      ensures old(state) == On ==> brightness == 0 && beforeSleep == lastBrightness == old(brightness)
      ensures runTicks == old(runTicks) && stopTicks == old(stopTicks)
    {
      if state == Sleep {
        return;
      }
      state := Sleep;
      lastBrightness := brightness;
      beforeSleep := brightness;
      SetBrightness(0);
    }

    /** Any byte is accepted and capped. */
    method SetBrightness(value: nat)
      requires lastBrightness == beforeSleep <= MAX_BRIGHTNESS && runTicks == toTicks(750)
      modifies this`brightness
      ensures Valid() && brightness == if value <= 32 then value else 32
    {
      brightness := if value < MAX_BRIGHTNESS then value else MAX_BRIGHTNESS;
    }

    /** The scheduled work that sets the alarms: the stop alarm follows the run alarm by the window of the
        brightness, and no brighter setting has a later one. */
    method DoSetBrightness()
      requires Valid()
      modifies this`stopTicks
      ensures Valid() && stopTicks == StopTicks(runTicks, toTicks, period, brightness)
      ensures InRange() ==>
        runTicks <= stopTicks == runTicks + toTicks(IdealUs(period, brightness)) &&
        forall bright: nat :: brightness <= bright <= MAX_BRIGHTNESS ==>
          StopTicks(runTicks, toTicks, period, bright) <= stopTicks
    {
      hide IdealUs, Monotone;
      var npulses := 32 - brightness;
      stopTicks := (runTicks + toTicks(period * (npulses + 1) % UINT32 / 1000)) % UINT32;
      assert stopTicks == StopTicks(runTicks, toTicks, period, brightness);
      if InRange() {
        hide StopTicks;
        forall bright: nat | brightness <= bright <= MAX_BRIGHTNESS
          ensures StopTicks(runTicks, toTicks, period, bright) <= stopTicks
        {
          StopAlarm(runTicks, toTicks, period, brightness, bright);
        }
        StopAlarm(runTicks, toTicks, period, brightness, brightness);
      }
    }
  }

  /** What may happen to the display. */
  datatype Operation = Wake | Doze | Set(value: nat) | Program

  method Perform(d: Display, operation: Operation)
    requires d.Valid()
    modifies d
    ensures d.Valid()
  {
    match operation {
      case Wake => d.TurnOn();
      case Doze => d.GoToSleep();
      case Set(value) => d.SetBrightness(value);
      case Program => d.DoSetBrightness();
    }
  }

  /** Setting a brightness and then a lower one, whatever run of operations comes in between, never brings the
      stop alarm forward. */
  method Dim(d: Display, bright: nat, operations: seq<Operation>, dim: nat) returns (before: nat, after: nat)
    requires d.Valid() && d.InRange() && dim <= bright
    modifies d
    ensures d.Valid() && d.runTicks <= before <= after == d.stopTicks
  {
    d.SetBrightness(bright);
    d.DoSetBrightness();
    before := d.stopTicks;
    for i := 0 to |operations|
      invariant d.Valid()
    {
      Perform(d, operations[i]);
    }
    d.SetBrightness(dim);
    d.DoSetBrightness();
    after := d.stopTicks;
  }

  /** A sleep and a wake, with any brightness values set in between, leave the brightness as it was. */
  method SleepAndWake(d: Display, values: seq<nat>)
    requires d.Valid() && d.state == On
    modifies d
    ensures d.Valid() && d.state == On && d.brightness == old(d.brightness)
  {
    d.GoToSleep();
    for i := 0 to |values|
      invariant d.Valid() && d.state == Sleep && d.beforeSleep == old(d.brightness)
    {
      d.SetBrightness(values[i]);
    }
    d.TurnOn();
  }
}
