/**
  The per-exercise rest timers of the workout page (`startRest`, its
  interval callback and the "reset timers" handler in treino/treino.js).

  `activeTimers` becomes an immutable map from exercise key to `Timer`. The
  interval handle becomes the flag `scheduled`: set by `setInterval`,
  cleared by `clearInterval`. A tick is an explicit event that only has an
  effect on a key whose interval is live, which is what a cleared interval
  means. Display updates come back as outputs. The `data-timer` default is
  `parseInt` of the attribute, so it may be `NaN`.
 */
module RestTimer {
  import opened Wrappers
  import opened Numbers
  import opened TimeFormat

  /** One `activeTimers` entry: remaining seconds, the running flag, and
      whether its repeating one-second interval is live. */
  datatype Timer = Timer(seconds: Num, running: bool, scheduled: bool)

  type Registry = map<string, Timer>

  /** Keys whose interval is live. */
  function LiveIntervals(reg: Registry): set<string> {
    set k | k in reg && reg[k].scheduled
  }

  /** A key has a live interval exactly when its timer is running, so no
      key ever has a second interval or an orphaned one. */
  predicate Consistent(reg: Registry) {
    forall k :: k in reg ==> reg[k].scheduled == reg[k].running
  }

  /* ---------------- the state machine, stated on its own ---------------- */

  /** The phases a key goes through: never started; counting down; paused
      with time left; stopped with nothing left (finished, or paused at
      zero or below). `NaN` is never "nothing left", since `NaN <= 0` is false. */
  datatype Phase = Idle | Running(left: Num) | Paused(left: Num) | Spent(overrun: int)

  /** The phase of a timer that is not running with `left` on it. */
  function Stopped(left: Num): Phase {
    if left.AtMostZero() then Spent(left.v) else Paused(left)
  }

  function PhaseOf(reg: Registry, key: string): Phase {
    if key !in reg then Idle
    else if reg[key].running then Running(reg[key].seconds)
    else Stopped(reg[key].seconds)
  }

  /** What a press of the start/pause button does to a phase: start from
      the default, pause keeping the remaining time, resume from the
      remaining time, or restart a spent timer from the default. */
  function PressPhase(p: Phase, default: Num): Phase {
    match p
    case Idle => Running(default)
    case Running(n) => Stopped(n)
    case Paused(n) => Running(n)
    case Spent(_) => Running(default)
  }

  /** What one tick does: a running timer loses a second and stops once
      it has nothing left; other phases have no interval to tick. */
  function TickPhase(p: Phase): Phase {
    match p
    case Running(n) => if n.Dec().AtMostZero() then Spent(n.Dec().v) else Running(n.Dec())
    case _ => p
  }

  /* ---------------- the operations as the page performs them ---------------- */

  /** What `startRest` does to the registry when the button of the unit
      with key `key` is pressed and its `data-timer` parses to `default`.
      A running timer is paused: its interval is cleared and its seconds
      are kept. Otherwise the entry is created if absent, reloaded with the
      default if it has nothing left, given a new interval and marked
      running. */
  function PressTimers(reg: Registry, key: string, default: Num): (next: Registry)
    ensures PhaseOf(next, key) == PressPhase(PhaseOf(reg, key), default)
    ensures next.Keys == reg.Keys + {key}
    ensures forall k :: k in reg && k != key ==> next[k] == reg[k]
    ensures Consistent(reg) ==> Consistent(next)
    ensures Consistent(reg) ==>
      LiveIntervals(next) ==
        (if PhaseOf(reg, key).Running? then LiveIntervals(reg) - {key} else LiveIntervals(reg) + {key})
  {
    if key in reg && reg[key].running then
      reg[key := reg[key].(running := false, scheduled := false)]
    else
      var entry := if key in reg then reg[key] else Timer(default, false, false);
      var reloaded := if entry.seconds.AtMostZero() then entry.(seconds := default) else entry;
      reg[key := reloaded.(running := true, scheduled := true)]
  }

  /** Result of a button press: the new registry and the new text of the
      pressed unit's display, `None` when the display is left alone. */
  datatype PressOutcome = PressOutcome(timers: Registry, display: Option<string>)

  /** `startRest`: the registry effect together with the display. Pausing
      leaves the display alone; starting shows the time the countdown
      starts from, which is the default for a new or spent timer and the
      remaining time for a paused one. */
  function Press(reg: Registry, key: string, default: Num): (r: PressOutcome)
    ensures r.timers == PressTimers(reg, key, default)
    ensures r.display.None? <==> PhaseOf(reg, key).Running?
    ensures PhaseOf(reg, key).Idle? || PhaseOf(reg, key).Spent? ==> r.display == Some(FormatTime(default))
    ensures PhaseOf(reg, key).Paused? ==> r.display == Some(FormatTime(PhaseOf(reg, key).left))
  {
    var next := PressTimers(reg, key, default);
    if key in reg && reg[key].running then PressOutcome(next, None)
    else PressOutcome(next, Some(FormatTime(next[key].seconds)))
  }

  /** What one firing of the interval of `key` does to the registry:
      decrement; at zero or below clear the interval and stop. A key
      without a live interval gets no callback. */
  function TickTimers(reg: Registry, key: string): (next: Registry)
    ensures Consistent(reg) ==> PhaseOf(next, key) == TickPhase(PhaseOf(reg, key))
    ensures next.Keys == reg.Keys
    ensures forall k :: k in reg && k != key ==> next[k] == reg[k]
    ensures key !in LiveIntervals(reg) ==> next == reg
    ensures Consistent(reg) ==> Consistent(next)
    ensures LiveIntervals(next) <= LiveIntervals(reg)
  {
    if key !in reg || !reg[key].scheduled then reg
    else
      var t := reg[key].(seconds := reg[key].seconds.Dec());
      if t.seconds.AtMostZero() then reg[key := t.(running := false, scheduled := false)]
      else reg[key := t]
  }

  /** Result of one interval callback: the new registry, the new display
      text (`None` when no interval fired), and whether the completion
      signal (flash and sound) was given. */
  datatype TickOutcome = TickOutcome(timers: Registry, display: Option<string>, finished: bool)

  /** The interval callback with its effects on the page: on completion
      the display shows `00:00` and the signal is given; otherwise the
      display shows the remaining time. */
  function Tick(reg: Registry, key: string): (r: TickOutcome)
    ensures r.timers == TickTimers(reg, key)
    ensures r.display.None? <==> key !in LiveIntervals(reg)
    ensures r.finished ==> r.display == Some("00:00")
    ensures Consistent(reg) ==>
      (r.finished <==> PhaseOf(reg, key).Running? && PhaseOf(TickTimers(reg, key), key).Spent?)
    ensures Consistent(reg) && PhaseOf(TickTimers(reg, key), key).Running? && r.display.Some? ==>
      r.display == Some(FormatTime(PhaseOf(TickTimers(reg, key), key).left))
  {
    var next := TickTimers(reg, key);
    if key !in reg || !reg[key].scheduled then TickOutcome(next, None, false)
    else if !next[key].running then TickOutcome(next, Some("00:00"), true)
    else TickOutcome(next, Some(FormatTime(next[key].seconds)), false)
  }

  /** Result of the "reset timers" control: the emptied registry, the new
      text of every timer display, and the keys whose live interval was
      cleared. */
  datatype ResetOutcome = ResetOutcome(timers: Registry, displays: map<string, string>, cleared: set<string>)

  /** The "reset timers" handler. `defaults` holds, for every rendered
      timer display, its parsed `data-timer`. Every display shows its
      default again, every live interval is cleared and the registry is
      emptied. */
  function ResetAll(reg: Registry, defaults: map<string, Num>): (r: ResetOutcome)
    ensures LiveIntervals(r.timers) == {}
    ensures r.cleared == LiveIntervals(reg)
    ensures r.displays.Keys == defaults.Keys
    ensures forall k :: k in defaults ==> r.displays[k] == FormatTime(defaults[k])
    ensures forall k :: PhaseOf(r.timers, k) == Idle
  {
    var displays := map k | k in defaults :: FormatTime(defaults[k]);
    ResetOutcome(map[], displays, set k | k in reg && reg[k].scheduled)
  }

  /* ---------------- runs of events ---------------- */

  datatype Event = PressKey(key: string, default: Num) | TickKey(key: string) | ResetKeys(defaults: map<string, Num>)

  function Step(reg: Registry, e: Event): Registry {
    match e
    case PressKey(k, d) => PressTimers(reg, k, d)
    case TickKey(k) => TickTimers(reg, k)
    case ResetKeys(ds) => ResetAll(reg, ds).timers
  }

  function Run(reg: Registry, events: seq<Event>): Registry
    decreases |events|
  {
    if |events| == 0 then reg else Run(Step(reg, events[0]), events[1..])
  }

  /** Whatever the users do and whenever the intervals fire, a live
      interval and a running timer go together for every key. */
  lemma {:induction false} RunKeepsConsistent(reg: Registry, events: seq<Event>)
    requires Consistent(reg)
    ensures Consistent(Run(reg, events))
    decreases |events|
  {
    if |events| > 0 {
      RunKeepsConsistent(Step(reg, events[0]), events[1..]);
    }
  }

  /** `j` firings of the interval of `key`. */
  function Ticks(reg: Registry, key: string, j: nat): Registry {
    if j == 0 then reg else TickTimers(Ticks(reg, key, j - 1), key)
  }

  /** A timer running with `n > 0` seconds keeps running with `n - j` left
      after `j < n` ticks. */
  lemma {:induction false} CountingDown(reg: Registry, key: string, n: nat, j: nat)
    requires Consistent(reg) && PhaseOf(reg, key) == Running(Int(n))
    requires j < n
    ensures Consistent(Ticks(reg, key, j))
    ensures PhaseOf(Ticks(reg, key, j), key) == Running(Int(n - j))
  {
    if j > 0 {
      CountingDown(reg, key, n, j - 1);
      var prev := Ticks(reg, key, j - 1);
      assert Ticks(reg, key, j) == TickTimers(prev, key);
      assert TickPhase(Running(Int(n - j + 1))) == Running(Int(n - j));
    }
  }

  /** ... and finishes on exactly the `n`-th tick, stopping at zero. */
  lemma CountdownFinishes(reg: Registry, key: string, n: nat)
    requires Consistent(reg) && PhaseOf(reg, key) == Running(Int(n)) && n >= 1
    ensures Tick(Ticks(reg, key, n - 1), key).finished
    ensures PhaseOf(Ticks(reg, key, n), key) == Spent(0)
    ensures key !in LiveIntervals(Ticks(reg, key, n))
  {
    CountingDown(reg, key, n, n - 1);
    var prev := Ticks(reg, key, n - 1);
    LastTick(prev, key);
    assert Ticks(reg, key, n) == TickTimers(prev, key);
  }

  lemma LastTick(reg: Registry, key: string)
    requires Consistent(reg) && PhaseOf(reg, key) == Running(Int(1))
    ensures Tick(reg, key).finished
    ensures PhaseOf(TickTimers(reg, key), key) == Spent(0)
    ensures key !in LiveIntervals(TickTimers(reg, key))
  {
    assert TickPhase(Running(Int(1))) == Spent(0);
  }

  /** A timer whose default did not parse (`NaN`) never finishes: each
      tick leaves it running, shows `00:00` and gives no completion
      signal. */
  lemma {:induction false} NaNNeverFinishes(reg: Registry, key: string, j: nat)
    requires Consistent(reg) && PhaseOf(reg, key) == Running(NaN)
    ensures Consistent(Ticks(reg, key, j))
    ensures PhaseOf(Ticks(reg, key, j), key) == Running(NaN)
    ensures !Tick(Ticks(reg, key, j), key).finished
    ensures Tick(Ticks(reg, key, j), key).display == Some("00:00")
  {
    if j > 0 {
      NaNNeverFinishes(reg, key, j - 1);
      var prev := Ticks(reg, key, j - 1);
      NaNTick(prev, key);
      assert Ticks(reg, key, j) == TickTimers(prev, key);
    }
    NaNTick(Ticks(reg, key, j), key);
  }

  lemma NaNTick(reg: Registry, key: string)
    requires Consistent(reg) && PhaseOf(reg, key) == Running(NaN)
    ensures Consistent(TickTimers(reg, key))
    ensures PhaseOf(TickTimers(reg, key), key) == Running(NaN)
    ensures !Tick(reg, key).finished
    ensures Tick(reg, key).display == Some("00:00")
  {
    assert TickPhase(Running(NaN)) == Running(NaN);
    assert FormatTime(NaN) == "00:00";
  }

  /** After a reset no tick changes anything: no interval is left. */
  lemma {:induction false} NothingTicksAfterReset(reg: Registry, defaults: map<string, Num>, key: string, j: nat)
    ensures Ticks(ResetAll(reg, defaults).timers, key, j) == map[]
    ensures Tick(Ticks(ResetAll(reg, defaults).timers, key, j), key).display.None?
  {
    if j > 0 {
      NothingTicksAfterReset(reg, defaults, key, j - 1);
    }
  }

  /** Pressing a timer stopped with its default on it runs it from the
      default again, whether it was spent or merely paused. */
  lemma StoppedRestarts(default: Num)
    ensures PressPhase(Stopped(default), default) == Running(default)
  {
  }

  /** `j` presses of the button of `key` with no tick in between. */
  function Presses(reg: Registry, key: string, default: Num, j: nat): Registry {
    if j == 0 then reg else PressTimers(Presses(reg, key, default, j - 1), key, default)
  }

  /** The phase after `j` presses of a never-started timer. */
  function AfterPresses(default: Num, j: nat): Phase {
    if j == 0 then Idle else if j % 2 == 1 then Running(default) else Stopped(default)
  }

  /** From a never-started timer, an odd number of presses leaves it
      running from the default and an even (positive) number leaves it
      stopped with the default on it: the button alternates start and
      pause and never starts a second countdown. */
  lemma {:induction false} PressParity(reg: Registry, key: string, default: Num, j: nat)
    requires key !in reg
    ensures PhaseOf(Presses(reg, key, default, j), key) == AfterPresses(default, j)
  {
    if j == 0 {
      NoPresses(reg, key, default);
    } else {
      PressParity(reg, key, default, j - 1);
      NextPress(reg, key, default, j);
    }
  }

  lemma NoPresses(reg: Registry, key: string, default: Num)
    requires key !in reg
    ensures PhaseOf(Presses(reg, key, default, 0), key) == AfterPresses(default, 0)
  {
  }

  /** The phase after `j` presses follows from the phase after `j - 1`. */
  lemma NextPress(reg: Registry, key: string, default: Num, j: nat)
    requires j > 0
    requires PhaseOf(Presses(reg, key, default, j - 1), key) == AfterPresses(default, j - 1)
    ensures PhaseOf(Presses(reg, key, default, j), key) == AfterPresses(default, j)
  {
    PressesStep(reg, key, default, j);
    AfterPressesStep(default, j);
  }

  lemma PressesStep(reg: Registry, key: string, default: Num, j: nat)
    requires j > 0
    ensures PhaseOf(Presses(reg, key, default, j), key)
      == PressPhase(PhaseOf(Presses(reg, key, default, j - 1), key), default)
  {
    var prev := Presses(reg, key, default, j - 1);
    assert Presses(reg, key, default, j) == PressTimers(prev, key, default);
  }

  /** One more press moves the phase from `j - 1` presses to `j`. */
  lemma AfterPressesStep(default: Num, j: nat)
    requires j > 0
    ensures AfterPresses(default, j) == PressPhase(AfterPresses(default, j - 1), default)
  {
    if j % 2 == 1 && j > 1 {
      StoppedRestarts(default);
    }
  }

  /** A three-second rest started from scratch shows `00:03`, then
      `00:02` and `00:01`, and finishes on the third tick showing `00:00`. */
  lemma ThreeSecondRest(key: string)
    ensures Press(map[], key, Int(3)).display == Some("00:03")
    ensures Tick(Ticks(PressTimers(map[], key, Int(3)), key, 0), key).display == Some("00:02")
    ensures Tick(Ticks(PressTimers(map[], key, Int(3)), key, 1), key).display == Some("00:01")
    ensures Tick(Ticks(PressTimers(map[], key, Int(3)), key, 2), key).display == Some("00:00")
    ensures !Tick(Ticks(PressTimers(map[], key, Int(3)), key, 1), key).finished
    ensures Tick(Ticks(PressTimers(map[], key, Int(3)), key, 2), key).finished
  {
    SmallLabels();
    var reg := PressTimers(map[], key, Int(3));
    assert Consistent(map[]);
    assert PhaseOf(reg, key) == Running(Int(3));
    CountingDown(reg, key, 3, 1);
    CountingDown(reg, key, 3, 2);
    CountdownFinishes(reg, key, 3);
    TickWhileRunning(Ticks(reg, key, 0), key, 3);
    TickWhileRunning(Ticks(reg, key, 1), key, 2);
  }

  /** A tick on a timer running with `n >= 2` seconds shows `n - 1` and
      does not finish. */
  lemma TickWhileRunning(reg: Registry, key: string, n: int)
    requires Consistent(reg) && PhaseOf(reg, key) == Running(Int(n)) && n >= 2
    ensures Tick(reg, key).display == Some(FormatTime(Int(n - 1)))
    ensures !Tick(reg, key).finished
  {
    assert PhaseOf(TickTimers(reg, key), key) == Running(Int(n - 1));
  }

  lemma SmallLabels()
    ensures FormatTime(Int(3)) == "00:03"
    ensures FormatTime(Int(2)) == "00:02"
    ensures FormatTime(Int(1)) == "00:01"
  {
    SingleDigitSeconds(3);
    SingleDigitSeconds(2);
    SingleDigitSeconds(1);
  }
}
