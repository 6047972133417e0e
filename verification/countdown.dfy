/**
 The page's local placement eligibility: `canPlace`, the seconds left on the cooldown
 countdown, and whether the once-per-second countdown interval is running.
 */
module Countdown {
  import opened Options

  /** A cooldown length in whole seconds. */
  type Seconds = s: int | s >= 1 witness 60

  /** `ticking` stands for the `setInterval` countdown being active. */
  datatype Timer = Timer(canPlace: bool, timeRemaining: int, ticking: bool)

  /** The state before the user record is read: `useState(false)` and `useState(0)`. */
  const Initial := Timer(false, 0, false)

  /** The shape every timer has once the user record has been read: the countdown runs
      exactly while placing is blocked, with at least one second left, and an idle
      countdown shows zero. */
  predicate Settled(t: Timer) {
    && (t.ticking <==> !t.canPlace)
    && (t.ticking ==> t.timeRemaining >= 1)
    && (!t.ticking ==> t.timeRemaining == 0)
  }

  /** One firing of the countdown interval: a value of one second or less becomes zero,
      placing is unblocked and the interval is cleared; otherwise one second is taken off.
      A cleared interval no longer fires. */
  function Tick(t: Timer): (r: Timer)
    ensures !t.ticking ==> r == t
    ensures t.ticking ==> r.timeRemaining >= 0
    ensures t.ticking && t.timeRemaining > 0 ==> r.timeRemaining < t.timeRemaining
    ensures t.ticking && t.timeRemaining > 1 ==> r == t.(timeRemaining := t.timeRemaining - 1)
    ensures t.ticking ==> (r.ticking <==> t.timeRemaining > 1)
    ensures Settled(t) ==> Settled(r)
    ensures Settled(t) ==> (r.canPlace <==> r.timeRemaining == 0)
  {
    if !t.ticking then t
    else if t.timeRemaining <= 1 then Timer(true, 0, false)
    else t.(timeRemaining := t.timeRemaining - 1)
  }

  function Ticks(t: Timer, n: nat): Timer
    decreases n
  {
    if n == 0 then t else Ticks(Tick(t), n - 1)
  }

  /** After n firings of the countdown, n seconds are gone (never below zero), and placing
      is allowed again exactly when n reaches the seconds that were left. */
  lemma {:induction false} TicksCountdown(t: Timer, n: nat)
    requires Settled(t)
    ensures Settled(Ticks(t, n))
    ensures Ticks(t, n).timeRemaining == if n >= t.timeRemaining then 0 else t.timeRemaining - n
    ensures Ticks(t, n).canPlace <==> n >= t.timeRemaining
    decreases n
  {
    if n > 0 {
      TicksCountdown(Tick(t), n - 1);
    }
  }

  /** The state right after a successful placement. */
  function Restart(cooldown: Seconds): (r: Timer)
    ensures Settled(r) && !r.canPlace && r.timeRemaining == cooldown
  {
    Timer(false, cooldown, true)
  }

  /** `Math.ceil(ms / 1000)`: the whole seconds, rounded up, in a millisecond span. */
  function CeilSeconds(ms: int): (r: int)
    ensures (r - 1) * 1000 < ms <= r * 1000
  {
    -((-ms) / 1000)
  }

  /** The eligibility check made when the user record is read: no stored `placeTimer`, or
      one that is due, allows placing; otherwise the countdown starts from the whole
      seconds left, rounded up. */
  function LoadTimer(t: Timer, placeTimer: Option<int>, now: int): (r: Timer)
    ensures r.canPlace <==> placeTimer.None? || placeTimer.value <= now
    ensures !r.canPlace ==> r.ticking && r.timeRemaining >= 1
    ensures !r.canPlace ==> (r.timeRemaining - 1) * 1000 < placeTimer.value - now <= r.timeRemaining * 1000
    ensures r.canPlace ==> r.timeRemaining == t.timeRemaining && r.ticking == t.ticking
    ensures t == Initial ==> Settled(r)
  {
    match placeTimer
    case None => t.(canPlace := true)
    case Some(due) =>
      var remaining := CeilSeconds(due - now);
      if remaining <= 0 then t.(canPlace := true) else Timer(false, remaining, true)
  }

  /** Reading the stored timer k seconds after a placement gives exactly the state the
      running countdown has reached after k firings. */
  lemma ReloadMatchesCountdown(cooldown: Seconds, placedAt: int, k: nat)
    ensures LoadTimer(Initial, Some(placedAt + cooldown * 1000), placedAt + k * 1000)
            == Ticks(Restart(cooldown), k)
  {
    var r := LoadTimer(Initial, Some(placedAt + cooldown * 1000), placedAt + k * 1000);
    var c := Ticks(Restart(cooldown), k);
    TicksCountdown(Restart(cooldown), k);
    assert CeilSeconds((cooldown - k) * 1000) == cooldown - k;
    assert r.timeRemaining == c.timeRemaining;
  }
}
