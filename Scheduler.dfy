/**
 * One tick of `CheckShutdownTime`: from the enable flag and the time left it
 * picks no action, a countdown message, an imminent warning, or an imminent
 * warning followed by firing the shutdown.  The thresholds of the source,
 * `TotalSeconds <= 2`, `<= 10` and `TotalMinutes <= 1`, each with
 * `TotalSeconds > 0`, are compared here on whole milliseconds.
 */
module Scheduler {
  import opened Wrappers
  import opened Configuration
  import opened Schedule

  const FireWithinMs: nat := 2 * MsPerSecond
  const WarnWithinMs: nat := 10 * MsPerSecond
  const CountdownWithinMs: nat := MsPerMinute
  /** The period of the `System.Timers.Timer` that drives the ticks. */
  const TimerIntervalMs: nat := 10 * MsPerSecond

  datatype TickOutcome =
    | Disabled                                // automatic shutdown is off: return at once
    | Faulted                                 // computing the next shutdown time threw; logged
    | Quiet                                   // no message, no action
    | Countdown(minutes: int, seconds: int)   // "Will shutdown in M minutes and S seconds"
    | Imminent(seconds: int)                  // "Shutdown Imminent" warning
    | Firing(seconds: int)                    // the warning, then the direct shutdown; the timer stops

  /** The outcomes that show the "Shutdown Imminent" warning. */
  predicate Warns(o: TickOutcome) {
    o.Imminent? || o.Firing?
  }

  /** The branch ladder on the time left, `remaining` milliseconds. */
  function Ladder(remaining: int): (o: TickOutcome)
    ensures o.Firing? <==> 0 < remaining <= FireWithinMs
    ensures o.Imminent? <==> FireWithinMs < remaining <= WarnWithinMs
    ensures Warns(o) <==> 0 < remaining <= WarnWithinMs
    ensures o.Countdown? <==> WarnWithinMs < remaining <= CountdownWithinMs
    ensures o.Quiet? <==> remaining <= 0 || CountdownWithinMs < remaining
    ensures Warns(o) ==> o.seconds == remaining / MsPerSecond <= 10
    ensures o.Countdown? ==> o.minutes * 60 + o.seconds == remaining / MsPerSecond
    ensures !o.Disabled? && !o.Faulted?
  {
    // TimeSpan.Minutes and TimeSpan.Seconds of a positive span
    var minutes := remaining / MsPerMinute % 60;
    var seconds := remaining / MsPerSecond % 60;
    if 0 < remaining <= WarnWithinMs then
      if remaining <= FireWithinMs then Firing(seconds) else Imminent(seconds)
    else if 0 < remaining <= CountdownWithinMs then
      Countdown(minutes, seconds)
    else
      Quiet
  }

  /** `CheckShutdownTime` at instant `now` for configuration `c`. */
  function Decide(c: Config, now: nat): (o: TickOutcome)
    ensures !c.enableAutoShutdown <==> o.Disabled?
    ensures c.enableAutoShutdown && !ValidTimeOfDay(c) <==> o.Faulted?
    ensures c.enableAutoShutdown && ValidTimeOfDay(c) ==> o == Ladder(Remaining(now, c))
  {
    if !c.enableAutoShutdown then Disabled
    else
      match NextShutdownTime(now, c)
      case None => Faulted
      case Some(x) => Ladder(x - now)
  }

  /** The tick reads neither the force flag nor anything else but the time of day and the enable flag. */
  lemma DecideIgnoresForce(c: Config, now: nat, force: bool)
    ensures Decide(c.(forceShutdown := force), now) == Decide(c, now)
  {
  }

  /** A configured instant falls in `(now + lo, now + hi]`. */
  ghost predicate OccurrenceWithin(now: nat, c: Config, lo: int, hi: int) {
    exists x :: now + lo < x <= now + hi && IsOccurrence(x, c)
  }

  lemma OccurrenceWithinIff(now: nat, c: Config, lo: int, hi: int)
    requires ValidTimeOfDay(c)
    requires 0 <= lo && hi < MsPerDay
    ensures OccurrenceWithin(now, c, lo, hi) <==> lo < Remaining(now, c) <= hi
  {
    if OccurrenceWithin(now, c, lo, hi) {
      var x :| now + lo < x <= now + hi && IsOccurrence(x, c);
      NextIsEarliestOccurrence(now, c, x);
    }
    if lo < Remaining(now, c) <= hi {
      assert IsOccurrence(now + Remaining(now, c), c);
    }
  }

  /**
   * The tick outcome by the configured instant it approaches: while enabled it
   * fires iff that instant is at most 2 s ahead (and not now), warns iff it is at
   * most 10 s ahead, and counts down iff it is between 10 s and a minute ahead.
   */
  lemma TickByUpcomingOccurrence(c: Config, now: nat)
    requires c.enableAutoShutdown && ValidTimeOfDay(c)
    ensures Decide(c, now).Firing? <==> OccurrenceWithin(now, c, 0, FireWithinMs)
    ensures Warns(Decide(c, now)) <==> OccurrenceWithin(now, c, 0, WarnWithinMs)
    ensures Decide(c, now).Countdown? <==> OccurrenceWithin(now, c, WarnWithinMs, CountdownWithinMs)
    ensures Decide(c, now).Quiet? <==> !OccurrenceWithin(now, c, 0, CountdownWithinMs)
  {
    OccurrenceWithinIff(now, c, 0, FireWithinMs);
    OccurrenceWithinIff(now, c, 0, WarnWithinMs);
    OccurrenceWithinIff(now, c, WarnWithinMs, CountdownWithinMs);
    OccurrenceWithinIff(now, c, 0, CountdownWithinMs);
  }

  /** A tick exactly at the configured instant does nothing: the time left is zero. */
  lemma ExactTargetTickIsQuiet(c: Config, now: nat)
    requires c.enableAutoShutdown && ValidTimeOfDay(c) && IsOccurrence(now, c)
    ensures Decide(c, now) == Quiet
  {
    ExactTargetStaysToday(now, c);
  }

  /** A tick that comes after the configured instant does nothing until the next day's last minute. */
  lemma LateTickIsQuiet(c: Config, x: nat, late: nat)
    requires c.enableAutoShutdown && ValidTimeOfDay(c) && IsOccurrence(x, c)
    requires 0 < late < MsPerDay - CountdownWithinMs
    ensures Decide(c, x + late) == Quiet
  {
    LateRollsToTomorrow(x, late, c);
  }

  // ---------------------------------------------------------------------------
  // The ticks of one timer run: `StartShutdownTimer` checks at once, then
  // every `TimerIntervalMs`.

  /** The instant of tick `k` of a run whose first tick is at `start`, the ticks taken as exactly one period apart. */
  function TickTime(start: nat, k: nat): (t: nat)
    ensures start <= t && (t - start) % TimerIntervalMs == 0
    ensures (t - start) / TimerIntervalMs == k
  {
    start + k * TimerIntervalMs
  }

  /** Adding whole timer periods does not change a value modulo the period. */
  lemma ModPeriodShift(a: int, m: int)
    ensures (a + m * TimerIntervalMs) % TimerIntervalMs == a % TimerIntervalMs
  {
    var q, r := a / TimerIntervalMs, a % TimerIntervalMs;
    assert a + m * TimerIntervalMs == (q + m) * TimerIntervalMs + r;
  }

  /** Modulo the timer period the time left depends only on the instant, because a day is a whole number of periods. */
  lemma RemainingPhase(t: nat, c: Config)
    requires ValidTimeOfDay(c)
    ensures Remaining(t, c) % TimerIntervalMs == (TargetMs(c) - t) % TimerIntervalMs
  {
    var x := t + Remaining(t, c);
    var q := x / MsPerDay;
    assert x == q * MsPerDay + TargetMs(c);
    assert Remaining(t, c) == (TargetMs(c) - t) + (q * 8640) * TimerIntervalMs;
    ModPeriodShift(TargetMs(c) - t, q * 8640);
  }

  /** Every tick of a run sees the same time left modulo the timer period. */
  lemma PhaseRepeats(start: nat, k: nat, c: Config)
    requires ValidTimeOfDay(c)
    ensures Remaining(TickTime(start, k), c) % TimerIntervalMs == Remaining(start, c) % TimerIntervalMs
  {
    RemainingPhase(start, c);
    RemainingPhase(TickTime(start, k), c);
    ModPeriodShift(TargetMs(c) - TickTime(start, k), k);
  }

  /** A firing tick of a run sees a time left in (0, 2 s], so that is the run's phase. */
  lemma FiringTickHasPhase(c: Config, start: nat, k: nat)
    requires c.enableAutoShutdown && ValidTimeOfDay(c)
    requires Decide(c, TickTime(start, k)).Firing?
    ensures 0 < Remaining(start, c) % TimerIntervalMs <= FireWithinMs
  {
    PhaseRepeats(start, k, c);
  }

  /** With a phase in (0, 2 s], the last tick before the configured instant fires. */
  lemma PhaseGivesFiringTick(c: Config, start: nat)
    requires c.enableAutoShutdown && ValidTimeOfDay(c)
    requires 0 < Remaining(start, c) % TimerIntervalMs <= FireWithinMs
    ensures Decide(c, TickTime(start, Remaining(start, c) / TimerIntervalMs)).Firing?
  {
    var r0 := Remaining(start, c);
    var p := r0 % TimerIntervalMs;
    var t := TickTime(start, r0 / TimerIntervalMs);
    assert t + p == start + r0;
    NextIsEarliestOccurrence(t, c, start + r0);
    assert Remaining(t, c) == p;
  }

  /**
   * With a 10-second timer and a 2-second firing window, a timer run ever fires
   * exactly when its first tick's time left, modulo 10 s, lies in (0, 2 s]; for
   * other start phases every tick steps over the window.
   */
  lemma TimerFiresIffPhase(c: Config, start: nat)
    requires c.enableAutoShutdown && ValidTimeOfDay(c)
    ensures (exists k: nat :: Decide(c, TickTime(start, k)).Firing?)
        <==> 0 < Remaining(start, c) % TimerIntervalMs <= FireWithinMs
  {
    if exists k: nat :: Decide(c, TickTime(start, k)).Firing? {
      var k: nat :| Decide(c, TickTime(start, k)).Firing?;
      FiringTickHasPhase(c, start, k);
    }
    if 0 < Remaining(start, c) % TimerIntervalMs <= FireWithinMs {
      PhaseGivesFiringTick(c, start);
    }
  }

  /**
   * The default schedule, 17:33:00, with the timer started 5 s before it:
   * no tick of the run ever fires.
   */
  lemma DefaultScheduleCanBeMissed(k: nat)
    ensures TargetMs(Default) == 63180000
    ensures !Decide(Default, TickTime(63175000, k)).Firing?
  {
    DefaultIsValid();
    assert Remaining(63175000, Default) == 5000;
    TimerFiresIffPhase(Default, 63175000);
  }

  // ---------------------------------------------------------------------------
  // Worked instants, for a schedule of 17:30:00 on day 0

  /** 17:29:50 is 10 s before 17:30:00: the warning shows 10 seconds, nothing fires yet. */
  lemma TenSecondsBeforeWarns()
    ensures Decide(Config(17, 30, 0, false, true), 62990000) == Imminent(10)
  {
    var c := Config(17, 30, 0, false, true);
    NextIsEarliestOccurrence(62990000, c, 63000000);
  }

  /** 17:30:00.3 is 0.3 s after 17:30:00: the target has rolled over and the tick does nothing. */
  lemma JustAfterTargetIsQuiet()
    ensures Decide(Config(17, 30, 0, false, true), 63000300) == Quiet
  {
    LateTickIsQuiet(Config(17, 30, 0, false, true), 63000000, 300);
  }
}
