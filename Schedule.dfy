/**
 * `GetNextShutdownTime`: the next instant at the configured time of day.
 * An instant is a count of milliseconds (`DateTime.Now` with the clock made a
 * parameter); a day is exactly 86 400 000 ms, so the date of an instant is
 * `now / MsPerDay` and its time of day `now % MsPerDay`.
 */
module Schedule {
  import opened Wrappers
  import opened Configuration

  const MsPerSecond: nat := 1000
  const MsPerMinute: nat := 60 * MsPerSecond
  const MsPerHour: nat := 60 * MsPerMinute
  const MsPerDay: nat := 24 * MsPerHour

  /** The configured time of day, in milliseconds after midnight (always a whole second). */
  function TargetMs(c: Config): (t: int)
    ensures ValidTimeOfDay(c) ==> 0 <= t < MsPerDay && t % MsPerSecond == 0
  {
    c.hour * MsPerHour + c.minute * MsPerMinute + c.second * MsPerSecond
  }

  /** `x` is an instant at which the configured time of day is reached. */
  predicate IsOccurrence(x: int, c: Config) {
    x % MsPerDay == TargetMs(c)
  }

  /**
   * Today's instant at H:M:S, or that instant plus one day when `now` is
   * strictly later.  `None` when H:M:S is out of range, where the `DateTime`
   * constructor throws.
   */
  function NextShutdownTime(now: nat, c: Config): (r: Option<nat>)
    ensures r.Some? <==> ValidTimeOfDay(c)
    ensures r.Some? ==> now <= r.value < now + MsPerDay && IsOccurrence(r.value, c)
    ensures r.Some? ==> (r.value / MsPerDay == now / MsPerDay <==> now % MsPerDay <= TargetMs(c))
    ensures r.Some? && now % MsPerDay > TargetMs(c) ==> r.value / MsPerDay == now / MsPerDay + 1
  {
    if !ValidTimeOfDay(c) then None
    else
      var today := now / MsPerDay * MsPerDay + TargetMs(c);
      DayOffset(now / MsPerDay, TargetMs(c));
      DayOffset(now / MsPerDay + 1, TargetMs(c));
      if now > today then Some(today + MsPerDay) else Some(today)
  }

  /** The date and time of day of `day * MsPerDay + offset`. */
  lemma DayOffset(day: int, offset: int)
    requires 0 <= offset < MsPerDay
    ensures (day * MsPerDay + offset) / MsPerDay == day
    ensures (day * MsPerDay + offset) % MsPerDay == offset
  {
  }

  /** The time left until the next scheduled shutdown, in milliseconds. */
  function Remaining(now: nat, c: Config): (r: int)
    requires ValidTimeOfDay(c)
    ensures 0 <= r < MsPerDay
    ensures IsOccurrence(now + r, c)
  {
    NextShutdownTime(now, c).value - now
  }

  /** Two occurrences less than a day apart are the same instant. */
  lemma OccurrencesADayApart(x: int, y: int, c: Config)
    requires IsOccurrence(x, c) && IsOccurrence(y, c)
    requires x <= y < x + MsPerDay
    ensures x == y
  {
    var qx, qy := x / MsPerDay, y / MsPerDay;
    assert x == qx * MsPerDay + TargetMs(c);
    assert y == qy * MsPerDay + TargetMs(c);
  }

  /** The next shutdown time is the one occurrence in `[now, now + 1 day)`. */
  lemma NextIsEarliestOccurrence(now: nat, c: Config, x: int)
    requires ValidTimeOfDay(c)
    requires IsOccurrence(x, c) && now <= x < now + MsPerDay
    ensures NextShutdownTime(now, c) == Some(x)
  {
    var y := NextShutdownTime(now, c).value;
    if x <= y {
      OccurrencesADayApart(x, y, c);
    } else {
      OccurrencesADayApart(y, x, c);
    }
  }

  /** A `now` exactly at the configured instant is not rolled over to tomorrow. */
  lemma ExactTargetStaysToday(now: nat, c: Config)
    requires ValidTimeOfDay(c) && IsOccurrence(now, c)
    ensures NextShutdownTime(now, c) == Some(now)
    ensures Remaining(now, c) == 0
  {
  }

  /** Any instant after the target, even by a millisecond, rolls over to the next day. */
  lemma LateRollsToTomorrow(x: nat, late: nat, c: Config)
    requires ValidTimeOfDay(c) && IsOccurrence(x, c)
    requires 0 < late < MsPerDay
    ensures NextShutdownTime(x + late, c) == Some(x + MsPerDay)
    ensures Remaining(x + late, c) == MsPerDay - late
  {
    assert IsOccurrence(x + MsPerDay, c);
    NextIsEarliestOccurrence(x + late, c, x + MsPerDay);
  }
}
