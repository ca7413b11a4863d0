/**
 * The program's mutable state (the static `config`, `shutdownTimer` of
 * class `Program` and the configuration file) and the handlers that change it:
 * loading, saving with its timer restart, the timer tick, the menu toggles,
 * the interactive time edit and the two shutdown paths.
 *
 * What the host supplies is a parameter: `now` is the clock reading in
 * milliseconds, `write` says how writing the file ended, and `firstStarted`
 * whether the first `Process.Start` of a direct shutdown launched (a second
 * attempt, with the same program and arguments, follows when it threw).
 */
module Showdown {
  import opened Wrappers
  import opened Configuration
  import opened Schedule
  import opened Scheduler
  import opened Commands

  /**
   * `SaveConfig` logs the next shutdown time before restarting the timer; for
   * an enabled configuration whose time is out of range that throws, the
   * catch swallows it and the timer is not restarted.
   */
  predicate SaveRestartsTimer(c: Config): (b: bool)
    ensures b <==> !c.enableAutoShutdown || forall now: nat :: NextShutdownTime(now, c).Some?
  {
    assert NextShutdownTime(0, c).Some? <==> ValidTimeOfDay(c);
    !c.enableAutoShutdown || ValidTimeOfDay(c)
  }

  /** The outcome of the immediate check that a save's timer restart makes, if it gets that far. */
  function SaveEffect(c: Config, writeOk: bool, now: nat): (r: Option<TickOutcome>)
    ensures r.Some? <==> writeOk && SaveRestartsTimer(c)
    ensures r.Some? ==> r.value == Decide(c, now)
  {
    if writeOk && SaveRestartsTimer(c) then Some(Decide(c, now)) else None
  }

  /** The launches a tick makes: the direct shutdown's attempts when it fires, else none. */
  function LaunchesOf(o: TickOutcome, firstStarted: bool): (ls: seq<Launch>)
    ensures o.Firing? <==> ls != []
    ensures forall l :: l in ls ==> l == Launch("shutdown", DirectArguments)
  {
    if o.Firing? then DirectShutdownLaunches(firstStarted) else []
  }

  function LaunchesOfSave(r: Option<TickOutcome>, firstStarted: bool): seq<Launch> {
    if r.Some? then LaunchesOf(r.value, firstStarted) else []
  }

  /** Whether the timer runs after a save: restarted, and stopped again if that first check fired. */
  function TimerAfterSave(wasRunning: bool, r: Option<TickOutcome>): (running: bool)
    ensures r.None? ==> running == wasRunning
    ensures r.Some? ==> (running <==> !r.value.Firing?)
  {
    if r.Some? then !r.value.Firing? else wasRunning
  }

  class AutoShutdownTool {
    var hour: int
    var minute: int
    var second: int
    var forceShutdown: bool
    var enableAutoShutdown: bool
    /** `shutdownTimer` exists and is started. */
    var timerRunning: bool
    /** The contents of the configuration file. */
    var stored: StoredFile
    /** Every process launch attempted so far, in order. */
    var launches: seq<Launch>

    function Current(): Config
      reads this
    {
      Config(hour, minute, second, forceShutdown, enableAutoShutdown)
    }

    /**
     * `LoadOrCreateConfig`: the stored configuration if the file could be read,
     * else the defaults, which it saves, and that save already starts the timer.
     */
    constructor LoadOrCreate(file: StoredFile, write: WriteOutcome, now: nat, firstStarted: bool)
      ensures Current() == Loaded(file)
      ensures stored == FileAfterLoad(file, write)
      ensures var r := if file.Holds? then None else SaveEffect(Default, write.Written?, now);
        && timerRunning == TimerAfterSave(false, r)
        && launches == LaunchesOfSave(r, firstStarted)
    {
      var c := Loaded(file);
      hour, minute, second := c.hour, c.minute, c.second;
      forceShutdown, enableAutoShutdown := c.forceShutdown, c.enableAutoShutdown;
      timerRunning, stored, launches := false, file, [];
      new;
      if !file.Holds? {
        var _ := Save(write, now, firstStarted);
      }
    }

    /**
     * `Main` after loading: in test mode a direct shutdown at once; otherwise
     * the next shutdown time is shown, which throws, uncaught, for an enabled
     * configuration with an out-of-range time, and the timer is started.
     */
    method Startup(testShutdown: bool, now: nat, firstStarted: bool) returns (crashed: bool)
      modifies this`timerRunning, this`launches
      ensures crashed <==> !testShutdown && !SaveRestartsTimer(Current())
      ensures testShutdown ==>
        timerRunning == old(timerRunning) && launches == old(launches) + DirectShutdownLaunches(firstStarted)
      ensures crashed ==> timerRunning == old(timerRunning) && launches == old(launches)
      ensures !testShutdown && !crashed ==>
        var o := Decide(Current(), now);
        timerRunning == !o.Firing? && launches == old(launches) + LaunchesOf(o, firstStarted)
    {
      if testShutdown {
        launches := launches + DirectShutdownLaunches(firstStarted);
        return false;
      }
      if enableAutoShutdown && !ValidTimeOfDay(Current()) {
        return true;
      }
      var _ := StartTimer(now, firstStarted);
      crashed := false;
    }

    /** `SaveConfig`: write the file, then restart the timer, which checks at once. */
    method Save(write: WriteOutcome, now: nat, firstStarted: bool) returns (r: Option<TickOutcome>)
      modifies this`stored, this`timerRunning, this`launches
      ensures stored == FileAfterWrite(old(stored), Current(), write)
      ensures r == SaveEffect(Current(), write.Written?, now)
      ensures timerRunning == TimerAfterSave(old(timerRunning), r)
      ensures launches == old(launches) + LaunchesOfSave(r, firstStarted)
    {
      stored := FileAfterWrite(stored, Current(), write);
      if !write.Written? {
        return None;
      }
      if enableAutoShutdown && !ValidTimeOfDay(Current()) {
        return None;
      }
      var o := StartTimer(now, firstStarted);
      r := Some(o);
    }

    /** `StartShutdownTimer`: replace the timer by a running one and check once at once. */
    method StartTimer(now: nat, firstStarted: bool) returns (o: TickOutcome)
      modifies this`timerRunning, this`launches
      ensures o == Decide(Current(), now)
      ensures timerRunning == !o.Firing?
      ensures launches == old(launches) + LaunchesOf(o, firstStarted)
    {
      timerRunning := true;
      o := Tick(now, firstStarted);
    }

    /** `CheckShutdownTime`: one tick of the running timer at instant `now`. */
    method Tick(now: nat, firstStarted: bool) returns (o: TickOutcome)
      requires timerRunning
      modifies this`timerRunning, this`launches
      ensures o == Decide(Current(), now)
      ensures timerRunning == !o.Firing?
      ensures launches == old(launches) + LaunchesOf(o, firstStarted)
    {
      if !enableAutoShutdown {
        return Disabled;
      }
      var next := NextShutdownTime(now, Current());
      if next.None? {
        return Faulted;
      }
      var remaining := next.value - now;
      var minutes := remaining / MsPerMinute % 60;
      var seconds := remaining / MsPerSecond % 60;
      if 0 < remaining <= WarnWithinMs {
        o := Imminent(seconds);
        if remaining <= FireWithinMs {
          o := Firing(seconds);
          launches := launches + DirectShutdownLaunches(firstStarted);
          timerRunning := false;
        }
      } else if 0 < remaining <= CountdownWithinMs {
        o := Countdown(minutes, seconds);
      } else {
        o := Quiet;
      }
    }

    /** `OnToggleAutoShutdown`: flip the enable flag and save. */
    method ToggleAutoShutdown(write: WriteOutcome, now: nat, firstStarted: bool) returns (r: Option<TickOutcome>)
      modifies this`enableAutoShutdown, this`stored, this`timerRunning, this`launches
      ensures Current() == WithAutoToggled(old(Current()))
      ensures stored == FileAfterWrite(old(stored), Current(), write)
      ensures r == SaveEffect(Current(), write.Written?, now)
      ensures timerRunning == TimerAfterSave(old(timerRunning), r)
      ensures launches == old(launches) + LaunchesOfSave(r, firstStarted)
    {
      enableAutoShutdown := !enableAutoShutdown;
      r := Save(write, now, firstStarted);
    }

    /** `OnToggleForceShutdown`: flip the force flag and save. */
    method ToggleForceShutdown(write: WriteOutcome, now: nat, firstStarted: bool) returns (r: Option<TickOutcome>)
      modifies this`forceShutdown, this`stored, this`timerRunning, this`launches
      ensures Current() == WithForceToggled(old(Current()))
      ensures stored == FileAfterWrite(old(stored), Current(), write)
      ensures r == SaveEffect(Current(), write.Written?, now)
      ensures timerRunning == TimerAfterSave(old(timerRunning), r)
      ensures launches == old(launches) + LaunchesOfSave(r, firstStarted)
    {
      forceShutdown := !forceShutdown;
      r := Save(write, now, firstStarted);
    }

    /** `ModifyShutdownTime`: one parsed console line per field, applied in turn. */
    method ModifyShutdownTime(h: Option<int>, m: Option<int>, s: Option<int>)
      modifies this`hour, this`minute, this`second
      ensures Current() == Edited(old(Current()), h, m, s)
    {
      if h.Some? && 0 <= h.value && h.value <= 23 {
        hour := h.value;
      }
      if m.Some? && 0 <= m.value && m.value <= 59 {
        minute := m.value;
      }
      if s.Some? && 0 <= s.value && s.value <= 59 {
        second := s.value;
      }
    }

    /** `OnModifyTime`: edit the time, then save. */
    method ModifyTime(h: Option<int>, m: Option<int>, s: Option<int>, write: WriteOutcome, now: nat, firstStarted: bool)
      returns (r: Option<TickOutcome>)
      modifies this`hour, this`minute, this`second, this`stored, this`timerRunning, this`launches
      ensures Current() == Edited(old(Current()), h, m, s)
      ensures stored == FileAfterWrite(old(stored), Current(), write)
      ensures r == SaveEffect(Current(), write.Written?, now)
      ensures timerRunning == TimerAfterSave(old(timerRunning), r)
      ensures launches == old(launches) + LaunchesOfSave(r, firstStarted)
    {
      ModifyShutdownTime(h, m, s);
      r := Save(write, now, firstStarted);
    }

    /** `OnShutdownNow` / `ExecuteShutdown`: launch `cmd.exe` with the command the force flag selects. */
    method ShutdownNow()
      modifies this`launches
      ensures launches == old(launches) + [ManualShutdownLaunch(Current())]
    {
      launches := launches + [ManualShutdownLaunch(Current())];
    }

    /** `OnExit`: the timer is stopped. */
    method Exit()
      modifies this`timerRunning
      ensures !timerRunning
    {
      timerRunning := false;
    }
  }
}
