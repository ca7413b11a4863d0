# OnTimeShutdown: the shutdown schedule, modelled and proved in Dafny

OnTimeShutdown is a Windows tray tool that shuts the machine down at a configured
time of day. This project models the logic in its `Program.cs`:

- the `ShutdownConfig` record: its defaults, its `ToString`, and what loading the configuration file yields;
- `GetNextShutdownTime`, which gives the next instant at H:M:S, either today or tomorrow;
- the per-tick decision ladder of `CheckShutdownTime`, and how it stops the timer;
- the interactive field edit `ModifyShutdownTime`, and the two menu toggles;
- `SaveConfig` and the timer restart that follows it;
- which process the two shutdown paths launch.

Time is a count of milliseconds, and a day is exactly 86 400 000 ms.
The clock, the way each file write ended and the success of process launches are parameters.

Modules (one file each):

- `Wrappers`: `Option`.
- `Decimal`: the decimal text of an `int` in the configuration's description (a leading `'-'` for negatives), with a reader that is its inverse.
- `Configuration`: the record, its description, edits, toggles and loading.
- `Schedule`: the next occurrence and the time left until it.
- `Scheduler`: the tick ladder and the behaviour of a run of timer ticks.
- `Commands`: the launched program and its arguments.
- `Showdown`: the class `AutoShutdownTool`. Its mutable fields are the five configuration fields, the timer state, the file contents and the log of attempted launches. Its methods are the program's handlers.

Facts about the code that the proofs make precise:

- The default time is 17:33:00 (`Program.cs:10-11`).
- A clock reading exactly at the target instant stays "today", because the comparison at `Program.cs:342` is a strict `>`. The time left is then 0, and a tick at 0 does nothing (`Program.cs:430`, `Program.cs:460`).
- A tick 0.3 s after the target does not fire. The target has already rolled over to the next day (`JustAfterTargetIsQuiet`).
- A tick after the target never fires. The only firing window is a time left in (0, 2 s] (`Program.cs:430-441`).
- The scheduled shutdown ignores the force flag. Only the "Shutdown Now" menu path honours it.
- The timer ticks every 10 s (`Program.cs:386`), but a tick fires only when the time left lies in (0, 2 s]. `TimerFiresIffPhase` shows what follows for a run whose ticks are exactly 10 s apart: the run fires iff the first tick's time left, taken modulo 10 s, lies in (0, 2 s]. For any other start, every tick of that run steps over the window. `DefaultScheduleCanBeMissed` gives one such start for the default 17:33:00.

## Model

| member | source | states |
|---|---|---|
| `Configuration.DefaultIsValid` | Program.cs:10-14 | a fresh configuration is 17:33:00, not forced, enabled, and a valid time of day |
| `Configuration.Describe` | Program.cs:16-19 | the description starts with "Shutdown time set to: " |
| `Configuration.DescribeShowsForce` | Program.cs:18 | the description contains "(" iff the shutdown is forced |
| `Configuration.DescribeShowsStatus` | Program.cs:18 | the description ends in "Enabled" iff auto shutdown is on, and in "Disabled" iff it is off |
| `Configuration.DescribeInjective` | Program.cs:16-19 | two configurations with the same description are equal |
| `Decimal.NatToDecimal` | Program.cs:18 | a natural renders as a non-empty digit string with no leading zero |
| `Decimal.IntToDecimal` | Program.cs:18 | an integer renders as numerals only, with a leading '-' iff it is negative |
| `Decimal.NatRoundTrip` | Program.cs:18 | reading back a rendered natural gives the same natural |
| `Decimal.IntRoundTrip` | Program.cs:18 | reading back a rendered integer gives the same integer |
| `Decimal.IntToDecimalInjective` | Program.cs:18 | different integers render differently |
| `Configuration.EditField` | Program.cs:524-543 | a field's new value is the old value or the input; an input that parsed into 0..max is taken; it changes only to a value in 0..max; an in-range value stays in range |
| `Configuration.Edited` | Program.cs:517-546 | each of hour, minute and second takes its input iff it parsed into 0-23, 0-59 and 0-59; otherwise it keeps its old value; the flags are untouched |
| `Configuration.EditFieldsIndependent` | Program.cs:524-543 | each field's new value depends only on its own old value and its own input line |
| `Configuration.EditKeepsValid` | Program.cs:524-543 | a valid time of day is still valid after any edit |
| `Configuration.EditIdempotent` | Program.cs:517-546 | entering the same three lines a second time changes nothing |
| `Configuration.WithAutoToggled` | Program.cs:160 | toggling auto shutdown negates the enable flag and leaves every other field as it was |
| `Configuration.WithForceToggled` | Program.cs:176 | toggling force negates the force flag and leaves every other field as it was |
| `Configuration.TogglesAreInvolutions` | Program.cs:156-186 | toggling twice restores the configuration; the two toggles commute |
| `Configuration.Loaded` | Program.cs:277-299 | loading yields the stored configuration when the file was read, and the defaults when it is absent or unreadable |
| `Configuration.FileAfterWrite` | Program.cs:307 | a completed write leaves the file holding the configuration; a write that threw before touching the file leaves it as it was; one that threw after truncating it leaves it unreadable |
| `Configuration.LoadAfterWrite` | Program.cs:277-307 | a load after a save yields the saved configuration when the write completed, the earlier load's result when the failed write left the file untouched, and the defaults when it truncated the file; the file holds the configuration iff the write completed or the untouched file already held it |
| `Configuration.FileAfterLoad` | Program.cs:281-296 | after a load, a readable file is unchanged; otherwise it holds the defaults if the write completed, and still holds no configuration if the write failed |
| `Configuration.LoadIdempotent` | Program.cs:277-299 | two loads in a row, with no save between, yield equal configurations |
| `Schedule.TargetMs` | Program.cs:339 | a valid H:M:S is a whole-second offset inside one day |
| `Schedule.NextShutdownTime` | Program.cs:336-348 | defined iff H:M:S is valid; the result is an instant at H:M:S in [now, now + 1 day); it is on now's date iff now's time of day is at most H:M:S, otherwise on the next date |
| `Schedule.Remaining` | Program.cs:408-410 | the time left is in [0, 1 day), and now plus the time left is an instant at H:M:S |
| `Schedule.OccurrencesADayApart` | Program.cs:339-345 | two instants at H:M:S less than a day apart are the same |
| `Schedule.NextIsEarliestOccurrence` | Program.cs:336-348 | the next shutdown time is the only instant at H:M:S in [now, now + 1 day) |
| `Schedule.ExactTargetStaysToday` | Program.cs:342 | when now is exactly at H:M:S, the result is now itself and the time left is 0 |
| `Schedule.LateRollsToTomorrow` | Program.cs:342-345 | any instant after the target, by 1 ms up to a day, gets the target plus exactly one day |
| `Scheduler.Ladder` | Program.cs:429-463 | fires iff 0 < left <= 2 s; imminent without firing iff 2 s < left <= 10 s; warns iff 0 < left <= 10 s; countdown iff 10 s < left <= 60 s; quiet iff left <= 0 or left > 60 s; the shown minutes and seconds are the whole seconds left |
| `Scheduler.Decide` | Program.cs:397-471 | disabled iff the enable flag is off; faulted iff enabled with an out-of-range time; otherwise the ladder on the time left |
| `Scheduler.DecideIgnoresForce` | Program.cs:403-463 | the tick's outcome does not depend on the force flag |
| `Scheduler.OccurrenceWithinIff` | Program.cs:408-410 | an instant at H:M:S lies in (now + lo, now + hi] iff lo < time left <= hi |
| `Scheduler.TickByUpcomingOccurrence` | Program.cs:429-463 | while enabled, a tick fires iff an instant at H:M:S lies in (now, now + 2 s]; it warns iff one lies within 10 s; it counts down iff one lies 10-60 s ahead; it is quiet iff none lies within a minute |
| `Scheduler.ExactTargetTickIsQuiet` | Program.cs:430 | a tick exactly at the target instant does nothing |
| `Scheduler.LateTickIsQuiet` | Program.cs:342-345 | a tick after the target, until the next day's last minute, does nothing |
| `Scheduler.RemainingPhase` | Program.cs:386 | modulo the 10 s timer period, the time left is (H:M:S - now) mod 10 s |
| `Scheduler.TickTime` | Program.cs:386-394 | tick `k` of a run lies a whole number of periods, exactly `k`, after the first tick |
| `Scheduler.PhaseRepeats` | Program.cs:386-389 | every tick of a timer run sees the same time left modulo 10 s |
| `Scheduler.FiringTickHasPhase` | Program.cs:386-456 | a run that fires at some tick has a first-tick phase in (0, 2 s] |
| `Scheduler.PhaseGivesFiringTick` | Program.cs:386-441 | a run whose phase is in (0, 2 s] fires at the tick numbered (time left) div 10 s |
| `Scheduler.TimerFiresIffPhase` | Program.cs:386-456 | a 10 s timer run ever fires iff its first tick's time left mod 10 s lies in (0, 2 s] |
| `Scheduler.DefaultScheduleCanBeMissed` | Program.cs:11-456 | with the default 17:33:00, no tick of a run started 5 s before the target ever fires |
| `Scheduler.TenSecondsBeforeWarns` | Program.cs:430-437 | at 17:29:50 against 17:30:00, the outcome is a 10-second warning without firing |
| `Scheduler.JustAfterTargetIsQuiet` | Program.cs:342-430 | at 17:30:00.3 against 17:30:00, the outcome is quiet |
| `Commands.ShutdownCommand` | Program.cs:554-562 | the command has the switch "/f" iff forced, and always has "/s" and "/t 0" |
| `Commands.ManualShutdownLaunch` | Program.cs:566-568 | "Shutdown Now" launches cmd.exe with "/c"; its arguments carry "/f" iff the configuration is forced |
| `Commands.DirectShutdownLaunches` | Program.cs:474-509 | one launch, or two when the first threw; each is `shutdown /s /t 0`, with no "/f" |
| `Commands.DirectShutdownIgnoresForce` | Program.cs:452-501 | the scheduled path never passes "/f", even when the forced menu command would |
| `Showdown.SaveRestartsTimer` | Program.cs:309-314 | a save gets past `ShowNextShutdownTime` to the timer restart iff auto shutdown is disabled or `GetNextShutdownTime` returns a time for every clock reading |
| `Showdown.TimerAfterSave` | Program.cs:311-314 | after a save that got to the restart, the timer runs iff the immediate check did not fire; otherwise it is as before |
| `Showdown.SaveEffect` | Program.cs:301-323 | a save restarts the timer, with one immediate check, iff the write succeeded and the time display did not throw (disabled, or a valid time) |
| `Showdown.LaunchesOf` | Program.cs:441-456 | a tick launches something iff it fires, and then only the direct shutdown command |
| `Showdown.AutoShutdownTool.LoadOrCreate` | Program.cs:277-299 | the loaded configuration and file; when defaults are created, the timer is started by that save |
| `Showdown.AutoShutdownTool.Startup` | Program.cs:55-84 | test mode does a direct shutdown at once; an enabled, out-of-range time crashes the start; otherwise the timer starts with one check |
| `Showdown.AutoShutdownTool.Save` | Program.cs:301-323 | the file is as `FileAfterWrite` says for the way the write ended (overwritten, untouched, or truncated and unreadable); the timer is restarted as `SaveEffect` says; after its check, it runs unless that check fired |
| `Showdown.AutoShutdownTool.StartTimer` | Program.cs:376-395 | the timer runs, one check is made at once, and that check's firing stops the timer again |
| `Showdown.AutoShutdownTool.Tick` | Program.cs:397-471 | the outcome is `Decide` on the current configuration; firing appends the direct-shutdown launches and stops the timer; otherwise nothing changes |
| `Showdown.AutoShutdownTool.ToggleAutoShutdown` | Program.cs:156-170 | the enable flag is negated and nothing else in the configuration changes; then it saves |
| `Showdown.AutoShutdownTool.ToggleForceShutdown` | Program.cs:172-186 | the force flag is negated and nothing else in the configuration changes; then it saves |
| `Showdown.AutoShutdownTool.ModifyShutdownTime` | Program.cs:517-546 | the configuration becomes the per-field edit of the three input lines |
| `Showdown.AutoShutdownTool.ModifyTime` | Program.cs:146-154 | the configuration is edited, then saved |
| `Showdown.AutoShutdownTool.ShutdownNow` | Program.cs:548-574 | one cmd.exe launch carrying the command that the current force flag selects |
| `Showdown.AutoShutdownTool.Exit` | Program.cs:193-206 | the timer is stopped |

## Left out

- Tray icon, menu construction and checked states, balloon tips and tooltip text (`Program.cs:90-122, 208-227, 325-334, 435-449`). These are UI toolkit calls. The tick outcome records which message would appear.
- `ShowNextShutdownTime` (`Program.cs:350-374`) is console output only. The one effect it has on state is its exception when the configured time is out of range. That exception is modelled in `SaveRestartsTimer` and `Startup`.
- Console window P/Invoke (`AllocConsole`, `GetConsoleWindow`, `ShowWindow`, `IsWindowVisible`) and all console logging. These are foreign OS calls.
- JSON serialisation. The file is modelled as absent, unreadable, or holding a configuration. A file holding the JSON literal `null` makes `LoadOrCreateConfig` return `null`; the model does not cover that case. Missing JSON keys take the property defaults; that is left to the serialiser.
- `System.Timers.Timer` and `lock(configLock)`. A tick is a sequential method, and ticks and menu handlers never interleave.
- `Process.Start` and `Thread.Sleep`. The model records each attempted launch (program and argument string), and whether it threw is a parameter. Whether the OS actually shuts down cannot be observed.
- Calendar details of `DateTime`: months, years, DST, its 100 ns resolution and its upper bound.
- Schedule.Remaining: `CheckShutdownTime` reads the clock twice, at `Program.cs:408` and inside `GetNextShutdownTime` at `Program.cs:338`. The model uses one reading for both.
- Configuration.FileAfterWrite: a write that throws after truncating the file is taken to leave text that does not deserialise, so the file is unreadable. The cut-off could leave text that still parses; that case is not modelled.
- Scheduler.TickTime: the ticks of a run are taken as exactly 10 000 ms apart on a clock that is never adjusted. Late timer callbacks, clock corrections of `DateTime.Now`, and restarts of the run by a later `SaveConfig` (`Program.cs:314`) are not modelled, so the phase results hold for one such run only.
- Decimal.IntToDecimal: a negative field is rendered with `'-'`. The interpolation at `Program.cs:18` uses the current culture's negative sign, which in some cultures is another character (for example U+2212). A negative field can only come from a hand-edited file.
- Scheduler.Ladder: the double-valued `TotalSeconds` and `TotalMinutes` comparisons are modelled on whole milliseconds. Rounding of the doubles is not modelled.
- `int.TryParse` and `string.IsNullOrWhiteSpace`. Each input line is given as its parse result: `None` for a blank line, end of input or text that does not parse.
