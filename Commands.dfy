/**
 * Which process the two shutdown paths launch.  `ExecuteShutdown` (the
 * "Shutdown Now" menu item) runs `cmd.exe /c shutdown ...` and honours the
 * force flag; `ExecuteDirectShutdown` (the path the scheduler fires) runs
 * `shutdown /s /t 0` itself, and, if that launch threw, makes a second attempt
 * with the same program and arguments; it never forces.
 */
module Commands {
  import opened Configuration

  /** One `Process.Start` attempt: the program and its argument string. */
  datatype Launch = Launch(fileName: string, arguments: string)

  /** The switch `w` appears in `s` at position `i`. */
  predicate SwitchAt(s: string, w: string, i: int) {
    0 <= i <= |s| - |w| && s[i..i + |w|] == w
  }

  /** The switch `w` appears in `s`. */
  predicate HasSwitch(s: string, w: string) {
    exists i | 0 <= i <= |s| - |w| :: SwitchAt(s, w, i)
  }

  const GracefulCommand: string := "shutdown /s /t 0"
  const ForcedCommand: string := "shutdown /s /f /t 0"
  const DirectArguments: string := "/s /t 0"

  lemma ForceSwitchHasF(s: string, i: int)
    requires SwitchAt(s, "/f", i)
    ensures 'f' in s
  {
    assert s[i + 1] == 'f';
  }

  lemma NoForceSwitchWithoutF(s: string)
    requires 'f' !in s
    ensures !HasSwitch(s, "/f")
  {
    if HasSwitch(s, "/f") {
      var i :| 0 <= i <= |s| - 2 && SwitchAt(s, "/f", i);
      ForceSwitchHasF(s, i);
    }
  }

  /** A switch of `s` is still a switch once `p` is put in front. */
  lemma SwitchAfterPrefix(p: string, s: string, w: string)
    requires HasSwitch(s, w)
    ensures HasSwitch(p + s, w)
  {
    var i :| 0 <= i <= |s| - |w| && SwitchAt(s, w, i);
    assert (p + s)[|p| + i..|p| + i + |w|] == s[i..i + |w|];
    assert SwitchAt(p + s, w, |p| + i);
  }

  lemma CommandSwitches(force: bool)
    ensures var cmd := if force then ForcedCommand else GracefulCommand;
      && (HasSwitch(cmd, "/f") <==> force)
      && HasSwitch(cmd, "/s") && HasSwitch(cmd, "/t 0")
      && (!force ==> 'f' !in cmd)
  {
    var cmd := if force then ForcedCommand else GracefulCommand;
    assert SwitchAt(cmd, "/s", 9);
    assert SwitchAt(cmd, "/t 0", |cmd| - 4);
    if force {
      assert SwitchAt(cmd, "/f", 12);
    } else {
      assert 'f' !in cmd;
      NoForceSwitchWithoutF(cmd);
    }
  }

  /** The command line `ExecuteShutdown` hands to `cmd.exe`. */
  function ShutdownCommand(force: bool): (cmd: string)
    ensures HasSwitch(cmd, "/f") <==> force
    ensures HasSwitch(cmd, "/s") && HasSwitch(cmd, "/t 0")
    ensures 9 <= |cmd| && cmd[..9] == "shutdown "
  {
    CommandSwitches(force);
    if force then ForcedCommand else GracefulCommand
  }

  lemma ManualSwitches(force: bool)
    ensures var args := "/c " + ShutdownCommand(force);
      && (HasSwitch(args, "/f") <==> force)
      && HasSwitch(args, "/s") && HasSwitch(args, "/c")
  {
    var cmd := ShutdownCommand(force);
    var args := "/c " + cmd;
    CommandSwitches(force);
    assert SwitchAt(args, "/c", 0);
    SwitchAfterPrefix("/c ", cmd, "/s");
    if force {
      SwitchAfterPrefix("/c ", cmd, "/f");
    } else {
      assert 'f' !in "/c ";
      assert 'f' !in args;
      NoForceSwitchWithoutF(args);
    }
  }

  /** The launch `ExecuteShutdown` attempts: `cmd.exe /c <command>`. */
  function ManualShutdownLaunch(c: Config): (l: Launch)
    ensures l.fileName == "cmd.exe"
    ensures HasSwitch(l.arguments, "/f") <==> c.forceShutdown
    ensures HasSwitch(l.arguments, "/s") && HasSwitch(l.arguments, "/c")
  {
    ManualSwitches(c.forceShutdown);
    Launch("cmd.exe", "/c " + ShutdownCommand(c.forceShutdown))
  }

  lemma DirectSwitches()
    ensures !HasSwitch(DirectArguments, "/f") && HasSwitch(DirectArguments, "/s")
  {
    assert SwitchAt(DirectArguments, "/s", 0);
    assert 'f' !in DirectArguments;
    NoForceSwitchWithoutF(DirectArguments);
  }

  /**
   * The launches `ExecuteDirectShutdown` attempts: one, or a second one with
   * the same program and arguments when the first threw (`firstStarted` is
   * false).
   */
  function DirectShutdownLaunches(firstStarted: bool): (ls: seq<Launch>)
    ensures |ls| == if firstStarted then 1 else 2
    ensures forall l :: l in ls ==> l == Launch("shutdown", DirectArguments)
    ensures forall l :: l in ls ==> !HasSwitch(l.arguments, "/f") && HasSwitch(l.arguments, "/s")
  {
    DirectSwitches();
    var l := Launch("shutdown", DirectArguments);
    if firstStarted then [l] else [l, l]
  }

  /** The scheduled path launches the same graceful command whatever the force flag says. */
  lemma DirectShutdownIgnoresForce(c: Config, firstStarted: bool)
    ensures forall l :: l in DirectShutdownLaunches(firstStarted) ==> !HasSwitch(l.arguments, "/f")
    ensures c.forceShutdown ==> HasSwitch(ManualShutdownLaunch(c).arguments, "/f")
  {
  }
}
