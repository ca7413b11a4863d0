/**
 * The `ShutdownConfig` record of Program.cs: the time of day to shut down at,
 * the force flag and the enable flag, with its defaults, its description text,
 * the per-field edit of `ModifyShutdownTime`, the two menu toggles and what
 * loading the configuration file yields.
 */
module Configuration {
  import opened Wrappers
  import opened Decimal

  datatype Config = Config(
    hour: int,
    minute: int,
    second: int,
    forceShutdown: bool,
    enableAutoShutdown: bool)

  /** The property initialisers of `ShutdownConfig`: 17:33:00, not forced, enabled. */
  const Default: Config := Config(17, 33, 0, false, true)

  /** The ranges `new DateTime(y, m, d, hour, minute, second)` accepts. */
  predicate ValidTimeOfDay(c: Config) {
    0 <= c.hour <= 23 && 0 <= c.minute <= 59 && 0 <= c.second <= 59
  }

  lemma DefaultIsValid()
    ensures ValidTimeOfDay(Default)
    ensures Default.hour == 17 && Default.minute == 33 && Default.second == 0
    ensures !Default.forceShutdown && Default.enableAutoShutdown
  {
  }

  // ---------------------------------------------------------------------------
  // ToString

  const DescriptionPrefix: string := "Shutdown time set to: "
  const ForceMarker: string := " (Force Shutdown)"
  const StatusLabel: string := ", Auto shutdown: "

  function StatusWord(enabled: bool): string {
    if enabled then "Enabled" else "Disabled"
  }

  /** `ShutdownConfig.ToString()`, e.g. "Shutdown time set to: 17:33:0, Auto shutdown: Enabled". */
  function Describe(c: Config): (s: string)
    ensures |DescriptionPrefix| <= |s| && s[..|DescriptionPrefix|] == DescriptionPrefix
  {
    DescriptionPrefix + TimeAndFlags(c)
  }

  function TimeAndFlags(c: Config): string {
    IntToDecimal(c.hour) + (":" + (IntToDecimal(c.minute) + (":" + (IntToDecimal(c.second) + Flags(c)))))
  }

  function Flags(c: Config): (s: string)
    ensures 1 <= |s| && !IsNumeral(s[0])
  {
    (if c.forceShutdown then ForceMarker else "") + (StatusLabel + StatusWord(c.enableAutoShutdown))
  }

  predicate EndsWith(s: string, suffix: string) {
    |suffix| <= |s| && s[|s| - |suffix|..] == suffix
  }

  /** The description carries the force marker exactly when the shutdown is forced. */
  lemma DescribeShowsForce(c: Config)
    ensures '(' in Describe(c) <==> c.forceShutdown
  {
    var h, m, sec := IntToDecimal(c.hour), IntToDecimal(c.minute), IntToDecimal(c.second);
    NoParenInNumber(h);
    NoParenInNumber(m);
    NoParenInNumber(sec);
    var t := StatusLabel + StatusWord(c.enableAutoShutdown);
    assert '(' !in t;
    var fm := if c.forceShutdown then ForceMarker else "";
    assert '(' in fm <==> c.forceShutdown;
    var f := fm + t;
    assert Flags(c) == f;
    assert '(' in f <==> c.forceShutdown;
    var q := sec + f;
    assert '(' in q <==> c.forceShutdown;
    var r1 := m + (":" + q);
    assert '(' in r1 <==> c.forceShutdown;
    var ta := h + (":" + r1);
    assert '(' in ta <==> c.forceShutdown;
    assert Describe(c) == DescriptionPrefix + ta;
  }

  lemma NoParenInNumber(s: string)
    requires forall i :: 0 <= i < |s| ==> IsNumeral(s[i])
    ensures '(' !in s
  {
  }

  /** Putting text in front does not change a suffix no longer than the original. */
  lemma EndsWithAfterPrefix(a: string, b: string, suffix: string)
    requires |suffix| <= |b|
    ensures EndsWith(a + b, suffix) <==> EndsWith(b, suffix)
  {
    assert (a + b)[|a + b| - |suffix|..] == b[|b| - |suffix|..];
  }

  lemma StatusTail(enabled: bool)
    ensures var t := StatusLabel + StatusWord(enabled);
      && (EndsWith(t, "Enabled") <==> enabled)
      && (EndsWith(t, "Disabled") <==> !enabled)
  {
    var t := StatusLabel + StatusWord(enabled);
    assert t[|t| - |StatusWord(enabled)|..] == StatusWord(enabled);
    if enabled {
      assert t[|t| - 8] == ' ';
    } else {
      assert t[|t| - 7..] == "isabled";
    }
  }

  /** The description ends in "Enabled" exactly when automatic shutdown is on. */
  lemma DescribeShowsStatus(c: Config)
    ensures EndsWith(Describe(c), "Enabled") <==> c.enableAutoShutdown
    ensures EndsWith(Describe(c), "Disabled") <==> !c.enableAutoShutdown
  {
    var t := StatusLabel + StatusWord(c.enableAutoShutdown);
    StatusTail(c.enableAutoShutdown);
    var f := Flags(c);
    var q := IntToDecimal(c.second) + f;
    var r2 := ":" + q;
    var r1 := IntToDecimal(c.minute) + r2;
    var r0 := ":" + r1;
    var ta := IntToDecimal(c.hour) + r0;
    forall suffix | suffix in {"Enabled", "Disabled"}
      ensures EndsWith(Describe(c), suffix) <==> EndsWith(t, suffix)
    {
      EndsWithAfterPrefix(if c.forceShutdown then ForceMarker else "", t, suffix);
      EndsWithAfterPrefix(IntToDecimal(c.second), f, suffix);
      EndsWithAfterPrefix(":", q, suffix);
      EndsWithAfterPrefix(IntToDecimal(c.minute), r2, suffix);
      EndsWithAfterPrefix(":", r1, suffix);
      EndsWithAfterPrefix(IntToDecimal(c.hour), r0, suffix);
      EndsWithAfterPrefix(DescriptionPrefix, ta, suffix);
    }
  }

  /** Splits `a + b == c + d` where `a` and `c` are rendered numbers and `b`, `d` start with something else. */
  lemma SplitAfterNumber(a: string, b: string, c: string, d: string)
    requires a + b == c + d
    requires forall i :: 0 <= i < |a| ==> IsNumeral(a[i])
    requires forall i :: 0 <= i < |c| ==> IsNumeral(c[i])
    requires 1 <= |b| && !IsNumeral(b[0])
    requires 1 <= |d| && !IsNumeral(d[0])
    ensures a == c && b == d
  {
    var s := a + b;
    assert s[|a|] == b[0] && s[|c|] == d[0];
    assert forall i :: 0 <= i < |a| ==> s[i] == a[i];
    assert forall i :: 0 <= i < |c| ==> s[i] == c[i];
    assert |a| == |c|;
    assert a == (a + b)[..|a|];
    assert c == (c + d)[..|c|];
    assert b == (a + b)[|a|..];
    assert d == (c + d)[|c|..];
  }

  lemma FlagsInjective(c1: Config, c2: Config)
    requires Flags(c1) == Flags(c2)
    ensures c1.forceShutdown == c2.forceShutdown
    ensures c1.enableAutoShutdown == c2.enableAutoShutdown
  {
    var w1, w2 := StatusWord(c1.enableAutoShutdown), StatusWord(c2.enableAutoShutdown);
    assert Flags(c1)[0] == (if c1.forceShutdown then ' ' else ',');
    assert Flags(c2)[0] == (if c2.forceShutdown then ' ' else ',');
    var f := if c1.forceShutdown then ForceMarker else "";
    assert Flags(c1) == (f + StatusLabel) + w1;
    assert Flags(c2) == (f + StatusLabel) + w2;
    assert w1 == Flags(c1)[|f + StatusLabel|..];
    assert w2 == Flags(c2)[|f + StatusLabel|..];
  }

  /** The description determines the configuration: the log line never confuses two configurations. */
  lemma DescribeInjective(c1: Config, c2: Config)
    requires Describe(c1) == Describe(c2)
    ensures c1 == c2
  {
    var t1, t2 := TimeAndFlags(c1), TimeAndFlags(c2);
    assert t1 == Describe(c1)[|DescriptionPrefix|..];
    assert t2 == Describe(c2)[|DescriptionPrefix|..];
    var r1 := IntToDecimal(c1.minute) + (":" + (IntToDecimal(c1.second) + Flags(c1)));
    var r2 := IntToDecimal(c2.minute) + (":" + (IntToDecimal(c2.second) + Flags(c2)));
    SplitAfterNumber(IntToDecimal(c1.hour), ":" + r1, IntToDecimal(c2.hour), ":" + r2);
    assert r1 == (":" + r1)[1..] && r2 == (":" + r2)[1..];
    var q1 := IntToDecimal(c1.second) + Flags(c1);
    var q2 := IntToDecimal(c2.second) + Flags(c2);
    SplitAfterNumber(IntToDecimal(c1.minute), ":" + q1, IntToDecimal(c2.minute), ":" + q2);
    assert q1 == (":" + q1)[1..] && q2 == (":" + q2)[1..];
    SplitAfterNumber(IntToDecimal(c1.second), Flags(c1), IntToDecimal(c2.second), Flags(c2));
    IntToDecimalInjective(c1.hour, c2.hour);
    IntToDecimalInjective(c1.minute, c2.minute);
    IntToDecimalInjective(c1.second, c2.second);
    FlagsInjective(c1, c2);
  }

  // ---------------------------------------------------------------------------
  // ModifyShutdownTime: one console line per field, already parsed; `None`
  // stands for a blank line, end of input or text `int.TryParse` rejects.

  /** The new value of one field: the input when it parsed and lies in 0..max, else the old value. */
  function EditField(current: int, input: Option<int>, max: int): (r: int)
    ensures r == current || (input.Some? && r == input.value)
    ensures input.Some? && 0 <= input.value <= max ==> r == input.value
    ensures r != current ==> 0 <= r <= max
    ensures 0 <= current <= max ==> 0 <= r <= max
  {
    if input.Some? && 0 <= input.value <= max then input.value else current
  }

  /**
   * The configuration after `ModifyShutdownTime` read the three lines `h`, `m`
   * and `s`: a field takes its line exactly when it parsed into its range,
   * otherwise it keeps its old value; the flags are untouched.
   */
  function Edited(c: Config, h: Option<int>, m: Option<int>, s: Option<int>): (e: Config)
    ensures if h.Some? && 0 <= h.value <= 23 then e.hour == h.value else e.hour == c.hour
    ensures if m.Some? && 0 <= m.value <= 59 then e.minute == m.value else e.minute == c.minute
    ensures if s.Some? && 0 <= s.value <= 59 then e.second == s.value else e.second == c.second
    ensures e.forceShutdown == c.forceShutdown && e.enableAutoShutdown == c.enableAutoShutdown
  {
    c.(hour := EditField(c.hour, h, 23), minute := EditField(c.minute, m, 59), second := EditField(c.second, s, 59))
  }

  /** Each field's new value depends only on its own input line and old value. */
  lemma EditFieldsIndependent(c: Config, d: Config, h: Option<int>, m: Option<int>, s: Option<int>,
                              h': Option<int>, m': Option<int>, s': Option<int>)
    ensures c.hour == d.hour && h == h' ==> Edited(c, h, m, s).hour == Edited(d, h', m', s').hour
    ensures c.minute == d.minute && m == m' ==> Edited(c, h, m, s).minute == Edited(d, h', m', s').minute
    ensures c.second == d.second && s == s' ==> Edited(c, h, m, s).second == Edited(d, h', m', s').second
  {
  }

  /** A valid time of day stays valid after an edit, whatever was typed. */
  lemma EditKeepsValid(c: Config, h: Option<int>, m: Option<int>, s: Option<int>)
    requires ValidTimeOfDay(c)
    ensures ValidTimeOfDay(Edited(c, h, m, s))
  {
  }

  /** Typing the same three lines again changes nothing more. */
  lemma EditIdempotent(c: Config, h: Option<int>, m: Option<int>, s: Option<int>)
    ensures Edited(Edited(c, h, m, s), h, m, s) == Edited(c, h, m, s)
  {
  }

  // ---------------------------------------------------------------------------
  // The two menu toggles

  function WithAutoToggled(c: Config): (r: Config)
    ensures r.enableAutoShutdown != c.enableAutoShutdown
    ensures r.(enableAutoShutdown := c.enableAutoShutdown) == c
  {
    c.(enableAutoShutdown := !c.enableAutoShutdown)
  }

  function WithForceToggled(c: Config): (r: Config)
    ensures r.forceShutdown != c.forceShutdown
    ensures r.(forceShutdown := c.forceShutdown) == c
  {
    c.(forceShutdown := !c.forceShutdown)
  }

  /** Toggling twice restores the configuration; the two toggles commute. */
  lemma TogglesAreInvolutions(c: Config)
    ensures WithAutoToggled(WithAutoToggled(c)) == c
    ensures WithForceToggled(WithForceToggled(c)) == c
    ensures WithAutoToggled(WithForceToggled(c)) == WithForceToggled(WithAutoToggled(c))
  {
  }

  // ---------------------------------------------------------------------------
  // LoadOrCreateConfig: what the configuration file holds, with JSON left out

  datatype StoredFile =
    | Absent              // File.Exists is false
    | Unreadable          // reading or deserialising threw
    | Holds(config: Config)

  /** The configuration `LoadOrCreateConfig` returns. */
  function Loaded(f: StoredFile): (c: Config)
    ensures f.Holds? ==> c == f.config
    ensures !f.Holds? ==> c == Default
  {
    match f
    case Holds(c) => c
    case _ => Default
  }

  /**
   * How a `File.WriteAllText` of the configuration ended: it wrote the file,
   * it threw before touching the file (the path could not be opened), or it
   * threw after truncating the file (an I/O error part-way through), leaving
   * it empty or partial.
   */
  datatype WriteOutcome = Written | FailedUntouched | FailedTruncated

  /** The file after `SaveConfig` tried to write `c` over `f`. */
  function FileAfterWrite(f: StoredFile, c: Config, w: WriteOutcome): (g: StoredFile)
    ensures w.Written? ==> g == Holds(c)
    ensures w.FailedUntouched? ==> g == f
    ensures w.FailedTruncated? ==> g == Unreadable
  {
    match w
    case Written => Holds(c)
    case FailedUntouched => f
    case FailedTruncated => Unreadable
  }

  /**
   * What the next load reads after a save: the saved configuration, except
   * after a failed write, where an untouched file loads as before and a
   * truncated one falls back to the defaults.
   */
  lemma LoadAfterWrite(f: StoredFile, c: Config, w: WriteOutcome)
    ensures Loaded(FileAfterWrite(f, c, w)) == (if w.Written? then c else if w.FailedUntouched? then Loaded(f) else Default)
    ensures FileAfterWrite(f, c, w) == Holds(c) <==> w.Written? || (w.FailedUntouched? && f == Holds(c))
  {
  }

  /** The file after `LoadOrCreateConfig`: the defaults are written back when nothing usable was read. */
  function FileAfterLoad(f: StoredFile, w: WriteOutcome): (g: StoredFile)
    ensures f.Holds? ==> g == f
    ensures !f.Holds? && w.Written? ==> g == Holds(Default)
    ensures !f.Holds? && !w.Written? ==> !g.Holds?
  {
    if f.Holds? then f else FileAfterWrite(f, Default, w)
  }

  /** Loading twice in a row, without a save between, yields equal configurations. */
  lemma LoadIdempotent(f: StoredFile, w: WriteOutcome)
    ensures Loaded(FileAfterLoad(f, w)) == Loaded(f)
  {
  }
}
