/**
 * The decisions of `check_system_hardening` in apache_module_config.py:
 * whether the `www-data` account is locked in `/etc/shadow`, whether the
 * configuration trees hold files not owned by root, and whether the log
 * directory and the pid file have the wanted owner, group and mode. Each
 * decision turns captured output into the commands the script then runs;
 * a probe that raised is `None` and leads to no command.
 */
module Hardening {
  import opened Common
  import opened Text

  // ---------------------------------------------------------------------
  // Owner, group and mode of the log directory and the pid file
  // ---------------------------------------------------------------------

  /** What `stat -c %U`, `stat -c %G` and `stat -c %a` print for one path, as captured. */
  datatype StatOutput = StatOutput(ownerOut: string, groupOut: string, modeOut: string)

  /** The owner, group and mode of a path, as the script compares them. */
  datatype Stat = Stat(owner: string, group: string, mode: string)

  /** The three `stat` outputs, each stripped as the script strips them. */
  function ReadStat(out: StatOutput): (st: Stat)
    ensures Bare(st.owner) && Bare(st.group) && Bare(st.mode)
  {
    Stat(Strip(out.ownerOut), Strip(out.groupOut), Strip(out.modeOut))
  }

  /** What `stat` prints for a path with the given owner, group and mode: each value on its own line. */
  function PrintStat(st: Stat): StatOutput {
    StatOutput(st.owner + "\n", st.group + "\n", st.mode + "\n")
  }

  /** Reading back what `stat` printed gives the values it printed, as long as they carry no outer whitespace. */
  lemma ReadPrintedStat(st: Stat)
    requires Bare(st.owner) && Bare(st.group) && Bare(st.mode)
    ensures ReadStat(PrintStat(st)) == st
  {
    StripLine(st.owner);
    StripLine(st.group);
    StripLine(st.mode);
  }

  /**
   * The stripped `stat` output is the triple `owner`, `group`, `mode`
   * exactly when each output is that value with only whitespace around it.
   */
  lemma StatReads(out: StatOutput, owner: string, group: string, mode: string)
    requires owner != [] && group != [] && mode != []
    requires Bare(owner) && Bare(group) && Bare(mode)
    ensures ReadStat(out) == Stat(owner, group, mode) <==>
              FramedIn(out.ownerOut, owner) && FramedIn(out.groupOut, group) && FramedIn(out.modeOut, mode)
  {
    var st := ReadStat(out);
    assert st.owner == owner <==> FramedIn(out.ownerOut, owner) by {
      StripIsFramed(out.ownerOut, owner);
    }
    assert st.group == group <==> FramedIn(out.groupOut, group) by {
      StripIsFramed(out.groupOut, group);
    }
    assert st.mode == mode <==> FramedIn(out.modeOut, mode) by {
      StripIsFramed(out.modeOut, mode);
    }
  }

  const LogDir := "/var/log/apache2"
  const PidFile := "/run/apache2/apache2.pid"

  /** The log directory belongs to `root:www-data` with mode `660`. */
  predicate LogDirCompliant(st: Stat) {
    st.owner == "root" && st.group == "www-data" && st.mode == "660"
  }

  /** The pid file belongs to `root:root` with mode `644`. */
  predicate PidFileCompliant(st: Stat) {
    st.owner == "root" && st.group == "root" && st.mode == "644"
  }

  /** `chown user:group <flags> path`. */
  function ChownCommand(user: string, group: string, flags: seq<string>, path: string): Command {
    ["chown", user + ":" + group] + flags + [path]
  }

  /** `chmod mode <flags> path`. */
  function ChmodCommand(mode: string, flags: seq<string>, path: string): Command {
    ["chmod", mode] + flags + [path]
  }

  /** `chown root:www-data -R` and `chmod 660 -R` of the log directory. */
  const LogDirFix: seq<Command> := [ChownCommand("root", "www-data", ["-R"], LogDir), ChmodCommand("660", ["-R"], LogDir)]

  /** `chown root:root` and `chmod 644` of the pid file. */
  const PidFileFix: seq<Command> := [ChownCommand("root", "root", [], PidFile), ChmodCommand("644", [], PidFile)]

  /** The commands for the log directory: none when compliant or when `stat` raised. */
  function LogDirPlan(out: Option<StatOutput>): (cmds: seq<Command>)
    ensures cmds == [] || cmds == LogDirFix
  {
    match out
    case None => []
    case Some(o) =>
      if LogDirCompliant(ReadStat(o)) then []
      else LogDirFix
  }

  /** The commands for the pid file: none when compliant or when `stat` raised. */
  function PidFilePlan(out: Option<StatOutput>): (cmds: seq<Command>)
    ensures cmds == [] || cmds == PidFileFix
  {
    match out
    case None => []
    case Some(o) =>
      if PidFileCompliant(ReadStat(o)) then []
      else PidFileFix
  }

  /**
   * The effect of one command on what `stat` reports for `path`:
   * `chown user:group … path` sets owner and group, `chmod mode … path`
   * sets the mode, and any other command leaves it as it was.
   */
  function Apply(path: string, st: Stat, cmd: Command): Stat {
    if |cmd| < 3 || cmd[|cmd| - 1] != path then st
    else if cmd[0] == "chown" then Chown(st, cmd[1])
    else if cmd[0] == "chmod" then Stat(st.owner, st.group, cmd[1])
    else st
  }

  /** `chown user:group`: both set; a spec of another shape is not modelled and changes nothing. */
  function Chown(st: Stat, spec: string): Stat {
    var fields := Split(spec, ':');
    if |fields| == 2 then Stat(fields[0], fields[1], st.mode) else st
  }

  /** The effect of a list of commands, run in order. */
  function ApplyAll(path: string, st: Stat, cmds: seq<Command>): Stat
    decreases |cmds|
  {
    if |cmds| == 0 then st else ApplyAll(path, Apply(path, st, cmds[0]), cmds[1..])
  }

  /** `chown`'s `user:group` argument splits back into the user and the group. */
  lemma OwnerSpecParses(user: string, group: string)
    requires ':' !in user && ':' !in group
    ensures Split(user + ":" + group, ':') == [user, group]
  {
    assert Join([user, group], ':') == user + ":" + group;
    SplitJoin([user, group], ':');
  }

  /**
   * The log directory commands are issued exactly when it is not compliant,
   * judged on the stripped `stat` output: nothing is issued exactly when
   * the three outputs read `root`, `www-data` and `660` up to surrounding
   * whitespace, such as the newline `stat` prints.
   */
  lemma LogDirPlanQuietIffCompliant(out: StatOutput)
    ensures LogDirPlan(Some(out)) == [] <==> LogDirCompliant(ReadStat(out))
    ensures LogDirPlan(Some(out)) == [] <==>
              FramedIn(out.ownerOut, "root") && FramedIn(out.groupOut, "www-data") && FramedIn(out.modeOut, "660")
  {
    StatReads(out, "root", "www-data", "660");
  }

  /** `chown user:group [flags] path` gives `path` that owner and group and keeps its mode. */
  lemma ChownEffect(path: string, st: Stat, user: string, group: string, flags: seq<string>)
    requires ':' !in user && ':' !in group
    ensures Apply(path, st, ChownCommand(user, group, flags, path)) == Stat(user, group, st.mode)
  {
    var cmd := ChownCommand(user, group, flags, path);
    assert cmd[0] == "chown" && cmd[1] == user + ":" + group && cmd[|cmd| - 1] == path;
    OwnerSpecParses(user, group);
  }

  /** `chmod mode [flags] path` gives `path` that mode and keeps its owner and group. */
  lemma ChmodEffect(path: string, st: Stat, mode: string, flags: seq<string>)
    ensures Apply(path, st, ChmodCommand(mode, flags, path)) == Stat(st.owner, st.group, mode)
  {
    var cmd := ChmodCommand(mode, flags, path);
    assert cmd[0] == "chmod" && cmd[1] == mode && cmd[|cmd| - 1] == path;
    assert "chmod"[3] != "chown"[3];
  }

  /** Running a chown then a chmod of the same path. */
  lemma ChownThenChmod(path: string, st: Stat, user: string, group: string, mode: string, flags: seq<string>)
    requires ':' !in user && ':' !in group
    ensures ApplyAll(path, st, [ChownCommand(user, group, flags, path), ChmodCommand(mode, flags, path)])
            == Stat(user, group, mode)
  {
    var cmds := [ChownCommand(user, group, flags, path), ChmodCommand(mode, flags, path)];
    ChownEffect(path, st, user, group, flags);
    var owned := Stat(user, group, st.mode);
    ChmodEffect(path, owned, mode, flags);
    assert cmds[1..][1..] == [];
    assert ApplyAll(path, st, cmds) == ApplyAll(path, owned, cmds[1..]);
  }

  /** Running the log directory fix on a path in any state makes it compliant. */
  lemma LogDirFixed(st: Stat, plan: seq<Command>)
    requires plan == [] ==> LogDirCompliant(st)
    requires plan == [] || plan == LogDirFix
    ensures LogDirCompliant(ApplyAll(LogDir, st, plan))
  {
    if plan != [] {
      ChownThenChmod(LogDir, st, "root", "www-data", "660", ["-R"]);
    }
  }

  /** Running the pid file fix on a path in any state makes it compliant. */
  lemma PidFileFixed(st: Stat, plan: seq<Command>)
    requires plan == [] ==> PidFileCompliant(st)
    requires plan == [] || plan == PidFileFix
    ensures PidFileCompliant(ApplyAll(PidFile, st, plan))
  {
    if plan != [] {
      ChownThenChmod(PidFile, st, "root", "root", "644", []);
    }
  }

  /**
   * After the log directory commands run, the directory is compliant, and
   * the check run again on what `stat` then prints issues nothing.
   */
  lemma LogDirPlanConverges(out: StatOutput)
    ensures LogDirCompliant(ApplyAll(LogDir, ReadStat(out), LogDirPlan(Some(out))))
    ensures LogDirPlan(Some(PrintStat(ApplyAll(LogDir, ReadStat(out), LogDirPlan(Some(out)))))) == []
  {
    LogDirFixed(ReadStat(out), LogDirPlan(Some(out)));
    LogDirCompliantPrintsQuiet(ApplyAll(LogDir, ReadStat(out), LogDirPlan(Some(out))));
  }

  /**
   * The pid file commands are issued exactly when it is not compliant,
   * judged on the stripped `stat` output: nothing is issued exactly when
   * the three outputs read `root`, `root` and `644` up to surrounding
   * whitespace.
   */
  lemma PidFilePlanQuietIffCompliant(out: StatOutput)
    ensures PidFilePlan(Some(out)) == [] <==> PidFileCompliant(ReadStat(out))
    ensures PidFilePlan(Some(out)) == [] <==>
              FramedIn(out.ownerOut, "root") && FramedIn(out.groupOut, "root") && FramedIn(out.modeOut, "644")
  {
    StatReads(out, "root", "root", "644");
  }

  /**
   * After the pid file commands run, the pid file is compliant, and the
   * check run again on what `stat` then prints issues nothing.
   */
  lemma PidFilePlanConverges(out: StatOutput)
    ensures PidFileCompliant(ApplyAll(PidFile, ReadStat(out), PidFilePlan(Some(out))))
    ensures PidFilePlan(Some(PrintStat(ApplyAll(PidFile, ReadStat(out), PidFilePlan(Some(out)))))) == []
  {
    PidFileFixed(ReadStat(out), PidFilePlan(Some(out)));
    PidFileCompliantPrintsQuiet(ApplyAll(PidFile, ReadStat(out), PidFilePlan(Some(out))));
  }

  /** Run on what `stat` prints, the log directory check issues nothing exactly when the values are the wanted ones. */
  lemma LogDirQuietOnPrinted(st: Stat)
    requires Bare(st.owner) && Bare(st.group) && Bare(st.mode)
    ensures LogDirPlan(Some(PrintStat(st))) == [] <==> LogDirCompliant(st)
  {
    ReadPrintedStat(st);
  }

  /** A compliant log directory, as `stat` prints it, passes the check. */
  lemma LogDirCompliantPrintsQuiet(st: Stat)
    requires LogDirCompliant(st)
    ensures LogDirPlan(Some(PrintStat(st))) == []
  {
    LogDirQuietOnPrinted(st);
  }

  /** A compliant pid file, as `stat` prints it, passes the check. */
  lemma PidFileCompliantPrintsQuiet(st: Stat)
    requires PidFileCompliant(st)
    ensures PidFilePlan(Some(PrintStat(st))) == []
  {
    PidFileQuietOnPrinted(st);
  }

  /** Run on what `stat` prints, the pid file check issues nothing exactly when the values are the wanted ones. */
  lemma PidFileQuietOnPrinted(st: Stat)
    requires Bare(st.owner) && Bare(st.group) && Bare(st.mode)
    ensures PidFilePlan(Some(PrintStat(st))) == [] <==> PidFileCompliant(st)
  {
    ReadPrintedStat(st);
  }

  // ---------------------------------------------------------------------
  // Files not owned by root under the configuration trees
  // ---------------------------------------------------------------------

  /**
   * The ownership step for one tree: `find path ! -user root` lists the
   * offending files, and any non-blank output leads to a recursive chown.
   */
  function OwnershipPlan(path: string, findOut: Option<string>): (cmds: seq<Command>)
    ensures cmds == [] <==> findOut.None? || AllSpace(findOut.value)
    ensures cmds != [] ==> cmds == [["chown", "root:root", "-R", path]]
  {
    match findOut
    case None => []
    case Some(out) => if Strip(out) != [] then [["chown", "root:root", "-R", path]] else []
  }

  // ---------------------------------------------------------------------
  // The www-data entry of /etc/shadow
  // ---------------------------------------------------------------------

  /** `line.startswith("www-data:")`. */
  predicate IsServiceEntry(line: string) {
    StartsWith(line, "www-data:")
  }

  /** A `www-data:` line contains a colon, so `split(":")` gives a second field. */
  lemma EntryHasSeparator(line: string)
    requires IsServiceEntry(line)
    ensures ':' in line
    ensures line == "www-data" + [':'] + line[9..]
  {
    assert line[8] == "www-data:"[8] == ':';
    assert line == line[..9] + line[9..];
  }

  /** `line.split(":")[1].startswith("!")`: the password field of the entry starts with `!`. */
  predicate IsLocked(line: string)
    requires IsServiceEntry(line)
  {
    EntryHasSeparator(line);
    StartsWith(Split(line, ':')[1], "!")
  }

  /** The first field of a split is the prefix of the string up to the first separator. */
  lemma {:induction false} FirstFieldIsPrefix(s: string, sep: char)
    ensures var f := Split(s, sep)[0]; |f| <= |s| && f == s[..|f|] && (|f| == |s| || s[|f|] == sep)
    decreases |s|
  {
    if |s| > 0 && s[0] != sep {
      FirstFieldIsPrefix(s[1..], sep);
    }
  }

  /** The entry is locked exactly when the character after `www-data:` is `!`. */
  lemma LockedIffBang(line: string)
    requires IsServiceEntry(line)
    ensures IsLocked(line) <==> |line| > 9 && line[9] == '!'
  {
    EntryHasSeparator(line);
    var rest := line[9..];
    SplitAfterField("www-data", ':', rest);
    FirstFieldIsPrefix(rest, ':');
    var f := Split(rest, ':')[0];
    assert Split(line, ':')[1] == f;
    if |f| > 0 {
      assert f[0] == rest[0];
    }
  }

  /** The index of the first `www-data:` line, which the loop stops at. */
  function FirstServiceEntry(lines: seq<string>): (k: Option<nat>)
    ensures k.Some? ==> k.value < |lines| && IsServiceEntry(lines[k.value])
    ensures k.Some? ==> forall j :: 0 <= j < k.value ==> !IsServiceEntry(lines[j])
    ensures k.None? ==> forall j :: 0 <= j < |lines| ==> !IsServiceEntry(lines[j])
  {
    if |lines| == 0 then None
    else if IsServiceEntry(lines[0]) then Some(0)
    else
      match FirstServiceEntry(lines[1..])
      case None => None
      case Some(k) => Some(k + 1)
  }

  /** `None` when the file has no `www-data` entry, otherwise whether the first one is locked. */
  function ShadowVerdict(lines: seq<string>): Option<bool> {
    match FirstServiceEntry(lines)
    case None => None
    case Some(k) => Some(IsLocked(lines[k]))
  }

  /** The shadow step: lock the account when its entry is not locked; nothing if the file could not be read. */
  function ShadowPlan(shadow: Option<seq<string>>): seq<Command> {
    match shadow
    case None => []
    case Some(lines) => if ShadowVerdict(lines) == Some(false) then [["usermod", "-L", "www-data"]] else []
  }

  /** Line `k` is the first `www-data:` line and its password field does not start with `!`. */
  predicate FirstEntryUnlocked(lines: seq<string>, k: int) {
    && 0 <= k < |lines| && IsServiceEntry(lines[k])
    && (forall j :: 0 <= j < k ==> !IsServiceEntry(lines[j]))
    && !(|lines[k]| > 9 && lines[k][9] == '!')
  }

  /**
   * The shadow step locks the account exactly when the first `www-data:`
   * line has a password field not starting with `!`, and otherwise issues
   * nothing.
   */
  lemma ShadowPlanLocksIffUnlocked(lines: seq<string>)
    ensures ShadowPlan(Some(lines)) == [] || ShadowPlan(Some(lines)) == [["usermod", "-L", "www-data"]]
    ensures ShadowPlan(Some(lines)) != [] <==> exists k :: FirstEntryUnlocked(lines, k)
  {
    match FirstServiceEntry(lines)
    case None =>
    case Some(k) =>
      LockedIffBang(lines[k]);
      if !IsLocked(lines[k]) {
        assert FirstEntryUnlocked(lines, k);
      }
  }

  /** What `usermod -L` does to the entry: a `!` in front of the password field. */
  function LockEntry(line: string): (locked: string)
    requires IsServiceEntry(line)
    ensures IsServiceEntry(locked)
  {
    var r := line[..9] + "!" + line[9..];
    assert r[..9] == line[..9];
    r
  }

  /**
   * Locking converges: once the first entry is replaced by its locked form,
   * the account reads as locked and the shadow step issues nothing more.
   */
  lemma ShadowLockConverges(lines: seq<string>, k: nat)
    requires FirstServiceEntry(lines) == Some(k)
    ensures ShadowVerdict(lines[k := LockEntry(lines[k])]) == Some(true)
    ensures ShadowPlan(Some(lines[k := LockEntry(lines[k])])) == []
  {
    var locked := LockEntry(lines[k]);
    var after := lines[k := locked];
    var k' := FirstServiceEntry(after);
    assert IsServiceEntry(after[k]);
    assert forall j :: 0 <= j < k ==> after[j] == lines[j];
    assert k'.Some? && k'.value == k;
    LockedIffBang(locked);
    assert locked[9] == '!';
  }

  // ---------------------------------------------------------------------
  // The whole function
  // ---------------------------------------------------------------------

  /** The captured outputs `check_system_hardening` decides on; `None` for a probe that raised. */
  datatype HardeningProbes = HardeningProbes(
    shadow: Option<seq<string>>,
    configFind: Option<string>,
    shareFind: Option<string>,
    logDirStat: Option<StatOutput>,
    pidFileStat: Option<StatOutput>)

  /** `chmod 755 -R /etc/apache2`, which the function runs every time. */
  const ConfigTreeMode: Command := ChmodCommand("755", ["-R"], "/etc/apache2")

  /**
   * The commands of `check_system_hardening`, in the order it runs them:
   * the `chmod 755` is issued whatever the probes found, the shadow step
   * comes first and the pid file step last.
   */
  function HardeningPlan(p: HardeningProbes): (cmds: seq<Command>)
    ensures ConfigTreeMode in cmds
    ensures ShadowPlan(p.shadow) <= cmds
    ensures |PidFilePlan(p.pidFileStat)| <= |cmds| && cmds[|cmds| - |PidFilePlan(p.pidFileStat)|..] == PidFilePlan(p.pidFileStat)
  {
    ShadowPlan(p.shadow)
    + OwnershipPlan("/etc/apache2", p.configFind)
    + OwnershipPlan("/usr/share/apache2", p.shareFind)
    + [ConfigTreeMode]
    + LogDirPlan(p.logDirStat)
    + PidFilePlan(p.pidFileStat)
  }

  /** Every checked fact that could be read is already as wanted. */
  predicate HardeningCompliant(p: HardeningProbes) {
    && (p.shadow.Some? ==> ShadowVerdict(p.shadow.value) != Some(false))
    && (p.configFind.Some? ==> AllSpace(p.configFind.value))
    && (p.shareFind.Some? ==> AllSpace(p.shareFind.value))
    && (p.logDirStat.Some? ==> LogDirCompliant(ReadStat(p.logDirStat.value)))
    && (p.pidFileStat.Some? ==> PidFileCompliant(ReadStat(p.pidFileStat.value)))
  }

  /**
   * The function issues nothing beyond its fixed `chmod 755` exactly when
   * every fact it could read is compliant; otherwise it issues more.
   */
  lemma HardeningQuietIffCompliant(p: HardeningProbes)
    ensures |HardeningPlan(p)| >= 1 && ConfigTreeMode in HardeningPlan(p)
    ensures HardeningPlan(p) == [ConfigTreeMode] <==> HardeningCompliant(p)
  {
    var shadow := ShadowPlan(p.shadow);
    var config := OwnershipPlan("/etc/apache2", p.configFind);
    var share := OwnershipPlan("/usr/share/apache2", p.shareFind);
    var logDir := LogDirPlan(p.logDirStat);
    var pidFile := PidFilePlan(p.pidFileStat);
    assert |HardeningPlan(p)| == |shadow| + |config| + |share| + 1 + |logDir| + |pidFile|;
    assert HardeningPlan(p)[|shadow| + |config| + |share|] == ConfigTreeMode;
  }
}
