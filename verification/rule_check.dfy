/**
 * The rule checker of Apacheconf.py. Each rule of the catalogue carries a
 * list of shell commands; they are run one after the other until one exits
 * with status 0 and prints something other than whitespace. That command
 * satisfies the rule and the rest are skipped; if none does, the rule is
 * reported as not satisfied together with its suggested fix.
 *
 * The shell is an input: `run(cmd)` is the raw standard output, standard
 * error and exit status that running `cmd` produces.
 */
module RuleCheck {
  import opened Text

  /** One entry of the rule catalogue. */
  datatype Rule = Rule(id: string, subId: string, description: string, commands: seq<string>, fix: string)

  /** What the shell returns for one command, before stripping. */
  datatype RawResult = RawResult(stdout: string, stderr: string, code: int)

  /** The triple `run_command` returns: both streams stripped, status as is. */
  datatype CommandResult = CommandResult(stdout: string, stderr: string, code: int)

  /** `run_command`: run the command and strip its two output streams. */
  function RunCommand(run: string -> RawResult, cmd: string): (r: CommandResult)
    ensures r.code == run(cmd).code
    ensures r.stdout == [] <==> AllSpace(run(cmd).stdout)
    ensures r.stderr == [] <==> AllSpace(run(cmd).stderr)
    ensures Bare(r.stdout) && FramedIn(run(cmd).stdout, r.stdout)
    ensures Bare(r.stderr) && FramedIn(run(cmd).stderr, r.stderr)
  {
    var raw := run(cmd);
    CommandResult(Strip(raw.stdout), Strip(raw.stderr), raw.code)
  }

  /** What `run_command` returns for each command, given what the shell does. */
  function Outcomes(run: string -> RawResult): string -> CommandResult {
    cmd => RunCommand(run, cmd)
  }

  /** `code == 0 and stdout`: a zero status and non-empty stripped output. */
  predicate Succeeded(r: CommandResult) {
    r.code == 0 && r.stdout != []
  }

  /** Running `cmd` satisfies the rule it belongs to. */
  predicate Succeeds(results: string -> CommandResult, cmd: string) {
    Succeeded(results(cmd))
  }

  /** Command `k` of the list satisfies the rule. */
  predicate SucceedsAt(results: string -> CommandResult, cmds: seq<string>, k: int) {
    0 <= k < |cmds| && Succeeds(results, cmds[k])
  }

  /** A line written to the log file while commands run. */
  datatype LogEntry = Ran(cmd: string) | Stdout(text: string) | Stderr(text: string)

  /** The log lines of one command: the command and its output, and its errors when there are any. */
  function CommandLog(cmd: string, r: CommandResult): seq<LogEntry> {
    [Ran(cmd), Stdout(r.stdout)] + (if r.stderr != [] then [Stderr(r.stderr)] else [])
  }

  /** The log lines of a list of commands run one after the other. */
  function LogOf(results: string -> CommandResult, cmds: seq<string>): seq<LogEntry> {
    if |cmds| == 0 then []
    else CommandLog(cmds[0], results(cmds[0])) + LogOf(results, cmds[1..])
  }

  /** The commands that were run, what they logged, and whether the rule was satisfied. */
  datatype Attempt = Attempt(executed: seq<string>, log: seq<LogEntry>, success: bool)

  /** The inner loop of `main`: commands run in order and stop at the first one that succeeds. */
  function TryCommands(results: string -> CommandResult, cmds: seq<string>): Attempt {
    if |cmds| == 0 then Attempt([], [], false)
    else
      var r := results(cmds[0]);
      if Succeeded(r) then Attempt([cmds[0]], CommandLog(cmds[0], r), true)
      else
        var rest := TryCommands(results, cmds[1..]);
        Attempt([cmds[0]] + rest.executed, CommandLog(cmds[0], r) + rest.log, rest.success)
  }

  /**
   * What the inner loop does: the rule is satisfied exactly when some
   * command succeeds; what was run is a prefix of the list, every command
   * before the last one run failed, the last one run succeeded if the rule
   * is satisfied, all of them ran if it is not, and the log records exactly
   * the commands run, in order.
   */
  ghost predicate Explains(results: string -> CommandResult, cmds: seq<string>, a: Attempt) {
    && |a.executed| <= |cmds| && a.executed == cmds[..|a.executed|]
    && (a.success <==> exists k :: SucceedsAt(results, cmds, k))
    && (forall k :: 0 <= k < |a.executed| - 1 ==> !Succeeds(results, cmds[k]))
    && (a.success ==> |a.executed| > 0 && Succeeds(results, cmds[|a.executed| - 1]))
    && (!a.success ==> a.executed == cmds)
    && a.log == LogOf(results, a.executed)
  }

  /** The inner loop behaves as described above on every list of commands. */
  lemma {:induction false} TryCommandsSpec(results: string -> CommandResult, cmds: seq<string>)
    ensures Explains(results, cmds, TryCommands(results, cmds))
    decreases |cmds|
  {
    if |cmds| > 0 {
      if Succeeded(results(cmds[0])) {
        ExplainsFirstSuccess(results, cmds);
      } else {
        TryCommandsSpec(results, cmds[1..]);
        ExplainsAfterFailure(results, cmds, TryCommands(results, cmds[1..]));
      }
    }
  }

  /** A first command that succeeds is the only one run. */
  lemma ExplainsFirstSuccess(results: string -> CommandResult, cmds: seq<string>)
    requires |cmds| > 0 && Succeeds(results, cmds[0])
    ensures Explains(results, cmds, Attempt([cmds[0]], CommandLog(cmds[0], results(cmds[0])), true))
  {
    assert SucceedsAt(results, cmds, 0);
    assert [cmds[0]][1..] == [];
    assert cmds[..1] == [cmds[0]];
  }

  /** A first command that fails is run and logged before whatever the rest of the list does. */
  lemma ExplainsAfterFailure(results: string -> CommandResult, cmds: seq<string>, rest: Attempt)
    requires |cmds| > 0 && !Succeeds(results, cmds[0])
    requires Explains(results, cmds[1..], rest)
    ensures Explains(results, cmds,
              Attempt([cmds[0]] + rest.executed, CommandLog(cmds[0], results(cmds[0])) + rest.log, rest.success))
  {
    var c, t := cmds[0], cmds[1..];
    var executed := [c] + rest.executed;
    SucceedsAtShift(results, cmds);
    assert executed == cmds[..|executed|];
    forall k | 0 <= k < |executed| - 1 ensures !Succeeds(results, cmds[k]) {
      if k > 0 { assert cmds[k] == t[k - 1]; }
    }
    if rest.success {
      assert cmds[|executed| - 1] == t[|rest.executed| - 1];
    }
    assert executed[0] == c;
    assert executed[1..] == rest.executed;
  }

  /** When the first command fails, some command succeeds exactly when one of the others does. */
  lemma SucceedsAtShift(results: string -> CommandResult, cmds: seq<string>)
    requires |cmds| > 0 && !Succeeds(results, cmds[0])
    ensures (exists k :: SucceedsAt(results, cmds, k)) <==> exists k :: SucceedsAt(results, cmds[1..], k)
  {
    if exists k :: SucceedsAt(results, cmds, k) {
      var k :| SucceedsAt(results, cmds, k);
      assert cmds[1..][k - 1] == cmds[k];
      assert SucceedsAt(results, cmds[1..], k - 1);
    }
    if exists k :: SucceedsAt(results, cmds[1..], k) {
      var k :| SucceedsAt(results, cmds[1..], k);
      assert SucceedsAt(results, cmds, k + 1);
    }
  }

  /** The result reported for one rule. */
  datatype Verdict = Satisfied | NotSatisfied(fix: string)

  /** One rule's part of the run: its position (from 1), the rule, its command log and its verdict. */
  datatype RuleReport = RuleReport(index: nat, rule: Rule, log: seq<LogEntry>, verdict: Verdict)

  /** One iteration of the outer loop of `main`. */
  function EvaluateRule(results: string -> CommandResult, index: nat, rule: Rule): (rep: RuleReport)
    ensures rep.index == index && rep.rule == rule
    ensures rep.verdict == Satisfied <==> exists k :: SucceedsAt(results, rule.commands, k)
    ensures rep.verdict != Satisfied ==> rep.verdict == NotSatisfied(rule.fix)
  {
    TryCommandsSpec(results, rule.commands);
    var a := TryCommands(results, rule.commands);
    RuleReport(index, rule, a.log, if a.success then Satisfied else NotSatisfied(rule.fix))
  }

  /** The reports of a stretch of the catalogue whose first rule has position `start`. */
  function EvaluateFrom(results: string -> CommandResult, rules: seq<Rule>, start: nat): (reps: seq<RuleReport>)
    ensures |reps| == |rules|
    ensures forall k :: 0 <= k < |reps| ==> reps[k].index == start + k && reps[k].rule == rules[k]
    ensures forall k :: 0 <= k < |reps| ==>
              (reps[k].verdict == Satisfied <==> exists j :: SucceedsAt(results, rules[k].commands, j))
  {
    if |rules| == 0 then []
    else [EvaluateRule(results, start, rules[0])] + EvaluateFrom(results, rules[1..], start + 1)
  }

  /** `main`: the rules are numbered from 1 (`enumerate(rules, 1)`). */
  function EvaluateCatalog(run: string -> RawResult, rules: seq<Rule>): seq<RuleReport> {
    EvaluateFrom(Outcomes(run), rules, 1)
  }

  /**
   * The report at position `k` of a stretch is that rule's own evaluation,
   * numbered `start + k`. Because the shell is a fixed function of the
   * command text, no rule sees the effects of another rule's commands.
   */
  lemma {:induction false} EvaluateFromAt(results: string -> CommandResult, rules: seq<Rule>, start: nat, k: nat)
    requires k < |rules|
    ensures EvaluateFrom(results, rules, start)[k] == EvaluateRule(results, start + k, rules[k])
    decreases k
  {
    if k > 0 {
      EvaluateFromAt(results, rules[1..], start + 1, k - 1);
      assert rules[1..][k - 1] == rules[k];
    }
  }

  /** Reports that agree, position by position, with each rule's own evaluation are the catalogue's reports. */
  lemma EvaluateFromPointwise(results: string -> CommandResult, rules: seq<Rule>, start: nat, reps: seq<RuleReport>)
    requires |reps| == |rules|
    requires forall k :: 0 <= k < |rules| ==> reps[k] == EvaluateRule(results, start + k, rules[k])
    ensures reps == EvaluateFrom(results, rules, start)
  {
    forall k | 0 <= k < |rules| ensures reps[k] == EvaluateFrom(results, rules, start)[k] {
      EvaluateFromAt(results, rules, start, k);
    }
  }

  /** The log of consecutive stretches of commands is the one log after the other. */
  lemma {:induction false} LogOfAppend(results: string -> CommandResult, a: seq<string>, b: seq<string>)
    ensures LogOf(results, a + b) == LogOf(results, a) + LogOf(results, b)
    decreases |a|
  {
    if |a| == 0 {
      assert a + b == b;
    } else {
      LogOfAppend(results, a[1..], b);
      assert (a + b)[0] == a[0];
      assert (a + b)[1..] == a[1..] + b;
      var head := CommandLog(a[0], results(a[0]));
      assert LogOf(results, a + b) == head + LogOf(results, a[1..] + b);
      assert head + (LogOf(results, a[1..]) + LogOf(results, b)) == (head + LogOf(results, a[1..])) + LogOf(results, b);
    }
  }

  /**
   * Failed commands do not change what follows: when no command of `a`
   * succeeds, trying `a + b` runs all of `a`, then exactly what trying `b`
   * runs, and reaches `b`'s verdict.
   */
  lemma {:induction false} TryCommandsAfterFailures(results: string -> CommandResult, a: seq<string>, b: seq<string>)
    requires forall k :: 0 <= k < |a| ==> !Succeeds(results, a[k])
    ensures TryCommands(results, a + b).executed == a + TryCommands(results, b).executed
    ensures TryCommands(results, a + b).success == TryCommands(results, b).success
    decreases |a|
  {
    if |a| == 0 {
      assert a + b == b;
    } else {
      var c, t := a[0], a[1..];
      forall k | 0 <= k < |t| ensures !Succeeds(results, t[k]) {
        assert t[k] == a[k + 1];
      }
      TryCommandsAfterFailures(results, t, b);
      assert a + b == [c] + (t + b);
      TryCommandsAfterFailure(results, c, t + b);
      var rest := TryCommands(results, b).executed;
      assert [c] + (t + rest) == a + rest;
    }
  }

  /** A command that fails is run and the list goes on with the next one. */
  lemma TryCommandsAfterFailure(results: string -> CommandResult, c: string, rest: seq<string>)
    requires !Succeeds(results, c)
    ensures TryCommands(results, [c] + rest).executed == [c] + TryCommands(results, rest).executed
    ensures TryCommands(results, [c] + rest).success == TryCommands(results, rest).success
  {
    assert ([c] + rest)[0] == c;
    assert ([c] + rest)[1..] == rest;
  }

  /** The first command that succeeds is the last one run: nothing after it executes. */
  lemma FirstSuccessStops(results: string -> CommandResult, a: seq<string>, c: string, b: seq<string>)
    requires forall k :: 0 <= k < |a| ==> !Succeeds(results, a[k])
    requires Succeeds(results, c)
    ensures TryCommands(results, a + [c] + b).executed == a + [c]
    ensures TryCommands(results, a + [c] + b).success
  {
    assert a + [c] + b == a + ([c] + b);
    TryCommandsAfterFailures(results, a, [c] + b);
    assert ([c] + b)[0] == c;
  }

  /**
   * On the raw shell results: a command succeeds exactly when it exits with
   * status 0 and prints something other than whitespace, so status 0 with
   * blank output fails, and so does output with a non-zero status.
   */
  lemma SucceedsIffZeroAndVisibleOutput(run: string -> RawResult, cmd: string)
    ensures Succeeds(Outcomes(run), cmd) <==> run(cmd).code == 0 && !AllSpace(run(cmd).stdout)
  {
    assert Outcomes(run)(cmd) == RunCommand(run, cmd);
  }

  /** A rule without commands runs nothing, logs nothing, and is not satisfied. */
  lemma EmptyRuleNotSatisfied(results: string -> CommandResult, index: nat, rule: Rule)
    requires rule.commands == []
    ensures EvaluateRule(results, index, rule).verdict == NotSatisfied(rule.fix)
    ensures EvaluateRule(results, index, rule).log == []
  {
  }

  /** Output made only of whitespace never satisfies a rule, whatever the exit status. */
  lemma BlankOutputNeverSatisfies(run: string -> RawResult, index: nat, rule: Rule)
    requires forall k :: 0 <= k < |rule.commands| ==> AllSpace(run(rule.commands[k]).stdout)
    ensures EvaluateRule(Outcomes(run), index, rule).verdict == NotSatisfied(rule.fix)
  {
    forall k | 0 <= k < |rule.commands| ensures !SucceedsAt(Outcomes(run), rule.commands, k) {
      assert Outcomes(run)(rule.commands[k]) == RunCommand(run, rule.commands[k]);
    }
  }

  /** A command's log has a standard error line exactly when its stripped standard error is not empty. */
  lemma StderrLoggedIffNonEmpty(cmd: string, r: CommandResult)
    ensures (exists e :: Stderr(e) in CommandLog(cmd, r)) <==> r.stderr != []
  {
    if r.stderr != [] {
      assert CommandLog(cmd, r)[2] == Stderr(r.stderr);
    }
  }

  /** The standard error of a command is logged exactly when it is not blank. */
  lemma StderrLoggedIffNonBlank(run: string -> RawResult, cmd: string)
    ensures (exists e :: Stderr(e) in CommandLog(cmd, RunCommand(run, cmd)))
            <==> !AllSpace(run(cmd).stderr)
  {
    StderrLoggedIffNonEmpty(cmd, RunCommand(run, cmd));
  }

  /** Running one more command adds its log lines at the end. */
  lemma LogOfSnoc(results: string -> CommandResult, cmds: seq<string>, i: int)
    requires 0 <= i < |cmds|
    ensures LogOf(results, cmds[..i + 1]) == LogOf(results, cmds[..i]) + CommandLog(cmds[i], results(cmds[i]))
  {
    LogOfAppend(results, cmds[..i], [cmds[i]]);
    assert cmds[..i + 1] == cmds[..i] + [cmds[i]];
    assert [cmds[i]][1..] == [];
  }

  /** When command `i` is the first to succeed, exactly the commands up to it run and the rule is satisfied. */
  lemma TryCommandsStopsAt(results: string -> CommandResult, cmds: seq<string>, i: int)
    requires 0 <= i < |cmds| && Succeeds(results, cmds[i])
    requires forall k :: 0 <= k < i ==> !Succeeds(results, cmds[k])
    ensures TryCommands(results, cmds) == Attempt(cmds[..i + 1], LogOf(results, cmds[..i + 1]), true)
  {
    TryCommandsSpec(results, cmds);
    assert SucceedsAt(results, cmds, i);
    assert |TryCommands(results, cmds).executed| == i + 1;
  }

  /** When every command fails, all of them run and the rule is not satisfied. */
  lemma TryCommandsAllFail(results: string -> CommandResult, cmds: seq<string>)
    requires forall k :: 0 <= k < |cmds| ==> !Succeeds(results, cmds[k])
    ensures TryCommands(results, cmds) == Attempt(cmds, LogOf(results, cmds), false)
  {
    TryCommandsSpec(results, cmds);
  }

  /**
   * The inner loop as written: commands run in order until one succeeds,
   * with a `break` out of the loop; the result is the reference evaluation.
   */
  method CheckRule(results: string -> CommandResult, index: nat, rule: Rule) returns (report: RuleReport)
    ensures report == EvaluateRule(results, index, rule)
    ensures report.verdict == Satisfied <==> exists k :: SucceedsAt(results, rule.commands, k)
  {
    var cmds := rule.commands;
    var log: seq<LogEntry> := [];
    var success := false;
    var i := 0;
    while i < |cmds|
      invariant 0 <= i <= |cmds|
      invariant forall k :: 0 <= k < i ==> !Succeeds(results, cmds[k])
      invariant !success && log == LogOf(results, cmds[..i])
    {
      var r := results(cmds[i]);
      LogOfSnoc(results, cmds, i);
      log := log + CommandLog(cmds[i], r);
      if r.code == 0 && r.stdout != [] {
        success := true;
        break;
      }
      i := i + 1;
    }
    if success {
      TryCommandsStopsAt(results, cmds, i);
    } else {
      assert cmds[..i] == cmds;
      TryCommandsAllFail(results, cmds);
    }
    report := RuleReport(index, rule, log, if success then Satisfied else NotSatisfied(rule.fix));
  }

  /** The outer loop of `main`: every rule in catalogue order, numbered from 1. */
  method CheckRules(results: string -> CommandResult, rules: seq<Rule>) returns (reports: seq<RuleReport>)
    ensures reports == EvaluateFrom(results, rules, 1)
  {
    reports := [];
    var i := 0;
    while i < |rules|
      invariant 0 <= i <= |rules|
      invariant |reports| == i
      invariant forall k :: 0 <= k < i ==> reports[k] == EvaluateRule(results, k + 1, rules[k])
    {
      var rep := CheckRule(results, i + 1, rules[i]);
      reports := reports + [rep];
      i := i + 1;
    }
    EvaluateFromPointwise(results, rules, 1, reports);
  }

  /** `main` with the shell behind `run_command`. */
  method CheckCatalog(run: string -> RawResult, rules: seq<Rule>) returns (reports: seq<RuleReport>)
    ensures reports == EvaluateCatalog(run, rules)
  {
    reports := CheckRules(Outcomes(run), rules);
  }
}
