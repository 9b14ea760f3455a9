/**
 * The module reconciliation loop of `main` in apache_module_config.py.
 * Every entry of the desired-state table is visited in table order; its
 * tri-state probe (loaded, not loaded, probe failed) is compared with the
 * wanted state, and a mismatch yields the override commands for that
 * pattern or, failing those, one `a2enmod`/`a2dismod` command.
 *
 * The output of `apachectl -M` that the probe of a pattern captures is an
 * input: `probe(pattern)` is `Some(lines)` for the lines it printed and
 * `None` when running it raised. Each pattern of the table is probed once,
 * so a function of the pattern describes one run exactly.
 */
module ModulePlanner {
  import opened Common
  import opened Text

  /** One entry of `modules_required`: a substring pattern and the state it should be in. */
  datatype ModuleRule = ModuleRule(pattern: string, shouldBeEnabled: bool)

  /** One entry of `mod_actions`: a single argument vector, or a batch of them run in order. */
  datatype Action = Single(argv: Command) | Batch(argvs: seq<Command>)

  /** `modules_required`, in its insertion order. */
  const ModulesRequired: seq<ModuleRule> := [
    ModuleRule("log_config", true),
    ModuleRule("dav_", false),
    ModuleRule("status_module", false),
    ModuleRule("autoindex_module", false),
    ModuleRule("proxy_", false),
    ModuleRule("userdir", false),
    ModuleRule("info_module", false),
    ModuleRule("auth_digest_module", false),
    ModuleRule("auth_basic_module", false),
    ModuleRule("ssl_module", true)
  ]

  /** `mod_actions`: the override table. */
  const ModActions: map<string, Action> := map[
    "status_module" := Single(["a2dismod", "status"]),
    "autoindex_module" := Single(["a2dismod", "autoindex", "-f"]),
    "auth_basic_module" := Single(["a2dismod", "auth_basic", "-f"]),
    "ssl_module" := Batch([["a2enmod", "ssl"], ["a2ensite", "default-ssl.conf"]])
  ]

  /** `any(pattern in line for line in lines)`. */
  function AnyLineContains(lines: seq<string>, pattern: string): (found: bool)
    ensures found <==> exists i :: 0 <= i < |lines| && Contains(lines[i], pattern)
  {
    if |lines| == 0 then false
    else Contains(lines[0], pattern) || AnyLineContains(lines[1..], pattern)
  }

  /** `check_module`: whether the module is loaded, or `None` when the probe raised. */
  function ProbeModule(pattern: string, output: Option<seq<string>>): (state: Option<bool>)
    ensures state.None? <==> output.None?
    ensures state.Some? ==>
              (state.value <==> exists i :: 0 <= i < |output.value| && Contains(output.value[i], pattern))
  {
    match output
    case None => None
    case Some(lines) => Some(AnyLineContains(lines, pattern))
  }

  /** Python truthiness of an override entry: an empty list falls back to the default command. */
  predicate HasCommands(a: Action) {
    match a
    case Single(argv) => |argv| > 0
    case Batch(argvs) => |argvs| > 0
  }

  /** The override entry `main` would use for this pattern, if any. */
  predicate HasOverride(pattern: string, actions: map<string, Action>) {
    pattern in actions && HasCommands(actions[pattern])
  }

  /** The command `main` builds when no override applies. */
  function DefaultCommand(rule: ModuleRule): (cmd: Command)
    ensures |cmd| == 2 && cmd[1] == rule.pattern
    ensures cmd[0] == "a2enmod" <==> rule.shouldBeEnabled
    ensures cmd[0] == "a2dismod" <==> !rule.shouldBeEnabled
  {
    [if rule.shouldBeEnabled then "a2enmod" else "a2dismod", rule.pattern]
  }

  /** The commands run for a module that is found in the wrong state. */
  function Remediation(rule: ModuleRule, actions: map<string, Action>): (cmds: seq<Command>)
    ensures |cmds| >= 1
    ensures !HasOverride(rule.pattern, actions) ==> cmds == [DefaultCommand(rule)]
    ensures HasOverride(rule.pattern, actions) && actions[rule.pattern].Single? ==>
              cmds == [actions[rule.pattern].argv]
    ensures HasOverride(rule.pattern, actions) && actions[rule.pattern].Batch? ==>
              cmds == actions[rule.pattern].argvs
  {
    if HasOverride(rule.pattern, actions) then
      match actions[rule.pattern]
      case Single(argv) => [argv]
      case Batch(argvs) => argvs
    else
      [DefaultCommand(rule)]
  }

  /** The probe of this entry failed or agrees with the wanted state. */
  predicate Settled(rule: ModuleRule, probe: string -> Option<seq<string>>) {
    ProbeModule(rule.pattern, probe(rule.pattern)) != Some(!rule.shouldBeEnabled)
  }

  /** What one iteration of the loop issues for one table entry. */
  function ModulePlan(rule: ModuleRule, actions: map<string, Action>, probe: string -> Option<seq<string>>)
    : (cmds: seq<Command>)
    ensures probe(rule.pattern).None? ==> cmds == []
    ensures ProbeModule(rule.pattern, probe(rule.pattern)) == Some(rule.shouldBeEnabled) ==> cmds == []
    ensures !Settled(rule, probe) ==> cmds == Remediation(rule, actions)
    ensures cmds == [] <==> Settled(rule, probe)
  {
    match ProbeModule(rule.pattern, probe(rule.pattern))
    case None => []
    case Some(enabled) => if enabled == rule.shouldBeEnabled then [] else Remediation(rule, actions)
  }

  /** The commands of the whole loop, entry after entry in table order. */
  function Reconcile(table: seq<ModuleRule>, actions: map<string, Action>, probe: string -> Option<seq<string>>)
    : seq<Command>
  {
    ConcatMap(table, rule => ModulePlan(rule, actions, probe))
  }

  /** The commands of two consecutive stretches of the table are issued one stretch after the other. */
  lemma ReconcileAppend(
    a: seq<ModuleRule>, b: seq<ModuleRule>, actions: map<string, Action>, probe: string -> Option<seq<string>>)
    ensures Reconcile(a + b, actions, probe) == Reconcile(a, actions, probe) + Reconcile(b, actions, probe)
  {
    ConcatMapAppend(a, b, rule => ModulePlan(rule, actions, probe));
  }

  /** The loop issues nothing exactly when every entry is settled. */
  lemma ReconcileQuietIffSettled(
    table: seq<ModuleRule>, actions: map<string, Action>, probe: string -> Option<seq<string>>)
    ensures Reconcile(table, actions, probe) == [] <==> forall k :: 0 <= k < |table| ==> Settled(table[k], probe)
  {
    var plan := rule => ModulePlan(rule, actions, probe);
    ConcatMapEmpty(table, plan);
    assert forall k :: 0 <= k < |table| ==> (plan(table[k]) == [] <==> Settled(table[k], probe));
  }

  /** Table entry `k` is out of its wanted state and `c` is one of the commands that remedy it. */
  predicate Remedies(table: seq<ModuleRule>, actions: map<string, Action>, probe: string -> Option<seq<string>>,
                     k: int, c: Command) {
    0 <= k < |table| && !Settled(table[k], probe) && c in Remediation(table[k], actions)
  }

  /**
   * Every command the loop issues remedies an entry that is out of its
   * wanted state, and every remedy of such an entry is issued.
   */
  lemma ReconcileMembership(
    table: seq<ModuleRule>, actions: map<string, Action>, probe: string -> Option<seq<string>>, c: Command)
    ensures c in Reconcile(table, actions, probe) <==> exists k :: Remedies(table, actions, probe, k, c)
  {
    var plan := rule => ModulePlan(rule, actions, probe);
    ConcatMapMembership(table, plan, c);
    if c in Reconcile(table, actions, probe) {
      var k :| Yields(table, plan, k, c);
      assert Remedies(table, actions, probe, k, c);
    }
    if exists k :: Remedies(table, actions, probe, k, c) {
      var k :| Remedies(table, actions, probe, k, c);
      assert Yields(table, plan, k, c);
    }
  }

  /** An override entry is used whichever way the module is out of its wanted state. */
  lemma OverrideEitherDirection(pattern: string, actions: map<string, Action>)
    requires HasOverride(pattern, actions)
    ensures Remediation(ModuleRule(pattern, true), actions) == Remediation(ModuleRule(pattern, false), actions)
  {
  }

  /** Without an override the one command enables or disables the module named by the pattern. */
  lemma DefaultFollowsWantedState(rule: ModuleRule, actions: map<string, Action>)
    requires !HasOverride(rule.pattern, actions)
    ensures |Remediation(rule, actions)| == 1
    ensures Remediation(rule, actions)[0] == [if rule.shouldBeEnabled then "a2enmod" else "a2dismod", rule.pattern]
  {
  }

  /**
   * Patterns match as plain substrings, so a pattern such as `dav_` or
   * `proxy_` reports loaded as soon as any line names a module that extends it.
   */
  lemma {:induction false} PatternMatchesExtensions(lines: seq<string>, i: int, pattern: string, rest: string)
    requires 0 <= i < |lines| && Contains(lines[i], pattern + rest)
    ensures ProbeModule(pattern, Some(lines)) == Some(true)
  {
    var line := lines[i];
    var j :| 0 <= j <= |line| - |pattern + rest| && OccursAt(line, pattern + rest, j);
    assert line[j..j + |pattern|] == (pattern + rest)[..|pattern|] == pattern;
    assert OccursAt(line, pattern, j);
  }

  /** With the shipped tables a disabled `ssl_module` is fixed by enabling it and its default site, in that order. */
  lemma SslModuleRemediation(probe: string -> Option<seq<string>>)
    requires ProbeModule("ssl_module", probe("ssl_module")) == Some(false)
    ensures ModulePlan(ModulesRequired[9], ModActions, probe) == [["a2enmod", "ssl"], ["a2ensite", "default-ssl.conf"]]
  {
  }

  /** With the shipped tables a loaded `info_module` has no override and gets the default `a2dismod`. */
  lemma InfoModuleRemediation(probe: string -> Option<seq<string>>)
    requires ProbeModule("info_module", probe("info_module")) == Some(true)
    ensures ModulePlan(ModulesRequired[6], ModActions, probe) == [["a2dismod", "info_module"]]
  {
  }

  /**
   * The loop of `main`, step by step: each entry is probed and, on a
   * mismatch, its remediation is appended; the result is the reference
   * plan, and it is empty exactly when every entry is settled.
   */
  method RunReconciliation(table: seq<ModuleRule>, actions: map<string, Action>, probe: string -> Option<seq<string>>)
    returns (issued: seq<Command>)
    ensures issued == Reconcile(table, actions, probe)
    ensures issued == [] <==> forall k :: 0 <= k < |table| ==> Settled(table[k], probe)
  {
    issued := [];
    var i := 0;
    while i < |table|
      invariant 0 <= i <= |table|
      invariant issued == Reconcile(table[..i], actions, probe)
    {
      var rule := table[i];
      var isEnabled := ProbeModule(rule.pattern, probe(rule.pattern));
      if isEnabled.Some? && isEnabled.value != rule.shouldBeEnabled {
        issued := issued + Remediation(rule, actions);
      }
      ReconcileAppend(table[..i], [rule], actions, probe);
      assert [rule][1..] == [];
      assert Reconcile([rule], actions, probe) == ModulePlan(rule, actions, probe);
      assert table[..i + 1] == table[..i] + [rule];
      i := i + 1;
    }
    assert table[..i] == table;
    ReconcileQuietIffSettled(table, actions, probe);
  }
}
