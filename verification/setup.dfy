/**
 * `main` of apache_module_config.py: the unused auth modules are disabled,
 * the module table is reconciled, the Apache user is checked, the system
 * hardening steps run, and the AH00558 warning is suppressed, in that
 * order. The result is the sequence of commands the run issues together
 * with the user verdict.
 */
module Setup {
  import opened Common
  import opened Text
  import AuthFilter
  import ModulePlanner
  import ApacheUser
  import Hardening

  /**
   * Everything the run observes; `None` for a probe that raised.
   * `confWritten` says whether `servername.conf` could be written and
   * `confEnabled` whether `a2enconf servername` then exited with status 0.
   */
  datatype Probes = Probes(
    moduleListing: Option<seq<string>>,
    modules: string -> Option<seq<string>>,
    processes: Option<seq<string>>,
    hardening: Hardening.HardeningProbes,
    confWritten: bool,
    confEnabled: bool)

  /**
   * `suppress_ah00558_warning`: after `ServerName localhost` is written to
   * `servername.conf`, the configuration is enabled and Apache reloaded;
   * a failed write stops before the first command and a failed `a2enconf`
   * (run with `check=True`) before the reload.
   */
  function SuppressCommands(confWritten: bool, confEnabled: bool): (cmds: seq<Command>)
    ensures |cmds| <= 2
    ensures cmds == [] <==> !confWritten
    ensures |cmds| == 2 <==> confWritten && confEnabled
    ensures cmds != [] ==> cmds[0] == ["a2enconf", "servername"]
    ensures |cmds| == 2 ==> cmds[1] == ["systemctl", "reload", "apache2"]
  {
    if !confWritten then []
    else if !confEnabled then [["a2enconf", "servername"]]
    else [["a2enconf", "servername"], ["systemctl", "reload", "apache2"]]
  }

  /** What one run of `main` decides. */
  datatype Outcome = Outcome(commands: seq<Command>, user: Option<ApacheUser.UserVerdict>)

  /**
   * `main`, step by step in the order it calls them: the auth disables
   * come first, the `chmod 755` of the configuration tree is always issued,
   * the AH00558 commands come last, and a user verdict exists exactly when
   * `ps` could run, accepting only a non-root user seen running Apache.
   */
  function RunSetup(p: Probes): (o: Outcome)
    ensures o.user.None? <==> p.processes.None?
    ensures o.user.Some? && o.user.value.ServiceUser? ==>
              o.user.value.name != "root" && exists i :: ApacheUser.RunsApache(p.processes.value, i, o.user.value.name)
    ensures AuthFilter.AuthPlan(p.moduleListing) <= o.commands
    ensures Hardening.ConfigTreeMode in o.commands
    ensures var s := SuppressCommands(p.confWritten, p.confEnabled);
              |s| <= |o.commands| && o.commands[|o.commands| - |s|..] == s
  {
    var auth := AuthFilter.AuthPlan(p.moduleListing);
    var modules := ModulePlanner.Reconcile(ModulePlanner.ModulesRequired, ModulePlanner.ModActions, p.modules);
    var hardening := Hardening.HardeningPlan(p.hardening);
    var suppress := SuppressCommands(p.confWritten, p.confEnabled);
    var user := match p.processes
      case None => None
      case Some(lines) => Some(ApacheUser.CheckApacheUser(lines));
    StepsInOrder(auth, modules, hardening, suppress, Hardening.ConfigTreeMode);
    Outcome(auth + modules + hardening + suppress, user)
  }

  /** In four stretches run one after another, the first is a prefix, the last a suffix, and the third's elements occur. */
  lemma StepsInOrder<T>(a: seq<T>, b: seq<T>, h: seq<T>, s: seq<T>, c: T)
    requires c in h
    ensures a <= a + b + h + s
    ensures c in a + b + h + s
    ensures |s| <= |a + b + h + s| && (a + b + h + s)[|a + b + h + s| - |s|..] == s
  {
    var all := a + b + h + s;
    assert all[..|a|] == a;
    assert all[|all| - |s|..] == s;
    var k :| 0 <= k < |h| && h[k] == c;
    assert all[|a| + |b| + k] == c;
  }

  /** Every auth or ldap module in the listing is one of the allowed ones (or the listing could not be read). */
  predicate AuthCompliant(listing: Option<seq<string>>) {
    listing.Some? ==>
      forall i :: 0 <= i < |listing.value| && AuthFilter.IsAuthLine(listing.value[i]) ==>
        AuthFilter.IsAllowed(FirstToken(listing.value[i]))
  }

  /** The auth step issues nothing exactly when the listing has no auth module to disable. */
  lemma AuthQuietIffCompliant(listing: Option<seq<string>>)
    ensures AuthFilter.AuthPlan(listing) == [] <==> AuthCompliant(listing)
  {
    if listing.Some? {
      var lines := listing.value;
      if AuthFilter.AuthPlan(listing) != [] {
        var c := AuthFilter.AuthPlan(listing)[0];
        AuthFilter.AuthPlanMembership(lines, c);
        var i :| AuthFilter.DisablesLine(lines, i, c);
        assert !AuthCompliant(listing);
      }
      if !AuthCompliant(listing) {
        var i :| 0 <= i < |lines| && AuthFilter.IsAuthLine(lines[i]) && !AuthFilter.IsAllowed(FirstToken(lines[i]));
        var c := AuthFilter.DisableCommand(FirstToken(lines[i]));
        assert AuthFilter.DisablesLine(lines, i, c);
        AuthFilter.AuthPlanMembership(lines, c);
      }
    }
  }

  /** Every module of the shipped table whose probe succeeded is already in its wanted state. */
  predicate ModulesCompliant(probe: string -> Option<seq<string>>) {
    forall k :: 0 <= k < |ModulePlanner.ModulesRequired| ==>
      ModulePlanner.Settled(ModulePlanner.ModulesRequired[k], probe)
  }

  /** The commands every run issues whatever it finds: the `chmod 755` and the AH00558 fix. */
  function FixedCommands(p: Probes): seq<Command> {
    [Hardening.ConfigTreeMode] + SuppressCommands(p.confWritten, p.confEnabled)
  }

  /**
   * A run issues nothing beyond its fixed commands exactly when the system
   * already complies: no unwanted auth module is listed, every module probe
   * agrees with the table, and every hardening fact that could be read is
   * as wanted.
   */
  lemma SetupQuietIffCompliant(p: Probes)
    ensures RunSetup(p).commands == FixedCommands(p) <==>
              AuthCompliant(p.moduleListing) && ModulesCompliant(p.modules) && Hardening.HardeningCompliant(p.hardening)
  {
    var auth := AuthFilter.AuthPlan(p.moduleListing);
    var modules := ModulePlanner.Reconcile(ModulePlanner.ModulesRequired, ModulePlanner.ModActions, p.modules);
    var hardening := Hardening.HardeningPlan(p.hardening);
    var suppress := SuppressCommands(p.confWritten, p.confEnabled);
    assert RunSetup(p).commands == auth + modules + hardening + suppress;
    AuthQuietIffCompliant(p.moduleListing);
    ModulePlanner.ReconcileQuietIffSettled(ModulePlanner.ModulesRequired, ModulePlanner.ModActions, p.modules);
    Hardening.HardeningQuietIffCompliant(p.hardening);
    OnlyFixedPart(auth, modules, hardening, suppress, Hardening.ConfigTreeMode);
  }

  /** Three stretches followed by `s` leave only `[c] + s` exactly when the first two are empty and the third is `[c]`. */
  lemma OnlyFixedPart<T>(a: seq<T>, b: seq<T>, h: seq<T>, s: seq<T>, c: T)
    requires |h| >= 1
    ensures a + b + h + s == [c] + s <==> a == [] && b == [] && h == [c]
  {
    if a + b + h + s == [c] + s {
      assert |a| + |b| + |h| == 1;
      assert a == [] && b == [];
      assert h == (a + b + h + s)[..1];
    }
  }
}
