/**
 * `disable_unused_auth_modules` in apache_module_config.py: from the lines of
 * `apachectl -M`, every auth/ldap module other than basic and digest
 * authentication is disabled, by its name with `_module` removed, in the
 * order the modules are listed.
 */
module AuthFilter {
  import opened Common
  import opened Text

  /** A line of `apachectl -M` that mentions an auth or ldap module. */
  predicate IsAuthLine(line: string) {
    Contains(line, "auth_") || Contains(line, "ldap")
  }

  /** The modules kept enabled: those whose name contains one of `allowed_auth_modules`. */
  predicate IsAllowed(name: string) {
    Contains(name, "auth_basic_module") || Contains(name, "auth_digest_module")
  }

  /** The argument handed to `a2dismod`: `module.replace('_module', '')`. */
  function ModuleName(name: string): string {
    RemoveAll(name, "_module")
  }

  /** What one line contributes to `active_modules`: its first word if it is an auth/ldap line. */
  function AuthToken(line: string): seq<string> {
    if IsAuthLine(line) then [FirstToken(line)] else []
  }

  /** `active_modules`: the first word of every auth/ldap line, in output order. */
  function Candidates(lines: seq<string>): seq<string> {
    ConcatMap(lines, AuthToken)
  }

  /** Line `i` of the output is an auth/ldap line whose first word is `m`. */
  predicate NamesCandidate(lines: seq<string>, i: int, m: string) {
    0 <= i < |lines| && IsAuthLine(lines[i]) && FirstToken(lines[i]) == m
  }

  /** The candidates are exactly the first words of the auth/ldap lines, and none is empty. */
  lemma CandidatesMembership(lines: seq<string>, m: string)
    ensures m in Candidates(lines) <==> exists i :: NamesCandidate(lines, i, m)
    ensures m in Candidates(lines) ==> m != []
  {
    ConcatMapMembership(lines, AuthToken, m);
    if m in Candidates(lines) {
      var i :| Yields(lines, AuthToken, i, m);
      assert NamesCandidate(lines, i, m);
      AuthLineHasToken(lines[i]);
    }
    if exists i :: NamesCandidate(lines, i, m) {
      var i :| NamesCandidate(lines, i, m);
      assert Yields(lines, AuthToken, i, m);
    }
  }

  /** An auth/ldap line always has a first word, so the list above never holds an empty name. */
  lemma AuthLineHasToken(line: string)
    requires IsAuthLine(line)
    ensures FirstToken(line) != []
  {
    assert !IsSpace("ldap"[0]) && !IsSpace("auth_"[0]);
    if Contains(line, "auth_") {
      ContainsNonBlankHasToken(line, "auth_");
    } else {
      ContainsNonBlankHasToken(line, "ldap");
    }
  }

  /** The command that disables a candidate. */
  function DisableCommand(name: string): Command {
    ["a2dismod", ModuleName(name)]
  }

  /** What one candidate contributes: nothing if it is allowed, else the command that disables it. */
  function DisableIfUnused(name: string): seq<Command> {
    if IsAllowed(name) then [] else [DisableCommand(name)]
  }

  /** The `a2dismod` commands for a list of candidates, in list order. */
  function DisableCommands(modules: seq<string>): seq<Command> {
    ConcatMap(modules, DisableIfUnused)
  }

  /** Candidate `k` is not allowed and `c` is the command that disables it. */
  predicate DisablesCandidate(modules: seq<string>, k: int, c: Command) {
    0 <= k < |modules| && !IsAllowed(modules[k]) && c == DisableCommand(modules[k])
  }

  /** The commands are exactly the disables of the candidates that are not allowed. */
  lemma DisableCommandsMembership(modules: seq<string>, c: Command)
    ensures c in DisableCommands(modules) <==> exists k :: DisablesCandidate(modules, k, c)
  {
    ConcatMapMembership(modules, DisableIfUnused, c);
    if c in DisableCommands(modules) {
      var k :| Yields(modules, DisableIfUnused, k, c);
      assert DisablesCandidate(modules, k, c);
    }
    if exists k :: DisablesCandidate(modules, k, c) {
      var k :| DisablesCandidate(modules, k, c);
      assert Yields(modules, DisableIfUnused, k, c);
    }
  }

  /** The whole function: nothing when `apachectl -M` raised, else the disables for its output. */
  function AuthPlan(output: Option<seq<string>>): seq<Command> {
    match output
    case None => []
    case Some(lines) => DisableCommands(Candidates(lines))
  }

  /**
   * Output order is kept: the commands for a listing that is split in two
   * are the commands for its first part followed by those for its second.
   */
  lemma AuthPlanFollowsOutputOrder(a: seq<string>, b: seq<string>)
    ensures AuthPlan(Some(a + b)) == AuthPlan(Some(a)) + AuthPlan(Some(b))
  {
    ConcatMapAppend(a, b, AuthToken);
    ConcatMapAppend(Candidates(a), Candidates(b), DisableIfUnused);
  }

  /** Line `i` is an auth/ldap line whose module is not allowed, and `c` disables that module. */
  predicate DisablesLine(lines: seq<string>, i: int, c: Command) {
    0 <= i < |lines| && IsAuthLine(lines[i]) && !IsAllowed(FirstToken(lines[i]))
    && c == DisableCommand(FirstToken(lines[i]))
  }

  /**
   * A module named by an auth/ldap line is disabled unless it is allowed,
   * and every command disables a module that is named by such a line and not allowed.
   */
  lemma AuthPlanMembership(lines: seq<string>, c: Command)
    ensures c in AuthPlan(Some(lines)) <==> exists i :: DisablesLine(lines, i, c)
  {
    var mods := Candidates(lines);
    DisableCommandsMembership(mods, c);
    if c in AuthPlan(Some(lines)) {
      var k :| DisablesCandidate(mods, k, c);
      CandidatesMembership(lines, mods[k]);
      var i :| NamesCandidate(lines, i, mods[k]);
      assert DisablesLine(lines, i, c);
    }
    if exists i :: DisablesLine(lines, i, c) {
      var i :| DisablesLine(lines, i, c);
      CandidatesMembership(lines, FirstToken(lines[i]));
      assert NamesCandidate(lines, i, FirstToken(lines[i]));
      var k :| 0 <= k < |mods| && mods[k] == FirstToken(lines[i]);
      assert DisablesCandidate(mods, k, c);
    }
  }

  /** The rewrite strips the suffix: `<name>_module` is disabled as `<name>`. */
  lemma ModuleNameStripsSuffix(name: string)
    requires !Contains(name, "_module")
    ensures ModuleName(name + "_module") == name
  {
    assert "_module"[0] !in "_module"[1..];
    RemoveAllSuffix(name, "_module");
  }

  /** A module name piece followed by the suffix. */
  function WithSuffix(piece: string): string {
    piece + "_module"
  }

  /**
   * Every occurrence is removed: a name made of suffix-free pieces, each
   * followed by `_module`, and a suffix-free tail is rewritten to the
   * pieces and the tail with every `_module` gone.
   */
  lemma {:induction false} ModuleNameStripsEvery(pieces: seq<string>, tail: string)
    requires forall k :: 0 <= k < |pieces| ==> !Contains(pieces[k], "_module")
    requires !Contains(tail, "_module")
    ensures ModuleName(ConcatMap(pieces, WithSuffix) + tail) == Flatten(pieces) + tail
    decreases |pieces|
  {
    if |pieces| == 0 {
      assert ConcatMap(pieces, WithSuffix) + tail == tail;
      RemoveAllAbsent(tail, "_module");
    } else {
      var rest := ConcatMap(pieces[1..], WithSuffix) + tail;
      ModuleNameStripsEvery(pieces[1..], tail);
      assert "_module"[0] !in "_module"[1..];
      RemoveAllSplit(pieces[0], "_module", rest);
      assert ConcatMap(pieces, WithSuffix) == WithSuffix(pieces[0]) + ConcatMap(pieces[1..], WithSuffix);
      assert ConcatMap(pieces, WithSuffix) + tail == pieces[0] + "_module" + rest;
      assert Flatten(pieces) == pieces[0] + Flatten(pieces[1..]);
      assert Flatten(pieces) + tail == pieces[0] + (Flatten(pieces[1..]) + tail);
    }
  }

  /** A name without the suffix is passed through unchanged. */
  lemma ModuleNameKeepsOthers(name: string)
    requires !Contains(name, "_module")
    ensures ModuleName(name) == name
  {
    RemoveAllAbsent(name, "_module");
  }
}
