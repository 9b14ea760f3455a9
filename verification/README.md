# Apache hardening scripts: a verified model of their decision logic

This project models, in Dafny, the decisions made by two Python scripts
that check and harden an Apache installation.

- `apache_module_config.py` does five things, in this order:
  - disables every auth/ldap module other than basic and digest authentication;
  - reconciles a table of module patterns with the modules `apachectl -M` lists;
  - checks that Apache runs as exactly one non-root user;
  - locks the `www-data` account, fixes the owners of the configuration trees, and fixes the owner, group and mode of the log directory and the pid file;
  - suppresses the AH00558 warning.
- `Apacheconf.py` walks a catalogue of rules. It runs each rule's shell commands in order until one exits with status 0 and prints something other than whitespace, then reports the rule as satisfied or prints its fix.

Everything the scripts observe is an input to the model: the lines of `apachectl -M` and `ps`, the lines of `/etc/shadow`, the output of `find` and `stat` as captured (stripped inside the model, as the scripts strip it), and the raw results of the shell commands. A probe that raised is `None`. What the scripts decide is the model's output: the ordered list of commands issued, the user verdict, and each rule's log lines and verdict. In a Python `try` block, the first subprocess call that raises skips the rest of that block. For that reason a `stat` triple, for example, is either read whole or `None`.

Modules:
- `Common`: `Option`, argument vectors, flattening a list of sequences, and a generic concatenation over a list with its append and membership lemmas.
- `Text`: the Python string operations the scripts use, written out on `seq<char>`.
- `ModulePlanner`: `check_module` and the reconciliation loop of `main`.
- `AuthFilter`: `disable_unused_auth_modules`.
- `ApacheUser`: `check_apache_user`.
- `Hardening`: `check_system_hardening`.
- `Setup`: `main` of apache_module_config.py, including `suppress_ah00558_warning`.
- `RuleCheck`: `run_command` and `main` of Apacheconf.py.

A note on the module table: when no override applies, the default command passes the table's pattern itself. So a loaded `dav_` is disabled with `a2dismod dav_`, and `info_module` with `a2dismod info_module` (`ModulePlanner.InfoModuleRemediation`). The model reproduces this as written. Whether `a2dismod` accepts those names is outside the scripts.

## Model

| member | source | states |
|---|---|---|
| Text.Strip | Apacheconf.py:17-19 | `strip()`: the result is empty exactly when the input is all whitespace; otherwise it starts and ends with non-whitespace and sits in the input with only whitespace on either side |
| Text.FirstToken | apache_module_config.py:49 | `line.strip().split()[0]`: empty exactly when the line is blank; contains no whitespace; is a word of the line preceded only by whitespace and followed by whitespace or the end |
| Text.FirstTokenOf | apache_module_config.py:66 | the first word of blanks + a word + (nothing or whitespace-led text) is that word |
| Text.Split | apache_module_config.py:98 | `split(sep)`: at least one field, no field holds the separator, and there is more than one field exactly when the separator occurs |
| Text.SplitJoin | apache_module_config.py:98 | splitting a join of separator-free fields gives back the fields |
| Text.JoinSplit | apache_module_config.py:98 | joining the fields of a split gives back the string |
| Text.RemoveAllAbsent | apache_module_config.py:53 | `replace('_module', '')` leaves a string without the pattern unchanged |
| Text.RemoveAllSuffix | apache_module_config.py:53 | removing a pattern that occurs only as the suffix leaves the rest of the string |
| Text.RemoveAllSplit | apache_module_config.py:53 | `replace(p, '')`, for a pattern whose first character does not recur in it: in `n + p + rest` with `p` absent from `n`, the result is `n` followed by the removal applied to `rest` |
| Text.StripIsFramed | apache_module_config.py:125-128 | `s.strip() == w`, for a non-empty `w` without outer whitespace, holds exactly when `w` sits in `s` with only whitespace on either side |
| Text.FramedUnique | apache_module_config.py:125-128 | a string has at most one non-empty slice without outer whitespace that has only whitespace around it, so the stripped value is unique |
| Text.StripLine | apache_module_config.py:125-127 | a value without outer whitespace printed on its own line strips back to itself |
| ModulePlanner.AnyLineContains | apache_module_config.py:154 | true exactly when some line contains the pattern as a substring |
| ModulePlanner.ProbeModule | apache_module_config.py:151-157 | `None` exactly when the probe raised; otherwise loaded exactly when some listed line contains the pattern |
| ModulePlanner.PatternMatchesExtensions | apache_module_config.py:154 | a pattern such as `dav_` or `proxy_` reads as loaded when any line names a module that extends it |
| ModulePlanner.DefaultCommand | apache_module_config.py:205 | two words, the pattern second; `a2enmod` exactly when the module should be enabled, `a2dismod` exactly when not |
| ModulePlanner.Remediation | apache_module_config.py:197-206 | a non-empty override entry is used, either its single command or all its commands in order; otherwise the one default command |
| ModulePlanner.OverrideEitherDirection | apache_module_config.py:197-203 | the override is used whichever direction the mismatch is in |
| ModulePlanner.DefaultFollowsWantedState | apache_module_config.py:204-206 | without an override exactly one command is issued: `a2enmod` or `a2dismod` of the pattern, following the wanted state |
| ModulePlanner.ModulePlan | apache_module_config.py:186-206 | nothing when the probe raised or agrees with the wanted state; the remediation otherwise; empty exactly when the entry is settled |
| ModulePlanner.ReconcileAppend | apache_module_config.py:185-206 | the commands follow table order: those of a split table are the first part's then the second part's |
| ModulePlanner.ReconcileMembership | apache_module_config.py:185-206 | `Reconcile`, the loop: a command is issued exactly when it remedies a table entry whose probe disagrees with its wanted state |
| ModulePlanner.ReconcileQuietIffSettled | apache_module_config.py:185-206 | the loop issues nothing exactly when every entry is settled: its probe failed or agrees with the wanted state |
| ModulePlanner.RunReconciliation | apache_module_config.py:185-206 | the loop as written yields the table-order plan, empty exactly when every entry is settled |
| ModulePlanner.SslModuleRemediation | apache_module_config.py:39-42 | with the shipped tables, a disabled `ssl_module` is fixed by `a2enmod ssl` and then `a2ensite default-ssl.conf` |
| ModulePlanner.InfoModuleRemediation | apache_module_config.py:29 | with the shipped tables, a loaded `info_module` has no override and gets `a2dismod info_module` |
| AuthFilter.AuthLineHasToken | apache_module_config.py:49 | an auth/ldap line always has a first word, so `split()[0]` cannot fail on it |
| AuthFilter.CandidatesMembership | apache_module_config.py:49 | the candidates are exactly the first words of the lines containing `auth_` or `ldap`, and none is empty |
| AuthFilter.DisableCommandsMembership | apache_module_config.py:50-56 | a candidate is disabled exactly when it contains neither `auth_basic_module` nor `auth_digest_module` |
| AuthFilter.AuthPlanMembership | apache_module_config.py:45-56 | `AuthPlan`, the whole function: a command is issued exactly when it disables, by its rewritten name, a module named on an auth/ldap line that is not allowed |
| AuthFilter.AuthPlanFollowsOutputOrder | apache_module_config.py:49-56 | disables follow output order: the commands for a split listing are the first part's then the second part's |
| AuthFilter.ModuleNameStripsSuffix | apache_module_config.py:53 | `<name>_module` is disabled as `<name>` |
| AuthFilter.ModuleNameKeepsOthers | apache_module_config.py:53 | a name without `_module` is passed through unchanged |
| AuthFilter.ModuleNameStripsEvery | apache_module_config.py:53 | every `_module` is removed: suffix-free pieces, each followed by `_module`, and a suffix-free tail are rewritten to the pieces laid end to end and then the tail |
| ApacheUser.ProcessUsersMembership | apache_module_config.py:64-67 | the collected users are exactly the first words of the lines containing `apache2` or `httpd` |
| ApacheUser.ServiceUsers | apache_module_config.py:69-70 | `root` is never among the service users |
| ApacheUser.ServiceUsersMembership | apache_module_config.py:64-70 | after `root` is discarded, the users are the non-root users running Apache |
| ApacheUser.ApacheLineHasUser | apache_module_config.py:65-66 | an Apache line always has a first word |
| ApacheUser.TheElement | apache_module_config.py:72 | `users.pop()` on a one-element set returns that element |
| ApacheUser.UsersVerdict | apache_module_config.py:71-77 | accepted exactly when the set has one element, naming it; otherwise the set is reported |
| ApacheUser.CheckApacheUser | apache_module_config.py:60-77 | accepted exactly when one non-root user runs Apache; the accepted name is that user, is seen on an Apache line, and is neither root nor empty |
| ApacheUser.ServiceUsersAppend | apache_module_config.py:63-70 | the users of a split listing are the union of the users of its parts |
| ApacheUser.VerdictIgnoresOrder | apache_module_config.py:63-77 | any reordering of the `ps` lines (same multiset) gives the same verdict |
| ApacheUser.VerdictIgnoresRootAndOthers | apache_module_config.py:65-70 | root's Apache processes and non-Apache processes never change the verdict |
| ApacheUser.RootOnlyIsRejected | apache_module_config.py:69-77 | Apache run by root alone is not accepted: the set reported is empty |
| Hardening.ReadStat | apache_module_config.py:125-127 | each `stat` output is stripped; the values carry no outer whitespace |
| Hardening.ReadPrintedStat | apache_module_config.py:125-127 | reading back what `stat` prints, each value on its own line, gives the values printed |
| Hardening.StatReads | apache_module_config.py:125-128 | the stripped outputs are a given triple exactly when each raw output is that value with only whitespace around it |
| Hardening.LogDirPlan | apache_module_config.py:128-131 | the log directory step issues nothing or exactly `chown root:www-data -R` then `chmod 660 -R` of `/var/log/apache2` |
| Hardening.LogDirPlanQuietIffCompliant | apache_module_config.py:124-133 | the log directory step issues nothing exactly when the stripped `stat` outputs are `root`, `www-data`, `660`, that is, when the raw outputs are those values up to surrounding whitespace |
| Hardening.LogDirQuietOnPrinted | apache_module_config.py:124-133 | run on what `stat` prints for a directory, the step issues nothing exactly when its owner, group and mode are the wanted ones |
| Hardening.LogDirPlanConverges | apache_module_config.py:128-131 | after the commands run the directory is compliant, and the step run again on what `stat` then prints issues nothing |
| Hardening.PidFilePlan | apache_module_config.py:142-145 | the pid file step issues nothing or exactly `chown root:root` then `chmod 644` of the pid file |
| Hardening.PidFilePlanQuietIffCompliant | apache_module_config.py:137-147 | the pid file step issues nothing exactly when the stripped `stat` outputs are `root`, `root`, `644`, that is, when the raw outputs are those values up to surrounding whitespace |
| Hardening.PidFileQuietOnPrinted | apache_module_config.py:137-147 | run on what `stat` prints for the pid file, the step issues nothing exactly when its owner, group and mode are the wanted ones |
| Hardening.PidFilePlanConverges | apache_module_config.py:142-145 | after the commands run the pid file is compliant, and the step run again on what `stat` then prints issues nothing |
| Hardening.OwnershipPlan | apache_module_config.py:107-116 | a recursive `chown root:root` of the tree is issued exactly when `find` printed something other than whitespace |
| Hardening.LockedIffBang | apache_module_config.py:97-98 | the `www-data` entry is locked exactly when its password field, the text after `www-data:`, starts with `!` |
| Hardening.FirstServiceEntry | apache_module_config.py:95-103 | the loop decides on the first `www-data:` line, or on none if there is none |
| Hardening.ShadowPlanLocksIffUnlocked | apache_module_config.py:94-105 | `ShadowPlan`: the step issues nothing or `usermod -L www-data`, the latter exactly when the first `www-data:` line's password field does not start with `!` |
| Hardening.ShadowLockConverges | apache_module_config.py:97-103 | once `usermod -L` puts `!` in front of the password field, the entry reads as locked and nothing more is issued |
| Hardening.HardeningPlan | apache_module_config.py:82-149 | the `chmod 755 -R /etc/apache2` is always issued, the shadow step's commands come first and the pid file step's last |
| Hardening.HardeningQuietIffCompliant | apache_module_config.py:82-149 | the fixed `chmod 755` is always issued; nothing else is issued exactly when every readable fact, `stat` outputs judged after stripping, is compliant |
| Setup.SuppressCommands | apache_module_config.py:166-177 | no command if the configuration file could not be written; `a2enconf servername`, then the reload only if `a2enconf` succeeded |
| Setup.RunSetup | apache_module_config.py:179-214 | the auth disables come first, the `chmod 755` is always issued and the AH00558 commands come last; there is a user verdict exactly when `ps` could run, and an accepted user is non-root and seen running Apache |
| Setup.AuthQuietIffCompliant | apache_module_config.py:45-56 | nothing is disabled exactly when every listed auth/ldap module is allowed |
| Setup.SetupQuietIffCompliant | apache_module_config.py:179-214 | a run issues only its fixed commands exactly when auth modules, module states and hardening facts all comply |
| RuleCheck.RunCommand | Apacheconf.py:17-19 | the status is passed through; each returned stream is the raw stream's `strip()`: without outer whitespace, sitting in the raw stream with only whitespace around it, and empty exactly when the raw stream was all whitespace |
| RuleCheck.SucceedsIffZeroAndVisibleOutput | Apacheconf.py:35 | a command succeeds exactly when it exits 0 and prints something other than whitespace |
| RuleCheck.TryCommandsSpec | Apacheconf.py:29-37 | `TryCommands`, the command loop: satisfied exactly when some command succeeds; a prefix of the list runs; all before the last one run failed; the last succeeded if satisfied; all ran otherwise; the log records exactly what ran |
| RuleCheck.TryCommandsStopsAt | Apacheconf.py:35-37 | when command `i` is the first success, exactly commands 0..i run and the rule is satisfied |
| RuleCheck.TryCommandsAllFail | Apacheconf.py:29-37 | when every command fails, all run and the rule is not satisfied |
| RuleCheck.TryCommandsAfterFailures | Apacheconf.py:29-37 | failed commands only add themselves in front: what follows them runs as it would alone |
| RuleCheck.FirstSuccessStops | Apacheconf.py:35-37 | no command after the first success is executed |
| RuleCheck.EvaluateRule | Apacheconf.py:27-46 | one verdict per rule: satisfied exactly when some command succeeds, otherwise not satisfied with the rule's own fix |
| RuleCheck.EmptyRuleNotSatisfied | Apacheconf.py:27-46 | a rule without commands logs nothing and is not satisfied |
| RuleCheck.BlankOutputNeverSatisfies | Apacheconf.py:19-35 | if every command prints only whitespace, the rule is not satisfied whatever the exit statuses |
| RuleCheck.StderrLoggedIffNonBlank | Apacheconf.py:31-34 | a command's standard error is logged exactly when it is not blank |
| RuleCheck.LogOfAppend | Apacheconf.py:29-34 | the log of commands run one after another is their logs one after another |
| RuleCheck.EvaluateFrom | Apacheconf.py:23-24 | one report per rule, in catalogue order, numbered consecutively, each satisfied exactly when one of its commands succeeds |
| RuleCheck.EvaluateFromAt | Apacheconf.py:23-46 | the report at position `k` is rule `k`'s own evaluation numbered `start + k`; rules are independent only because the shell is a fixed function of the command text |
| RuleCheck.CheckRule | Apacheconf.py:27-46 | the command loop with its `break` yields the reference evaluation of the rule |
| RuleCheck.CheckRules | Apacheconf.py:23-47 | the catalogue loop yields the reference reports, numbered from 1 |
| RuleCheck.CheckCatalog | Apacheconf.py:17-49 | `main` with `run_command` behind it yields the reference reports of the catalogue |

## Left out

- `get_apachectl_command` and the `APACHECTL` initialisation are left out. They probe the file system and `PATH`. The model takes what the probe printed as input.
- Every `subprocess.run` and `execute_command` call is left out as I/O. The model records the command issued. A command that runs and exits non-zero does not change the flow: `execute_command` catches `CalledProcessError`, and the other calls do not check the status. The exception is `suppress_ah00558_warning`, which runs `a2enconf` with `check=True`: there a failure skips the reload, and the `a2enconf` status is the input `confEnabled`. Other exit statuses of remediation commands are not modelled.
- A command that cannot be started is not modelled. The model assumes every issued command can be started. `execute_command` does not catch the resulting `OSError`, so in the scripts it:
  - ends `main` from the module loop, before the user check, the hardening and the AH00558 step;
  - skips the remaining disables in `disable_unused_auth_modules`;
  - in the hardening steps, skips the rest of that `try` block, such as the `chmod` after a failing `chown`.
- The effects of the issued commands on the system are not modelled. The exceptions are the log directory and the pid file (`Hardening.Apply`) and the shadow lock (`Hardening.LockEntry`). These are used only to show that the fixes converge.
- `Hardening.Apply` models a `chown` argument only in the form `user:group`. It models only the named path, not the files under it for `-R`.
- The `/etc/passwd` check for `/sbin/nologin` is left out. It only prints a message and issues nothing.
- `rules.json` loading is left out as I/O. The catalogue is an input.
- CheckCatalog: assumes `run_command` and the rule-field lookups never raise. `main` and `run_command` in Apacheconf.py have no `try`. In the script, any of these ends the whole run with no verdict for that rule or any later one:
  - output that is not valid in the locale encoding (`UnicodeDecodeError` under `text=True`);
  - a shell that cannot be started (`OSError`);
  - a rule without `commands`, or a failing rule without `fix` (`KeyError`).

  The model's one report per rule relies on the shell being a total function.
- The header text `[i] id sub_id: description` is recorded as its parts: the index and the rule.
- `write_log` timestamps, `logging`, all `print` output and message text are left out, including the stray `print('hello world!')`.
- The log lines that remain in the model are the command, its stdout and its stderr. The verdict lines are represented by the verdict itself.
- Broad `except Exception` handling is represented only as `None` for a probe that raised, and as booleans for the two steps of `suppress_ah00558_warning`.
- The contents written to `servername.conf` are not modelled.
- `str.splitlines` is not modelled: captured output is given already split into lines.
- The shell is a fixed function of the command text. Running the same command twice is assumed to give the same result.
