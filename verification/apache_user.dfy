/**
 * `check_apache_user` in apache_module_config.py: from the lines of
 * `ps axo user,comm`, collect the user of every Apache process, drop
 * `root` (the parent process), and accept the result when exactly one
 * service user remains.
 */
module ApacheUser {
  import opened Text

  /** A `ps` line of an Apache process. */
  predicate IsApacheLine(line: string) {
    Contains(line, "apache2") || Contains(line, "httpd")
  }

  /** Line `i` is an Apache process line run by user `u`. */
  predicate RunsApache(lines: seq<string>, i: int, u: string) {
    0 <= i < |lines| && IsApacheLine(lines[i]) && FirstToken(lines[i]) == u
  }

  /** The `users` set as the loop leaves it, before `root` is discarded. */
  function ProcessUsers(lines: seq<string>): set<string> {
    if |lines| == 0 then {}
    else if IsApacheLine(lines[0]) then {FirstToken(lines[0])} + ProcessUsers(lines[1..])
    else ProcessUsers(lines[1..])
  }

  /** The users left once `root` is discarded. */
  function ServiceUsers(lines: seq<string>): (users: set<string>)
    ensures "root" !in users
  {
    ProcessUsers(lines) - {"root"}
  }

  /** The users collected are exactly the first words of the Apache process lines. */
  lemma {:induction false} ProcessUsersMembership(lines: seq<string>, u: string)
    ensures u in ProcessUsers(lines) <==> exists i :: RunsApache(lines, i, u)
    decreases |lines|
  {
    if |lines| > 0 {
      ProcessUsersMembership(lines[1..], u);
      if u in ProcessUsers(lines) {
        if IsApacheLine(lines[0]) && FirstToken(lines[0]) == u {
          assert RunsApache(lines, 0, u);
        } else {
          var i :| RunsApache(lines[1..], i, u);
          assert lines[1..][i] == lines[i + 1];
          assert RunsApache(lines, i + 1, u);
        }
      }
      if exists i :: RunsApache(lines, i, u) {
        var i :| RunsApache(lines, i, u);
        if i > 0 {
          assert lines[1..][i - 1] == lines[i];
          assert RunsApache(lines[1..], i - 1, u);
        }
      }
    }
  }

  /** Service users are the non-root users that run an Apache process. */
  lemma ServiceUsersMembership(lines: seq<string>, u: string)
    ensures u in ServiceUsers(lines) <==> u != "root" && exists i :: RunsApache(lines, i, u)
  {
    ProcessUsersMembership(lines, u);
  }

  /** An Apache process line always has a first word, so no service user is the empty name. */
  lemma ApacheLineHasUser(line: string)
    requires IsApacheLine(line)
    ensures FirstToken(line) != []
  {
    assert !IsSpace("apache2"[0]) && !IsSpace("httpd"[0]);
    if Contains(line, "apache2") {
      ContainsNonBlankHasToken(line, "apache2");
    } else {
      ContainsNonBlankHasToken(line, "httpd");
    }
  }

  /** What `check_apache_user` reports. */
  datatype UserVerdict = ServiceUser(name: string) | MixedUsers(users: set<string>)

  /** The one element of a singleton set. */
  function TheElement(s: set<string>): (x: string)
    requires |s| == 1
    ensures s == {x}
  {
    var x :| x in s;
    assert |s - {x}| == 0;
    assert s - {x} == {};
    assert s == {x} + (s - {x});
    x
  }

  /** The verdict on a set of service users: accepted exactly when it has one element. */
  function UsersVerdict(users: set<string>): (v: UserVerdict)
    ensures v.ServiceUser? <==> |users| == 1
    ensures v.ServiceUser? ==> users == {v.name}
    ensures v.MixedUsers? ==> v.users == users
  {
    if |users| == 1 then ServiceUser(TheElement(users)) else MixedUsers(users)
  }

  /** `check_apache_user`: accepted exactly when one non-root user runs Apache. */
  function CheckApacheUser(lines: seq<string>): (v: UserVerdict)
    ensures v.ServiceUser? <==> |ServiceUsers(lines)| == 1
    ensures v.ServiceUser? ==> ServiceUsers(lines) == {v.name} && v.name != "root" && v.name != []
    ensures v.ServiceUser? ==> exists i :: RunsApache(lines, i, v.name)
    ensures v.MixedUsers? ==> v.users == ServiceUsers(lines)
  {
    var v := UsersVerdict(ServiceUsers(lines));
    if v.ServiceUser? then
      ServiceUsersMembership(lines, v.name);
      var i :| RunsApache(lines, i, v.name);
      ApacheLineHasUser(lines[i]);
      v
    else v
  }

  /** The service user set of a listing is the union of those of its parts. */
  lemma ServiceUsersAppend(a: seq<string>, b: seq<string>)
    ensures ServiceUsers(a + b) == ServiceUsers(a) + ServiceUsers(b)
  {
    ProcessUsersAppend(a, b);
  }

  /** The Apache users of a listing are the union of those of its parts. */
  lemma {:induction false} ProcessUsersAppend(a: seq<string>, b: seq<string>)
    ensures ProcessUsers(a + b) == ProcessUsers(a) + ProcessUsers(b)
    decreases |a|
  {
    if |a| == 0 {
      assert a + b == b;
    } else {
      ProcessUsersAppend(a[1..], b);
      assert (a + b)[0] == a[0];
      assert (a + b)[1..] == a[1..] + b;
    }
  }

  /** A user running Apache on some line of a listing does so on some line of any reordering of it. */
  lemma RunsApacheReordered(a: seq<string>, b: seq<string>, u: string)
    requires multiset(a) == multiset(b)
    ensures (exists i :: RunsApache(a, i, u)) ==> exists j :: RunsApache(b, j, u)
  {
    if exists i :: RunsApache(a, i, u) {
      var i :| RunsApache(a, i, u);
      assert a[i] in multiset(b);
      var j :| 0 <= j < |b| && b[j] == a[i];
      assert RunsApache(b, j, u);
    }
  }

  /**
   * The verdict does not depend on the order in which `ps` lists the
   * processes: any reordering of the lines gives the same verdict.
   */
  lemma VerdictIgnoresOrder(a: seq<string>, b: seq<string>)
    requires multiset(a) == multiset(b)
    ensures CheckApacheUser(a) == CheckApacheUser(b)
  {
    forall u: string
      ensures u in ServiceUsers(a) <==> u in ServiceUsers(b)
    {
      ServiceUsersMembership(a, u);
      ServiceUsersMembership(b, u);
      RunsApacheReordered(a, b, u);
      RunsApacheReordered(b, a, u);
    }
    assert ServiceUsers(a) == ServiceUsers(b);
  }

  /** Root's Apache processes and non-Apache processes never change the verdict. */
  lemma VerdictIgnoresRootAndOthers(lines: seq<string>, extra: string)
    requires !IsApacheLine(extra) || FirstToken(extra) == "root"
    ensures CheckApacheUser(lines + [extra]) == CheckApacheUser(lines)
  {
    ServiceUsersAppend(lines, [extra]);
    assert [extra][1..] == [];
    assert ProcessUsers([]) == {};
    assert ProcessUsers([extra]) <= {"root"};
    assert ServiceUsers([extra]) == {};
  }

  /** Apache run by root alone is not accepted: no service user remains. */
  lemma RootOnlyIsRejected(lines: seq<string>)
    requires forall i :: 0 <= i < |lines| && IsApacheLine(lines[i]) ==> FirstToken(lines[i]) == "root"
    ensures CheckApacheUser(lines) == MixedUsers({})
  {
    forall u | u in ServiceUsers(lines) ensures false {
      ServiceUsersMembership(lines, u);
    }
  }
}
