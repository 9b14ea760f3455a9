/**
 * The Python string operations the two scripts rely on, written out on
 * `seq<char>`: `str.isspace`, `str.strip`, the `in` operator on strings,
 * `str.startswith`, `str.split()` (first field only), `str.split(sep)`,
 * `sep.join` and `str.replace(old, "")`.
 */
module Text {

  /** Python's `str.isspace()` for one character: what `strip()` and `split()` treat as blank. */
  predicate IsSpace(c: char) {
    || c == ' ' || c == '\t' || c == '\n' || c == '\r'
    || c == '\U{000B}' || c == '\U{000C}'
    || ('\U{001C}' <= c <= '\U{001F}')
    || c == '\U{0085}' || c == '\U{00A0}' || c == '\U{1680}'
    || ('\U{2000}' <= c <= '\U{200A}')
    || c == '\U{2028}' || c == '\U{2029}' || c == '\U{202F}' || c == '\U{205F}' || c == '\U{3000}'
  }

  /** Every character of `s` is whitespace; true of the empty string. */
  predicate AllSpace(s: string) {
    forall i :: 0 <= i < |s| ==> IsSpace(s[i])
  }

  /** `p` occurs in `s` starting at offset `i`. */
  predicate OccursAt(s: string, p: string, i: int) {
    0 <= i && i + |p| <= |s| && s[i..i + |p|] == p
  }

  /** Python's `p in s` on two strings. */
  predicate Contains(s: string, p: string) {
    exists i | 0 <= i <= |s| - |p| :: OccursAt(s, p, i)
  }

  /** `r` sits at offset `i` of `s` with nothing but whitespace on either side of it. */
  predicate Framed(s: string, i: int, r: string) {
    0 <= i && i + |r| <= |s| && s[i..i + |r|] == r && AllSpace(s[..i]) && AllSpace(s[i + |r|..])
  }

  /** `w` sits somewhere in `s` with nothing but whitespace on either side of it. */
  ghost predicate FramedIn(s: string, w: string) {
    exists i :: Framed(s, i, w)
  }

  /** Two all-whitespace strings concatenate to an all-whitespace string. */
  lemma AllSpaceConcat(a: string, b: string)
    requires AllSpace(a) && AllSpace(b)
    ensures AllSpace(a + b)
  {
    forall j | 0 <= j < |a + b|
      ensures IsSpace((a + b)[j])
    {
      if j >= |a| { assert (a + b)[j] == b[j - |a|]; }
    }
  }

  /** Python's `s.startswith(p)`. */
  predicate StartsWith(s: string, p: string) {
    |p| <= |s| && s[..|p|] == p
  }

  /** `s.lstrip()`: the leading whitespace dropped. */
  function TrimLeft(s: string): (r: string)
    ensures |r| <= |s| && r == s[|s| - |r|..]
    ensures AllSpace(s[..|s| - |r|])
    ensures r == [] || !IsSpace(r[0])
  {
    if |s| > 0 && IsSpace(s[0]) then
      var r := TrimLeft(s[1..]);
      assert s[..|s| - |r|] == [s[0]] + s[1..][..|s[1..]| - |r|];
      r
    else s
  }

  /** `s.rstrip()`: the trailing whitespace dropped. */
  function TrimRight(s: string): (r: string)
    ensures |r| <= |s| && r == s[..|r|]
    ensures AllSpace(s[|r|..])
    ensures r == [] || !IsSpace(r[|r| - 1])
  {
    if |s| > 0 && IsSpace(s[|s| - 1]) then
      var r := TrimRight(s[..|s| - 1]);
      assert s[|r|..] == s[..|s| - 1][|r|..] + [s[|s| - 1]];
      r
    else s
  }

  /**
   * `s.strip()`: the longest middle slice of `s` that neither starts nor
   * ends with whitespace, and only whitespace around it.
   */
  function Strip(s: string): (r: string)
    ensures r == [] <==> AllSpace(s)
    ensures Bare(r)
    ensures FramedIn(s, r)
  {
    StripFrame(s);
    TrimRight(TrimLeft(s))
  }

  /** Trimming both ends leaves a slice framed by whitespace, empty only for an all-whitespace string. */
  lemma StripFrame(s: string)
    ensures Framed(s, |s| - |TrimLeft(s)|, TrimRight(TrimLeft(s)))
    ensures TrimRight(TrimLeft(s)) == [] <==> AllSpace(s)
  {
    var l := TrimLeft(s);
    var r := TrimRight(l);
    assert r == [] || !IsSpace(r[0]) by {
      if r != [] { assert r[0] == l[0]; }
    }
    FrameOfTrims(s, |s| - |l|, l, r);
  }

  /** A slice reached by dropping leading and then trailing whitespace is framed in the original string. */
  lemma FrameOfTrims(s: string, i: nat, l: string, r: string)
    requires i <= |s| && l == s[i..] && AllSpace(s[..i])
    requires |r| <= |l| && r == l[..|r|] && AllSpace(l[|r|..])
    requires r == [] || !IsSpace(r[0])
    ensures Framed(s, i, r)
    ensures r == [] <==> AllSpace(s)
  {
    assert s[i..i + |r|] == r;
    assert s[i + |r|..] == l[|r|..];
    if r == [] {
      AllSpaceConcat(s[..i], l);
      assert s == s[..i] + l;
    } else {
      assert s[i] == r[0];
    }
  }

  /** `s` neither starts nor ends with whitespace: `strip()` has nothing to remove from it. */
  predicate Bare(s: string) {
    s == [] || (!IsSpace(s[0]) && !IsSpace(s[|s| - 1]))
  }

  /** Where a slice is framed, every character outside it is whitespace and its ends are its own. */
  lemma FramedAround(s: string, i: int, w: string)
    requires Framed(s, i, w)
    ensures forall t :: 0 <= t < i ==> IsSpace(s[t])
    ensures forall t :: i + |w| <= t < |s| ==> IsSpace(s[t])
    ensures w != [] ==> s[i] == w[0] && s[i + |w| - 1] == w[|w| - 1]
  {
    forall t | 0 <= t < i
      ensures IsSpace(s[t])
    {
      assert s[..i][t] == s[t];
    }
    forall t | i + |w| <= t < |s|
      ensures IsSpace(s[t])
    {
      assert s[i + |w|..][t - i - |w|] == s[t];
    }
    if w != [] {
      assert s[i..i + |w|][0] == s[i];
      assert s[i..i + |w|][|w| - 1] == s[i + |w| - 1];
    }
  }

  /** A string has at most one non-empty bare slice with only whitespace around it. */
  lemma FramedUnique(s: string, i: int, w: string, j: int, r: string)
    requires Framed(s, i, w) && Framed(s, j, r)
    requires w != [] && Bare(w) && Bare(r)
    ensures j == i && r == w
  {
    FramedAround(s, i, w);
    FramedAround(s, j, r);
  }

  /** `s.strip() == w`, for a non-empty bare `w`, exactly when `w` sits in `s` with only whitespace around it. */
  lemma StripIsFramed(s: string, w: string)
    requires w != [] && Bare(w)
    ensures Strip(s) == w <==> FramedIn(s, w)
  {
    var r := Strip(s);
    if FramedIn(s, w) {
      var i :| Framed(s, i, w);
      var j :| Framed(s, j, r);
      FramedUnique(s, i, w, j, r);
    }
  }

  /** A bare value printed on its own line reads back unchanged: `(w + "\n").strip() == w`. */
  lemma StripLine(w: string)
    requires Bare(w)
    ensures Strip(w + "\n") == w
  {
    var s := w + "\n";
    assert s[..0] == [] && s[0..|w|] == w && s[|w|..] == "\n";
    assert Framed(s, 0, w);
    if w == [] {
      assert AllSpace(s);
    } else {
      StripIsFramed(s, w);
    }
  }

  /** The longest prefix of `s` free of whitespace. */
  function LeadingWord(s: string): (w: string)
    ensures |w| <= |s| && w == s[..|w|]
    ensures forall k :: 0 <= k < |w| ==> !IsSpace(w[k])
    ensures |w| == |s| || IsSpace(s[|w|])
  {
    if |s| == 0 || IsSpace(s[0]) then [] else [s[0]] + LeadingWord(s[1..])
  }

  /**
   * `s.strip().split()[0]`: the first whitespace-delimited word of `s`.
   * Python raises on a blank line; here the result is then empty, and every
   * caller only asks for the word of a line that contains a non-blank pattern.
   */
  function FirstToken(s: string): (t: string)
    ensures t == [] <==> AllSpace(s)
    ensures forall k :: 0 <= k < |t| ==> !IsSpace(t[k])
    ensures exists i :: WordAt(s, i, t)
  {
    var l := TrimLeft(s);
    var t := LeadingWord(l);
    var i := |s| - |l|;
    assert t == s[i..i + |t|];
    assert WordAt(s, i, t);
    if t == [] then
      assert s == s[..i];
      t
    else
      assert s[i] == t[0];
      t
  }

  /** `t` is a whole word of `s` at offset `i`, preceded only by whitespace. */
  predicate WordAt(s: string, i: int, t: string) {
    0 <= i && i + |t| <= |s| && AllSpace(s[..i]) && t == s[i..i + |t|]
    && (i + |t| == |s| || IsSpace(s[i + |t|]))
  }

  /** Leading whitespace is skipped by `lstrip`. */
  lemma {:induction false} TrimLeftSkipsBlanks(lead: string, rest: string)
    requires AllSpace(lead)
    requires rest == [] || !IsSpace(rest[0])
    ensures TrimLeft(lead + rest) == rest
    decreases |lead|
  {
    if |lead| > 0 {
      TrimLeftSkipsBlanks(lead[1..], rest);
      assert (lead + rest)[1..] == lead[1..] + rest;
    } else {
      assert lead + rest == rest;
    }
  }

  /** A whitespace-free word ended by whitespace or the end of the line is the leading word. */
  lemma {:induction false} LeadingWordOf(w: string, rest: string)
    requires forall k :: 0 <= k < |w| ==> !IsSpace(w[k])
    requires rest == [] || IsSpace(rest[0])
    ensures LeadingWord(w + rest) == w
    decreases |w|
  {
    if |w| > 0 {
      LeadingWordOf(w[1..], rest);
      assert (w + rest)[1..] == w[1..] + rest;
      assert [w[0]] + w[1..] == w;
    } else {
      assert w + rest == rest;
    }
  }

  /** The first word of `lead + w + rest`, for blank `lead` and a word `w` that `rest` ends. */
  lemma FirstTokenOf(lead: string, w: string, rest: string)
    requires AllSpace(lead)
    requires w != [] && forall k :: 0 <= k < |w| ==> !IsSpace(w[k])
    requires rest == [] || IsSpace(rest[0])
    ensures FirstToken(lead + w + rest) == w
  {
    assert lead + w + rest == lead + (w + rest);
    TrimLeftSkipsBlanks(lead, w + rest);
    LeadingWordOf(w, rest);
  }

  /** A line that contains a pattern with a non-blank character has a first word. */
  lemma ContainsNonBlankHasToken(s: string, p: string)
    requires Contains(s, p) && !AllSpace(p)
    ensures FirstToken(s) != []
  {
    var i :| 0 <= i <= |s| - |p| && OccursAt(s, p, i);
    var k :| 0 <= k < |p| && !IsSpace(p[k]);
    assert s[i + k] == p[k];
  }

  /** `s.split(sep)`: the fields between separators, empty fields kept. */
  function Split(s: string, sep: char): (fields: seq<string>)
    ensures |fields| >= 1
    ensures forall k :: 0 <= k < |fields| ==> sep !in fields[k]
    ensures |fields| > 1 <==> sep in s
  {
    if |s| == 0 then [[]]
    else if s[0] == sep then [[]] + Split(s[1..], sep)
    else
      var rest := Split(s[1..], sep);
      [[s[0]] + rest[0]] + rest[1..]
  }

  /** `sep.join(fields)`. */
  function Join(fields: seq<string>, sep: char): string {
    if |fields| == 0 then []
    else if |fields| == 1 then fields[0]
    else fields[0] + [sep] + Join(fields[1..], sep)
  }

  /** Joining the fields of a split gives the original string back. */
  lemma {:induction false} JoinSplit(s: string, sep: char)
    ensures Join(Split(s, sep), sep) == s
    decreases |s|
  {
    if |s| == 0 {
    } else if s[0] == sep {
      JoinSplit(s[1..], sep);
      assert s == [sep] + s[1..];
    } else {
      var rest := Split(s[1..], sep);
      JoinSplit(s[1..], sep);
      if |rest| == 1 {
        assert s == [s[0]] + s[1..];
      } else {
        assert rest == [rest[0]] + rest[1..];
        assert Join(rest, sep) == rest[0] + [sep] + Join(rest[1..], sep);
        assert s == [s[0]] + s[1..];
      }
    }
  }

  /** Splitting a separator-free field followed by a separator peels that field off. */
  lemma {:induction false} SplitAfterField(a: string, sep: char, rest: string)
    requires sep !in a
    ensures Split(a + [sep] + rest, sep) == [a] + Split(rest, sep)
    decreases |a|
  {
    if |a| == 0 {
      assert a + [sep] + rest == [sep] + rest;
      assert ([sep] + rest)[1..] == rest;
    } else {
      SplitAfterField(a[1..], sep, rest);
      var s := a + [sep] + rest;
      assert s[0] == a[0] && s[1..] == a[1..] + [sep] + rest;
      assert [a[0]] + a[1..] == a;
    }
  }

  /** A separator-free string is a single field. */
  lemma {:induction false} SplitNoSeparator(a: string, sep: char)
    requires sep !in a
    ensures Split(a, sep) == [a]
    decreases |a|
  {
    if |a| > 0 {
      SplitNoSeparator(a[1..], sep);
      assert [a[0]] + a[1..] == a;
    }
  }

  /** Splitting a join of separator-free fields gives the fields back. */
  lemma {:induction false} SplitJoin(fields: seq<string>, sep: char)
    requires |fields| >= 1
    requires forall k :: 0 <= k < |fields| ==> sep !in fields[k]
    ensures Split(Join(fields, sep), sep) == fields
    decreases |fields|
  {
    if |fields| == 1 {
      SplitNoSeparator(fields[0], sep);
    } else {
      SplitJoin(fields[1..], sep);
      SplitAfterField(fields[0], sep, Join(fields[1..], sep));
      assert fields == [fields[0]] + fields[1..];
    }
  }

  /** `s.replace(p, "")` for a non-empty `p`: occurrences removed left to right, without overlap. */
  function RemoveAll(s: string, p: string): (r: string)
    requires |p| > 0
    ensures |r| <= |s|
    decreases |s|
  {
    if StartsWith(s, p) then RemoveAll(s[|p|..], p)
    else if |s| == 0 then []
    else [s[0]] + RemoveAll(s[1..], p)
  }

  /** Removing a pattern that does not occur changes nothing. */
  lemma {:induction false} RemoveAllAbsent(s: string, p: string)
    requires |p| > 0 && !Contains(s, p)
    ensures RemoveAll(s, p) == s
    decreases |s|
  {
    if |s| > 0 {
      assert !StartsWith(s, p) by {
        if StartsWith(s, p) { assert OccursAt(s, p, 0); }
      }
      assert !Contains(s[1..], p) by {
        if Contains(s[1..], p) {
          var i :| 0 <= i <= |s[1..]| - |p| && OccursAt(s[1..], p, i);
          assert s[i + 1..i + 1 + |p|] == p;
          assert OccursAt(s, p, i + 1);
        }
      }
      RemoveAllAbsent(s[1..], p);
      assert [s[0]] + s[1..] == s;
    }
  }

  /**
   * A pattern whose first character does not recur in it cannot overlap a
   * string on its left: in `n + p + rest`, with `p` absent from `n`, the
   * first occurrence removed is the `p` after `n`, and removal continues
   * on `rest`.
   */
  lemma {:induction false} RemoveAllSplit(n: string, p: string, rest: string)
    requires |p| > 0 && p[0] !in p[1..]
    requires !Contains(n, p)
    ensures RemoveAll(n + p + rest, p) == n + RemoveAll(rest, p)
    decreases |n|
  {
    var s := n + p + rest;
    if |n| == 0 {
      assert s == p + rest && s[..|p|] == p && s[|p|..] == rest;
    } else {
      NoOverlapOnLeft(n, p, rest);
      AbsentFromTail(n, p);
      var tail := n[1..];
      assert s[0] == n[0] && s[1..] == tail + p + rest;
      assert RemoveAll(s, p) == [n[0]] + RemoveAll(tail + p + rest, p);
      RemoveAllSplit(tail, p, rest);
      assert [n[0]] + (tail + RemoveAll(rest, p)) == ([n[0]] + tail) + RemoveAll(rest, p);
      assert [n[0]] + tail == n;
    }
  }

  /** With `p` absent from the non-empty `n`, `n + p + rest` does not start with `p`. */
  lemma NoOverlapOnLeft(n: string, p: string, rest: string)
    requires |p| > 0 && p[0] !in p[1..]
    requires |n| > 0 && !Contains(n, p)
    ensures !StartsWith(n + p + rest, p)
  {
    var s := n + p + rest;
    if |n| >= |p| {
      assert !OccursAt(n, p, 0);
      assert s[..|p|] == n[..|p|];
    } else {
      assert p[|n|] == p[1..][|n| - 1];
      assert s[..|p|][|n|] == p[0] != p[|n|];
    }
  }

  /** A pattern absent from a string is absent from its tail. */
  lemma AbsentFromTail(n: string, p: string)
    requires |n| > 0 && !Contains(n, p)
    ensures !Contains(n[1..], p)
  {
    if Contains(n[1..], p) {
      var i :| 0 <= i <= |n[1..]| - |p| && OccursAt(n[1..], p, i);
      assert n[i + 1..i + 1 + |p|] == p;
      assert OccursAt(n, p, i + 1);
    }
  }

  /** Removing a pattern that occurs only as the suffix leaves the rest of the string. */
  lemma RemoveAllSuffix(n: string, p: string)
    requires |p| > 0 && p[0] !in p[1..]
    requires !Contains(n, p)
    ensures RemoveAll(n + p, p) == n
  {
    RemoveAllSplit(n, p, []);
    assert n + p + [] == n + p;
  }
}
