/** Values shared by every part of the model. */
module Common {

  /** A probe that either produced a value or raised (`None`). */
  datatype Option<+T> = None | Some(value: T)

  /** An argument vector handed to an external program, program name first. */
  type Command = seq<string>

  /** What each item of a list yields, item after item. */
  function ConcatMap<T, U>(items: seq<T>, plan: T -> seq<U>): seq<U> {
    if |items| == 0 then []
    else plan(items[0]) + ConcatMap(items[1..], plan)
  }

  /** The parts laid end to end. */
  function Flatten<T>(parts: seq<seq<T>>): seq<T> {
    if |parts| == 0 then [] else parts[0] + Flatten(parts[1..])
  }

  /** What two consecutive stretches of items yield comes one stretch after the other. */
  lemma {:induction false} ConcatMapAppend<T, U>(a: seq<T>, b: seq<T>, plan: T -> seq<U>)
    ensures ConcatMap(a + b, plan) == ConcatMap(a, plan) + ConcatMap(b, plan)
    decreases |a|
  {
    if |a| == 0 {
      assert a + b == b;
    } else {
      ConcatMapAppend(a[1..], b, plan);
      assert (a + b)[0] == a[0];
      assert (a + b)[1..] == a[1..] + b;
    }
  }

  /** Nothing is yielded exactly when no item yields anything. */
  lemma {:induction false} ConcatMapEmpty<T, U>(items: seq<T>, plan: T -> seq<U>)
    ensures ConcatMap(items, plan) == [] <==> forall k :: 0 <= k < |items| ==> plan(items[k]) == []
    decreases |items|
  {
    if |items| > 0 {
      ConcatMapEmpty(items[1..], plan);
      if ConcatMap(items, plan) == [] {
        forall k | 0 <= k < |items| ensures plan(items[k]) == [] {
          if k > 0 { assert items[k] == items[1..][k - 1]; }
        }
      } else if plan(items[0]) == [] {
        var k :| 0 <= k < |items[1..]| && plan(items[1..][k]) != [];
        assert items[1..][k] == items[k + 1];
      }
    }
  }

  /** Item `k` of the list yields `x`. */
  predicate Yields<T, U(==)>(items: seq<T>, plan: T -> seq<U>, k: int, x: U) {
    0 <= k < |items| && x in plan(items[k])
  }

  /** Everything yielded comes from some item, and everything an item yields is in the result. */
  lemma {:induction false} ConcatMapMembership<T, U>(items: seq<T>, plan: T -> seq<U>, x: U)
    ensures x in ConcatMap(items, plan) <==> exists k :: Yields(items, plan, k, x)
    decreases |items|
  {
    if |items| > 0 {
      ConcatMapMembership(items[1..], plan, x);
      if x in ConcatMap(items, plan) {
        if x in plan(items[0]) {
          assert Yields(items, plan, 0, x);
        } else {
          var k :| Yields(items[1..], plan, k, x);
          assert items[1..][k] == items[k + 1];
          assert Yields(items, plan, k + 1, x);
        }
      }
      if exists k :: Yields(items, plan, k, x) {
        var k :| Yields(items, plan, k, x);
        if k > 0 {
          assert items[1..][k - 1] == items[k];
          assert Yields(items[1..], plan, k - 1, x);
        }
      }
    }
  }
}
