/**
 * The set of expanded section titles (`toggleSection` in app/page.tsx), kept
 * as a list: toggling a title that is present removes every copy of it,
 * toggling an absent title appends it.
 */
module Expansion {

  /** `xs.filter(x => x !== t)`. */
  function RemoveAll(xs: seq<string>, t: string): (r: seq<string>)
    ensures forall x :: x in r <==> x in xs && x != t
    ensures |r| <= |xs|
  {
    if xs == [] then []
    else (if xs[0] == t then [] else [xs[0]]) + RemoveAll(xs[1..], t)
  }

  /** Filtering distributes over concatenation, so the kept titles keep their order. */
  lemma {:induction false} RemoveAllAppend(a: seq<string>, b: seq<string>, t: string)
    ensures RemoveAll(a + b, t) == RemoveAll(a, t) + RemoveAll(b, t)
  {
    if a == [] {
      assert a + b == b;
    } else {
      assert (a + b)[0] == a[0];
      assert (a + b)[1..] == a[1..] + b;
      RemoveAllAppend(a[1..], b, t);
    }
  }

  /** Filtering removes every copy of `t` and nothing else. */
  lemma {:induction false} RemoveAllCounts(xs: seq<string>, t: string)
    ensures multiset(RemoveAll(xs, t)) == multiset(xs)[t := 0]
  {
    if xs != [] {
      RemoveAllCounts(xs[1..], t);
      assert xs == [xs[0]] + xs[1..];
    }
  }

  /** Filtering out an absent title changes nothing. */
  lemma {:induction false} RemoveAllAbsent(xs: seq<string>, t: string)
    requires t !in xs
    ensures RemoveAll(xs, t) == xs
  {
    if xs != [] {
      assert xs == [xs[0]] + xs[1..];
      RemoveAllAbsent(xs[1..], t);
      assert xs == [xs[0]] + xs[1..];
    }
  }

  /** No title occurs twice. */
  predicate NoDuplicates(xs: seq<string>)
  {
    forall i, j :: 0 <= i < j < |xs| ==> xs[i] != xs[j]
  }

  /** Filtering keeps a list free of duplicates. */
  lemma {:induction false} RemoveAllNoDuplicates(xs: seq<string>, t: string)
    requires NoDuplicates(xs)
    ensures NoDuplicates(RemoveAll(xs, t))
  {
    if xs != [] {
      var tail := xs[1..];
      assert NoDuplicates(tail) by {
        forall i, j | 0 <= i < j < |tail| ensures tail[i] != tail[j] {
          assert tail[i] == xs[i + 1] && tail[j] == xs[j + 1];
        }
      }
      RemoveAllNoDuplicates(tail, t);
      var rest := RemoveAll(tail, t);
      if xs[0] != t {
        assert xs[0] !in tail by {
          forall j | 0 <= j < |tail| ensures tail[j] != xs[0] {
            assert tail[j] == xs[j + 1];
          }
        }
        var r := [xs[0]] + rest;
        forall i, j | 0 <= i < j < |r| ensures r[i] != r[j] {
          if i == 0 {
            assert r[j] == rest[j - 1];
          } else {
            assert r[i] == rest[i - 1] && r[j] == rest[j - 1];
          }
        }
      }
    }
  }

  /** The new expanded list after a click on the header titled `t`. */
  function Toggle(xs: seq<string>, t: string): (r: seq<string>)
    ensures t in r <==> t !in xs
    ensures forall u :: u != t ==> (u in r <==> u in xs)
  {
    if t in xs then RemoveAll(xs, t) else xs + [t]
  }

  /** Toggling keeps the list free of duplicates. */
  lemma ToggleNoDuplicates(xs: seq<string>, t: string)
    requires NoDuplicates(xs)
    ensures NoDuplicates(Toggle(xs, t))
  {
    if t in xs {
      RemoveAllNoDuplicates(xs, t);
    }
  }

  /** Two toggles of a title that was collapsed give back the very same list. */
  lemma ToggleTwiceAbsent(xs: seq<string>, t: string)
    requires t !in xs
    ensures Toggle(Toggle(xs, t), t) == xs
  {
    RemoveAllAppend(xs, [t], t);
    RemoveAllAbsent(xs, t);
    assert RemoveAll([t], t) == [];
  }

  /**
   * Two toggles of a title that was expanded move it to the end: the list has
   * the same members, but not necessarily the same order.
   */
  lemma ToggleTwicePresent(xs: seq<string>, t: string)
    requires t in xs
    ensures Toggle(Toggle(xs, t), t) == RemoveAll(xs, t) + [t]
    ensures forall u :: u in Toggle(Toggle(xs, t), t) <==> u in xs
  {
  }
}
