/**
 * Stable sorting by a real-valued key, in either direction.
 *
 * Python's `sorted` and `list.sort` are stable: elements with equal keys keep
 * their input order, also with `reverse=True`. The scheduler uses them three
 * times (the partitioner's utilisation order, the EDF queue order and the
 * EDF(k) utilisation order), so the sort is modelled once here, as an
 * insertion sort whose result is sorted, a permutation of its input and
 * stable (its sub-sequence for every key value equals the input's).
 */
module Sorting {

  datatype Direction = Ascending | Descending

  /** `a` may stand before `b` in a sequence sorted in direction `dir`. */
  predicate InOrder(dir: Direction, a: real, b: real) {
    match dir
    case Ascending => a <= b
    case Descending => a >= b
  }

  ghost predicate SortedBy<T>(s: seq<T>, key: T -> real, dir: Direction) {
    forall i, j :: 0 <= i < j < |s| ==> InOrder(dir, key(s[i]), key(s[j]))
  }

  /**
   * Puts `x` in front of the first element it may precede. Every element it
   * passes has a key strictly on the wrong side of `x`'s, so `x` ends up before
   * all elements whose key equals its own: this is what makes the sort stable.
   */
  function Insert<T>(x: T, s: seq<T>, key: T -> real, dir: Direction): (r: seq<T>)
    ensures |r| == |s| + 1
    ensures multiset(r) == multiset(s) + multiset{x}
  {
    if s == [] || InOrder(dir, key(x), key(s[0])) then [x] + s
    else
      assert s == [s[0]] + s[1..];
      [s[0]] + Insert(x, s[1..], key, dir)
  }

  function SortBy<T>(s: seq<T>, key: T -> real, dir: Direction): (r: seq<T>)
    ensures |r| == |s|
    ensures multiset(r) == multiset(s)
  {
    if s == [] then []
    else
      assert s == [s[0]] + s[1..];
      Insert(s[0], SortBy(s[1..], key, dir), key, dir)
  }

  /** The elements of `s` whose key is `v`, in their order in `s`. */
  function WithKey<T>(s: seq<T>, key: T -> real, v: real): seq<T> {
    if s == [] then []
    else (if key(s[0]) == v then [s[0]] else []) + WithKey(s[1..], key, v)
  }

  lemma {:induction false} InsertSorted<T>(x: T, s: seq<T>, key: T -> real, dir: Direction)
    requires SortedBy(s, key, dir)
    ensures SortedBy(Insert(x, s, key, dir), key, dir)
  {
    if s == [] || InOrder(dir, key(x), key(s[0])) {
    } else {
      var rest := Insert(x, s[1..], key, dir);
      InsertSorted(x, s[1..], key, dir);
      forall i | 0 <= i < |rest|
        ensures InOrder(dir, key(s[0]), key(rest[i]))
      {
        assert rest[i] in multiset(rest);
        if rest[i] != x {
          assert rest[i] in s[1..];
        }
      }
    }
  }

  lemma {:induction false} SortBySorted<T>(s: seq<T>, key: T -> real, dir: Direction)
    ensures SortedBy(SortBy(s, key, dir), key, dir)
  {
    if s != [] {
      SortBySorted(s[1..], key, dir);
      InsertSorted(s[0], SortBy(s[1..], key, dir), key, dir);
    }
  }

  lemma {:induction false} WithKeyCons<T>(x: T, s: seq<T>, key: T -> real, v: real)
    ensures WithKey([x] + s, key, v) == (if key(x) == v then [x] else []) + WithKey(s, key, v)
  {
    assert ([x] + s)[1..] == s;
  }

  lemma {:induction false} InsertStable<T>(x: T, s: seq<T>, key: T -> real, dir: Direction, v: real)
    ensures WithKey(Insert(x, s, key, dir), key, v) == (if key(x) == v then [x] else []) + WithKey(s, key, v)
  {
    if s == [] || InOrder(dir, key(x), key(s[0])) {
      WithKeyCons(x, s, key, v);
    } else {
      var rest := Insert(x, s[1..], key, dir);
      var here: seq<T> := if key(s[0]) == v then [s[0]] else [];
      var mine: seq<T> := if key(x) == v then [x] else [];
      var tail := WithKey(s[1..], key, v);
      assert here == [] || mine == [] by {
        assert key(s[0]) != key(x);
      }
      calc {
        WithKey(Insert(x, s, key, dir), key, v);
        { assert Insert(x, s, key, dir) == [s[0]] + rest; }
        WithKey([s[0]] + rest, key, v);
        { WithKeyCons(s[0], rest, key, v); }
        here + WithKey(rest, key, v);
        { InsertStable(x, s[1..], key, dir, v); }
        here + (mine + tail);
        { SwapEmpty(here, mine, tail); }
        mine + (here + tail);
        { WithKeyCons(s[0], s[1..], key, v); assert [s[0]] + s[1..] == s; }
        mine + WithKey(s, key, v);
      }
    }
  }

  lemma SwapEmpty<T>(a: seq<T>, b: seq<T>, c: seq<T>)
    requires a == [] || b == []
    ensures a + (b + c) == b + (a + c)
  {
  }

  /** Stability: for every key value, the sorted sequence lists the elements with that key in input order. */
  lemma {:induction false} SortByStable<T>(s: seq<T>, key: T -> real, dir: Direction, v: real)
    ensures WithKey(SortBy(s, key, dir), key, v) == WithKey(s, key, v)
  {
    if s != [] {
      SortByStable(s[1..], key, dir, v);
      InsertStable(s[0], SortBy(s[1..], key, dir), key, dir, v);
      WithKeyCons(s[0], s[1..], key, v);
      assert [s[0]] + s[1..] == s;
    }
  }
}
