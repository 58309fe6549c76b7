/**
 * Python's `sorted(xs, key=k)`: a stable sort. `reverse=True` keeps
 * equal keys in their original order too, so it is an ascending stable
 * sort on the negated key.
 */
module Sorting {

  /** Non-decreasing by `key`. */
  predicate SortedBy<T>(s: seq<T>, key: T -> real) {
    forall i, j | 0 <= i < j < |s| :: key(s[i]) <= key(s[j])
  }

  /** The elements of `s` whose key is `v`, in their order in `s`. */
  function WithKey<T>(s: seq<T>, key: T -> real, v: real): seq<T> {
    if s == [] then []
    else WithKey(s[..|s| - 1], key, v) + (if key(s[|s| - 1]) == v then [s[|s| - 1]] else [])
  }

  lemma WithKeyAppend<T>(s: seq<T>, y: T, key: T -> real, v: real)
    ensures WithKey(s + [y], key, v) == WithKey(s, key, v) + (if key(y) == v then [y] else [])
  {
    assert (s + [y])[..|s|] == s;
  }

  /** Inserts `x` after the last element whose key is at most `x`'s. */
  function Insert<T>(t: seq<T>, x: T, key: T -> real): (r: seq<T>)
    ensures multiset(r) == multiset(t) + multiset{x}
    ensures |r| == |t| + 1
  {
    if t == [] then [x]
    else if key(t[|t| - 1]) <= key(x) then t + [x]
    else
      assert t == t[..|t| - 1] + [t[|t| - 1]];
      Insert(t[..|t| - 1], x, key) + [t[|t| - 1]]
  }

  /** Insertion into a sorted sequence keeps it sorted. */
  lemma {:induction false} InsertSorted<T>(t: seq<T>, x: T, key: T -> real)
    requires SortedBy(t, key)
    ensures SortedBy(Insert(t, x, key), key)
  {
    if t != [] && key(t[|t| - 1]) > key(x) {
      var init, last := t[..|t| - 1], t[|t| - 1];
      assert t == init + [last];
      SortedSlice(t, key, 0, |t| - 1);
      InsertSorted(init, x, key);
      BoundedByLast(init, last, x, Insert(init, x, key), key);
    }
  }

  lemma BoundedByLast<T>(init: seq<T>, last: T, x: T, r': seq<T>, key: T -> real)
    requires SortedBy(init + [last], key) && key(x) < key(last)
    requires SortedBy(r', key) && multiset(r') == multiset(init) + multiset{x}
    ensures SortedBy(r' + [last], key)
  {
    forall i | 0 <= i < |r'| ensures key(r'[i]) <= key(last) {
      var y := r'[i];
      assert y in multiset(r');
      if y != x {
        assert y in multiset(init);
        assert y in init;
        var k :| 0 <= k < |init| && init[k] == y;
        assert (init + [last])[k] == y && (init + [last])[|init|] == last;
      }
    }
  }

  /** Insertion keeps the relative order of equal keys. */
  lemma {:induction false} InsertStable<T>(t: seq<T>, x: T, key: T -> real, v: real)
    requires SortedBy(t, key)
    ensures WithKey(Insert(t, x, key), key, v) == WithKey(t, key, v) + (if key(x) == v then [x] else [])
  {
    if t == [] {
      WithKeyAppend([], x, key, v);
    } else if key(t[|t| - 1]) <= key(x) {
      WithKeyAppend(t, x, key, v);
    } else {
      var init, last := t[..|t| - 1], t[|t| - 1];
      assert t == init + [last];
      SortedSlice(t, key, 0, |t| - 1);
      var r' := Insert(init, x, key);
      assert Insert(t, x, key) == r' + [last];
      InsertStable(init, x, key, v);
      WithKeyAppend(r', last, key, v);
      WithKeyAppend(init, last, key, v);
      var w, xs, ls := WithKey(init, key, v), (if key(x) == v then [x] else []), (if key(last) == v then [last] else []);
      if xs == [] {
        assert w + xs + ls == w + ls + xs;
      } else {
        assert ls == [];
        assert w + xs + ls == w + ls + xs;
      }
    }
  }

  /** `sorted(s, key=key)`; `SortByProps` states that it sorts. */
  function SortBy<T>(s: seq<T>, key: T -> real): (r: seq<T>)
    ensures |r| == |s|
  {
    if s == [] then [] else Insert(SortBy(s[..|s| - 1], key), s[|s| - 1], key)
  }

  /** The result is ordered by `key` and is a permutation of the input. */
  lemma {:induction false} SortByProps<T>(s: seq<T>, key: T -> real)
    ensures SortedBy(SortBy(s, key), key)
    ensures multiset(SortBy(s, key)) == multiset(s)
  {
    if s != [] {
      var init, last := s[..|s| - 1], s[|s| - 1];
      assert s == init + [last];
      SortByProps(init, key);
      InsertSorted(SortBy(init, key), last, key);
    }
  }

  /** The sort is stable: the elements of any one key keep their input order. */
  lemma {:induction false} SortStable<T>(s: seq<T>, key: T -> real, v: real)
    ensures WithKey(SortBy(s, key), key, v) == WithKey(s, key, v)
  {
    if s != [] {
      var init, last := s[..|s| - 1], s[|s| - 1];
      var sorted := SortBy(init, key);
      var xs := if key(last) == v then [last] else [];
      SortByProps(init, key);
      assert s == init + [last];
      calc {
        WithKey(SortBy(s, key), key, v);
        WithKey(Insert(sorted, last, key), key, v);
        { InsertStable(sorted, last, key, v); }
        WithKey(sorted, key, v) + xs;
        { SortStable(init, key, v); }
        WithKey(init, key, v) + xs;
        { WithKeyAppend(init, last, key, v); }
        WithKey(s, key, v);
      }
    }
  }

  /** The last element of a sorted non-empty sequence has the largest key. */
  lemma LastIsMax<T>(s: seq<T>, key: T -> real, x: T)
    requires SortedBy(s, key) && x in s
    ensures key(x) <= key(s[|s| - 1])
  {
    var i :| 0 <= i < |s| && s[i] == x;
    if i < |s| - 1 {
      assert key(s[i]) <= key(s[|s| - 1]);
    }
  }

  /** A sorted sequence stays sorted in any slice. */
  lemma SortedSlice<T>(s: seq<T>, key: T -> real, i: nat, j: nat)
    requires SortedBy(s, key) && i <= j <= |s|
    ensures SortedBy(s[i..j], key)
  {
  }
}
