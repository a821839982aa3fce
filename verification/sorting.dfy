/**
 * `sortCountries` (utils/countryUtils.tsx:9-11): a copy of the list sorted by a
 * string key. `Array.prototype.sort` is stable, so elements with equal keys
 * keep their relative order; the model is a stable insertion sort over an
 * immutable sequence, so the input is never mutated.
 */
module Sorting {
  import opened Text

  /** Non-decreasing by `key` under the character order. */
  predicate Sorted<T>(s: seq<T>, key: T -> string) {
    forall i, j | 0 <= i < j < |s| :: LexLe(key(s[i]), key(s[j]))
  }

  /** The elements of `xs` whose key is `k`, in their order in `xs`. */
  function WithKey<T>(xs: seq<T>, key: T -> string, k: string): (r: seq<T>)
    ensures |r| <= |xs|
  {
    if |xs| == 0 then []
    else (if key(xs[0]) == k then [xs[0]] else []) + WithKey(xs[1..], key, k)
  }

  /** A head no larger than any element of a sorted tail keeps the sequence sorted. */
  lemma SortedCons<T>(h: T, t: seq<T>, key: T -> string)
    requires Sorted(t, key)
    requires forall y | y in t :: LexLe(key(h), key(y))
    ensures Sorted([h] + t, key)
  {
    var r := [h] + t;
    forall i, j | 0 <= i < j < |r| ensures LexLe(key(r[i]), key(r[j])) {
      assert r[j] == t[j - 1];
      if i > 0 { assert r[i] == t[i - 1]; }
    }
  }

  /** The first element of a sorted sequence is a lower bound of all of it. */
  lemma HeadIsLowerBound<T>(x: T, s: seq<T>, key: T -> string)
    requires Sorted(s, key) && |s| > 0 && LexLe(key(x), key(s[0]))
    ensures forall y | y in s :: LexLe(key(x), key(y))
  {
    forall y | y in s ensures LexLe(key(x), key(y)) {
      var j :| 0 <= j < |s| && s[j] == y;
      if j > 0 { LexLeTransitive(key(x), key(s[0]), key(s[j])); }
    }
  }

  /** Every element of the tail's insertion result is at least the head. */
  lemma HeadBelowInsertion<T>(s: seq<T>, x: T, rest: seq<T>, key: T -> string)
    requires Sorted(s, key) && |s| > 0 && LexLe(key(s[0]), key(x))
    requires multiset(rest) == multiset(s[1..]) + multiset{x}
    ensures forall y | y in rest :: LexLe(key(s[0]), key(y))
  {
    forall y | y in rest ensures LexLe(key(s[0]), key(y)) {
      assert y in multiset(rest);
      if y != x {
        assert y in multiset(s[1..]);
        var j :| 0 <= j < |s[1..]| && s[1..][j] == y;
        assert s[j + 1] == y;
      }
    }
  }

  /**
   * Inserts `x` in front of the first element whose key is not smaller, so it
   * lands before any element with an equal key.
   */
  function Insert<T(==)>(x: T, s: seq<T>, key: T -> string): (r: seq<T>)
    requires Sorted(s, key)
    ensures multiset(r) == multiset(s) + multiset{x}
    ensures Sorted(r, key)
  {
    if |s| == 0 then [x]
    else if LexLe(key(x), key(s[0])) then
      HeadIsLowerBound(x, s, key);
      SortedCons(x, s, key);
      [x] + s
    else
      assert Sorted(s[1..], key);
      var rest := Insert(x, s[1..], key);
      LexLeTotal(key(x), key(s[0]));
      HeadBelowInsertion(s, x, rest, key);
      SortedCons(s[0], rest, key);
      assert s == [s[0]] + s[1..];
      [s[0]] + rest
  }

  /** `[...xs].sort((a, b) => key(a).localeCompare(key(b)))`. */
  function Sort<T(==)>(xs: seq<T>, key: T -> string): (r: seq<T>)
    ensures multiset(r) == multiset(xs)
    ensures |r| == |xs|
    ensures Sorted(r, key)
  {
    if |xs| == 0 then []
    else
      assert xs == [xs[0]] + xs[1..];
      var r := Insert(xs[0], Sort(xs[1..], key), key);
      assert |r| == |multiset(r)| == |multiset(xs)| == |xs|;
      r
  }

  /** Inserting `x` puts it before every element with the same key as `x`. */
  lemma {:induction false} InsertWithKey<T>(x: T, s: seq<T>, key: T -> string, k: string)
    requires Sorted(s, key)
    ensures WithKey(Insert(x, s, key), key, k) == WithKey([x] + s, key, k)
  {
    var fx := if key(x) == k then [x] else [];
    assert WithKey([x] + s, key, k) == fx + WithKey(s, key, k) by {
      assert ([x] + s)[1..] == s;
    }
    if |s| > 0 && !LexLe(key(x), key(s[0])) {
      var fs := if key(s[0]) == k then [s[0]] else [];
      Text.LexLeReflexive(key(x));
      assert key(s[0]) != key(x);
      assert fs + fx == fx + fs;
      var rest := Insert(x, s[1..], key);
      assert Sorted(s[1..], key);
      InsertWithKey(x, s[1..], key, k);
      assert WithKey(Insert(x, s, key), key, k) == fs + WithKey(rest, key, k) by {
        assert Insert(x, s, key) == [s[0]] + rest;
        assert ([s[0]] + rest)[1..] == rest;
      }
      assert WithKey([x] + s[1..], key, k) == fx + WithKey(s[1..], key, k) by {
        assert ([x] + s[1..])[1..] == s[1..];
      }
      assert WithKey(s, key, k) == fs + WithKey(s[1..], key, k);
    }
  }

  /**
   * Stability: restricted to any one key, the sorted sequence lists the same
   * elements in the same order as the input.
   */
  lemma {:induction false} SortIsStable<T>(xs: seq<T>, key: T -> string, k: string)
    ensures WithKey(Sort(xs, key), key, k) == WithKey(xs, key, k)
  {
    if |xs| > 0 {
      var tail := Sort(xs[1..], key);
      SortIsStable(xs[1..], key, k);
      InsertWithKey(xs[0], tail, key, k);
      assert ([xs[0]] + tail)[1..] == tail;
    }
  }

  /** Sorting an already sorted sequence changes nothing. */
  lemma {:induction false} SortOfSorted<T>(xs: seq<T>, key: T -> string)
    requires Sorted(xs, key)
    ensures Sort(xs, key) == xs
  {
    if |xs| > 0 {
      assert Sorted(xs[1..], key);
      SortOfSorted(xs[1..], key);
      assert xs == [xs[0]] + xs[1..];
    }
  }

  /** `sortCountries(sortCountries(xs))` equals `sortCountries(xs)`. */
  lemma SortIdempotent<T>(xs: seq<T>, key: T -> string)
    ensures Sort(Sort(xs, key), key) == Sort(xs, key)
  {
    SortOfSorted(Sort(xs, key), key);
  }
}
