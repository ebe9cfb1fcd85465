/** Python's `list.sort(key=...)` on real-valued keys: a stable sort. It is
    modelled as insertion sort, which is stable, and characterised by three
    properties: the result is ordered by key, it is a permutation of the input,
    and the entries that share a key keep their input order. */
module Sorting {

  /** `s` is ordered by non-decreasing key. */
  predicate SortedBy<T>(s: seq<T>, key: T -> real) {
    forall i, j :: 0 <= i < j < |s| ==> key(s[i]) <= key(s[j])
  }

  /** The entries of `s` whose key is `k`, in the order they appear in `s`. */
  function WithKey<T>(s: seq<T>, key: T -> real, k: real): (r: seq<T>)
    ensures |r| <= |s|
  {
    if s == [] then []
    else WithKey(s[..|s| - 1], key, k) + (if key(s[|s| - 1]) == k then [s[|s| - 1]] else [])
  }

  /** Places `x` into the sorted `s` after every entry whose key is not greater. */
  function Insert<T>(s: seq<T>, x: T, key: T -> real): (r: seq<T>)
    ensures |r| == |s| + 1
    ensures multiset(r) == multiset(s) + multiset{x}
  {
    if s == [] || key(s[|s| - 1]) <= key(x) then s + [x]
    else
      assert s == s[..|s| - 1] + [s[|s| - 1]];
      Insert(s[..|s| - 1], x, key) + [s[|s| - 1]]
  }

  /** The stable sort of `s` by `key`. */
  function Sort<T>(s: seq<T>, key: T -> real): (r: seq<T>)
    ensures |r| == |s|
    ensures multiset(r) == multiset(s)
  {
    if s == [] then []
    else
      assert s == s[..|s| - 1] + [s[|s| - 1]];
      Insert(Sort(s[..|s| - 1], key), s[|s| - 1], key)
  }

  lemma {:induction false} InsertSorted<T>(s: seq<T>, x: T, key: T -> real)
    requires SortedBy(s, key)
    ensures SortedBy(Insert(s, x, key), key)
  {
    if s == [] || key(s[|s| - 1]) <= key(x) {
    } else {
      var front, last := s[..|s| - 1], s[|s| - 1];
      InsertSorted(front, x, key);
      var r := Insert(front, x, key);
      forall y | y in r ensures key(y) <= key(last) {
        assert y in multiset(r);
        if y != x {
          assert y in multiset(front);
        }
      }
    }
  }

  /** `WithKey` of a sequence extended by one entry. */
  lemma WithKeySnoc<T>(s: seq<T>, x: T, key: T -> real, k: real)
    ensures WithKey(s + [x], key, k) == WithKey(s, key, k) + (if key(x) == k then [x] else [])
  {
    assert (s + [x])[..|s|] == s;
  }

  lemma {:induction false} InsertWithKey<T>(s: seq<T>, x: T, key: T -> real, k: real)
    requires SortedBy(s, key)
    ensures WithKey(Insert(s, x, key), key, k) == WithKey(s, key, k) + (if key(x) == k then [x] else [])
  {
    if s == [] || key(s[|s| - 1]) <= key(x) {
      WithKeySnoc(s, x, key, k);
    } else {
      var front, last := s[..|s| - 1], s[|s| - 1];
      var r := Insert(front, x, key);
      assert Insert(s, x, key) == r + [last];
      WithKeySnoc(r, last, key, k);
      InsertWithKey(front, x, key, k);
      assert s == front + [last];
      WithKeySnoc(front, last, key, k);
      var wf := WithKey(front, key, k);
      if key(x) == k {
        assert key(last) != k;
        assert WithKey(Insert(s, x, key), key, k) == wf + [x];
        assert WithKey(s, key, k) == wf;
      } else if key(last) == k {
        assert WithKey(Insert(s, x, key), key, k) == wf + [last];
        assert WithKey(s, key, k) == wf + [last];
      } else {
        assert WithKey(Insert(s, x, key), key, k) == wf;
        assert WithKey(s, key, k) == wf;
      }
    }
  }

  /** The sort orders its result by key. */
  lemma {:induction false} SortSorted<T>(s: seq<T>, key: T -> real)
    ensures SortedBy(Sort(s, key), key)
  {
    if s != [] {
      SortSorted(s[..|s| - 1], key);
      InsertSorted(Sort(s[..|s| - 1], key), s[|s| - 1], key);
    }
  }

  /** The sort is stable: for every key, the entries carrying it appear in
      the result in the same order as in the input. */
  lemma {:induction false} SortStable<T>(s: seq<T>, key: T -> real, k: real)
    ensures WithKey(Sort(s, key), key, k) == WithKey(s, key, k)
  {
    if s != [] {
      var front := s[..|s| - 1];
      SortStable(front, key, k);
      SortSorted(front, key);
      InsertWithKey(Sort(front, key), s[|s| - 1], key, k);
    }
  }
}
