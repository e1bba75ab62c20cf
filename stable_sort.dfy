/** The sort `combinedData.sort((a, b) => a.order - b.order)` of the row
    transform. `Array.prototype.sort` is stable (ECMAScript 2019 and later), and
    the keys it compares are never NaN, so the comparator is a consistent total
    preorder; the library sort is modelled by a stable insertion sort on
    sequences, which it must agree with on every input. */
module StableSort {

  /** Keys never decrease from left to right. */
  predicate SortedBy<T>(s: seq<T>, key: T -> real) {
    forall i, j :: 0 <= i < j < |s| ==> key(s[i]) <= key(s[j])
  }

  /** The elements of `s` whose key is `k`, in their order in `s`. */
  function KeyRun<T>(s: seq<T>, key: T -> real, k: real): (r: seq<T>)
    ensures |r| <= |s|
  {
    if s == [] then []
    else KeyRun(s[..|s| - 1], key, k) + (if key(s[|s| - 1]) == k then [s[|s| - 1]] else [])
  }

  /** `x` placed into `s` after every element whose key is not larger than its own. */
  function Insert<T>(s: seq<T>, x: T, key: T -> real): (r: seq<T>)
    ensures |r| == |s| + 1
    ensures multiset(r) == multiset(s) + multiset{x}
  {
    if s == [] then [x]
    else if key(s[|s| - 1]) <= key(x) then s + [x]
    else
      var init := s[..|s| - 1];
      assert s == init + [s[|s| - 1]];
      Insert(init, x, key) + [s[|s| - 1]]
  }

  /** Ascending stable sort by `key`. */
  function SortBy<T>(s: seq<T>, key: T -> real): (r: seq<T>)
    ensures |r| == |s|
    ensures multiset(r) == multiset(s)
  {
    if s == [] then []
    else
      assert s == s[..|s| - 1] + [s[|s| - 1]];
      Insert(SortBy(s[..|s| - 1], key), s[|s| - 1], key)
  }

  lemma {:induction false} InsertSorted<T>(s: seq<T>, x: T, key: T -> real)
    requires SortedBy(s, key)
    ensures SortedBy(Insert(s, x, key), key)
  {
    if s != [] && key(x) < key(s[|s| - 1]) {
      var init, last := s[..|s| - 1], s[|s| - 1];
      InsertSorted(init, x, key);
      var t := Insert(init, x, key);
      forall i | 0 <= i < |t| ensures key(t[i]) <= key(last) {
        assert t[i] in multiset(t);
        if t[i] != x {
          assert t[i] in multiset(init);
          var j :| 0 <= j < |init| && init[j] == t[i];
          assert s[j] == t[i];
        }
      }
    }
  }

  lemma {:induction false} InsertKeyRun<T>(s: seq<T>, x: T, key: T -> real, k: real)
    ensures KeyRun(Insert(s, x, key), key, k) == KeyRun(s, key, k) + (if key(x) == k then [x] else [])
  {
    if s == [] {
      assert KeyRun([x], key, k) == KeyRun([], key, k) + (if key(x) == k then [x] else []);
    } else if key(s[|s| - 1]) <= key(x) {
      assert (s + [x])[..|s|] == s;
    } else {
      var init, last := s[..|s| - 1], s[|s| - 1];
      var t := Insert(init, x, key);
      InsertKeyRun(init, x, key, k);
      assert (t + [last])[..|t|] == t;
      assert KeyRun(t + [last], key, k) == KeyRun(t, key, k) + (if key(last) == k then [last] else []);
    }
  }

  /** The sort is ascending, a permutation, and stable: for every key, the
      elements carrying that key appear in the same relative order as before. */
  lemma {:induction false} SortByIsStable<T>(s: seq<T>, key: T -> real)
    ensures SortedBy(SortBy(s, key), key)
    ensures multiset(SortBy(s, key)) == multiset(s)
    ensures forall k :: KeyRun(SortBy(s, key), key, k) == KeyRun(s, key, k)
  {
    if s != [] {
      var init, last := s[..|s| - 1], s[|s| - 1];
      SortByIsStable(init, key);
      InsertSorted(SortBy(init, key), last, key);
      forall k ensures KeyRun(SortBy(s, key), key, k) == KeyRun(s, key, k) {
        InsertKeyRun(SortBy(init, key), last, key, k);
      }
    }
  }

  /** An input that is already in key order comes back unchanged. */
  lemma {:induction false} SortBySortedIdentity<T>(s: seq<T>, key: T -> real)
    requires SortedBy(s, key)
    ensures SortBy(s, key) == s
  {
    if s != [] {
      var init, last := s[..|s| - 1], s[|s| - 1];
      assert SortedBy(init, key) by {
        forall i, j | 0 <= i < j < |init| ensures key(init[i]) <= key(init[j]) {
          assert init[i] == s[i] && init[j] == s[j];
        }
      }
      SortBySortedIdentity(init, key);
      if init != [] {
        assert key(init[|init| - 1]) <= key(last) by {
          assert init[|init| - 1] == s[|s| - 2];
        }
      }
      assert SortBy(s, key) == Insert(init, last, key);
      assert init + [last] == s;
    }
  }
}
