/**
 * Python's `list.sort(key=...)`: a stable sort. The library's algorithm is
 * not part of the repository, so the sort is modelled by an insertion sort
 * whose three properties (sorted, a permutation, stable) are proved here;
 * together they determine the result uniquely.
 */
module Sorting {

  ghost predicate StrictTotalOrder<K(!new)>(less: (K, K) -> bool) {
    && (forall a :: !less(a, a))
    && (forall a, b, c :: less(a, b) && less(b, c) ==> less(a, c))
    && (forall a, b :: a != b ==> less(a, b) || less(b, a))
  }

  /** Python's `<` on integers. */
  predicate IntLess(a: int, b: int) {
    a < b
  }

  lemma IntLessIsStrictTotalOrder()
    ensures StrictTotalOrder(IntLess)
  {
  }

  /** No element has a smaller key than an element before it. */
  predicate SortedBy<T, K>(s: seq<T>, key: T -> K, less: (K, K) -> bool) {
    forall i, j :: 0 <= i < j < |s| ==> !less(key(s[j]), key(s[i]))
  }

  /** The elements of `s` whose key is `k`, in their order in `s`. */
  function WithKey<T, K(==)>(s: seq<T>, key: T -> K, k: K): seq<T> {
    if s == [] then []
    else (if key(s[0]) == k then [s[0]] else []) + WithKey(s[1..], key, k)
  }

  /** Puts `x` in front of the first element of `t` whose key is not smaller than its own. */
  function InsertBy<T, K>(t: seq<T>, x: T, key: T -> K, less: (K, K) -> bool): (r: seq<T>)
    ensures multiset(r) == multiset(t) + multiset{x}
  {
    if t == [] || !less(key(t[0]), key(x)) then [x] + t
    else
      assert t == [t[0]] + t[1..];
      [t[0]] + InsertBy(t[1..], x, key, less)
  }

  /** Appending an element no earlier element exceeds keeps a sequence sorted. */
  lemma SortedBySnoc<T, K>(s: seq<T>, x: T, key: T -> K, less: (K, K) -> bool)
    requires SortedBy(s, key, less)
    requires forall i :: 0 <= i < |s| ==> !less(key(x), key(s[i]))
    ensures SortedBy(s + [x], key, less)
  {
    var t := s + [x];
    forall i, j | 0 <= i < j < |t|
      ensures !less(key(t[j]), key(t[i]))
    {
      assert t[i] == s[i];
      if j < |s| {
        assert t[j] == s[j];
      }
    }
  }

  /** The stable sort of `s` by `key`. */
  function SortBy<T, K>(s: seq<T>, key: T -> K, less: (K, K) -> bool): (r: seq<T>)
    ensures multiset(r) == multiset(s)
    ensures |r| == |s|
  {
    if s == [] then []
    else
      assert s == [s[0]] + s[1..];
      InsertBy(SortBy(s[1..], key, less), s[0], key, less)
  }

  lemma {:induction false} InsertBySorted<T, K(!new)>(t: seq<T>, x: T, key: T -> K, less: (K, K) -> bool)
    requires StrictTotalOrder(less)
    requires SortedBy(t, key, less)
    ensures SortedBy(InsertBy(t, x, key, less), key, less)
  {
    if t != [] && less(key(t[0]), key(x)) {
      var rest := InsertBy(t[1..], x, key, less);
      InsertBySorted(t[1..], x, key, less);
      forall j | 0 <= j < |rest| ensures !less(key(rest[j]), key(t[0])) {
        assert rest[j] in multiset(rest);
        if rest[j] != x {
          assert rest[j] in multiset(t[1..]);
          var m :| 0 <= m < |t[1..]| && t[1..][m] == rest[j];
          assert t[m + 1] == rest[j];
        }
      }
    }
  }

  /** The result of SortBy is sorted by the key. */
  lemma {:induction false} SortBySorted<T, K(!new)>(s: seq<T>, key: T -> K, less: (K, K) -> bool)
    requires StrictTotalOrder(less)
    ensures SortedBy(SortBy(s, key, less), key, less)
  {
    if s != [] {
      SortBySorted(s[1..], key, less);
      InsertBySorted(SortBy(s[1..], key, less), s[0], key, less);
    }
  }

  lemma {:induction false} InsertByWithKey<T, K(!new)>(t: seq<T>, x: T, key: T -> K, less: (K, K) -> bool, k: K)
    requires forall a :: !less(a, a)
    ensures WithKey(InsertBy(t, x, key, less), key, k) == (if key(x) == k then [x] else []) + WithKey(t, key, k)
  {
    if t != [] && less(key(t[0]), key(x)) {
      var head := t[0];
      var tail := t[1..];
      var rest := InsertBy(tail, x, key, less);
      var mine := if key(x) == k then [x] else [];
      var first := if key(head) == k then [head] else [];
      assert InsertBy(t, x, key, less) == [head] + rest;
      InsertByWithKey(tail, x, key, less, k);
      assert WithKey([head] + rest, key, k) == first + WithKey(rest, key, k) by {
        assert ([head] + rest)[1..] == rest;
      }
      assert WithKey(t, key, k) == first + WithKey(tail, key, k);
      assert first == [] || mine == [] by {
        assert !(key(head) == k && key(x) == k);
      }
    } else {
      assert ([x] + t)[1..] == t;
    }
  }

  /** Elements with equal keys keep their relative order: the sort is stable. */
  lemma {:induction false} SortByStable<T, K(!new)>(s: seq<T>, key: T -> K, less: (K, K) -> bool, k: K)
    requires StrictTotalOrder(less)
    ensures WithKey(SortBy(s, key, less), key, k) == WithKey(s, key, k)
  {
    if s != [] {
      SortByStable(s[1..], key, less, k);
      InsertByWithKey(SortBy(s[1..], key, less), s[0], key, less, k);
    }
  }
}
