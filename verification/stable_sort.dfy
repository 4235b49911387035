/**
 * Python's `sorted(xs, key=...)` / `xs.sort(key=...)` on integer keys: a
 * stable sort. It is written as an insertion sort and proved to be the only
 * sequence that is sorted, a permutation of its input, and keeps the input
 * order among equal keys, so any stable sort (Timsort included) returns it.
 */
module StableSort {

  ghost predicate SortedBy<T>(s: seq<T>, key: T -> int) {
    forall i, j | 0 <= i < j < |s| :: key(s[i]) <= key(s[j])
  }

  /** The elements of `s` whose key is `k`, in their order in `s`. */
  function WithKey<T>(s: seq<T>, key: T -> int, k: int): seq<T> {
    if |s| == 0 then []
    else (if key(s[0]) == k then [s[0]] else []) + WithKey(s[1..], key, k)
  }

  /** `r` keeps the relative order that `s` gives to elements of equal key. */
  ghost predicate Stable<T>(s: seq<T>, r: seq<T>, key: T -> int) {
    forall k :: WithKey(r, key, k) == WithKey(s, key, k)
  }

  /** Places `x` before the first element whose key is not smaller. */
  function Insert<T>(x: T, s: seq<T>, key: T -> int): (r: seq<T>)
    ensures multiset(r) == multiset(s) + multiset{x}
  {
    if |s| == 0 || key(x) <= key(s[0]) then [x] + s
    else
      assert s == [s[0]] + s[1..];
      [s[0]] + Insert(x, s[1..], key)
  }

  lemma {:induction false} InsertSorted<T>(x: T, s: seq<T>, key: T -> int)
    requires SortedBy(s, key)
    ensures SortedBy(Insert(x, s, key), key)
  {
    if |s| > 0 && key(x) > key(s[0]) {
      InsertSorted(x, s[1..], key);
      var rest := Insert(x, s[1..], key);
      var r := [s[0]] + rest;
      forall j | 0 < j < |r| ensures key(r[0]) <= key(r[j]) {
        assert r[j] in multiset(rest);
        assert s == [s[0]] + s[1..];
        assert r[j] == x || r[j] in multiset(s[1..]);
      }
    }
  }

  /** Inserting `x` puts it ahead of every element that has its key. */
  lemma {:induction false} InsertWithKey<T>(x: T, s: seq<T>, key: T -> int, k: int)
    ensures WithKey(Insert(x, s, key), key, k) == (if key(x) == k then [x] else []) + WithKey(s, key, k)
  {
    var r := Insert(x, s, key);
    if |s| == 0 || key(x) <= key(s[0]) {
      assert r[1..] == s;
    } else {
      InsertWithKey(x, s[1..], key, k);
      assert r[1..] == Insert(x, s[1..], key);
    }
  }

  /** The stable sort by `key`. */
  function Sort<T>(s: seq<T>, key: T -> int): (r: seq<T>)
    ensures multiset(r) == multiset(s)
    ensures SortedBy(r, key)
    ensures Stable(s, r, key)
  {
    if |s| == 0 then []
    else
      var rest := Sort(s[1..], key);
      assert s == [s[0]] + s[1..];
      InsertSorted(s[0], rest, key);
      forall k ensures WithKey(Insert(s[0], rest, key), key, k) == WithKey(s, key, k) {
        InsertWithKey(s[0], rest, key, k);
      }
      Insert(s[0], rest, key)
  }

  /** A sequence already in key order is its own sort. */
  lemma {:induction false} SortOfSorted<T>(s: seq<T>, key: T -> int)
    requires SortedBy(s, key)
    ensures Sort(s, key) == s
  {
    if |s| > 0 {
      SortOfSorted(s[1..], key);
      assert s == [s[0]] + s[1..];
    }
  }

  /** Sorting twice is sorting once. */
  lemma SortIdempotent<T>(s: seq<T>, key: T -> int)
    ensures Sort(Sort(s, key), key) == Sort(s, key)
  {
    SortOfSorted(Sort(s, key), key);
  }

  lemma {:induction false} WithKeyMember<T>(s: seq<T>, key: T -> int, k: int, x: T)
    ensures x in WithKey(s, key, k) <==> x in s && key(x) == k
  {
    if |s| > 0 {
      WithKeyMember(s[1..], key, k, x);
      assert s == [s[0]] + s[1..];
    }
  }

  lemma WithKeyHead<T>(s: seq<T>, key: T -> int)
    requires |s| > 0
    ensures WithKey(s, key, key(s[0])) != []
  {
  }

  /** Two sorted sequences with the same elements per key, in the same order, are equal. */
  lemma {:induction false} SortedStableEqual<T>(a: seq<T>, b: seq<T>, key: T -> int)
    requires SortedBy(a, key) && SortedBy(b, key)
    requires forall k :: WithKey(a, key, k) == WithKey(b, key, k)
    ensures a == b
    decreases |a|
  {
    if |a| == 0 {
      if |b| > 0 { WithKeyHead(b, key); }
    } else if |b| == 0 {
      WithKeyHead(a, key);
    } else {
      SameHead(a, b, key);
      SameTails(a, b, key);
      SortedStableEqual(a[1..], b[1..], key);
      assert a == [a[0]] + a[1..];
      assert b == [b[0]] + b[1..];
    }
  }

  lemma SameHead<T>(a: seq<T>, b: seq<T>, key: T -> int)
    requires |a| > 0 && |b| > 0
    requires SortedBy(a, key) && SortedBy(b, key)
    requires forall k :: WithKey(a, key, k) == WithKey(b, key, k)
    ensures a[0] == b[0]
  {
    var ka, kb := key(a[0]), key(b[0]);
    WithKeyMember(a, key, ka, a[0]);
    WithKeyMember(b, key, ka, a[0]);
    WithKeyMember(b, key, kb, b[0]);
    WithKeyMember(a, key, kb, b[0]);
    var i :| 0 <= i < |b| && b[i] == a[0];
    var j :| 0 <= j < |a| && a[j] == b[0];
    assert kb <= key(b[i]);
    assert ka <= key(a[j]);
    assert WithKey(a, key, ka)[0] == a[0];
    assert WithKey(b, key, kb)[0] == b[0];
  }

  lemma SameTails<T>(a: seq<T>, b: seq<T>, key: T -> int)
    requires |a| > 0 && |b| > 0 && a[0] == b[0]
    requires forall k :: WithKey(a, key, k) == WithKey(b, key, k)
    ensures forall k :: WithKey(a[1..], key, k) == WithKey(b[1..], key, k)
  {
    forall k ensures WithKey(a[1..], key, k) == WithKey(b[1..], key, k) {
      assert WithKey(a, key, k) == WithKey(b, key, k);
      if k == key(a[0]) {
        assert WithKey(a[1..], key, k) == WithKey(a, key, k)[1..];
        assert WithKey(b[1..], key, k) == WithKey(b, key, k)[1..];
      } else {
        assert WithKey(a[1..], key, k) == WithKey(a, key, k);
        assert WithKey(b[1..], key, k) == WithKey(b, key, k);
      }
    }
  }

  /** Any sorted, order-keeping rearrangement of `s` is `Sort(s)`: the stable sort is unique. */
  lemma StableSortUnique<T>(s: seq<T>, r: seq<T>, key: T -> int)
    requires SortedBy(r, key) && Stable(s, r, key)
    ensures r == Sort(s, key)
  {
    SortedStableEqual(r, Sort(s, key), key);
  }
}
