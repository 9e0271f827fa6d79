/**
 * Stable sorting by an integer key, largest key first, over any element type.
 * This is what `array.sort((a, b) => key(b) - key(a))` does in a JavaScript
 * engine that follows ECMAScript 2019 or later, where `sort` must be stable.
 */
module StableSort {

  /** Largest key first: no element precedes one with a larger key. */
  predicate NonIncreasing<T>(key: T -> int, xs: seq<T>) {
    forall i, j :: 0 <= i < j < |xs| ==> key(xs[i]) >= key(xs[j])
  }

  /** The elements of `xs` whose key is `k`, in their order in `xs`. */
  function WithKey<T>(key: T -> int, xs: seq<T>, k: int): seq<T> {
    if |xs| == 0 then []
    else (if key(xs[0]) == k then [xs[0]] else []) + WithKey(key, xs[1..], k)
  }

  lemma {:induction false} WithKeyAppend<T>(key: T -> int, a: seq<T>, b: seq<T>, k: int)
    ensures WithKey(key, a + b, k) == WithKey(key, a, k) + WithKey(key, b, k)
  {
    if |a| == 0 {
      assert a + b == b;
    } else {
      var h := if key(a[0]) == k then [a[0]] else [];
      assert (a + b)[0] == a[0];
      assert (a + b)[1..] == a[1..] + b;
      assert WithKey(key, a + b, k) == h + WithKey(key, a[1..] + b, k);
      WithKeyAppend(key, a[1..], b, k);
      assert WithKey(key, a, k) == h + WithKey(key, a[1..], k);
    }
  }

  lemma {:induction false} WithKeyMember<T>(key: T -> int, xs: seq<T>, k: int, x: T)
    requires x in WithKey(key, xs, k)
    ensures x in xs && key(x) == k
  {
    if |xs| > 0 && x !in (if key(xs[0]) == k then [xs[0]] else []) {
      WithKeyMember(key, xs[1..], k, x);
    }
  }

  lemma WithKeySingle<T>(key: T -> int, y: T, k: int)
    ensures WithKey(key, [y], k) == if key(y) == k then [y] else []
  {
    assert [y][1..] == [];
  }

  /** `x` goes in front of the first element of `sorted` whose key is not larger than its own. */
  function Insert<T>(key: T -> int, x: T, sorted: seq<T>): (r: seq<T>)
    requires NonIncreasing(key, sorted)
    ensures NonIncreasing(key, r)
    ensures multiset(r) == multiset([x] + sorted)
  {
    if |sorted| == 0 || key(x) >= key(sorted[0]) then
      HeadBoundsAll(key, x, sorted);
      PrependKeepsOrder(key, x, sorted);
      [x] + sorted
    else
      var rest := Insert(key, x, sorted[1..]);
      BoundedByHead(key, x, sorted, rest);
      PrependKeepsOrder(key, sorted[0], rest);
      SwapHeadMultiset(x, sorted, rest);
      [sorted[0]] + rest
  }

  /** An element whose key is at least the head's is at least every key of `sorted`. */
  lemma HeadBoundsAll<T>(key: T -> int, x: T, sorted: seq<T>)
    requires NonIncreasing(key, sorted)
    requires |sorted| == 0 || key(x) >= key(sorted[0])
    ensures forall i :: 0 <= i < |sorted| ==> key(x) >= key(sorted[i])
  {
  }

  lemma SwapHeadMultiset<T>(x: T, sorted: seq<T>, rest: seq<T>)
    requires |sorted| > 0
    requires multiset(rest) == multiset([x] + sorted[1..])
    ensures multiset([sorted[0]] + rest) == multiset([x] + sorted)
  {
    assert sorted == [sorted[0]] + sorted[1..];
    assert [x] + sorted == [x] + [sorted[0]] + sorted[1..];
  }

  /** Everything inserted behind the head of `sorted` has a key no larger than the head's. */
  lemma BoundedByHead<T>(key: T -> int, x: T, sorted: seq<T>, rest: seq<T>)
    requires NonIncreasing(key, sorted) && |sorted| > 0 && key(x) < key(sorted[0])
    requires multiset(rest) == multiset([x] + sorted[1..])
    ensures forall i :: 0 <= i < |rest| ==> key(sorted[0]) >= key(rest[i])
  {
    forall i | 0 <= i < |rest|
      ensures key(sorted[0]) >= key(rest[i])
    {
      assert rest[i] in multiset(rest);
      assert rest[i] == x || rest[i] in sorted[1..];
    }
  }

  lemma PrependKeepsOrder<T>(key: T -> int, h: T, rest: seq<T>)
    requires NonIncreasing(key, rest)
    requires forall i :: 0 <= i < |rest| ==> key(h) >= key(rest[i])
    ensures NonIncreasing(key, [h] + rest)
  {
    var r := [h] + rest;
    forall i, j | 0 <= i < j < |r|
      ensures key(r[i]) >= key(r[j])
    {
      assert r[j] == rest[j - 1];
      if i > 0 {
        assert r[i] == rest[i - 1];
      }
    }
  }

  /** Insertion sort: a permutation of `xs`, largest key first. */
  function Sort<T>(key: T -> int, xs: seq<T>): (r: seq<T>)
    ensures NonIncreasing(key, r)
    ensures multiset(r) == multiset(xs)
  {
    if |xs| == 0 then []
    else
      assert xs == [xs[0]] + xs[1..];
      Insert(key, xs[0], Sort(key, xs[1..]))
  }

  /** Inserting keeps the elements of each key in the order they had. */
  lemma {:induction false} InsertIsStable<T>(key: T -> int, x: T, sorted: seq<T>, k: int)
    requires NonIncreasing(key, sorted)
    ensures WithKey(key, Insert(key, x, sorted), k) == WithKey(key, [x] + sorted, k)
  {
    if |sorted| > 0 && key(x) < key(sorted[0]) {
      var s0, tail := sorted[0], sorted[1..];
      var rest := Insert(key, x, tail);
      assert Insert(key, x, sorted) == [s0] + rest;
      assert sorted == [s0] + tail;
      var ws, wx, wt := WithKey(key, [s0], k), WithKey(key, [x], k), WithKey(key, tail, k);
      WithKeySingle(key, s0, k);
      WithKeySingle(key, x, k);
      InsertIsStable(key, x, tail, k);
      WithKeyAppend(key, [s0], rest, k);
      WithKeyAppend(key, [x], tail, k);
      assert WithKey(key, Insert(key, x, sorted), k) == ws + (wx + wt);
      WithKeyAppend(key, [x], sorted, k);
      WithKeyAppend(key, [s0], tail, k);
      assert WithKey(key, [x] + sorted, k) == wx + (ws + wt);
    }
  }

  /** Stability: for every key, its elements keep their input order. */
  lemma {:induction false} SortIsStable<T>(key: T -> int, xs: seq<T>, k: int)
    ensures WithKey(key, Sort(key, xs), k) == WithKey(key, xs, k)
  {
    if |xs| > 0 {
      SortIsStable(key, xs[1..], k);
      InsertIsStable(key, xs[0], Sort(key, xs[1..]), k);
      assert xs == [xs[0]] + xs[1..];
      WithKeyAppend(key, [xs[0]], xs[1..], k);
    }
  }

  /** Stability for all keys at once. */
  lemma SortKeepsKeyOrder<T>(key: T -> int, xs: seq<T>)
    ensures forall k :: WithKey(key, Sort(key, xs), k) == WithKey(key, xs, k)
  {
    forall k
      ensures WithKey(key, Sort(key, xs), k) == WithKey(key, xs, k)
    {
      SortIsStable(key, xs, k);
    }
  }

  /** The first element of a non-empty list is the first one of its own key. */
  lemma HeadLeadsItsKey<T>(key: T -> int, xs: seq<T>)
    requires |xs| > 0
    ensures WithKey(key, xs, key(xs[0])) == [xs[0]] + WithKey(key, xs[1..], key(xs[0]))
  {
  }

  /** In a largest-first list, the head's key bounds every key that occurs. */
  lemma HeadKeyIsLargest<T>(key: T -> int, xs: seq<T>, k: int)
    requires NonIncreasing(key, xs) && |xs| > 0
    requires WithKey(key, xs, k) != []
    ensures key(xs[0]) >= k
  {
    WithKeyMember(key, xs, k, WithKey(key, xs, k)[0]);
  }

  /**
   * Largest-first order together with per-key input order fixes the
   * arrangement: two such arrangements are equal.
   */
  lemma {:induction false} StableArrangementIsUnique<T>(key: T -> int, a: seq<T>, b: seq<T>)
    requires NonIncreasing(key, a) && NonIncreasing(key, b)
    requires forall k :: WithKey(key, a, k) == WithKey(key, b, k)
    ensures a == b
    decreases |a|
  {
    if |a| == 0 {
      if |b| > 0 {
        HeadLeadsItsKey(key, b);
      }
    } else if |b| == 0 {
      HeadLeadsItsKey(key, a);
    } else {
      var ka := key(a[0]);
      var kb := key(b[0]);
      HeadLeadsItsKey(key, a);
      HeadLeadsItsKey(key, b);
      HeadKeyIsLargest(key, b, ka);
      HeadKeyIsLargest(key, a, kb);
      assert ka == kb;
      assert a[0] == WithKey(key, a, ka)[0] == WithKey(key, b, ka)[0] == b[0];
      forall k
        ensures WithKey(key, a[1..], k) == WithKey(key, b[1..], k)
      {
        var h := if key(a[0]) == k then [a[0]] else [];
        assert WithKey(key, a, k) == h + WithKey(key, a[1..], k);
        assert WithKey(key, b, k) == h + WithKey(key, b[1..], k);
        assert WithKey(key, a, k) == WithKey(key, b, k);
        assert WithKey(key, a[1..], k) == (h + WithKey(key, a[1..], k))[|h|..];
        assert WithKey(key, b[1..], k) == (h + WithKey(key, b[1..], k))[|h|..];
      }
      StableArrangementIsUnique(key, a[1..], b[1..]);
      assert a == [a[0]] + a[1..] && b == [b[0]] + b[1..];
    }
  }

  /** `Sort` is the one largest-first, per-key-stable arrangement of its input. */
  lemma SortIsTheStableSort<T>(key: T -> int, xs: seq<T>, r: seq<T>)
    requires NonIncreasing(key, r)
    requires forall k :: WithKey(key, r, k) == WithKey(key, xs, k)
    ensures r == Sort(key, xs)
  {
    SortKeepsKeyOrder(key, xs);
    StableArrangementIsUnique(key, r, Sort(key, xs));
  }
}
