/** Stable sorting by an integer key: what a stable `Array.prototype.sort`
    with a consistent comparator promises, an insertion sort that keeps it,
    and the fact that only one list keeps it. */
module StableSort {

  ghost predicate Sorted<T>(s: seq<T>, key: T -> int) {
    forall i, j :: 0 <= i < j < |s| ==> key(s[i]) <= key(s[j])
  }

  /** The elements of `s` with key `k`, in their order in `s`. */
  function WithKey<T>(s: seq<T>, key: T -> int, k: int): seq<T> {
    if s == [] then []
    else WithKey(s[..|s| - 1], key, k) + (if key(s[|s| - 1]) == k then [s[|s| - 1]] else [])
  }

  /** `t` holds the elements of `s`, and elements with equal keys keep the
      order they had in `s`. */
  ghost predicate StableRearrangement<T>(t: seq<T>, s: seq<T>, key: T -> int) {
    forall k :: WithKey(t, key, k) == WithKey(s, key, k)
  }

  /** Put `x` right after the last element of `s` whose key is not larger. */
  function Insert<T>(s: seq<T>, x: T, key: T -> int): (r: seq<T>)
    ensures |r| == |s| + 1
  {
    if s == [] || key(s[|s| - 1]) <= key(x) then s + [x]
    else Insert(s[..|s| - 1], x, key) + [s[|s| - 1]]
  }

  /** The stable sort: insert each element in turn, from the first. */
  function SortBy<T>(s: seq<T>, key: T -> int): (r: seq<T>)
    ensures |r| == |s|
  {
    if s == [] then []
    else Insert(SortBy(s[..|s| - 1], key), s[|s| - 1], key)
  }

  /** Insertion adds `x` and loses nothing. */
  lemma {:induction false} InsertPermutes<T>(s: seq<T>, x: T, key: T -> int)
    ensures multiset(Insert(s, x, key)) == multiset(s) + multiset{x}
  {
    if s != [] && key(s[|s| - 1]) > key(x) {
      var n := |s| - 1;
      InsertPermutes(s[..n], x, key);
      assert s == s[..n] + [s[n]];
    }
  }

  /** The sort is a permutation of its input. */
  lemma {:induction false} SortByPermutes<T>(s: seq<T>, key: T -> int)
    ensures multiset(SortBy(s, key)) == multiset(s)
  {
    if s != [] {
      var n := |s| - 1;
      SortByPermutes(s[..n], key);
      InsertPermutes(SortBy(s[..n], key), s[n], key);
      assert s == s[..n] + [s[n]];
    }
  }

  lemma SortedPrefix<T>(s: seq<T>, key: T -> int, n: nat)
    requires Sorted(s, key) && n <= |s|
    ensures Sorted(s[..n], key)
  {
    assert forall i :: 0 <= i < n ==> s[..n][i] == s[i];
  }

  /** Appending an element whose key is at least the last one keeps a list
      sorted. */
  lemma AppendSorted<T>(s: seq<T>, x: T, key: T -> int)
    requires Sorted(s, key) && (s == [] || key(s[|s| - 1]) <= key(x))
    ensures Sorted(s + [x], key)
  {
    var r := s + [x];
    forall i, j | 0 <= i < j < |r| ensures key(r[i]) <= key(r[j]) {
      assert r[i] == s[i];
      if j < |s| {
        assert r[j] == s[j];
      }
    }
  }

  /** Every element of a sorted list has a key no larger than `x`'s when the
      last one does; so has what inserting an element of no larger key gives. */
  lemma InsertBounded<T>(s: seq<T>, x: T, key: T -> int, last: T)
    requires Sorted(s, key) && s != [] && key(s[|s| - 1]) <= key(last)
    requires key(x) <= key(last)
    ensures forall y :: y in Insert(s, x, key) ==> key(y) <= key(last)
  {
    InsertPermutes(s, x, key);
    forall y | y in Insert(s, x, key) ensures key(y) <= key(last) {
      assert y in multiset(Insert(s, x, key));
      if y != x {
        assert y in multiset(s);
        var i :| 0 <= i < |s| && s[i] == y;
      }
    }
  }

  /** Inserting into a sorted list keeps it sorted. */
  lemma {:induction false} InsertSorted<T>(s: seq<T>, x: T, key: T -> int)
    requires Sorted(s, key)
    ensures Sorted(Insert(s, x, key), key)
  {
    if s == [] || key(s[|s| - 1]) <= key(x) {
      AppendSorted(s, x, key);
    } else {
      var n := |s| - 1;
      var last := s[n];
      SortedPrefix(s, key, n);
      InsertSorted(s[..n], x, key);
      var front := Insert(s[..n], x, key);
      if n == 0 {
        assert front == [x];
      } else {
        InsertBounded(s[..n], x, key, last);
        assert front[|front| - 1] in front;
      }
      AppendSorted(front, last, key);
    }
  }

  /** The sort's result is in key order. */
  lemma {:induction false} SortBySorted<T>(s: seq<T>, key: T -> int)
    ensures Sorted(SortBy(s, key), key)
  {
    if s != [] {
      SortBySorted(s[..|s| - 1], key);
      InsertSorted(SortBy(s[..|s| - 1], key), s[|s| - 1], key);
    }
  }

  lemma WithKeyAppend<T>(s: seq<T>, x: T, key: T -> int, k: int)
    ensures WithKey(s + [x], key, k) == WithKey(s, key, k) + (if key(x) == k then [x] else [])
  {
    assert (s + [x])[..|s|] == s;
  }

  /** Insertion moves `x` only past elements with a strictly larger key, so
      among the elements whose key equals its own it lands last. */
  lemma {:induction false} InsertWithKey<T>(s: seq<T>, x: T, key: T -> int, k: int)
    ensures WithKey(Insert(s, x, key), key, k) ==
      WithKey(s, key, k) + (if key(x) == k then [x] else [])
  {
    if s == [] || key(s[|s| - 1]) <= key(x) {
      WithKeyAppend(s, x, key, k);
    } else {
      var n := |s| - 1;
      var last := s[n];
      assert s == s[..n] + [last];
      InsertWithKey(s[..n], x, key, k);
      WithKeyAppend(Insert(s[..n], x, key), last, key, k);
      WithKeyAppend(s[..n], last, key, k);
    }
  }

  /** The sort is stable: for every key, the elements with that key come out
      in the order they went in. */
  lemma {:induction false} SortByStable<T>(s: seq<T>, key: T -> int, k: int)
    ensures WithKey(SortBy(s, key), key, k) == WithKey(s, key, k)
  {
    if s != [] {
      var n := |s| - 1;
      SortByStable(s[..n], key, k);
      InsertWithKey(SortBy(s[..n], key), s[n], key, k);
      assert s == s[..n] + [s[n]];
      WithKeyAppend(s[..n], s[n], key, k);
    }
  }

  /** The elements of a three-element list with key `k`. */
  lemma WithKeyOfThree<T>(x: T, y: T, z: T, key: T -> int, k: int)
    ensures WithKey([x, y, z], key, k) ==
      (if key(x) == k then [x] else []) + (if key(y) == k then [y] else []) +
      (if key(z) == k then [z] else [])
  {
    var s1, s2, s3 := [x], [x, y], [x, y, z];
    assert s3[..2] == s2 && s2[..1] == s1 && s1[..0] == [];
    assert WithKey(s1, key, k) == (if key(x) == k then [x] else []);
    assert WithKey(s2, key, k) == WithKey(s1, key, k) + (if key(y) == k then [y] else []);
    assert WithKey(s3, key, k) == WithKey(s2, key, k) + (if key(z) == k then [z] else []);
  }

  /** Three elements in ascending key order form a sorted list. */
  lemma SortedOfThree<T>(x: T, y: T, z: T, key: T -> int)
    requires key(x) <= key(y) <= key(z)
    ensures Sorted([x, y, z], key)
  {
  }

  /** An element lies among those with key `k` exactly when it is in the
      list and has key `k`. */
  lemma {:induction false} InWithKey<T>(s: seq<T>, key: T -> int, k: int, x: T)
    ensures x in WithKey(s, key, k) <==> x in s && key(x) == k
  {
    if s != [] {
      var n := |s| - 1;
      InWithKey(s[..n], key, k, x);
      assert s == s[..n] + [s[n]];
    }
  }

  /** In a sorted list no key exceeds the last one. */
  lemma LastKeyIsLargest<T>(s: seq<T>, key: T -> int, x: T)
    requires Sorted(s, key) && x in s
    ensures key(x) <= key(s[|s| - 1])
  {
    var i :| 0 <= i < |s| && s[i] == x;
  }

  /** Two stable rearrangements of each other, both sorted, end with
      elements of one key. */
  lemma SameLastKey<T>(t: seq<T>, u: seq<T>, key: T -> int)
    requires StableRearrangement(t, u, key) && Sorted(t, key) && Sorted(u, key)
    requires t != [] && u != []
    ensures key(t[|t| - 1]) == key(u[|u| - 1])
  {
    var a, b := t[|t| - 1], u[|u| - 1];
    InWithKey(u, key, key(b), b);
    InWithKey(t, key, key(b), b);
    LastKeyIsLargest(t, key, b);
    InWithKey(t, key, key(a), a);
    InWithKey(u, key, key(a), a);
    LastKeyIsLargest(u, key, a);
  }

  /** ... and with the same element, and what precedes it is again a stable
      rearrangement. */
  lemma SameLast<T>(t: seq<T>, u: seq<T>, key: T -> int)
    requires StableRearrangement(t, u, key) && Sorted(t, key) && Sorted(u, key)
    requires t != [] && u != []
    ensures t[|t| - 1] == u[|u| - 1]
    ensures StableRearrangement(t[..|t| - 1], u[..|u| - 1], key)
  {
    var n, m := |t| - 1, |u| - 1;
    var a, b := t[n], u[m];
    SameLastKey(t, u, key);
    var K := key(a);
    forall k ensures WithKey(t[..n], key, k) == WithKey(u[..m], key, k) && (k == K ==> a == b) {
      assert WithKey(t, key, k) == WithKey(u, key, k);
      if k == K {
        assert WithKey(t, key, k) == WithKey(t[..n], key, k) + [a];
        assert WithKey(u, key, k) == WithKey(u[..m], key, k) + [b];
        AppendCancel(WithKey(t[..n], key, k), a, WithKey(u[..m], key, k), b);
      } else {
        assert WithKey(t, key, k) == WithKey(t[..n], key, k);
        assert WithKey(u, key, k) == WithKey(u[..m], key, k);
      }
    }
    assert WithKey(t[..n], key, K) == WithKey(u[..m], key, K);
  }

  lemma AppendCancel<T>(p: seq<T>, a: T, q: seq<T>, b: T)
    requires p + [a] == q + [b]
    ensures p == q && a == b
  {
    assert |p| == |q|;
    assert p == (p + [a])[..|p|] && q == (q + [b])[..|q|];
    assert a == (p + [a])[|p|] && b == (q + [b])[|q|];
  }

  /** Two lists in key order whose elements of each key agree, in order, are
      equal: a stable sort has only one possible result. */
  lemma {:induction false} StableSortUnique<T>(t: seq<T>, u: seq<T>, key: T -> int)
    requires StableRearrangement(t, u, key) && Sorted(t, key) && Sorted(u, key)
    ensures t == u
    decreases |t|
  {
    if t == [] && u != [] {
      var b := u[|u| - 1];
      InWithKey(u, key, key(b), b);
    } else if t != [] && u == [] {
      var a := t[|t| - 1];
      InWithKey(t, key, key(a), a);
    } else if t != [] {
      var n, m := |t| - 1, |u| - 1;
      SameLast(t, u, key);
      SortedPrefix(t, key, n);
      SortedPrefix(u, key, m);
      StableSortUnique(t[..n], u[..m], key);
      assert t == t[..n] + [t[n]] && u == u[..m] + [u[m]];
    }
  }

  /** The sort is pinned down by what it promises: `t` is its result exactly
      when `t` is in key order and a stable rearrangement of `s`. */
  lemma SortByCharacterised<T>(s: seq<T>, t: seq<T>, key: T -> int)
    ensures t == SortBy(s, key) <==> StableRearrangement(t, s, key) && Sorted(t, key)
  {
    var r := SortBy(s, key);
    SortBySorted(s, key);
    forall k ensures WithKey(r, key, k) == WithKey(s, key, k) {
      SortByStable(s, key, k);
    }
    if StableRearrangement(t, s, key) && Sorted(t, key) {
      StableSortUnique(t, r, key);
    }
  }

  /** A list already in key order is left as it is. */
  lemma SortedIsFixed<T>(s: seq<T>, key: T -> int)
    requires Sorted(s, key)
    ensures SortBy(s, key) == s
  {
    SortByCharacterised(s, s, key);
  }

  /** Sorting twice is sorting once. */
  lemma SortByIdempotent<T>(s: seq<T>, key: T -> int)
    ensures SortBy(SortBy(s, key), key) == SortBy(s, key)
  {
    SortBySorted(s, key);
    SortedIsFixed(SortBy(s, key), key);
  }

  /** Where insertion puts `x`: right after position `j - 1` when the
      element there does not have a larger key and every element from `j` on
      does. */
  lemma {:induction false} InsertAt<T>(done: seq<T>, x: T, key: T -> int, j: nat)
    requires j <= |done| && (j == 0 || key(done[j - 1]) <= key(x))
    requires forall k :: j <= k < |done| ==> key(done[k]) > key(x)
    ensures Insert(done, x, key) == done[..j] + [x] + done[j..]
    decreases |done|
  {
    if |done| == j {
      assert done[..j] == done && done[j..] == [];
    } else {
      var n := |done| - 1;
      InsertAt(done[..n], x, key, j);
      assert done[..n][..j] == done[..j];
      assert done[j..] == done[..n][j..] + [done[n]];
    }
  }

  /** One pass of insertion sort: the element at index `i` moves left past
      the elements before it whose key is strictly larger. */
  method InsertLast<T>(a: array<T>, i: nat, key: T -> int)
    requires i < a.Length
    modifies a
    ensures a[..i + 1] == Insert(old(a[..i]), old(a[i]), key)
    ensures a[i + 1..] == old(a[i + 1..])
  {
    var x := a[i];
    ghost var done := a[..i];
    var j := i;
    while j > 0 && key(a[j - 1]) > key(x)
      invariant 0 <= j <= i
      invariant forall k :: 0 <= k < j ==> a[k] == done[k]
      invariant forall k :: j < k <= i ==> a[k] == done[k - 1]
      invariant forall k :: i < k < a.Length ==> a[k] == old(a[k])
      invariant forall k :: j <= k < i ==> key(done[k]) > key(x)
    {
      a[j] := a[j - 1];
      j := j - 1;
    }
    a[j] := x;
    InsertAt(done, x, key, j);
    Shifted(a[..i + 1], done, x, j);
    ghost var after, before := a[i + 1..], old(a[i + 1..]);
    forall k | 0 <= k < |after| ensures after[k] == before[k] {
      assert a[i + 1 + k] == old(a[i + 1 + k]);
    }
  }

  /** A list that agrees with `done` before `j`, holds `x` at `j` and agrees
      with `done` shifted one place right after `j`, is `done` with `x` put at
      `j`. */
  lemma Shifted<T>(b: seq<T>, done: seq<T>, x: T, j: nat)
    requires |b| == |done| + 1 && j <= |done| && b[j] == x
    requires forall k :: 0 <= k < j ==> b[k] == done[k]
    requires forall k :: j < k < |b| ==> b[k] == done[k - 1]
    ensures b == done[..j] + [x] + done[j..]
  {
    var c := done[..j] + [x] + done[j..];
    forall k | 0 <= k < |b| ensures b[k] == c[k] {
      if k < j {
        assert c[k] == done[k];
      } else if k > j {
        assert c[k] == done[k - 1];
      }
    }
  }

  /** A stable in-place sort: the array ends up holding `SortBy` of what it
      held. */
  method SortInPlace<T>(a: array<T>, key: T -> int)
    modifies a
    ensures a[..] == SortBy(old(a[..]), key)
  {
    ghost var s := a[..];
    var i := 0;
    while i < a.Length
      invariant 0 <= i <= a.Length
      invariant a[..i] == SortBy(s[..i], key)
      invariant a[i..] == s[i..]
    {
      assert a[i] == s[i];
      InsertLast(a, i, key);
      assert s[..i + 1] == s[..i] + [s[i]];
      i := i + 1;
    }
    assert s[..a.Length] == s;
  }
}
