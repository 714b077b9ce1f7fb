/** Stable sorting by a real-valued key, the behaviour of Python's
    `sorted(xs, key=...)`: the result is ordered by key, is a permutation of
    the input, and elements with equal keys keep their input order. */
module Sorting {

  /** `s` is non-decreasing in `key`. */
  predicate SortedBy<T>(s: seq<T>, key: T -> real)
  {
    forall i, j :: 0 <= i < j < |s| ==> key(s[i]) <= key(s[j])
  }

  /** The elements of `s` whose key is exactly `k`, in their order in `s`. */
  function WithKey<T>(s: seq<T>, key: T -> real, k: real): seq<T>
  {
    if s == [] then []
    else (if key(s[0]) == k then [s[0]] else []) + WithKey(s[1..], key, k)
  }

  /** Inserts `x` before the first element whose key is not smaller than
      its own, so that `x` precedes every element of equal key. Its order
      and permutation properties are the lemmas below, so that unfolding a
      sort does not bring them in. */
  function InsertBy<T>(x: T, s: seq<T>, key: T -> real): (r: seq<T>)
    ensures |r| == |s| + 1
  {
    if s == [] || key(x) <= key(s[0]) then [x] + s
    else [s[0]] + InsertBy(x, s[1..], key)
  }

  /** Insertion sort: every element is inserted into the sorted rest. */
  function SortBy<T>(s: seq<T>, key: T -> real): (r: seq<T>)
    ensures |r| == |s|
  {
    if s == [] then [] else InsertBy(s[0], SortBy(s[1..], key), key)
  }

  /** `x` goes in front when its key is not above the first one. */
  lemma InsertByFront<T>(x: T, s: seq<T>, key: T -> real)
    requires s == [] || key(x) <= key(s[0])
    ensures InsertBy(x, s, key) == [x] + s
  {
  }

  /** Otherwise the first element stays in front and `x` goes into the rest. */
  lemma InsertByAfter<T>(x: T, s: seq<T>, key: T -> real)
    requires s != [] && key(s[0]) < key(x)
    ensures InsertBy(x, s, key) == [s[0]] + InsertBy(x, s[1..], key)
  {
  }

  /** Inserting adds exactly `x`. */
  lemma {:induction false} InsertByPermutation<T>(x: T, s: seq<T>, key: T -> real)
    ensures multiset(InsertBy(x, s, key)) == multiset(s) + multiset{x}
  {
    if s == [] || key(x) <= key(s[0]) {
      InsertByFront(x, s, key);
    } else {
      InsertByAfter(x, s, key);
      InsertByPermutation(x, s[1..], key);
      assert s == [s[0]] + s[1..];
    }
  }

  /** Inserting into a sorted sequence keeps it sorted. */
  lemma {:induction false} InsertBySorted<T>(x: T, s: seq<T>, key: T -> real)
    requires SortedBy(s, key)
    ensures SortedBy(InsertBy(x, s, key), key)
  {
    if s == [] || key(x) <= key(s[0]) {
      InsertByFront(x, s, key);
      SortedByCons(x, s, key);
    } else {
      InsertByAfter(x, s, key);
      SortedByTail(s, key);
      var rest := InsertBy(x, s[1..], key);
      InsertBySorted(x, s[1..], key);
      InsertByPermutation(x, s[1..], key);
      LowerBoundBy(s[0], rest, s[1..], x, key);
      SortedByCons(s[0], rest, key);
    }
  }

  /** The output of the sort is ordered by key. */
  lemma {:induction false} SortBySorted<T>(s: seq<T>, key: T -> real)
    ensures SortedBy(SortBy(s, key), key)
  {
    if s != [] {
      SortBySorted(s[1..], key);
      InsertBySorted(s[0], SortBy(s[1..], key), key);
    }
  }

  /** The output of the sort is a permutation of its input. */
  lemma {:induction false} SortByPermutation<T>(s: seq<T>, key: T -> real)
    ensures multiset(SortBy(s, key)) == multiset(s)
  {
    if s != [] {
      SortByPermutation(s[1..], key);
      InsertByPermutation(s[0], SortBy(s[1..], key), key);
      assert s == [s[0]] + s[1..];
    }
  }

  lemma SortedByTail<T>(s: seq<T>, key: T -> real)
    requires SortedBy(s, key) && s != []
    ensures SortedBy(s[1..], key)
  {
    var t := s[1..];
    forall i, j | 0 <= i < j < |t| ensures key(t[i]) <= key(t[j]) {
      assert t[i] == s[i + 1] && t[j] == s[j + 1];
    }
  }

  lemma SortedByCons<T>(h: T, t: seq<T>, key: T -> real)
    requires SortedBy(t, key) && (t == [] || key(h) <= key(t[0]))
    ensures SortedBy([h] + t, key)
  {
    var r := [h] + t;
    forall i, j | 0 <= i < j < |r| ensures key(r[i]) <= key(r[j]) {
      if i == 0 {
        assert r[j] == t[j - 1];
        assert key(t[0]) <= key(t[j - 1]);
      } else {
        assert r[i] == t[i - 1] && r[j] == t[j - 1];
      }
    }
  }

  /** A sequence holding the elements of a sorted `s` and one `x`, all with
      keys at least `h`'s, starts with a key at least `h`'s. */
  lemma LowerBoundBy<T>(h: T, r: seq<T>, s: seq<T>, x: T, key: T -> real)
    requires multiset(r) == multiset(s) + multiset{x}
    requires key(h) <= key(x) && forall i :: 0 <= i < |s| ==> key(h) <= key(s[i])
    ensures r == [] || key(h) <= key(r[0])
  {
    if r != [] {
      assert r[0] in multiset(r);
      if r[0] != x {
        assert r[0] in multiset(s);
        var i :| 0 <= i < |s| && s[i] == r[0];
      }
    }
  }

  lemma WithKeySingleton<T>(x: T, key: T -> real, k: real)
    ensures WithKey([x], key, k) == if key(x) == k then [x] else []
  {
    assert [x][1..] == [];
  }

  lemma {:induction false} WithKeyConcat<T>(a: seq<T>, b: seq<T>, key: T -> real, k: real)
    ensures WithKey(a + b, key, k) == WithKey(a, key, k) + WithKey(b, key, k)
  {
    if a == [] {
      assert a + b == b;
    } else {
      var h := if key(a[0]) == k then [a[0]] else [];
      var ab := a + b;
      assert ab[0] == a[0] && ab[1..] == a[1..] + b;
      assert WithKey(ab, key, k) == h + WithKey(a[1..] + b, key, k);
      WithKeyConcat(a[1..], b, key, k);
      assert WithKey(a, key, k) == h + WithKey(a[1..], key, k);
    }
  }

  /** Putting `h` in front of two sequences whose key-`k` elements differ
      only by a leading `x` keeps that difference when `h`'s key is below
      `x`'s. */
  lemma WithKeyPrepend<T>(h: T, x: T, t: seq<T>, rest: seq<T>, key: T -> real, k: real)
    requires key(h) < key(x)
    requires WithKey(rest, key, k) == (if key(x) == k then [x] else []) + WithKey(t, key, k)
    ensures WithKey([h] + rest, key, k)
         == (if key(x) == k then [x] else []) + WithKey([h] + t, key, k)
  {
    var xs := if key(x) == k then [x] else [];
    var hs := if key(h) == k then [h] else [];
    WithKeySingleton(h, key, k);
    WithKeyConcat([h], rest, key, k);
    WithKeyConcat([h], t, key, k);
    if key(h) == k {
      assert xs == [];
      assert WithKey([h] + rest, key, k) == hs + WithKey(t, key, k);
    } else {
      assert hs == [];
      assert WithKey([h] + rest, key, k) == xs + WithKey(t, key, k);
      assert WithKey([h] + t, key, k) == WithKey(t, key, k);
    }
  }

  lemma {:induction false} InsertByWithKey<T>(x: T, s: seq<T>, key: T -> real, k: real)
    ensures WithKey(InsertBy(x, s, key), key, k)
         == (if key(x) == k then [x] else []) + WithKey(s, key, k)
  {
    if s == [] || key(x) <= key(s[0]) {
      InsertByFront(x, s, key);
      WithKeyConcat([x], s, key, k);
      WithKeySingleton(x, key, k);
    } else {
      var t := s[1..];
      var rest := InsertBy(x, t, key);
      InsertByAfter(x, s, key);
      assert s == [s[0]] + t;
      InsertByWithKey(x, t, key, k);
      WithKeyPrepend(s[0], x, t, rest, key, k);
    }
  }

  /** Stability: among elements of any one key value, the sorted output
      lists exactly those of the input, in the input's order. */
  lemma {:induction false} SortByStable<T>(s: seq<T>, key: T -> real, k: real)
    ensures WithKey(SortBy(s, key), key, k) == WithKey(s, key, k)
  {
    if s != [] {
      SortByStable(s[1..], key, k);
      InsertByWithKey(s[0], SortBy(s[1..], key), key, k);
    }
  }

  /** Every element of the sorted output comes from the input and back. */
  lemma SortByMembers<T>(s: seq<T>, key: T -> real)
    ensures forall x :: x in SortBy(s, key) <==> x in s
  {
    var r := SortBy(s, key);
    SortByPermutation(s, key);
    forall x ensures x in r <==> x in s {
      assert x in r <==> x in multiset(r);
      assert x in s <==> x in multiset(s);
    }
  }
}
