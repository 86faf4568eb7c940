/** Stable sorting by an integer key: what Go's `slices.SortStableFunc` promises. */
module Sorting {
  import opened Seqs

  ghost predicate Sorted<T(!new)>(s: seq<T>, key: T -> int) {
    forall i, j :: 0 <= i < j < |s| ==> key(s[i]) <= key(s[j])
  }

  /** Places `x` after every element whose key does not exceed its own. */
  function InsertByKey<T>(x: T, s: seq<T>, key: T -> int): seq<T> {
    if s == [] || key(x) < key(s[0]) then [x] + s
    else [s[0]] + InsertByKey(x, s[1..], key)
  }

  function StableSort<T>(s: seq<T>, key: T -> int): seq<T> {
    if s == [] then [] else InsertByKey(s[|s| - 1], StableSort(s[..|s| - 1], key), key)
  }

  /** The elements carrying key `k`, in their order in `s`. */
  function WithKey<T>(s: seq<T>, key: T -> int, k: int): seq<T> {
    if s == [] then []
    else (if key(s[0]) == k then [s[0]] else []) + WithKey(s[1..], key, k)
  }

  /** The classes of equal key, ascending from `lo` to `hi`. */
  function Buckets<T>(s: seq<T>, key: T -> int, lo: int, hi: int): seq<T>
    decreases hi - lo
  {
    if lo > hi then [] else WithKey(s, key, lo) + Buckets(s, key, lo + 1, hi)
  }

  lemma {:induction false} WithKeyAppend<T>(a: seq<T>, b: seq<T>, key: T -> int, k: int)
    ensures WithKey(a + b, key, k) == WithKey(a, key, k) + WithKey(b, key, k)
  {
    if a == [] {
      assert a + b == b;
    } else {
      assert (a + b)[1..] == a[1..] + b;
      WithKeyAppend(a[1..], b, key, k);
      Assoc(if key(a[0]) == k then [a[0]] else [], WithKey(a[1..], key, k), WithKey(b, key, k));
    }
  }

  lemma {:induction false} WithKeyMembers<T>(s: seq<T>, key: T -> int, k: int)
    ensures forall x <- WithKey(s, key, k) :: x in s && key(x) == k
    ensures forall x <- s :: key(x) == k ==> x in WithKey(s, key, k)
  {
    if s != [] {
      WithKeyMembers(s[1..], key, k);
    }
  }

  lemma {:induction false} WithKeyNone<T>(s: seq<T>, key: T -> int, k: int)
    requires forall x <- s :: key(x) != k
    ensures WithKey(s, key, k) == []
  {
    if s != [] {
      WithKeyNone(s[1..], key, k);
    }
  }

  lemma {:induction false} InsertPermutes<T>(x: T, s: seq<T>, key: T -> int)
    ensures multiset(InsertByKey(x, s, key)) == multiset(s) + multiset{x}
  {
    if !(s == [] || key(x) < key(s[0])) {
      InsertPermutes(x, s[1..], key);
      assert s == [s[0]] + s[1..];
    }
  }

  lemma {:induction false} InsertSorted<T(!new)>(x: T, s: seq<T>, key: T -> int)
    requires Sorted(s, key)
    ensures Sorted(InsertByKey(x, s, key), key)
  {
    if !(s == [] || key(x) < key(s[0])) {
      InsertSorted(x, s[1..], key);
      InsertPermutes(x, s[1..], key);
      var r := InsertByKey(x, s[1..], key);
      forall y | y in r
        ensures key(s[0]) <= key(y)
      {
        assert y in multiset(r);
        assert y == x || y in s[1..];
      }
    }
  }

  lemma {:induction false} InsertWithKey<T(!new)>(x: T, s: seq<T>, key: T -> int, k: int)
    requires Sorted(s, key)
    ensures WithKey(InsertByKey(x, s, key), key, k)
         == WithKey(s, key, k) + (if key(x) == k then [x] else [])
  {
    if s == [] || key(x) < key(s[0]) {
      assert ([x] + s)[1..] == s;
      if key(x) == k {
        WithKeyNone(s, key, k);
      }
    } else {
      var r := InsertByKey(x, s[1..], key);
      assert ([s[0]] + r)[1..] == r;
      InsertWithKey(x, s[1..], key, k);
    }
  }

  /** Sorted, a permutation, and equal keys keep their order. */
  lemma {:induction false} StableSortCorrect<T(!new)>(s: seq<T>, key: T -> int)
    ensures Sorted(StableSort(s, key), key)
    ensures multiset(StableSort(s, key)) == multiset(s)
    ensures |StableSort(s, key)| == |s|
    ensures forall k :: WithKey(StableSort(s, key), key, k) == WithKey(s, key, k)
  {
    if s != [] {
      var x, r := s[|s| - 1], s[..|s| - 1];
      assert s == r + [x];
      StableSortCorrect(r, key);
      InsertSorted(x, StableSort(r, key), key);
      InsertPermutes(x, StableSort(r, key), key);
      forall k
        ensures WithKey(StableSort(s, key), key, k) == WithKey(s, key, k)
      {
        InsertWithKey(x, StableSort(r, key), key, k);
        WithKeyAppend(r, [x], key, k);
      }
      assert |multiset(StableSort(s, key))| == |multiset(s)|;
    }
  }

  lemma StableSortMembers<T(!new)>(s: seq<T>, key: T -> int)
    ensures forall x :: x in StableSort(s, key) <==> x in s
  {
    StableSortCorrect(s, key);
    forall x
      ensures x in StableSort(s, key) <==> x in s
    {
      assert x in StableSort(s, key) <==> x in multiset(StableSort(s, key));
      assert x in s <==> x in multiset(s);
    }
  }

  lemma {:induction false} BucketsNone<T>(s: seq<T>, key: T -> int, lo: int, hi: int)
    requires s == []
    ensures Buckets(s, key, lo, hi) == []
    decreases hi - lo
  {
    if lo <= hi {
      BucketsNone(s, key, lo + 1, hi);
    }
  }

  lemma {:induction false} BucketsAbove<T>(x: T, s: seq<T>, key: T -> int, lo: int, hi: int)
    requires key(x) < lo
    ensures Buckets([x] + s, key, lo, hi) == Buckets(s, key, lo, hi)
    decreases hi - lo
  {
    if lo <= hi {
      assert ([x] + s)[1..] == s;
      BucketsAbove(x, s, key, lo + 1, hi);
    }
  }

  lemma BucketsCons<T>(x: T, s: seq<T>, key: T -> int, lo: int, hi: int)
    requires key(x) == lo && lo <= hi
    ensures Buckets([x] + s, key, lo, hi) == [x] + Buckets(s, key, lo, hi)
  {
    assert ([x] + s)[1..] == s;
    BucketsAbove(x, s, key, lo + 1, hi);
    Assoc([x], WithKey(s, key, lo), Buckets(s, key, lo + 1, hi));
  }

  lemma FirstIsLeast<T(!new)>(s: seq<T>, key: T -> int)
    requires s != [] && Sorted(s, key)
    ensures forall x <- s :: key(s[0]) <= key(x)
  {
    forall x | x in s
      ensures key(s[0]) <= key(x)
    {
      var i :| 0 <= i < |s| && s[i] == x;
    }
  }

  lemma SortedTail<T(!new)>(s: seq<T>, key: T -> int)
    requires s != [] && Sorted(s, key)
    ensures Sorted(s[1..], key)
  {
  }

  lemma BucketsNext<T>(s: seq<T>, key: T -> int, lo: int, hi: int)
    requires lo <= hi
    ensures Buckets(s, key, lo, hi) == WithKey(s, key, lo) + Buckets(s, key, lo + 1, hi)
  {
  }

  /** A sorted sequence is the concatenation of its key classes. */
  lemma {:induction false} SortedIsBuckets<T(!new)>(s: seq<T>, key: T -> int, lo: int, hi: int)
    requires Sorted(s, key)
    requires forall x <- s :: lo <= key(x) <= hi
    ensures s == Buckets(s, key, lo, hi)
    decreases |s|, hi - lo
  {
    hide Sorted, Buckets, WithKey;
    if s == [] {
      BucketsNone(s, key, lo, hi);
      return;
    }
    assert s[0] in s;
    BucketsNext(s, key, lo, hi);
    if key(s[0]) == lo {
      SortedTail(s, key);
      SortedIsBuckets(s[1..], key, lo, hi);
      assert s == [s[0]] + s[1..];
      BucketsCons(s[0], s[1..], key, lo, hi);
    } else {
      FirstIsLeast(s, key);
      SortedIsBuckets(s, key, lo + 1, hi);
      WithKeyNone(s, key, lo);
    }
  }

  /** Two sequences with the same key classes have the same buckets. */
  lemma {:induction false} BucketsCongruent<T(!new)>(s: seq<T>, t: seq<T>, key: T -> int, lo: int, hi: int)
    requires forall k :: WithKey(s, key, k) == WithKey(t, key, k)
    ensures Buckets(s, key, lo, hi) == Buckets(t, key, lo, hi)
    decreases hi - lo
  {
    if lo <= hi {
      BucketsCongruent(s, t, key, lo + 1, hi);
    }
  }

  /** A stable sort is a bucket sort. */
  lemma StableSortIsBuckets<T(!new)>(s: seq<T>, key: T -> int, lo: int, hi: int)
    requires forall x <- s :: lo <= key(x) <= hi
    ensures StableSort(s, key) == Buckets(s, key, lo, hi)
  {
    StableSortCorrect(s, key);
    StableSortMembers(s, key);
    SortedIsBuckets(StableSort(s, key), key, lo, hi);
    BucketsCongruent(StableSort(s, key), s, key, lo, hi);
  }
}
