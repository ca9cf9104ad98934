/** Python's `sorted(s, key=key)`, a stable sort, as an insertion sort over
    sequences. */
module Sorting {

  predicate SortedBy(s: seq<int>, key: int -> int)
  {
    forall i, j :: 0 <= i < j < |s| ==> key(s[i]) <= key(s[j])
  }

  /** The elements of `s` whose key is `k`, in order. */
  function WithKey(s: seq<int>, key: int -> int, k: int): seq<int>
  {
    if |s| == 0 then []
    else WithKey(s[..|s| - 1], key, k) + (if key(s[|s| - 1]) == k then [s[|s| - 1]] else [])
  }

  /** Places `x` after every element whose key is not larger, as a stable
      sort places a later element. */
  function Insert(s: seq<int>, x: int, key: int -> int): (r: seq<int>)
    ensures multiset(r) == multiset(s) + multiset{x}
    ensures |r| == |s| + 1
  {
    if |s| == 0 || key(s[|s| - 1]) <= key(x) then s + [x]
    else
      var init := s[..|s| - 1];
      assert s == init + [s[|s| - 1]];
      Insert(init, x, key) + [s[|s| - 1]]
  }

  /** `sorted(s, key=key)`. */
  function SortBy(s: seq<int>, key: int -> int): (r: seq<int>)
    ensures multiset(r) == multiset(s)
    ensures |r| == |s|
  {
    if |s| == 0 then []
    else
      var init := s[..|s| - 1];
      assert s == init + [s[|s| - 1]];
      Insert(SortBy(init, key), s[|s| - 1], key)
  }

  // ----- properties -------------------------------------------------------

  /** Inserting into a sorted sequence keeps it sorted. */
  lemma {:induction false} InsertSorted(s: seq<int>, x: int, key: int -> int)
    requires SortedBy(s, key)
    ensures SortedBy(Insert(s, x, key), key)
    ensures forall i :: 0 <= i < |s| + 1 ==> key(Insert(s, x, key)[i]) <= Max(key(x), if |s| == 0 then key(x) else key(s[|s| - 1]))
  {
    if |s| == 0 || key(s[|s| - 1]) <= key(x) {
      assert Insert(s, x, key) == s + [x];
    } else {
      var init := s[..|s| - 1];
      var last := s[|s| - 1];
      assert SortedBy(init, key);
      InsertSorted(init, x, key);
      var r := Insert(init, x, key);
      var bound := Max(key(x), if |init| == 0 then key(x) else key(init[|init| - 1]));
      assert bound <= key(last);
      assert Insert(s, x, key) == r + [last];
      forall i, j | 0 <= i < j < |r| + 1
        ensures key((r + [last])[i]) <= key((r + [last])[j])
      {
        if j == |r| {
          assert (r + [last])[i] == r[i];
        } else {
          assert (r + [last])[i] == r[i] && (r + [last])[j] == r[j];
        }
      }
      forall i | 0 <= i < |r| + 1
        ensures key((r + [last])[i]) <= key(last)
      {
        if i < |r| {
          assert (r + [last])[i] == r[i];
        }
      }
    }
  }

  function Max(a: int, b: int): int
  {
    if a < b then b else a
  }

  /** The result of `sorted` is in non-decreasing key order. */
  lemma {:induction false} SortBySorted(s: seq<int>, key: int -> int)
    ensures SortedBy(SortBy(s, key), key)
  {
    if |s| > 0 {
      SortBySorted(s[..|s| - 1], key);
      InsertSorted(SortBy(s[..|s| - 1], key), s[|s| - 1], key);
    }
  }

  lemma {:induction false} InsertStable(s: seq<int>, x: int, key: int -> int, k: int)
    requires SortedBy(s, key)
    ensures WithKey(Insert(s, x, key), key, k) == WithKey(s, key, k) + (if key(x) == k then [x] else [])
  {
    if |s| == 0 || key(s[|s| - 1]) <= key(x) {
      assert (s + [x])[..|s|] == s;
    } else {
      var init := s[..|s| - 1];
      var last := s[|s| - 1];
      InsertStable(init, x, key, k);
      var r := Insert(init, x, key);
      assert (r + [last])[..|r|] == r;
    }
  }

  /** Stability: the elements sharing a key keep their relative order. */
  lemma {:induction false} SortByStable(s: seq<int>, key: int -> int, k: int)
    ensures WithKey(SortBy(s, key), key, k) == WithKey(s, key, k)
  {
    if |s| > 0 {
      var init := s[..|s| - 1];
      SortByStable(init, key, k);
      SortBySorted(init, key);
      InsertStable(SortBy(init, key), s[|s| - 1], key, k);
    }
  }

  /** Strictly increasing key order. */
  predicate StrictlySortedBy(s: seq<int>, key: int -> int)
  {
    forall i, j :: 0 <= i < j < |s| ==> key(s[i]) < key(s[j])
  }

  /** In a strictly sorted non-empty sequence only the last entry reaches
      the last key. */
  lemma StrictLast(s: seq<int>, key: int -> int, i: nat)
    requires StrictlySortedBy(s, key) && i < |s|
    ensures key(s[i]) <= key(s[|s| - 1])
    ensures key(s[|s| - 1]) <= key(s[i]) ==> i == |s| - 1
  {
  }

  /** Two rearrangements of the same elements that are both in strictly
      increasing key order are equal. */
  lemma {:induction false} StrictlySortedUnique(a: seq<int>, b: seq<int>, key: int -> int)
    requires multiset(a) == multiset(b)
    requires StrictlySortedBy(a, key) && StrictlySortedBy(b, key)
    ensures a == b
  {
    assert |a| == |multiset(a)| == |b|;
    if |a| > 0 {
      var n := |a|;
      var x := a[n - 1];
      var y := b[n - 1];
      assert x in multiset(b);
      assert y in multiset(a);
      var i :| 0 <= i < n && a[i] == y;
      var j :| 0 <= j < n && b[j] == x;
      StrictLast(a, key, i);
      StrictLast(b, key, j);
      assert i == n - 1;
      var a' := a[..n - 1];
      var b' := b[..n - 1];
      assert a == a' + [x];
      assert b == b' + [x];
      assert multiset(a) == multiset(a') + multiset{x};
      assert multiset(b) == multiset(b') + multiset{x};
      MultisetCancel(multiset(a'), multiset(b'), x);
      assert StrictlySortedBy(a', key);
      assert StrictlySortedBy(b', key);
      StrictlySortedUnique(a', b', key);
    }
  }

  lemma MultisetCancel(a: multiset<int>, b: multiset<int>, x: int)
    requires a + multiset{x} == b + multiset{x}
    ensures a == b
  {
    assert a == (a + multiset{x}) - multiset{x};
    assert b == (b + multiset{x}) - multiset{x};
  }

  /** `sorted` reads the key only at the elements it sorts. */
  lemma {:induction false} SortByCongruent(s: seq<int>, key1: int -> int, key2: int -> int)
    requires forall x :: x in s ==> key1(x) == key2(x)
    ensures SortBy(s, key1) == SortBy(s, key2)
  {
    if |s| > 0 {
      var init := s[..|s| - 1];
      assert forall x :: x in init ==> x in s;
      SortByCongruent(init, key1, key2);
      var sorted := SortBy(init, key1);
      assert forall x :: x in sorted ==> x in multiset(init);
      InsertCongruent(sorted, s[|s| - 1], key1, key2);
    }
  }

  lemma {:induction false} InsertCongruent(s: seq<int>, x: int, key1: int -> int, key2: int -> int)
    requires forall y :: y in s ==> key1(y) == key2(y)
    requires key1(x) == key2(x)
    ensures Insert(s, x, key1) == Insert(s, x, key2)
  {
    if |s| > 0 {
      var init := s[..|s| - 1];
      assert forall y :: y in init ==> y in s;
      var last := s[|s| - 1];
      assert last in s;
      assert key1(last) == key2(last);
      if key1(last) > key1(x) {
        InsertCongruent(init, x, key1, key2);
        assert Insert(s, x, key1) == Insert(init, x, key1) + [last];
        assert Insert(s, x, key2) == Insert(init, x, key2) + [last];
      }
    }
  }
}
