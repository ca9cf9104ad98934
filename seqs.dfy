/** Sequence vocabulary shared by every rule: distinctness, Python's
    `list.index`, counting, reversal, `min`, de-duplication, and the
    counting facts (pigeonhole) the rules need about duplicate-free sequences. */
module Seqs {

  /** No element occurs twice: a ballot, a candidate list, a ranking. */
  predicate Distinct<T(==)>(s: seq<T>)
  {
    forall i, j :: 0 <= i < j < |s| ==> s[i] != s[j]
  }

  /** The set of elements of `s`. */
  function Elements<T>(s: seq<T>): set<T>
  {
    set x | x in s
  }

  /** Python's `s.index(x)`: the position of the first occurrence of `x`. */
  function IndexOf<T(==)>(s: seq<T>, x: T): (i: nat)
    requires x in s
    ensures i < |s| && s[i] == x
    ensures forall j :: 0 <= j < i ==> s[j] != x
  {
    if s[0] == x then 0 else 1 + IndexOf(s[1..], x)
  }

  /** In a duplicate-free sequence the element at position `i` is found at `i`. */
  lemma IndexOfDistinct<T>(s: seq<T>, i: nat)
    requires Distinct(s) && i < |s|
    ensures IndexOf(s, s[i]) == i
  {
    var k := IndexOf(s, s[i]);
    assert s[k] == s[i];
  }

  /** Number of occurrences of `x` in `s` (Python's `s.count(x)`). */
  function Count<T(==)>(s: seq<T>, x: T): nat
  {
    if |s| == 0 then 0
    else Count(s[..|s| - 1], x) + (if s[|s| - 1] == x then 1 else 0)
  }

  /** Extending a prefix by one entry adds that entry to the count. */
  lemma CountStep<T>(s: seq<T>, j: nat, x: T)
    requires j < |s|
    ensures Count(s[..j + 1], x) == Count(s[..j], x) + (if s[j] == x then 1 else 0)
  {
    assert s[..j + 1][..j] == s[..j];
  }

  lemma {:induction false} CountConcat<T>(a: seq<T>, b: seq<T>, x: T)
    ensures Count(a + b, x) == Count(a, x) + Count(b, x)
  {
    if |b| == 0 {
      assert a + b == a;
    } else {
      assert (a + b)[..|a + b| - 1] == a + b[..|b| - 1];
      CountConcat(a, b[..|b| - 1], x);
    }
  }

  lemma {:induction false} CountAbsent<T>(s: seq<T>, x: T)
    requires x !in s
    ensures Count(s, x) == 0
  {
    if |s| > 0 {
      CountAbsent(s[..|s| - 1], x);
    }
  }

  /** In a duplicate-free sequence every element occurs at most once. */
  lemma {:induction false} CountDistinct<T>(s: seq<T>, x: T)
    requires Distinct(s)
    ensures Count(s, x) == if x in s then 1 else 0
  {
    if |s| > 0 {
      var init := s[..|s| - 1];
      assert Distinct(init);
      CountDistinct(init, x);
      assert s == init + [s[|s| - 1]];
      if s[|s| - 1] == x {
        assert x !in init;
      }
    }
  }

  /** A prefix never has more occurrences than the whole sequence. */
  lemma {:induction false} CountPrefix<T>(s: seq<T>, k: nat, x: T)
    requires k <= |s|
    ensures Count(s[..k], x) <= Count(s, x)
  {
    if k < |s| {
      assert s[..|s| - 1][..k] == s[..k];
      CountPrefix(s[..|s| - 1], k, x);
    } else {
      assert s[..k] == s;
    }
  }

  /** `list(reversed(s))`. */
  function Reverse<T>(s: seq<T>): (r: seq<T>)
    ensures |r| == |s|
    ensures forall k :: 0 <= k < |s| ==> r[k] == s[|s| - 1 - k]
    ensures multiset(r) == multiset(s)
  {
    if |s| == 0 then []
    else
      assert s == s[..|s| - 1] + [s[|s| - 1]];
      [s[|s| - 1]] + Reverse(s[..|s| - 1])
  }

  /** In a duplicate-free sequence, reversing mirrors positions. */
  lemma ReverseIndexOf<T>(s: seq<T>, x: T)
    requires Distinct(s) && x in s
    ensures x in Reverse(s)
    ensures IndexOf(Reverse(s), x) == |s| - 1 - IndexOf(s, x)
  {
    var i := IndexOf(s, x);
    var r := Reverse(s);
    assert r[|s| - 1 - i] == x;
    var k := IndexOf(r, x);
    var m := |s| - 1 - k;
    assert s[m] == x == s[i];
    DistinctInjective(s, m, i);
  }

  /** Equal entries of a duplicate-free sequence sit at the same position. */
  lemma DistinctInjective<T>(s: seq<T>, i: nat, j: nat)
    requires Distinct(s) && i < |s| && j < |s| && s[i] == s[j]
    ensures i == j
  {
  }

  /** Python's `min` over a non-empty list. */
  function MinOf(s: seq<int>): (r: int)
    requires |s| > 0
    ensures r in s
    ensures forall k :: 0 <= k < |s| ==> r <= s[k]
  {
    if |s| == 1 then s[0]
    else
      var m := MinOf(s[..|s| - 1]);
      if s[|s| - 1] < m then s[|s| - 1] else m
  }

  /** Keeps the first occurrence of every element: the order in which the
      model lets Python's `set` of pairs be iterated. */
  function Dedup<T(==, !new)>(s: seq<T>): (r: seq<T>)
    ensures Distinct(r)
    ensures forall x :: x in r <==> x in s
    ensures |r| <= |s|
  {
    if |s| == 0 then []
    else
      var init := Dedup(s[..|s| - 1]);
      assert forall x :: x in s <==> x in s[..|s| - 1] || x == s[|s| - 1];
      if s[|s| - 1] in init then init else init + [s[|s| - 1]]
  }

  /** De-duplicating a duplicate-free sequence changes nothing. */
  lemma {:induction false} DedupOfDistinct<T(!new)>(s: seq<T>)
    requires Distinct(s)
    ensures Dedup(s) == s
  {
    if |s| > 0 {
      var init := s[..|s| - 1];
      assert Distinct(init);
      DedupOfDistinct(init);
      assert s[|s| - 1] !in init;
      assert s == init + [s[|s| - 1]];
    }
  }

  // ----- counting facts ---------------------------------------------------

  lemma {:induction false} SubsetCard<T>(a: set<T>, b: set<T>)
    requires a <= b
    ensures |a| <= |b|
  {
    if a != {} {
      var x :| x in a;
      SubsetCard(a - {x}, b - {x});
    }
  }

  lemma {:induction false} DistinctCard<T>(s: seq<T>)
    requires Distinct(s)
    ensures |Elements(s)| == |s|
  {
    if |s| > 0 {
      var init := s[..|s| - 1];
      assert Distinct(init);
      DistinctCard(init);
      assert s == init + [s[|s| - 1]];
      assert Elements(s) == Elements(init) + {s[|s| - 1]};
    }
  }

  /** Pigeonhole: a duplicate-free sequence drawn from `t` is no longer than `t`. */
  lemma DistinctSubsetLength<T>(s: seq<T>, t: seq<T>)
    requires Distinct(s)
    requires forall x :: x in s ==> x in t
    ensures |s| <= |t|
  {
    DistinctCard(s);
    SubsetCard(Elements(s), Elements(t));
    ElementsCard(t);
  }

  lemma {:induction false} ElementsCard<T>(s: seq<T>)
    ensures |Elements(s)| <= |s|
  {
    if |s| > 0 {
      var init := s[..|s| - 1];
      ElementsCard(init);
      assert s == init + [s[|s| - 1]];
      assert Elements(s) == Elements(init) + {s[|s| - 1]};
    }
  }

  /** The indices `0 .. n-1` as a set. */
  function Range(n: nat): (r: set<int>)
    ensures forall i :: i in r <==> 0 <= i < n
  {
    if n == 0 then {} else Range(n - 1) + {n - 1}
  }

  lemma {:induction false} RangeCard(n: nat)
    ensures |Range(n)| == n
  {
    if n > 0 {
      RangeCard(n - 1);
    }
  }

  /** Fewer than `n` distinct indices below `n` leave some index out. */
  lemma DistinctRangeMissing(s: seq<int>, n: nat) returns (c: int)
    requires Distinct(s) && |s| < n
    requires forall k :: 0 <= k < |s| ==> 0 <= s[k] < n
    ensures 0 <= c < n && c !in s
  {
    DistinctCard(s);
    RangeCard(n);
    if Range(n) <= Elements(s) {
      SubsetCard(Range(n), Elements(s));
      assert false;
    }
    c :| c in Range(n) && c !in Elements(s);
  }

  /** Exactly `n` distinct indices below `n` are all of them. */
  lemma DistinctRangeCovers(s: seq<int>, n: nat)
    requires Distinct(s) && |s| == n
    requires forall k :: 0 <= k < |s| ==> 0 <= s[k] < n
    ensures forall c :: 0 <= c < n ==> c in s
  {
    forall c | 0 <= c < n
      ensures c in s
    {
      if c !in s {
        DistinctCard(s);
        RangeCard(n);
        assert Elements(s) <= Range(n) - {c};
        SubsetCard(Elements(s), Range(n) - {c});
        assert false;
      }
    }
  }

  /** A duplicate-free sequence drawn from a duplicate-free `t` of the same
      length lists every element of `t`: a full ballot ranks every candidate. */
  lemma DistinctFullCovers<T>(s: seq<T>, t: seq<T>)
    requires Distinct(s) && Distinct(t) && |s| == |t|
    requires forall x :: x in s ==> x in t
    ensures forall x :: x in t <==> x in s
  {
    forall x | x in t
      ensures x in s
    {
      if x !in s {
        DistinctCard(s);
        DistinctCard(t);
        assert Elements(s) <= Elements(t) - {x};
        SubsetCard(Elements(s), Elements(t) - {x});
        assert false;
      }
    }
  }

  /** A duplicate-free sequence has every multiplicity at most one. */
  lemma {:induction false} DistinctMultiplicity<T>(s: seq<T>, x: T)
    requires Distinct(s)
    ensures multiset(s)[x] == if x in s then 1 else 0
  {
    if |s| > 0 {
      var init := s[..|s| - 1];
      assert Distinct(init);
      DistinctMultiplicity(init, x);
      assert s == init + [s[|s| - 1]];
      assert multiset(s) == multiset(init) + multiset{s[|s| - 1]};
    }
  }

  /** A rearrangement of a duplicate-free sequence is duplicate-free. */
  lemma PermutationDistinct<T>(p: seq<T>, s: seq<T>)
    requires Distinct(s) && multiset(p) == multiset(s)
    ensures Distinct(p)
  {
    forall i, j | 0 <= i < j < |p|
      ensures p[i] != p[j]
    {
      if p[i] == p[j] {
        var x := p[i];
        assert p == p[..j] + [p[j]] + p[j + 1..];
        assert x in p[..j];
        assert multiset(p)[x] == multiset(p[..j])[x] + 1 + multiset(p[j + 1..])[x];
        assert multiset(p[..j])[x] >= 1;
        DistinctMultiplicity(s, x);
        assert false;
      }
    }
  }

  /** Two duplicate-free sequences with the same elements are rearrangements. */
  lemma SameElementsPermutation<T>(p: seq<T>, s: seq<T>)
    requires Distinct(p) && Distinct(s)
    requires forall x :: x in p <==> x in s
    ensures multiset(p) == multiset(s)
  {
    forall x
      ensures multiset(p)[x] == multiset(s)[x]
    {
      DistinctMultiplicity(p, x);
      DistinctMultiplicity(s, x);
    }
  }
}
