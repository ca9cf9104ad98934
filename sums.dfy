/** Sums over candidates and over `(frequency, ballot)` pairs. A positional
    rule's score is a sum over the pairs of a per-pair term; summing a rule's
    scores over the candidates states what the scores add up to. */
module Sums {
  import opened Seqs
  import opened Profiles

  /** `sum(g(c) for c in cs)`. */
  function SumOver(cs: seq<int>, g: int -> int): int
  {
    if |cs| == 0 then 0 else SumOver(cs[..|cs| - 1], g) + g(cs[|cs| - 1])
  }

  /** Summing a pointwise sum is summing each part. */
  lemma {:induction false} SumOverLinear(cs: seq<int>, h: int -> int, f: int -> int, g: int -> int)
    requires forall x :: h(x) == f(x) + g(x)
    ensures SumOver(cs, h) == SumOver(cs, f) + SumOver(cs, g)
  {
    if |cs| > 0 {
      SumOverLinear(cs[..|cs| - 1], h, f, g);
    }
  }

  /** Summing a scaled function scales the sum. */
  lemma {:induction false} SumOverScale(cs: seq<int>, h: int -> int, f: int -> int, a: int)
    requires forall x :: h(x) == a * f(x)
    ensures SumOver(cs, h) == a * SumOver(cs, f)
  {
    if |cs| > 0 {
      SumOverScale(cs[..|cs| - 1], h, f, a);
    }
  }

  /** A function that is zero on the list sums to zero. */
  lemma {:induction false} SumOverZero(cs: seq<int>, g: int -> int)
    requires forall k :: 0 <= k < |cs| ==> g(cs[k]) == 0
    ensures SumOver(cs, g) == 0
  {
    if |cs| > 0 {
      SumOverZero(cs[..|cs| - 1], g);
    }
  }

  /** Over distinct candidates, a function that is `v` at `x` and zero
      elsewhere sums to `v` when `x` is listed and to zero otherwise. */
  lemma {:induction false} SumOverIndicator(cs: seq<int>, g: int -> int, x: int, v: int)
    requires Distinct(cs)
    requires forall y :: g(y) == if y == x then v else 0
    ensures SumOver(cs, g) == if x in cs then v else 0
  {
    if |cs| > 0 {
      var init := cs[..|cs| - 1];
      assert Distinct(init);
      SumOverIndicator(init, g, x, v);
      assert cs == init + [cs[|cs| - 1]];
      if cs[|cs| - 1] == x {
        assert x !in init;
      }
    }
  }

  lemma {:induction false} SumOverConcat(a: seq<int>, b: seq<int>, g: int -> int)
    ensures SumOver(a + b, g) == SumOver(a, g) + SumOver(b, g)
  {
    if |b| == 0 {
      assert a + b == a;
    } else {
      assert (a + b)[..|a + b| - 1] == a + b[..|b| - 1];
      SumOverConcat(a, b[..|b| - 1], g);
    }
  }

  /** Rearranging the list does not change the sum. */
  lemma {:induction false} SumOverPermutation(a: seq<int>, b: seq<int>, g: int -> int)
    requires multiset(a) == multiset(b)
    ensures SumOver(a, g) == SumOver(b, g)
    decreases |a|
  {
    if |a| > 0 {
      var x := a[|a| - 1];
      assert a == a[..|a| - 1] + [x];
      assert x in multiset(b);
      var k :| 0 <= k < |b| && b[k] == x;
      RemoveLastRearranges(a, b, k);
      SumOverPermutation(a[..|a| - 1], b[..k] + b[k + 1..], g);
      SumOverRemoved(b, k, g);
    } else {
      assert |multiset(b)| == 0;
    }
  }

  lemma RemoveLastRearranges(a: seq<int>, b: seq<int>, k: nat)
    requires multiset(a) == multiset(b) && |a| > 0
    requires k < |b| && b[k] == a[|a| - 1]
    ensures multiset(a[..|a| - 1]) == multiset(b[..k] + b[k + 1..])
  {
    var x := b[k];
    assert a == a[..|a| - 1] + [x];
    assert b == b[..k] + [x] + b[k + 1..];
    assert multiset(b) == multiset(b[..k]) + multiset{x} + multiset(b[k + 1..]);
    assert multiset(b[..k] + b[k + 1..]) == multiset(b[..k]) + multiset(b[k + 1..]);
    assert multiset(a[..|a| - 1]) == multiset(a) - multiset{x};
  }

  /** Taking one entry out of the list takes its value out of the sum. */
  lemma SumOverRemoved(b: seq<int>, k: nat, g: int -> int)
    requires k < |b|
    ensures SumOver(b, g) == SumOver(b[..k] + b[k + 1..], g) + g(b[k])
  {
    var x, left, right := b[k], b[..k], b[k + 1..];
    assert b == (left + [x]) + right;
    assert (left + [x])[..|left|] == left;
    assert SumOver(left + [x], g) == SumOver(left, g) + g(x);
    SumOverConcat(left + [x], right, g);
    SumOverConcat(left, right, g);
  }

  /** Pointwise equal functions have equal sums. */
  lemma {:induction false} SumOverCongruent(cs: seq<int>, f: int -> int, g: int -> int)
    requires forall k :: 0 <= k < |cs| ==> f(cs[k]) == g(cs[k])
    ensures SumOver(cs, f) == SumOver(cs, g)
  {
    if |cs| > 0 {
      SumOverCongruent(cs[..|cs| - 1], f, g);
    }
  }

  /** Over distinct candidates, counting the occurrences of each candidate
      in a list drawn from them adds up to the list's length. */
  lemma {:induction false} SumOverCount(cs: seq<int>, s: seq<int>)
    requires Distinct(cs)
    requires forall k :: 0 <= k < |s| ==> s[k] in cs
    ensures SumOver(cs, c => Count(s, c)) == |s|
  {
    if |s| == 0 {
      SumOverZero(cs, c => Count(s, c));
    } else {
      var init := s[..|s| - 1];
      var x := s[|s| - 1];
      SumOverCount(cs, init);
      SumOverLinear(cs, c => Count(s, c), c => Count(init, c), c => if c == x then 1 else 0);
      SumOverIndicator(cs, c => if c == x then 1 else 0, x, 1);
    }
  }

  // ----- sums over pairs --------------------------------------------------

  /** `sum(term(pair, c) for pair in pairs)`. */
  function PairSum(pairs: seq<Pair>, term: (Pair, int) -> int, c: int): int
  {
    if |pairs| == 0 then 0
    else PairSum(pairs[..|pairs| - 1], term, c) + term(pairs[|pairs| - 1], c)
  }

  /** `sum(g(pair) for pair in pairs)`. */
  function PairTotal(pairs: seq<Pair>, g: Pair -> int): int
  {
    if |pairs| == 0 then 0
    else PairTotal(pairs[..|pairs| - 1], g) + g(pairs[|pairs| - 1])
  }

  /** Summing the scores over the candidates is summing, pair by pair, the
      pair's terms over the candidates. */
  lemma {:induction false} SwapSums(cs: seq<int>, pairs: seq<Pair>, term: (Pair, int) -> int)
    ensures SumOver(cs, c => PairSum(pairs, term, c)) == PairTotal(pairs, p => SumOver(cs, c => term(p, c)))
  {
    if |pairs| == 0 {
      SumOverZero(cs, c => PairSum(pairs, term, c));
    } else {
      var init := pairs[..|pairs| - 1];
      var last := pairs[|pairs| - 1];
      SwapSums(cs, init, term);
      SumOverLinear(cs, c => PairSum(pairs, term, c), c => PairSum(init, term, c), c => term(last, c));
    }
  }

  /** When each pair's terms add up, over the candidates, to `m` times its
      frequency, the scores add up to `m` times the number of voters. */
  lemma SwapSumsScaled(cs: seq<int>, pairs: seq<Pair>, term: (Pair, int) -> int, m: int)
    requires forall k :: 0 <= k < |pairs| ==> SumOver(cs, c => term(pairs[k], c)) == pairs[k].0 * m
    ensures SumOver(cs, c => PairSum(pairs, term, c)) == m * FreqSum(pairs)
  {
    SwapSums(cs, pairs, term);
    PairTotalScaled(pairs, p => SumOver(cs, c => term(p, c)), m);
  }

  lemma {:induction false} PairTotalCongruent(pairs: seq<Pair>, f: Pair -> int, g: Pair -> int)
    requires forall k :: 0 <= k < |pairs| ==> f(pairs[k]) == g(pairs[k])
    ensures PairTotal(pairs, f) == PairTotal(pairs, g)
  {
    if |pairs| > 0 {
      PairTotalCongruent(pairs[..|pairs| - 1], f, g);
    }
  }

  /** Terms between 0 and `m` times the pair's frequency give a sum between
      0 and `m` times the number of voters. */
  lemma {:induction false} PairSumBounds(pairs: seq<Pair>, term: (Pair, int) -> int, c: int, m: nat)
    requires forall k :: 0 <= k < |pairs| ==> 0 <= term(pairs[k], c) <= pairs[k].0 * m
    ensures 0 <= PairSum(pairs, term, c) <= m * FreqSum(pairs)
  {
    if |pairs| > 0 {
      PairSumBounds(pairs[..|pairs| - 1], term, c, m);
    }
  }

  /** Terms of exactly `m` times the frequency give `m` times the number of voters. */
  lemma {:induction false} PairSumScaled(pairs: seq<Pair>, term: (Pair, int) -> int, c: int, m: int)
    requires forall k :: 0 <= k < |pairs| ==> term(pairs[k], c) == pairs[k].0 * m
    ensures PairSum(pairs, term, c) == m * FreqSum(pairs)
  {
    if |pairs| > 0 {
      PairSumScaled(pairs[..|pairs| - 1], term, c, m);
    }
  }

  lemma {:induction false} PairSumZero(pairs: seq<Pair>, term: (Pair, int) -> int, c: int)
    requires forall k :: 0 <= k < |pairs| ==> term(pairs[k], c) == 0
    ensures PairSum(pairs, term, c) == 0
  {
    if |pairs| > 0 {
      PairSumZero(pairs[..|pairs| - 1], term, c);
    }
  }

  /** When only pairs naming `c` can contribute, a `c` that no ballot names sums to zero. */
  lemma PairSumAbsent(pairs: seq<Pair>, term: (Pair, int) -> int, c: int)
    requires forall k :: 0 <= k < |pairs| && c !in pairs[k].1 ==> term(pairs[k], c) == 0
    ensures (forall k :: 0 <= k < |pairs| ==> c !in pairs[k].1) ==> PairSum(pairs, term, c) == 0
  {
    if forall k :: 0 <= k < |pairs| ==> c !in pairs[k].1 {
      PairSumZero(pairs, term, c);
    }
  }

  /** Pointwise smaller terms give a smaller sum. */
  lemma {:induction false} PairSumMonotone(pairs: seq<Pair>, t1: (Pair, int) -> int, t2: (Pair, int) -> int, c: int)
    requires forall k :: 0 <= k < |pairs| ==> t1(pairs[k], c) <= t2(pairs[k], c)
    ensures PairSum(pairs, t1, c) <= PairSum(pairs, t2, c)
  {
    if |pairs| > 0 {
      PairSumMonotone(pairs[..|pairs| - 1], t1, t2, c);
    }
  }

  lemma {:induction false} PairSumCongruent(pairs: seq<Pair>, t1: (Pair, int) -> int, t2: (Pair, int) -> int, c: int)
    requires forall k :: 0 <= k < |pairs| ==> t1(pairs[k], c) == t2(pairs[k], c)
    ensures PairSum(pairs, t1, c) == PairSum(pairs, t2, c)
  {
    if |pairs| > 0 {
      PairSumCongruent(pairs[..|pairs| - 1], t1, t2, c);
    }
  }

  /** A term that vanishes on ballots lacking `c` sums the same over the
      pairs that mention `c`: the `if candidate in ballot` filter. */
  lemma {:induction false} PairSumContaining(pairs: seq<Pair>, term: (Pair, int) -> int, c: int)
    requires forall k :: 0 <= k < |pairs| && c !in pairs[k].1 ==> term(pairs[k], c) == 0
    ensures PairSum(pairs, term, c) == PairSum(PairsContaining(pairs, c), term, c)
  {
    if |pairs| > 0 {
      PairSumContaining(pairs[..|pairs| - 1], term, c);
      var init := PairsContaining(pairs[..|pairs| - 1], c);
      if c in pairs[|pairs| - 1].1 {
        assert (init + [pairs[|pairs| - 1]])[..|init|] == init;
      }
    }
  }

  /** A term equal to the frequency on ballots mentioning `c`, and zero on
      the others, sums to the number of voters mentioning `c`. */
  lemma {:induction false} PairSumMentions(pairs: seq<Pair>, term: (Pair, int) -> int, c: int)
    requires forall k :: 0 <= k < |pairs| ==> term(pairs[k], c) == if c in pairs[k].1 then pairs[k].0 else 0
    ensures PairSum(pairs, term, c) == ContainingFreqSum(pairs, c)
  {
    if |pairs| > 0 {
      PairSumMentions(pairs[..|pairs| - 1], term, c);
    }
  }

  lemma {:induction false} PairTotalScaled(pairs: seq<Pair>, g: Pair -> int, m: int)
    requires forall k :: 0 <= k < |pairs| ==> g(pairs[k]) == pairs[k].0 * m
    ensures PairTotal(pairs, g) == m * FreqSum(pairs)
  {
    if |pairs| > 0 {
      PairTotalScaled(pairs[..|pairs| - 1], g, m);
    }
  }

  // ----- real-valued sums over pairs ---------------------------------------

  /** A non-negative weight below `m` scales a frequency to at most `m` times it. */
  lemma ScaleWithin(f: real, w: real, m: real)
    requires 0.0 <= f && 0.0 <= w <= m
    ensures 0.0 <= f * w <= f * m
  {
    assert f * m - f * w == f * (m - w);
  }

  /** `sum(term(pair, c) for pair in pairs)` for a real-valued term. */
  function RealPairSum(pairs: seq<Pair>, term: (Pair, int) -> real, c: int): real
  {
    if |pairs| == 0 then 0.0
    else RealPairSum(pairs[..|pairs| - 1], term, c) + term(pairs[|pairs| - 1], c)
  }

  /** Every pair's term lies between 0 and `frequency × m`. */
  predicate RealTermsWithin(pairs: seq<Pair>, term: (Pair, int) -> real, c: int, m: real)
  {
    forall k :: 0 <= k < |pairs| ==> 0.0 <= term(pairs[k], c) <= pairs[k].0 as real * m
  }

  lemma {:induction false} RealPairSumBounds(pairs: seq<Pair>, term: (Pair, int) -> real, c: int, m: real)
    requires 0.0 <= m
    requires RealTermsWithin(pairs, term, c, m)
    ensures 0.0 <= RealPairSum(pairs, term, c) <= m * FreqSum(pairs) as real
  {
    if |pairs| > 0 {
      RealPairSumBounds(pairs[..|pairs| - 1], term, c, m);
    }
  }

  lemma {:induction false} RealPairSumContaining(pairs: seq<Pair>, term: (Pair, int) -> real, c: int)
    requires forall k :: 0 <= k < |pairs| && c !in pairs[k].1 ==> term(pairs[k], c) == 0.0
    ensures RealPairSum(pairs, term, c) == RealPairSum(PairsContaining(pairs, c), term, c)
  {
    if |pairs| > 0 {
      RealPairSumContaining(pairs[..|pairs| - 1], term, c);
      var init := PairsContaining(pairs[..|pairs| - 1], c);
      if c in pairs[|pairs| - 1].1 {
        assert (init + [pairs[|pairs| - 1]])[..|init|] == init;
      }
    }
  }

  /** The real-valued counterpart of `PairSumAbsent`. */
  lemma {:induction false} RealPairSumAbsent(pairs: seq<Pair>, term: (Pair, int) -> real, c: int)
    requires forall k :: 0 <= k < |pairs| && c !in pairs[k].1 ==> term(pairs[k], c) == 0.0
    ensures (forall k :: 0 <= k < |pairs| ==> c !in pairs[k].1) ==> RealPairSum(pairs, term, c) == 0.0
  {
    if |pairs| > 0 {
      RealPairSumAbsent(pairs[..|pairs| - 1], term, c);
    }
  }

  /** A real-valued term that is the cast of an integer term sums to the
      cast of the integer sum. */
  lemma {:induction false} RealPairSumCast(pairs: seq<Pair>, term: (Pair, int) -> real, iterm: (Pair, int) -> int, c: int)
    requires forall k :: 0 <= k < |pairs| ==> term(pairs[k], c) == iterm(pairs[k], c) as real
    ensures RealPairSum(pairs, term, c) == PairSum(pairs, iterm, c) as real
  {
    if |pairs| > 0 {
      RealPairSumCast(pairs[..|pairs| - 1], term, iterm, c);
    }
  }

  lemma {:induction false} RealPairSumMentions(pairs: seq<Pair>, term: (Pair, int) -> real, c: int)
    requires forall k :: 0 <= k < |pairs| ==>
      term(pairs[k], c) == if c in pairs[k].1 then pairs[k].0 as real else 0.0
    ensures RealPairSum(pairs, term, c) == ContainingFreqSum(pairs, c) as real
  {
    if |pairs| > 0 {
      RealPairSumMentions(pairs[..|pairs| - 1], term, c);
    }
  }
}
