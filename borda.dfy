/** The Borda rule (rules/borda_rule.py): a ballot naming the candidate at
    position `i` gives it `C − 1 − i` points per voter, where `C` is the
    number of candidates; ballots not naming it give nothing. */
module Borda {
  import opened Seqs
  import opened Profiles
  import opened Sums

  /** What one pair gives `c` under Borda with `n` candidates. */
  function BordaTerm(n: int, p: Pair, c: int): int
  {
    if c in p.1 then p.0 * (n - 1 - IndexOf(p.1, c)) else 0
  }

  function BordaTerms(n: int): (Pair, int) -> int
  {
    (p, c) => BordaTerm(n, p, c)
  }

  /** `borda_rule(profile, candidate)`. A candidate that no ballot names scores 0. */
  function BordaRule(profile: Profile, candidate: int): (score: int)
    ensures (forall k :: 0 <= k < |profile.pairs| ==> candidate !in profile.pairs[k].1) ==> score == 0
  {
    PairSumAbsent(profile.pairs, BordaTerms(|profile.candidates|), candidate);
    PairSum(profile.pairs, BordaTerms(|profile.candidates|), candidate)
  }

  /** The score is a sum over the pairs whose ballot names the candidate,
      each contributing `frequency × (C − 1 − index)`. */
  lemma BordaOnlyContaining(profile: Profile, candidate: int)
    ensures BordaRule(profile, candidate)
         == PairSum(PairsContaining(profile.pairs, candidate), BordaTerms(|profile.candidates|), candidate)
    ensures forall q :: q in PairsContaining(profile.pairs, candidate) ==>
      BordaTerms(|profile.candidates|)(q, candidate)
      == q.0 * (|profile.candidates| - 1 - IndexOf(q.1, candidate))
  {
    PairSumContaining(profile.pairs, BordaTerms(|profile.candidates|), candidate);
  }

  /** With ballots no longer than the candidate list, the score lies
      between 0 and `(C − 1) × voters`. */
  lemma BordaBounds(profile: Profile, candidate: int)
    requires |profile.candidates| > 0
    requires BallotsWithin(profile.pairs, |profile.candidates|)
    ensures 0 <= BordaRule(profile, candidate) <= (|profile.candidates| - 1) * FreqSum(profile.pairs)
  {
    var n := |profile.candidates|;
    var t := BordaTerms(n);
    forall k | 0 <= k < |profile.pairs|
      ensures 0 <= t(profile.pairs[k], candidate) <= profile.pairs[k].0 * (n - 1)
    {
      var (f, b) := profile.pairs[k];
      if candidate in b {
        var points := n - 1 - IndexOf(b, candidate);
        assert 0 <= points <= n - 1;
        assert f * points <= f * (n - 1);
      }
    }
    PairSumBounds(profile.pairs, t, candidate, n - 1);
  }

  /** A candidate ranked first on every ballot gets the maximum `(C − 1) × voters`. */
  lemma BordaFirstEverywhere(profile: Profile, candidate: int)
    requires forall k :: 0 <= k < |profile.pairs| ==>
      |profile.pairs[k].1| > 0 && profile.pairs[k].1[0] == candidate
    ensures BordaRule(profile, candidate) == (|profile.candidates| - 1) * FreqSum(profile.pairs)
  {
    PairSumScaled(profile.pairs, BordaTerms(|profile.candidates|), candidate, |profile.candidates| - 1);
  }

  /** `n(n − 1)` is even. */
  lemma {:induction false} TriangleEven(n: nat)
    ensures n * (n - 1) == 2 * (n * (n - 1) / 2)
  {
    if n > 0 {
      TriangleEven(n - 1);
      assert n * (n - 1) == (n - 1) * (n - 2) + 2 * (n - 1);
    }
  }

  /** Positions `0 .. m−1` of a ballot worth `f × (n − 1 − i)` add up to
      `f × m × (2n − m − 1) / 2`. */
  lemma {:induction false} PositionsSum(b: seq<int>, g: int -> int, f: int, n: int, m: nat)
    requires m <= |b|
    requires forall i :: 0 <= i < |b| ==> g(b[i]) == f * (n - 1 - i)
    ensures 2 * SumOver(b[..m], g) == f * (m * (2 * n - m - 1))
  {
    if m > 0 {
      assert b[..m][..m - 1] == b[..m - 1];
      PositionsSum(b, g, f, n, m - 1);
      assert (m - 1) * (2 * n - (m - 1) - 1) + 2 * (n - 1 - (m - 1)) == m * (2 * n - m - 1);
      assert f * ((m - 1) * (2 * n - (m - 1) - 1)) + 2 * (f * (n - 1 - (m - 1)))
          == f * ((m - 1) * (2 * n - (m - 1) - 1) + 2 * (n - 1 - (m - 1)));
    }
  }

  /** A full ballot over the candidates hands out `f × C(C − 1)/2` points in all. */
  lemma FullBallotPoints(cs: seq<int>, p: Pair)
    requires Distinct(cs) && Distinct(p.1) && |p.1| == |cs|
    requires forall x :: x in p.1 ==> x in cs
    ensures SumOver(cs, c => BordaTerm(|cs|, p, c)) == p.0 * (|cs| * (|cs| - 1) / 2)
  {
    var n := |cs|;
    var g := c => BordaTerm(n, p, c);
    SumOverRearranged(cs, p.1, g);
    BallotPoints(p, n, g);
  }

  /** A sum over the candidates equals the sum over a full ballot's order. */
  lemma SumOverRearranged(cs: seq<int>, b: seq<int>, g: int -> int)
    requires Distinct(cs) && Distinct(b) && |b| == |cs|
    requires forall x :: x in b ==> x in cs
    ensures SumOver(cs, g) == SumOver(b, g)
  {
    assert forall x :: x in b ==> x in cs;
    DistinctFullCovers(b, cs);
    SameElementsPermutation(b, cs);
    SumOverPermutation(cs, b, g);
  }

  /** Summed in ballot order, position `i` is worth `f × (n − 1 − i)`. */
  lemma BallotPoints(p: Pair, n: nat, g: int -> int)
    requires Distinct(p.1) && |p.1| == n
    requires forall c :: g(c) == BordaTerm(n, p, c)
    ensures SumOver(p.1, g) == p.0 * (n * (n - 1) / 2)
  {
    var b := p.1;
    forall i | 0 <= i < |b|
      ensures g(b[i]) == p.0 * (n - 1 - i)
    {
      IndexOfDistinct(b, i);
      assert g(b[i]) == BordaTerm(n, p, b[i]);
    }
    PositionsSum(b, g, p.0, n, n);
    assert b[..n] == b;
    HalfTriangle(SumOver(b, g), p.0, n);
  }

  lemma HalfTriangle(s: int, f: int, n: nat)
    requires 2 * s == f * (n * (2 * n - n - 1))
    ensures s == f * (n * (n - 1) / 2)
  {
    TriangleEven(n);
    assert f * (n * (n - 1)) == 2 * (f * (n * (n - 1) / 2));
  }

  /** With full-length ballots, the Borda scores of all candidates add up
      to `voters × C(C − 1)/2`. */
  lemma BordaTotal(profile: Profile)
    requires WellFormed(profile)
    requires forall k :: 0 <= k < |profile.pairs| ==> |profile.pairs[k].1| == |profile.candidates|
    ensures SumOver(profile.candidates, c => BordaRule(profile, c))
         == (|profile.candidates| * (|profile.candidates| - 1) / 2) * FreqSum(profile.pairs)
  {
    var cs := profile.candidates;
    var pairs := profile.pairs;
    var n := |cs|;
    var t := BordaTerms(n);
    SumOverCongruent(cs, c => BordaRule(profile, c), c => PairSum(pairs, t, c));
    forall k | 0 <= k < |pairs|
      ensures SumOver(cs, c => t(pairs[k], c)) == pairs[k].0 * (n * (n - 1) / 2)
    {
      FullBallotPoints(cs, pairs[k]);
      SumOverCongruent(cs, c => t(pairs[k], c), c => BordaTerm(n, pairs[k], c));
    }
    SwapSumsScaled(cs, pairs, t, n * (n - 1) / 2);
  }
}
