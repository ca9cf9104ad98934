/** Borda-gamma (rules/borda_gamma_rule.py): a ballot naming the candidate at
    position `i` gives it `gamma^i` per voter. */
module BordaGamma {
  import opened Seqs
  import opened Profiles
  import opened Sums
  import Plurality

  /** `x ** e` for a natural exponent, with `x ** 0 == 1` even for `x == 0`. */
  function Pow(x: real, e: nat): real
  {
    if e == 0 then 1.0 else x * Pow(x, e - 1)
  }

  function GammaTerm(gamma: real, p: Pair, c: int): real
  {
    if c in p.1 then p.0 as real * Pow(gamma, IndexOf(p.1, c)) else 0.0
  }

  function GammaTerms(gamma: real): (Pair, int) -> real
  {
    (p, c) => GammaTerm(gamma, p, c)
  }

  /** `build_borda_gamma_rule(gamma)(profile, candidate)`. A candidate that
      no ballot names scores 0. */
  function BordaGammaRule(gamma: real, profile: Profile, candidate: int): (score: real)
    ensures (forall k :: 0 <= k < |profile.pairs| ==> candidate !in profile.pairs[k].1) ==> score == 0.0
  {
    RealPairSumAbsent(profile.pairs, GammaTerms(gamma), candidate);
    RealPairSum(profile.pairs, GammaTerms(gamma), candidate)
  }

  lemma {:induction false} PowOne(e: nat)
    ensures Pow(1.0, e) == 1.0
  {
    if e > 0 {
      PowOne(e - 1);
    }
  }

  /** For `0 ≤ gamma ≤ 1`, powers lie in [0, 1] and shrink as the exponent grows. */
  lemma {:induction false} PowUnitBounds(gamma: real, e: nat)
    requires 0.0 <= gamma <= 1.0
    ensures 0.0 <= Pow(gamma, e) <= 1.0
    ensures Pow(gamma, e + 1) <= Pow(gamma, e)
  {
    if e > 0 {
      PowUnitBounds(gamma, e - 1);
      ScaleWithin(Pow(gamma, e - 1), gamma, 1.0);
    }
    ScaleWithin(Pow(gamma, e), gamma, 1.0);
  }

  lemma {:induction false} PowAntitone(gamma: real, i: nat, j: nat)
    requires 0.0 <= gamma <= 1.0
    requires i <= j
    ensures Pow(gamma, j) <= Pow(gamma, i)
    decreases j - i
  {
    if i < j {
      PowAntitone(gamma, i, j - 1);
      PowUnitBounds(gamma, j - 1);
    }
  }

  /** The score is a sum over the pairs whose ballot names the candidate. */
  lemma GammaOnlyContaining(gamma: real, profile: Profile, candidate: int)
    ensures BordaGammaRule(gamma, profile, candidate)
         == RealPairSum(PairsContaining(profile.pairs, candidate), GammaTerms(gamma), candidate)
  {
    RealPairSumContaining(profile.pairs, GammaTerms(gamma), candidate);
  }

  /** With `gamma = 1` a candidate scores the number of voters naming it. */
  lemma GammaOneCountsMentions(profile: Profile, candidate: int)
    ensures BordaGammaRule(1.0, profile, candidate) == ContainingFreqSum(profile.pairs, candidate) as real
  {
    forall k | 0 <= k < |profile.pairs|
      ensures GammaTerms(1.0)(profile.pairs[k], candidate)
           == if candidate in profile.pairs[k].1 then profile.pairs[k].0 as real else 0.0
    {
      if candidate in profile.pairs[k].1 {
        PowOne(IndexOf(profile.pairs[k].1, candidate));
      }
    }
    RealPairSumMentions(profile.pairs, GammaTerms(1.0), candidate);
  }

  /** With `gamma = 0` only first places count (`0.0 ** 0 == 1.0` and
      `0.0 ** i == 0.0` beyond), so the score is the plurality tally: the
      limit in which the top-ranked candidate dominates. */
  lemma GammaZeroIsPlurality(profile: Profile, candidate: int)
    ensures BordaGammaRule(0.0, profile, candidate) == Plurality.FirstPlaceTally(profile.pairs, candidate) as real
  {
    forall k | 0 <= k < |profile.pairs|
      ensures GammaTerms(0.0)(profile.pairs[k], candidate) == Plurality.FirstPlaceTerm(profile.pairs[k], candidate) as real
    {
      GammaZeroTerm(profile.pairs[k], candidate);
    }
    RealPairSumCast(profile.pairs, GammaTerms(0.0), Plurality.FirstPlaceTerm, candidate);
  }

  lemma GammaZeroTerm(p: Pair, c: int)
    ensures GammaTerm(0.0, p, c) == Plurality.FirstPlaceTerm(p, c) as real
  {
    if c in p.1 {
      var i := IndexOf(p.1, c);
      if i == 0 {
        assert Pow(0.0, i) == 1.0;
      } else {
        assert Pow(0.0, i) == 0.0 * Pow(0.0, i - 1) == 0.0;
      }
    } else if |p.1| > 0 {
      assert p.1[0] in p.1;
    }
  }

  /** A first place is worth exactly the pair's frequency. */
  lemma GammaFirstPlace(gamma: real, p: Pair)
    requires |p.1| > 0
    ensures GammaTerm(gamma, p, p.1[0]) == p.0 as real
  {
    assert IndexOf(p.1, p.1[0]) == 0;
  }

  lemma GammaTermBounds(gamma: real, p: Pair, c: int)
    requires 0.0 <= gamma <= 1.0
    ensures 0.0 <= GammaTerm(gamma, p, c) <= p.0 as real * 1.0
  {
    var f := p.0 as real;
    assert f * 1.0 == f;
    if c in p.1 {
      var w := Pow(gamma, IndexOf(p.1, c));
      PowUnitBounds(gamma, IndexOf(p.1, c));
      ScaleWithin(f, w, 1.0);
      assert GammaTerm(gamma, p, c) == f * w;
    } else {
      assert GammaTerm(gamma, p, c) == 0.0;
    }
  }

  /** For `0 ≤ gamma ≤ 1` the score lies between 0 and the number of voters. */
  lemma GammaBounds(gamma: real, profile: Profile, candidate: int)
    requires 0.0 <= gamma <= 1.0
    ensures 0.0 <= BordaGammaRule(gamma, profile, candidate) <= FreqSum(profile.pairs) as real
  {
    GammaTermsWithin(gamma, profile.pairs, candidate);
    RealPairSumBounds(profile.pairs, GammaTerms(gamma), candidate, 1.0);
  }

  lemma GammaTermsWithin(gamma: real, pairs: seq<Pair>, c: int)
    requires 0.0 <= gamma <= 1.0
    ensures RealTermsWithin(pairs, GammaTerms(gamma), c, 1.0)
  {
    forall k | 0 <= k < |pairs|
      ensures 0.0 <= GammaTerms(gamma)(pairs[k], c) <= pairs[k].0 as real * 1.0
    {
      GammaTermBounds(gamma, pairs[k], c);
    }
  }

  /** For `0 ≤ gamma ≤ 1` an earlier position is worth at least as much as a later one. */
  lemma GammaEarlierNotWorse(gamma: real, p: Pair, a: int, b: int)
    requires 0.0 <= gamma <= 1.0
    requires a in p.1 && b in p.1 && IndexOf(p.1, a) <= IndexOf(p.1, b)
    ensures GammaTerm(gamma, p, b) <= GammaTerm(gamma, p, a)
  {
    PowAntitone(gamma, IndexOf(p.1, a), IndexOf(p.1, b));
    PowUnitBounds(gamma, IndexOf(p.1, b));
    ScaleWithin(p.0 as real, Pow(gamma, IndexOf(p.1, b)), Pow(gamma, IndexOf(p.1, a)));
  }
}
