/** The rule rules/dowdall_rule.py computes: a ballot naming the candidate
    at position `i` gives it `(C − 1 − i) / (i + 1)` per voter (true
    division), where `C` is the number of candidates. This is the Borda
    weight divided by the position, not the textbook Dowdall weight `1/(i+1)`. */
module Dowdall {
  import opened Seqs
  import opened Profiles
  import opened Sums

  function DowdallTerm(n: int, p: Pair, c: int): real
  {
    if c in p.1 then
      var i := IndexOf(p.1, c);
      p.0 as real * ((n - 1 - i) as real / (i + 1) as real)
    else 0.0
  }

  function DowdallTerms(n: int): (Pair, int) -> real
  {
    (p, c) => DowdallTerm(n, p, c)
  }

  /** `dowdall_rule(profile, candidate)`. A candidate that no ballot names scores 0. */
  function DowdallRule(profile: Profile, candidate: int): (score: real)
    ensures (forall k :: 0 <= k < |profile.pairs| ==> candidate !in profile.pairs[k].1) ==> score == 0.0
  {
    RealPairSumAbsent(profile.pairs, DowdallTerms(|profile.candidates|), candidate);
    RealPairSum(profile.pairs, DowdallTerms(|profile.candidates|), candidate)
  }

  /** The score is a sum over the pairs whose ballot names the candidate. */
  lemma DowdallOnlyContaining(profile: Profile, candidate: int)
    ensures DowdallRule(profile, candidate)
         == RealPairSum(PairsContaining(profile.pairs, candidate), DowdallTerms(|profile.candidates|), candidate)
  {
    RealPairSumContaining(profile.pairs, DowdallTerms(|profile.candidates|), candidate);
  }

  /** A first place is worth `frequency × (C − 1)`. */
  lemma DowdallFirstPlace(n: int, p: Pair)
    requires |p.1| > 0
    ensures DowdallTerm(n, p, p.1[0]) == p.0 as real * (n - 1) as real
  {
    assert IndexOf(p.1, p.1[0]) == 0;
  }

  /** The last entry of a full duplicate-free ballot is worth nothing. */
  lemma DowdallLastPlace(n: nat, p: Pair)
    requires |p.1| == n > 0 && Distinct(p.1)
    ensures DowdallTerm(n, p, p.1[n - 1]) == 0.0
  {
    IndexOfDistinct(p.1, n - 1);
  }

  lemma QuotientBound(x: real, y: real)
    requires 0.0 <= x && 1.0 <= y
    ensures 0.0 <= x / y <= x
  {
    assert x / y * y == x;
  }

  /** On a ballot no longer than the candidate list a pair gives between 0
      and `frequency × (C − 1)`. */
  lemma DowdallTermBounds(n: int, p: Pair, c: int)
    requires 0 < n && |p.1| <= n
    ensures 0.0 <= DowdallTerm(n, p, c) <= p.0 as real * (n - 1) as real
  {
    if c in p.1 {
      var i := IndexOf(p.1, c);
      var w := (n - 1 - i) as real / (i + 1) as real;
      QuotientBound((n - 1 - i) as real, (i + 1) as real);
      assert w <= (n - 1) as real;
      ScaleWithin(p.0 as real, w, (n - 1) as real);
      assert DowdallTerm(n, p, c) == p.0 as real * w;
    } else {
      ScaleWithin(p.0 as real, 0.0, (n - 1) as real);
    }
  }

  /** With ballots no longer than the candidate list the score lies between
      0 and `(C − 1) × voters`. */
  lemma DowdallBounds(profile: Profile, candidate: int)
    requires |profile.candidates| > 0
    requires BallotsWithin(profile.pairs, |profile.candidates|)
    ensures 0.0 <= DowdallRule(profile, candidate) <= (|profile.candidates| - 1) as real * FreqSum(profile.pairs) as real
  {
    DowdallSumWithin(|profile.candidates|, profile.pairs, candidate);
  }

  lemma DowdallSumWithin(n: int, pairs: seq<Pair>, c: int)
    requires 0 < n && BallotsWithin(pairs, n)
    ensures 0.0 <= RealPairSum(pairs, DowdallTerms(n), c) <= (n - 1) as real * FreqSum(pairs) as real
  {
    DowdallTermsWithin(n, pairs, c);
    RealPairSumBounds(pairs, DowdallTerms(n), c, (n - 1) as real);
  }

  lemma DowdallTermsWithin(n: int, pairs: seq<Pair>, c: int)
    requires 0 < n && BallotsWithin(pairs, n)
    ensures RealTermsWithin(pairs, DowdallTerms(n), c, (n - 1) as real)
  {
    forall k | 0 <= k < |pairs|
      ensures 0.0 <= DowdallTerms(n)(pairs[k], c) <= pairs[k].0 as real * (n - 1) as real
    {
      DowdallTermBounds(n, pairs[k], c);
    }
  }
}
