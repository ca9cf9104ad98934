/** The submitted Borda-gamma rule (rules/borda_gamma_rule_submission_version.py):
    Borda-gamma with `gamma` fixed at 0.1, taken as the exact rational 1/10. */
module BordaGammaSubmission {
  import opened Seqs
  import opened Profiles
  import opened Sums
  import opened BordaGamma

  /** The submitted decay factor `gamma` (line 3). */
  const Gamma: real := 0.1

  /** `borda_gamma_rule(profile, candidate)`: the comprehension of
      `build_borda_gamma_rule` with `gamma = Gamma`. A candidate that no
      ballot names scores 0. */
  function BordaGammaSubmissionRule(profile: Profile, candidate: int): (score: real)
    ensures (forall k :: 0 <= k < |profile.pairs| ==> candidate !in profile.pairs[k].1) ==> score == 0.0
  {
    BordaGammaRule(Gamma, profile, candidate)
  }

  /** A pair naming the candidate at index `r` contributes `frequency × 0.1^r`;
      one not naming it contributes nothing. */
  lemma SubmissionTerm(p: Pair, c: int)
    ensures c in p.1 ==> GammaTerms(Gamma)(p, c) == p.0 as real * Pow(0.1, IndexOf(p.1, c))
    ensures c !in p.1 ==> GammaTerms(Gamma)(p, c) == 0.0
  {
  }

  /** The score is a sum over the pairs whose ballot names the candidate. */
  lemma SubmissionOnlyContaining(profile: Profile, candidate: int)
    ensures BordaGammaSubmissionRule(profile, candidate)
         == RealPairSum(PairsContaining(profile.pairs, candidate), GammaTerms(Gamma), candidate)
  {
    GammaOnlyContaining(Gamma, profile, candidate);
  }

  /** The score lies between 0 and the number of voters. */
  lemma SubmissionBounds(profile: Profile, candidate: int)
    ensures 0.0 <= BordaGammaSubmissionRule(profile, candidate) <= FreqSum(profile.pairs) as real
  {
    GammaBounds(Gamma, profile, candidate);
  }
}
