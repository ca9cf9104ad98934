/** The submitted k-approval rule (rules/k_approval_rule_submission_version.py):
    the same tally as `build_k_approval_rule` with `k` fixed at 9. */
module KApprovalSubmission {
  import opened Seqs
  import opened Profiles
  import opened Sums
  import opened KApproval

  /** The submitted number of approved entries per ballot (line 3). */
  const K: int := 9

  /** `k_approval_rule(profile, candidate)`. Its loop is the one of
      `KApproval.KApprovalRule` with `k = K`. */
  method KApprovalSubmissionRule(profile: Profile, candidate: int) returns (score: int)
    requires candidate in profile.candidates
    requires ApprovedAreCandidates(profile, K)
    ensures score == KApprovalScore(profile.pairs, K, candidate)
  {
    score := KApprovalRule(profile, K, candidate);
  }

  /** A candidate at index 9 or later on every ballot naming it scores 0. */
  lemma SubmissionLateCandidate(pairs: seq<Pair>, c: int)
    requires forall q :: 0 <= q < |pairs| && c in pairs[q].1 ==> IndexOf(pairs[q].1, c) >= K
    ensures KApprovalScore(pairs, K, c) == 0
  {
    assert forall q :: 0 <= q < |pairs| ==> c !in Prefix(pairs[q].1, K);
    KApprovalUnapproved(pairs, K, c);
  }

  /** On duplicate-free ballots the score lies between 0 and the number of voters. */
  lemma SubmissionBounds(pairs: seq<Pair>, c: int)
    requires forall q :: 0 <= q < |pairs| ==> Distinct(pairs[q].1)
    ensures 0 <= KApprovalScore(pairs, K, c) <= FreqSum(pairs)
  {
    KApprovalBounds(pairs, K, c);
  }

  /** Over distinct candidates the tallies add up to `Σ frequency × min(9, |ballot|)`. */
  lemma SubmissionTotal(profile: Profile)
    requires Distinct(profile.candidates)
    requires ApprovedAreCandidates(profile, K)
    ensures SumOver(profile.candidates, c => KApprovalScore(profile.pairs, K, c))
         == PairTotal(profile.pairs, (p: Pair) => p.0 * (if K < |p.1| then K else |p.1|))
  {
    KApprovalTotal(profile, K);
  }
}
