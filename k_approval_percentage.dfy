/** k-approval with `k` derived from a percentage of the candidate count
    (rules/k_approval_rule_percentage_version.py). */
module KApprovalPercentage {
  import opened Seqs
  import opened Profiles
  import opened Sums
  import opened KApproval

  /** `math.ceil(x)`: the least integer not below `x`. */
  function Ceil(x: real): (r: int)
    ensures r as real >= x
    ensures (r - 1) as real < x
  {
    -((-x).Floor)
  }

  /** Line 9: `max(ceil(C × p / 100), 2)`. */
  function DerivedK(numCandidates: nat, kPercentage: real): (k: int)
    ensures k >= 2
    ensures k as real >= numCandidates as real * (kPercentage / 100.0)
    ensures k == 2 || (k - 1) as real < numCandidates as real * (kPercentage / 100.0)
  {
    var c := Ceil(numCandidates as real * (kPercentage / 100.0));
    if c > 2 then c else 2
  }

  /** `build_k_approval_rule_percentage_version(kPercentage)(profile, candidate)`. */
  method KApprovalPercentageRule(profile: Profile, kPercentage: real, candidate: int) returns (score: int)
    requires candidate in profile.candidates
    requires ApprovedAreCandidates(profile, DerivedK(|profile.candidates|, kPercentage))
    ensures score == KApprovalScore(profile.pairs, DerivedK(|profile.candidates|, kPercentage), candidate)
  {
    var k := DerivedK(|profile.candidates|, kPercentage);
    score := KApprovalRule(profile, k, candidate);
  }

  /** At 100 percent or more every entry of a ballot no longer than the
      candidate list is approved: on duplicate-free ballots a candidate
      scores the number of voters naming it. */
  lemma PercentageApprovesAll(profile: Profile, kPercentage: real, c: int)
    requires kPercentage >= 100.0
    requires BallotsWithin(profile.pairs, |profile.candidates|)
    requires forall q :: 0 <= q < |profile.pairs| ==> Distinct(profile.pairs[q].1)
    ensures DerivedK(|profile.candidates|, kPercentage) >= |profile.candidates|
    ensures KApprovalScore(profile.pairs, DerivedK(|profile.candidates|, kPercentage), c)
         == ContainingFreqSum(profile.pairs, c)
  {
    var n := |profile.candidates|;
    var k := DerivedK(n, kPercentage);
    DerivedKCovers(n, kPercentage);
    forall q | 0 <= q < |profile.pairs|
      ensures ApprovalTerms(k)(profile.pairs[q], c)
           == if c in profile.pairs[q].1 then profile.pairs[q].0 else 0
    {
      var b := profile.pairs[q].1;
      assert Prefix(b, k) == b;
      CountDistinct(b, c);
    }
    PairSumMentions(profile.pairs, ApprovalTerms(k), c);
  }

  /** At 100 percent or more the derived `k` is at least the candidate count. */
  lemma DerivedKCovers(n: nat, kPercentage: real)
    requires kPercentage >= 100.0
    ensures DerivedK(n, kPercentage) >= n
  {
    var share := kPercentage / 100.0;
    assert share >= 1.0;
    AtLeastScaled(n as real, share);
  }

  lemma AtLeastScaled(x: real, y: real)
    requires 0.0 <= x && 1.0 <= y
    ensures x * y >= x
  {
    assert x * y - x == x * (y - 1.0);
  }
}
