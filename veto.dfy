/** The veto rule (rules/veto_rule.py). A ballot shorter or longer than the
    candidate list is "distorted" and vetoes every candidate it leaves out;
    a full ballot vetoes its last entry. A candidate scores minus the number
    of voters vetoing it. */
module Veto {
  import opened Seqs
  import opened Profiles
  import opened Sums

  /** Lines 8-13. The `|ballot| > 0` test only matters for an empty full
      ballot, which needs an empty candidate list; `ballot[-1]` would fail
      there, and `VetoRule` excludes it. */
  predicate Vetoes(n: int, ballot: seq<int>, c: int)
  {
    if |ballot| != n then c !in ballot
    else |ballot| > 0 && ballot[|ballot| - 1] == c
  }

  function VetoTerm(n: int, p: Pair, c: int): int
  {
    if Vetoes(n, p.1, c) then p.0 else 0
  }

  function VetoTerms(n: int): (Pair, int) -> int
  {
    (p, c) => VetoTerm(n, p, c)
  }

  /** The value `veto_rule` returns: minus the voters vetoing `c`. */
  function VetoScore(profile: Profile, c: int): int
  {
    -PairSum(profile.pairs, VetoTerms(|profile.candidates|), c)
  }

  /** `ballot[-1]` fails on an empty full ballot, which exists only when
      there are no candidates; distorted ballots are never indexed. */
  predicate FullBallotsNonEmpty(profile: Profile)
  {
    forall k :: 0 <= k < |profile.pairs| && |profile.pairs[k].1| == |profile.candidates| ==>
      |profile.pairs[k].1| > 0
  }

  /** `veto_rule(profile, candidate)`. */
  method VetoRule(profile: Profile, candidate: int) returns (score: int)
    requires FullBallotsNonEmpty(profile)
    ensures score == VetoScore(profile, candidate)
  {
    var n := |profile.candidates|;
    var vetoScore: int := 0;
    var q := 0;
    while q < |profile.pairs|
      invariant 0 <= q <= |profile.pairs|
      invariant vetoScore == PairSum(profile.pairs[..q], VetoTerms(n), candidate)
    {
      var (frequency, ballot) := profile.pairs[q];
      var ballotIsDistorted := |ballot| != n;
      var candidateIsLastInBallot;
      if ballotIsDistorted {
        candidateIsLastInBallot := candidate !in ballot;
      } else {
        candidateIsLastInBallot := ballot[|ballot| - 1] == candidate;
      }
      if candidateIsLastInBallot {
        vetoScore := vetoScore + frequency;
      }
      assert profile.pairs[..q + 1][..q] == profile.pairs[..q];
      q := q + 1;
    }
    assert profile.pairs[..q] == profile.pairs;
    score := -vetoScore;
  }

  /** The score lies between minus the number of voters and 0. */
  lemma VetoBounds(profile: Profile, candidate: int)
    ensures -(FreqSum(profile.pairs) as int) <= VetoScore(profile, candidate) <= 0
  {
    PairSumBounds(profile.pairs, VetoTerms(|profile.candidates|), candidate, 1);
  }

  /** A candidate on every distorted ballot and never last on a full one
      is vetoed by nobody. */
  lemma VetoUnvetoed(profile: Profile, candidate: int)
    requires forall k :: 0 <= k < |profile.pairs| ==> !Vetoes(|profile.candidates|, profile.pairs[k].1, candidate)
    ensures VetoScore(profile, candidate) == 0
  {
    PairSumZero(profile.pairs, VetoTerms(|profile.candidates|), candidate);
  }

  /** Each full ballot vetoes exactly one of the distinct candidates, so with
      only full ballots the scores add up to minus the number of voters. */
  lemma VetoTotal(profile: Profile)
    requires Distinct(profile.candidates)
    requires forall k :: 0 <= k < |profile.pairs| ==>
      |profile.pairs[k].1| == |profile.candidates| > 0
      && profile.pairs[k].1[|profile.pairs[k].1| - 1] in profile.candidates
    ensures SumOver(profile.candidates, c => VetoScore(profile, c)) == -(FreqSum(profile.pairs) as int)
  {
    var cs := profile.candidates;
    var pairs := profile.pairs;
    var n := |cs|;
    var t := VetoTerms(n);
    forall k | 0 <= k < |pairs|
      ensures SumOver(cs, c => t(pairs[k], c)) == pairs[k].0 * 1
    {
      var b := pairs[k].1;
      assert forall y :: t(pairs[k], y) == VetoTerm(n, pairs[k], y);
      SumOverIndicator(cs, c => t(pairs[k], c), b[|b| - 1], pairs[k].0);
    }
    SwapSumsScaled(cs, pairs, t, 1);
    SumOverScale(cs, c => VetoScore(profile, c), c => PairSum(pairs, t, c), -1);
  }
}
