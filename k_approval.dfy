/** k-approval (rules/k_approval_rule.py): each voter approves the first `k`
    entries of their ballot, and a candidate scores the number of approvals. */
module KApproval {
  import opened Seqs
  import opened Profiles
  import opened Sums
  import Plurality

  /** Where Python's slice `ballot[:k]` ends; a negative `k` counts from the end. */
  function PrefixLength(len: nat, k: int): (r: nat)
    ensures r <= len
    ensures 0 <= k ==> r == if k < len then k else len
  {
    if k >= 0 then (if k < len then k else len)
    else if len + k > 0 then len + k else 0
  }

  /** `ballot[:k]`. */
  function Prefix(ballot: seq<int>, k: int): seq<int>
  {
    ballot[..PrefixLength(|ballot|, k)]
  }

  /** `frequency` is added once per occurrence of `c` among the approved entries. */
  function ApprovalTerm(k: int, p: Pair, c: int): int
  {
    p.0 * Count(Prefix(p.1, k), c)
  }

  function ApprovalTerms(k: int): (Pair, int) -> int
  {
    (p, c) => ApprovalTerm(k, p, c)
  }

  /** The tally `k_approval_rule` returns for `c`. */
  function KApprovalScore(pairs: seq<Pair>, k: int, c: int): int
  {
    PairSum(pairs, ApprovalTerms(k), c)
  }

  /** Every approved entry must have a tally slot (line 11 raises otherwise). */
  predicate ApprovedAreCandidates(profile: Profile, k: int)
  {
    forall q, i :: 0 <= q < |profile.pairs| && 0 <= i < |Prefix(profile.pairs[q].1, k)| ==>
      Prefix(profile.pairs[q].1, k)[i] in profile.candidates
  }

  /** `build_k_approval_rule(k)(profile, candidate)`. */
  method KApprovalRule(profile: Profile, k: int, candidate: int) returns (score: int)
    requires candidate in profile.candidates
    requires ApprovedAreCandidates(profile, k)
    ensures score == KApprovalScore(profile.pairs, k, candidate)
  {
    var candidateScores := map c | c in profile.candidates :: 0;
    var q := 0;
    while q < |profile.pairs|
      invariant 0 <= q <= |profile.pairs|
      invariant forall c :: c in candidateScores <==> c in profile.candidates
      invariant forall c :: c in candidateScores ==> candidateScores[c] == KApprovalScore(profile.pairs[..q], k, c)
    {
      var (frequency, ballot) := profile.pairs[q];
      var approvedCandidates := Prefix(ballot, k);
      KApprovalStep(profile.pairs, k, q);
      candidateScores := Approve(candidateScores, approvedCandidates, frequency);
      q := q + 1;
    }
    assert profile.pairs[..q] == profile.pairs;
    score := candidateScores[candidate];
  }

  /** Lines 10-11: every approved entry gains the pair's frequency. */
  method Approve(candidateScores: map<int, int>, approvedCandidates: seq<int>, frequency: int)
    returns (updated: map<int, int>)
    requires forall x :: x in approvedCandidates ==> x in candidateScores
    ensures forall c :: c in updated <==> c in candidateScores
    ensures forall c :: c in updated ==> updated[c] == candidateScores[c] + frequency * Count(approvedCandidates, c)
  {
    updated := candidateScores;
    var j := 0;
    while j < |approvedCandidates|
      invariant 0 <= j <= |approvedCandidates|
      invariant forall c :: c in updated <==> c in candidateScores
      invariant forall c :: c in updated ==> updated[c] == candidateScores[c] + frequency * Count(approvedCandidates[..j], c)
    {
      var approvedCandidate := approvedCandidates[j];
      var next := updated[approvedCandidate := updated[approvedCandidate] + frequency];
      forall c | c in next
        ensures next[c] == candidateScores[c] + frequency * Count(approvedCandidates[..j + 1], c)
      {
        CountStep(approvedCandidates, j, c);
        var n := Count(approvedCandidates[..j], c);
        if c == approvedCandidate {
          assert frequency * (n + 1) == frequency * n + frequency;
        }
      }
      updated := next;
      j := j + 1;
    }
    assert approvedCandidates[..j] == approvedCandidates;
  }

  lemma KApprovalStep(pairs: seq<Pair>, k: int, q: nat)
    requires q < |pairs|
    ensures forall c :: KApprovalScore(pairs[..q + 1], k, c)
                     == KApprovalScore(pairs[..q], k, c) + pairs[q].0 * Count(Prefix(pairs[q].1, k), c)
  {
    assert pairs[..q + 1][..q] == pairs[..q];
  }

  // ----- properties -------------------------------------------------------

  /** A candidate approved by nobody keeps its initial 0. */
  lemma KApprovalUnapproved(pairs: seq<Pair>, k: int, c: int)
    requires forall q :: 0 <= q < |pairs| ==> c !in Prefix(pairs[q].1, k)
    ensures KApprovalScore(pairs, k, c) == 0
  {
    forall q | 0 <= q < |pairs|
      ensures ApprovalTerms(k)(pairs[q], c) == 0
    {
      CountAbsent(Prefix(pairs[q].1, k), c);
    }
    PairSumZero(pairs, ApprovalTerms(k), c);
  }

  /** On duplicate-free ballots a pair's term is its frequency when `c` is
      among the first `k` entries, and 0 otherwise. */
  lemma ApprovalTermDistinct(k: int, p: Pair, c: int)
    requires Distinct(p.1)
    ensures ApprovalTerm(k, p, c) == if c in Prefix(p.1, k) then p.0 else 0
  {
    var pre := Prefix(p.1, k);
    assert Distinct(pre);
    CountDistinct(pre, c);
  }

  /** On duplicate-free ballots the score is the number of voters
      approving `c`, so it lies between 0 and the number of voters. */
  lemma KApprovalBounds(pairs: seq<Pair>, k: int, c: int)
    requires forall q :: 0 <= q < |pairs| ==> Distinct(pairs[q].1)
    ensures KApprovalScore(pairs, k, c) == PairSum(pairs, (p: Pair, x: int) => if x in Prefix(p.1, k) then p.0 else 0, c)
    ensures 0 <= KApprovalScore(pairs, k, c) <= FreqSum(pairs)
  {
    forall q | 0 <= q < |pairs|
      ensures ApprovalTerms(k)(pairs[q], c) == if c in Prefix(pairs[q].1, k) then pairs[q].0 else 0
    {
      ApprovalTermDistinct(k, pairs[q], c);
    }
    PairSumCongruent(pairs, ApprovalTerms(k), (p: Pair, x: int) => if x in Prefix(p.1, k) then p.0 else 0, c);
    PairSumBounds(pairs, ApprovalTerms(k), c, 1);
  }

  /** Approving more entries never lowers a score. */
  lemma KApprovalMonotone(pairs: seq<Pair>, k1: int, k2: int, c: int)
    requires 0 <= k1 <= k2
    ensures KApprovalScore(pairs, k1, c) <= KApprovalScore(pairs, k2, c)
  {
    forall q | 0 <= q < |pairs|
      ensures ApprovalTerms(k1)(pairs[q], c) <= ApprovalTerms(k2)(pairs[q], c)
    {
      ApprovalTermMonotone(pairs[q], k1, k2, c);
    }
    PairSumMonotone(pairs, ApprovalTerms(k1), ApprovalTerms(k2), c);
  }

  /** One pair gives at least as much when more entries are approved. */
  lemma ApprovalTermMonotone(p: Pair, k1: int, k2: int, c: int)
    requires 0 <= k1 <= k2
    ensures ApprovalTerm(k1, p, c) <= ApprovalTerm(k2, p, c)
  {
    var b := p.1;
    var l1 := PrefixLength(|b|, k1);
    var l2 := PrefixLength(|b|, k2);
    assert b[..l2][..l1] == b[..l1];
    CountPrefix(b[..l2], l1, c);
    MultiplyMonotone(p.0, Count(b[..l1], c), Count(b[..l2], c));
  }

  lemma MultiplyMonotone(f: nat, x: nat, y: nat)
    requires x <= y
    ensures f * x <= f * y
  {
    assert f * y == f * x + f * (y - x);
  }

  /** 1-approval is plurality. */
  lemma KApprovalOneIsPlurality(pairs: seq<Pair>, c: int)
    ensures KApprovalScore(pairs, 1, c) == Plurality.FirstPlaceTally(pairs, c)
  {
    forall q | 0 <= q < |pairs|
      ensures ApprovalTerms(1)(pairs[q], c) == Plurality.FirstPlaceTerm(pairs[q], c)
    {
      var b := pairs[q].1;
      if |b| > 0 {
        assert Prefix(b, 1) == [b[0]];
        assert [b[0]][..0] == [];
        assert Count([b[0]], c) == if b[0] == c then 1 else 0;
      } else {
        assert Prefix(b, 1) == [];
      }
    }
    PairSumCongruent(pairs, ApprovalTerms(1), Plurality.FirstPlaceTerm, c);
  }

  /** Over distinct candidates, the tallies add up to the number of
      approvals: each voter approves `min(k, |ballot|)` entries for `k ≥ 0`. */
  lemma KApprovalTotal(profile: Profile, k: int)
    requires Distinct(profile.candidates)
    requires ApprovedAreCandidates(profile, k)
    ensures SumOver(profile.candidates, c => KApprovalScore(profile.pairs, k, c))
         == PairTotal(profile.pairs, (p: Pair) => p.0 * |Prefix(p.1, k)|)
    ensures 0 <= k ==> (SumOver(profile.candidates, c => KApprovalScore(profile.pairs, k, c))
         == PairTotal(profile.pairs, (p: Pair) => p.0 * (if k < |p.1| then k else |p.1|)))
  {
    var cs := profile.candidates;
    var pairs := profile.pairs;
    var t := ApprovalTerms(k);
    forall q | 0 <= q < |pairs|
      ensures SumOver(cs, c => t(pairs[q], c)) == pairs[q].0 * |Prefix(pairs[q].1, k)|
    {
      var pre := Prefix(pairs[q].1, k);
      SumOverCount(cs, pre);
      SumOverScale(cs, c => t(pairs[q], c), c => Count(pre, c), pairs[q].0);
    }
    SumOverCongruent(cs, c => KApprovalScore(pairs, k, c), c => PairSum(pairs, t, c));
    SwapSums(cs, pairs, t);
    PairTotalCongruent(pairs, p => SumOver(cs, c => t(p, c)), (p: Pair) => p.0 * |Prefix(p.1, k)|);
    if 0 <= k {
      PairTotalCongruent(pairs, (p: Pair) => p.0 * |Prefix(p.1, k)|, (p: Pair) => p.0 * (if k < |p.1| then k else |p.1|));
    }
  }
}
