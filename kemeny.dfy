/** The exhaustive Kemeny rule (rules/chatGPTs_kemeny_rule.py). Every
    permutation of the candidates is tried; each ballot contributes a
    frequency-weighted disagreement count; the first permutation of minimum
    total distance is kept and a candidate scores
    `candidate count − position`.

    The disagreement count is the one the code computes: for positions
    `i < j` of the ballot it compares the identifiers `ballot[i], ballot[j]`
    with the identifiers `permutation[i], permutation[j]` found at the same
    positions of the permutation. That is not Kendall-tau distance over
    candidate positions, and the model does not pretend it is. */
module Kemeny {
  import opened Seqs
  import opened Profiles
  import opened Itertools

  /** The test on lines 32-33: the ballot and the permutation order the
      identifiers at positions `i` and `j` in opposite directions. */
  predicate Disagree(ballot: seq<int>, permutation: seq<int>, i: nat, j: nat)
    requires i < |ballot| && j < |ballot| && |ballot| <= |permutation|
  {
    || (ballot[i] < ballot[j] && permutation[i] > permutation[j])
    || (ballot[i] > ballot[j] && permutation[i] < permutation[j])
  }

  /** Disagreeing positions `j` with `i < j < m` (the inner loop after it reached `m`). */
  function RowDisagreements(ballot: seq<int>, permutation: seq<int>, i: nat, m: nat): nat
    requires i < m <= |ballot| <= |permutation|
    decreases m
  {
    if m == i + 1 then 0
    else RowDisagreements(ballot, permutation, i, m - 1) + (if Disagree(ballot, permutation, i, m - 1) then 1 else 0)
  }

  /** `tau_distance` after the outer loop has finished `r` rows. */
  function TauUpTo(ballot: seq<int>, permutation: seq<int>, r: nat): nat
    requires r <= |ballot| <= |permutation|
  {
    if r == 0 then 0
    else TauUpTo(ballot, permutation, r - 1) + RowDisagreements(ballot, permutation, r - 1, |ballot|)
  }

  /** The per-ballot count of lines 28-34. */
  function TauDistance(ballot: seq<int>, permutation: seq<int>): nat
    requires |ballot| <= |permutation|
  {
    TauUpTo(ballot, permutation, |ballot|)
  }

  /** The total of line 36: the frequency-weighted sum of the per-ballot counts. */
  function Distance(pairs: seq<Pair>, permutation: seq<int>): nat
    requires BallotsWithin(pairs, |permutation|)
  {
    if |pairs| == 0 then 0
    else Distance(pairs[..|pairs| - 1], permutation) + TauDistance(pairs[|pairs| - 1].1, permutation) * pairs[|pairs| - 1].0
  }

  /** The position the scan of lines 23-40 keeps: its distance is minimal,
      and because the update uses a strict `<`, every earlier permutation is
      strictly worse. */
  function FirstMinIndex(perms: seq<seq<int>>, pairs: seq<Pair>): (k: nat)
    requires |perms| > 0
    requires forall q :: 0 <= q < |perms| ==> BallotsWithin(pairs, |perms[q]|)
    ensures k < |perms|
    ensures forall q :: 0 <= q < |perms| ==> Distance(pairs, perms[k]) <= Distance(pairs, perms[q])
    ensures forall q :: 0 <= q < k ==> Distance(pairs, perms[q]) > Distance(pairs, perms[k])
  {
    if |perms| == 1 then 0
    else
      var init := perms[..|perms| - 1];
      assert forall q :: 0 <= q < |init| ==> init[q] == perms[q];
      var k := FirstMinIndex(init, pairs);
      var last := Distance(pairs, perms[|perms| - 1]);
      if last < Distance(pairs, perms[k]) then |perms| - 1 else k
  }

  /** `candidate_ranking` after the search. */
  function KemenyRanking(profile: Profile): (ranking: seq<int>)
    requires BallotsWithin(profile.pairs, |profile.candidates|)
    ensures multiset(ranking) == multiset(profile.candidates)
    ensures ranking in Permutations(profile.candidates)
  {
    var perms := Permutations(profile.candidates);
    PermutationsSound(profile.candidates);
    perms[FirstMinIndex(perms, profile.pairs)]
  }

  /** The score of line 42. */
  function KemenyScore(profile: Profile, candidate: int): (score: int)
    requires BallotsWithin(profile.pairs, |profile.candidates|)
    requires candidate in profile.candidates
    ensures 1 <= score <= |profile.candidates|
  {
    var ranking := KemenyRanking(profile);
    assert candidate in multiset(ranking);
    |profile.candidates| - IndexOf(ranking, candidate)
  }

  // ----- the rule as coded ------------------------------------------------

  /** Lines 28-34: the per-ballot disagreement count. */
  method ComputeTauDistance(ballot: seq<int>, permutation: seq<int>) returns (tauDistance: nat)
    requires |ballot| <= |permutation|
    ensures tauDistance == TauDistance(ballot, permutation)
  {
    var n := |ballot|;
    tauDistance := 0;
    var i := 0;
    while i < n
      invariant 0 <= i <= n
      invariant tauDistance == TauUpTo(ballot, permutation, i)
    {
      var j := i + 1;
      while j < n
        invariant i + 1 <= j <= n
        invariant tauDistance == TauUpTo(ballot, permutation, i) + RowDisagreements(ballot, permutation, i, j)
      {
        if (ballot[i] < ballot[j] && permutation[i] > permutation[j])
          || (ballot[i] > ballot[j] && permutation[i] < permutation[j])
        {
          tauDistance := tauDistance + 1;
        }
        j := j + 1;
      }
      i := i + 1;
    }
  }

  /** Lines 24-36: the distance of one permutation to the whole profile. */
  method ComputeDistance(pairs: seq<Pair>, permutation: seq<int>) returns (distance: nat)
    requires BallotsWithin(pairs, |permutation|)
    ensures distance == Distance(pairs, permutation)
  {
    distance := 0;
    var q := 0;
    while q < |pairs|
      invariant 0 <= q <= |pairs|
      invariant distance == Distance(pairs[..q], permutation)
    {
      var (frequency, ballot) := pairs[q];
      var tauDistance := ComputeTauDistance(ballot, permutation);
      assert pairs[..q + 1][..q] == pairs[..q];
      distance := distance + tauDistance * frequency;
      q := q + 1;
    }
    assert pairs[..q] == pairs;
  }

  /** `kemeny_rule(profile, candidate)`. The candidate must be a candidate
      and no ballot may be longer than the candidate list, or the index
      operations of lines 32 and 42 fail. */
  method KemenyRule(profile: Profile, candidate: int) returns (candidateScore: int)
    requires BallotsWithin(profile.pairs, |profile.candidates|)
    requires candidate in profile.candidates
    ensures candidateScore == KemenyScore(profile, candidate)
    ensures 1 <= candidateScore <= |profile.candidates|
  {
    var candidates := profile.candidates;
    var numCandidates := |candidates|;
    var candidateRanking := SearchRanking(profile);
    RankingContains(profile, candidate);
    candidateScore := numCandidates - IndexOf(candidateRanking, candidate);
  }

  /** Lines 18-40: the scan over all permutations keeps the first one of
      least distance. */
  method SearchRanking(profile: Profile) returns (candidateRanking: seq<int>)
    requires BallotsWithin(profile.pairs, |profile.candidates|)
    ensures candidateRanking == KemenyRanking(profile)
  {
    var allPermutations := Permutations(profile.candidates);
    PermutationsFit(profile);

    var haveMin := false;  // false while `min_distance` is still infinite
    var minDistance: nat := 0;
    candidateRanking := [];
    ghost var best: nat := 0;
    var k := 0;
    while k < |allPermutations|
      invariant 0 <= k <= |allPermutations|
      invariant haveMin <==> k > 0
      invariant haveMin ==>
        && best == FirstMinIndex(allPermutations[..k], profile.pairs)
        && candidateRanking == allPermutations[best]
        && minDistance == Distance(profile.pairs, candidateRanking)
    {
      var permutation := allPermutations[k];
      var distance := ComputeDistance(profile.pairs, permutation);
      FirstMinIndexStep(allPermutations, profile.pairs, k);
      if !haveMin || distance < minDistance {
        minDistance := distance;
        candidateRanking := permutation;
        best := k;
        haveMin := true;
      }
      k := k + 1;
    }
    assert allPermutations[..k] == allPermutations;
  }

  /** Every enumerated permutation is as long as the candidate list. */
  lemma PermutationsFit(profile: Profile)
    requires BallotsWithin(profile.pairs, |profile.candidates|)
    ensures |Permutations(profile.candidates)| > 0
    ensures forall q :: 0 <= q < |Permutations(profile.candidates)| ==>
      BallotsWithin(profile.pairs, |Permutations(profile.candidates)[q]|)
  {
    PermutationsSound(profile.candidates);
  }

  /** One more step of the scan of lines 38-40. */
  lemma FirstMinIndexStep(perms: seq<seq<int>>, pairs: seq<Pair>, k: nat)
    requires k < |perms|
    requires forall q :: 0 <= q < |perms| ==> BallotsWithin(pairs, |perms[q]|)
    ensures k > 0 ==> (FirstMinIndex(perms[..k + 1], pairs) ==
      var b := FirstMinIndex(perms[..k], pairs);
      if Distance(pairs, perms[k]) < Distance(pairs, perms[b]) then k else b)
    ensures k == 0 ==> FirstMinIndex(perms[..k + 1], pairs) == 0
  {
    assert perms[..k + 1][..k] == perms[..k];
  }

  lemma RankingContains(profile: Profile, candidate: int)
    requires BallotsWithin(profile.pairs, |profile.candidates|)
    requires candidate in profile.candidates
    ensures candidate in KemenyRanking(profile)
  {
    assert candidate in multiset(KemenyRanking(profile));
  }

  // ----- properties -------------------------------------------------------

  /** A ballot that agrees with the permutation's first `|ballot|` entries
      contributes nothing. */
  lemma TauZeroOnAgreeingBallot(ballot: seq<int>, permutation: seq<int>)
    requires |ballot| <= |permutation| && ballot == permutation[..|ballot|]
    ensures TauDistance(ballot, permutation) == 0
  {
    forall i: nat, m: nat | i < m <= |ballot|
      ensures RowDisagreements(ballot, permutation, i, m) == 0
    {
      RowZero(ballot, permutation, i, m);
    }
    TauZeroUpTo(ballot, permutation, |ballot|);
  }

  lemma {:induction false} RowZero(ballot: seq<int>, permutation: seq<int>, i: nat, m: nat)
    requires i < m <= |ballot| <= |permutation| && ballot == permutation[..|ballot|]
    ensures RowDisagreements(ballot, permutation, i, m) == 0
    decreases m
  {
    if m > i + 1 {
      RowZero(ballot, permutation, i, m - 1);
      assert ballot[i] == permutation[i] && ballot[m - 1] == permutation[m - 1];
    }
  }

  lemma {:induction false} TauZeroUpTo(ballot: seq<int>, permutation: seq<int>, r: nat)
    requires r <= |ballot| <= |permutation|
    requires forall i: nat, m: nat | i < m <= |ballot| :: RowDisagreements(ballot, permutation, i, m) == 0
    ensures TauUpTo(ballot, permutation, r) == 0
  {
    if r > 0 {
      TauZeroUpTo(ballot, permutation, r - 1);
    }
  }

  /** Row `i` has at most `m − i − 1` disagreements. */
  lemma {:induction false} RowBound(ballot: seq<int>, permutation: seq<int>, i: nat, m: nat)
    requires i < m <= |ballot| <= |permutation|
    ensures RowDisagreements(ballot, permutation, i, m) <= m - i - 1
    decreases m
  {
    if m > i + 1 {
      RowBound(ballot, permutation, i, m - 1);
    }
  }

  lemma {:induction false} TauUpToBound(ballot: seq<int>, permutation: seq<int>, r: nat)
    requires r <= |ballot| <= |permutation|
    ensures 2 * TauUpTo(ballot, permutation, r) <= r * (2 * |ballot| - r - 1)
  {
    if r > 0 {
      TauUpToBound(ballot, permutation, r - 1);
      RowBound(ballot, permutation, r - 1, |ballot|);
      var n := |ballot|;
      assert (r - 1) * (2 * n - (r - 1) - 1) + 2 * (n - r) == r * (2 * n - r - 1);
    }
  }

  /** The per-ballot count lies between 0 and `n(n−1)/2` for `n = |ballot|`. */
  lemma TauDistanceBound(ballot: seq<int>, permutation: seq<int>)
    requires |ballot| <= |permutation|
    ensures 0 <= TauDistance(ballot, permutation) <= |ballot| * (|ballot| - 1) / 2
  {
    TauUpToBound(ballot, permutation, |ballot|);
  }

  /** The selected ranking is no further from the profile than any
      rearrangement of the candidates. */
  lemma KemenyRankingOptimal(profile: Profile, permutation: seq<int>)
    requires BallotsWithin(profile.pairs, |profile.candidates|)
    requires multiset(permutation) == multiset(profile.candidates)
    ensures |permutation| == |profile.candidates|
    ensures Distance(profile.pairs, KemenyRanking(profile)) <= Distance(profile.pairs, permutation)
  {
    assert |permutation| == |multiset(permutation)|;
    var perms := Permutations(profile.candidates);
    PermutationsSound(profile.candidates);
    PermutationsComplete(profile.candidates, permutation);
    var q :| 0 <= q < |perms| && perms[q] == permutation;
  }

  /** With distinct candidates, the candidate at position `i` of the ranking
      scores `C − i`; in particular the first one scores `C`. */
  lemma KemenyScoreAtPosition(profile: Profile, i: nat)
    requires BallotsWithin(profile.pairs, |profile.candidates|)
    requires Distinct(profile.candidates)
    requires i < |profile.candidates|
    ensures |KemenyRanking(profile)| == |profile.candidates|
    ensures KemenyRanking(profile)[i] in profile.candidates
    ensures KemenyScore(profile, KemenyRanking(profile)[i]) == |profile.candidates| - i
  {
    var ranking := KemenyRanking(profile);
    assert |ranking| == |multiset(ranking)|;
    assert ranking[i] in multiset(profile.candidates);
    PermutationDistinct(ranking, profile.candidates);
    IndexOfDistinct(ranking, i);
  }

  /** Distinct candidates get distinct scores, and with distinct candidates
      the scores are exactly `1..C`, a permutation of them. */
  lemma KemenyScoresArePermutation(profile: Profile)
    requires BallotsWithin(profile.pairs, |profile.candidates|)
    requires Distinct(profile.candidates)
    ensures forall a, b :: a in profile.candidates && b in profile.candidates && a != b ==>
      KemenyScore(profile, a) != KemenyScore(profile, b)
    ensures (set c | c in profile.candidates :: KemenyScore(profile, c))
         == (set i | i in Range(|profile.candidates|) :: i + 1)
  {
    var n := |profile.candidates|;
    var scores := set c | c in profile.candidates :: KemenyScore(profile, c);
    var expected := set i | i in Range(n) :: i + 1;
    forall v | v in expected
      ensures v in scores
    {
      var i :| i in Range(n) && v == i + 1;
      KemenyScoreAtPosition(profile, n - v);
    }
    forall c | c in profile.candidates
      ensures KemenyScore(profile, c) in expected
    {
      var v := KemenyScore(profile, c);
      assert v - 1 in Range(n);
    }
  }
}
