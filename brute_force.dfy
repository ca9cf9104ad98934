/** The brute-force evaluator of brute_force_eval.py: every ordering of the
    candidates is turned into a rule that scores by place, and the ordering
    with the best `top` utility and the one with the best `topn` utility
    are kept, each the first to reach its maximum. */
module BruteForce {
  import opened Seqs
  import opened Profiles
  import opened Itertools
  import opened Sorting

  /** `_build_dummy_rule_for_ranking(ranking)(profile, candidate)`: minus
      one more than the candidate's place; a candidate outside the ranking
      makes `index` raise. */
  function DummyRule(ranking: seq<int>, candidate: int): (score: int)
    requires candidate in ranking
    ensures -|ranking| <= score <= -1
  {
    -(IndexOf(ranking, candidate) + 1)
  }

  /** One input entry `{"frequency": f, "ballot": b}`. */
  datatype Entry = Entry(frequency: nat, ballot: seq<int>)

  /** The pairs of `_construct_profile(pairs)`: the set of
      `(frequency, tuple(ballot))`, in first-occurrence order. */
  function ConstructPairs(entries: seq<Entry>): (pairs: seq<Pair>)
    ensures Distinct(pairs)
    ensures forall p :: p in pairs <==> exists k :: 0 <= k < |entries| && p == (entries[k].frequency, entries[k].ballot)
  {
    var tuples := EntryTuples(entries);
    assert forall p :: p in tuples <==> exists k :: 0 <= k < |entries| && p == (entries[k].frequency, entries[k].ballot) by {
      forall p | p in tuples
        ensures exists k :: 0 <= k < |entries| && p == (entries[k].frequency, entries[k].ballot)
      {
        var k :| 0 <= k < |tuples| && tuples[k] == p;
      }
    }
    Dedup(tuples)
  }

  function EntryTuples(entries: seq<Entry>): (r: seq<Pair>)
    ensures |r| == |entries|
    ensures forall k :: 0 <= k < |entries| ==> r[k] == (entries[k].frequency, entries[k].ballot)
  {
    if |entries| == 0 then []
    else EntryTuples(entries[..|entries| - 1]) + [(entries[|entries| - 1].frequency, entries[|entries| - 1].ballot)]
  }

  /** The two utilities `get_rule_utility` reports for a rule. */
  datatype Utility = Utility(top: real, topn: real)

  /** `brute_force_eval(pairs, topn)` (lines 12-32) without the storing and
      printing of the results. `get_rule_utility(profile, rule, topn)` for
      the dummy rule of `permutation` is the parameter `utility`; the
      profile's candidates, which the profile library derives, are a
      parameter too. */
  method BruteForceEval(entries: seq<Entry>, candidates: seq<int>, topn: int,
                        utility: (Profile, seq<int>, int) -> Utility)
    returns (bestTopPermutation: seq<int>, bestTopPermutationScore: real,
             bestTopnPermutation: seq<int>, bestTopnPermutationScore: real)
    ensures var profile := Profile(candidates, ConstructPairs(entries));
      var perms := Permutations(candidates);
      && (exists i :: 0 <= i < |perms| && bestTopPermutation == perms[i]
           && bestTopPermutationScore == utility(profile, perms[i], topn).top
           && (forall q :: 0 <= q < i ==> utility(profile, perms[q], topn).top < bestTopPermutationScore))
      && (forall q :: 0 <= q < |perms| ==> utility(profile, perms[q], topn).top <= bestTopPermutationScore)
      && (exists i :: 0 <= i < |perms| && bestTopnPermutation == perms[i]
           && bestTopnPermutationScore == utility(profile, perms[i], topn).topn
           && (forall q :: 0 <= q < i ==> utility(profile, perms[q], topn).topn < bestTopnPermutationScore))
      && (forall q :: 0 <= q < |perms| ==> utility(profile, perms[q], topn).topn <= bestTopnPermutationScore)
  {
    var profile := Profile(candidates, ConstructPairs(entries));
    var allPermutations := Permutations(candidates);
    bestTopPermutation, bestTopPermutationScore, bestTopnPermutation, bestTopnPermutationScore :=
      ScanPermutations(allPermutations, profile, topn, utility);
    assert allPermutations == Permutations(candidates);
  }

  /** The loop of lines 18-30. An unset best score is minus infinity, which
      the first permutation always beats. */
  method ScanPermutations(allPermutations: seq<seq<int>>, profile: Profile, topn: int,
                          utility: (Profile, seq<int>, int) -> Utility)
    returns (bestTopPermutation: seq<int>, bestTopPermutationScore: real,
             bestTopnPermutation: seq<int>, bestTopnPermutationScore: real)
    requires |allPermutations| > 0
    ensures var perms := allPermutations;
      && (exists i :: 0 <= i < |perms| && bestTopPermutation == perms[i]
           && bestTopPermutationScore == utility(profile, perms[i], topn).top
           && (forall q :: 0 <= q < i ==> utility(profile, perms[q], topn).top < bestTopPermutationScore))
      && (forall q :: 0 <= q < |perms| ==> utility(profile, perms[q], topn).top <= bestTopPermutationScore)
      && (exists i :: 0 <= i < |perms| && bestTopnPermutation == perms[i]
           && bestTopnPermutationScore == utility(profile, perms[i], topn).topn
           && (forall q :: 0 <= q < i ==> utility(profile, perms[q], topn).topn < bestTopnPermutationScore))
      && (forall q :: 0 <= q < |perms| ==> utility(profile, perms[q], topn).topn <= bestTopnPermutationScore)
  {
    ghost var topScore := TopScore(utility, profile, topn);
    ghost var topnScore := TopnScore(utility, profile, topn);
    var found := false;
    bestTopPermutationScore := 0.0;
    bestTopPermutation := [];
    bestTopnPermutationScore := 0.0;
    bestTopnPermutation := [];
    ghost var topIndex := 0;
    ghost var topnIndex := 0;
    var k := 0;
    while k < |allPermutations|
      invariant 0 <= k <= |allPermutations|
      invariant found <==> k > 0
      invariant found ==> Leads(allPermutations, topScore, k, topIndex, bestTopPermutation, bestTopPermutationScore)
      invariant found ==> Leads(allPermutations, topnScore, k, topnIndex, bestTopnPermutation, bestTopnPermutationScore)
    {
      var permutation := allPermutations[k];
      var results := utility(profile, permutation, topn);
      assert results.top == topScore(permutation) && results.topn == topnScore(permutation);
      LeadsStep(allPermutations, topScore, k, topIndex, bestTopPermutation, bestTopPermutationScore, found);
      LeadsStep(allPermutations, topnScore, k, topnIndex, bestTopnPermutation, bestTopnPermutationScore, found);
      if !found || results.top > bestTopPermutationScore {
        bestTopPermutationScore := results.top;
        bestTopPermutation := permutation;
        topIndex := k;
      }
      if !found || results.topn > bestTopnPermutationScore {
        bestTopnPermutationScore := results.topn;
        bestTopnPermutation := permutation;
        topnIndex := k;
      }
      found := true;
      k := k + 1;
    }
    LeadsAll(allPermutations, topScore, topIndex, bestTopPermutation, bestTopPermutationScore);
    LeadsAll(allPermutations, topnScore, topnIndex, bestTopnPermutation, bestTopnPermutationScore);
  }

  /** The `top` utility of a permutation's dummy rule. */
  function TopScore(utility: (Profile, seq<int>, int) -> Utility, profile: Profile, topn: int): seq<int> -> real
  {
    permutation => utility(profile, permutation, topn).top
  }

  /** The `topn` utility of a permutation's dummy rule. */
  function TopnScore(utility: (Profile, seq<int>, int) -> Utility, profile: Profile, topn: int): seq<int> -> real
  {
    permutation => utility(profile, permutation, topn).topn
  }

  /** After the first `k` permutations, `best` at `index` is the first of
      them to reach the largest score so far. */
  ghost predicate Leads(perms: seq<seq<int>>, score: seq<int> -> real, k: nat, index: nat, best: seq<int>, bestScore: real)
  {
    && index < k <= |perms|
    && best == perms[index]
    && bestScore == score(perms[index])
    && (forall q :: 0 <= q < k ==> score(perms[q]) <= bestScore)
    && (forall q :: 0 <= q < index ==> score(perms[q]) < bestScore)
  }

  /** One turn of the loop: the permutation at `k` takes the lead when
      there is none yet or it scores strictly more. */
  lemma LeadsStep(perms: seq<seq<int>>, score: seq<int> -> real, k: nat, index: nat, best: seq<int>, bestScore: real, found: bool)
    requires k < |perms|
    requires found <==> k > 0
    requires found ==> Leads(perms, score, k, index, best, bestScore)
    ensures var take := !found || score(perms[k]) > bestScore;
      Leads(perms, score, k + 1, if take then k else index, if take then perms[k] else best,
            if take then score(perms[k]) else bestScore)
  {
  }

  /** Once every permutation has been seen, `Leads` is the promise of the
      evaluator. */
  lemma LeadsAll(perms: seq<seq<int>>, score: seq<int> -> real, index: nat, best: seq<int>, bestScore: real)
    requires Leads(perms, score, |perms|, index, best, bestScore)
    ensures exists i :: (0 <= i < |perms| && best == perms[i] && bestScore == score(perms[i])
                         && (forall q :: 0 <= q < i ==> score(perms[q]) < bestScore))
    ensures forall q :: 0 <= q < |perms| ==> score(perms[q]) <= bestScore
  {
  }

  // ----- properties -------------------------------------------------------

  /** The first-ranked candidate scores −1. */
  lemma DummyFirst(ranking: seq<int>)
    requires |ranking| > 0
    ensures DummyRule(ranking, ranking[0]) == -1
  {
  }

  /** Along a duplicate-free ranking the scores strictly decrease. */
  lemma DummyDecreasing(ranking: seq<int>, i: nat, j: nat)
    requires Distinct(ranking) && i < j < |ranking|
    ensures DummyRule(ranking, ranking[i]) > DummyRule(ranking, ranking[j])
  {
    IndexOfDistinct(ranking, i);
    IndexOfDistinct(ranking, j);
  }

  /** On a duplicate-free ranking of `C` candidates the scores are pairwise
      distinct and are exactly `−1 … −C`. */
  lemma DummyScoresExact(ranking: seq<int>)
    requires Distinct(ranking)
    ensures forall a, b :: a in ranking && b in ranking && a != b ==> DummyRule(ranking, a) != DummyRule(ranking, b)
    ensures (set c | c in ranking :: DummyRule(ranking, c)) == (set i | i in Range(|ranking|) :: -(i + 1))
  {
    var scores := set c | c in ranking :: DummyRule(ranking, c);
    var expected := set i | i in Range(|ranking|) :: -(i + 1);
    forall v | v in expected
      ensures v in scores
    {
      var i :| i in Range(|ranking|) && v == -(i + 1);
      IndexOfDistinct(ranking, i);
      assert DummyRule(ranking, ranking[i]) == v;
    }
    forall c | c in ranking
      ensures DummyRule(ranking, c) in expected
    {
      assert IndexOf(ranking, c) in Range(|ranking|);
    }
    assert scores == expected;
  }

  /** Descending dummy score as an ascending sort key. */
  function DescendingDummyKey(ranking: seq<int>): int -> int
  {
    c => if c in ranking then -DummyRule(ranking, c) else 0
  }

  /** Sorting any arrangement of the ranked candidates by descending dummy
      score gives back the ranking. */
  lemma DummySortReproduces(ranking: seq<int>, candidates: seq<int>)
    requires Distinct(ranking)
    requires multiset(candidates) == multiset(ranking)
    ensures SortBy(candidates, DescendingDummyKey(ranking)) == ranking
  {
    var key := DescendingDummyKey(ranking);
    var sorted := SortBy(candidates, key);
    SortBySorted(candidates, key);
    PermutationDistinct(sorted, ranking);
    DummyKeyStrict(ranking, sorted);
    RankingStrict(ranking);
    StrictlySortedUnique(sorted, ranking, key);
  }

  /** A key-sorted rearrangement of the ranking is strictly sorted, as no
      two ranked candidates share a position. */
  lemma DummyKeyStrict(ranking: seq<int>, sorted: seq<int>)
    requires Distinct(ranking) && Distinct(sorted)
    requires multiset(sorted) == multiset(ranking)
    requires SortedBy(sorted, DescendingDummyKey(ranking))
    ensures StrictlySortedBy(sorted, DescendingDummyKey(ranking))
  {
    var key := DescendingDummyKey(ranking);
    forall i, j | 0 <= i < j < |sorted|
      ensures key(sorted[i]) < key(sorted[j])
    {
      assert sorted[i] in multiset(ranking) && sorted[j] in multiset(ranking);
      assert sorted[i] != sorted[j];
      assert key(sorted[i]) <= key(sorted[j]);
      assert IndexOf(ranking, sorted[i]) != IndexOf(ranking, sorted[j]);
    }
  }

  /** The ranking itself is in strictly increasing key order. */
  lemma RankingStrict(ranking: seq<int>)
    requires Distinct(ranking)
    ensures StrictlySortedBy(ranking, DescendingDummyKey(ranking))
  {
    forall i, j | 0 <= i < j < |ranking|
      ensures DescendingDummyKey(ranking)(ranking[i]) < DescendingDummyKey(ranking)(ranking[j])
    {
      IndexOfDistinct(ranking, i);
      IndexOfDistinct(ranking, j);
    }
  }

  /** Identical entries collapse into one pair. */
  lemma ConstructCollapses(entries: seq<Entry>, k1: nat, k2: nat)
    requires k1 < |entries| && k2 < |entries| && entries[k1] == entries[k2]
    ensures Count(ConstructPairs(entries), (entries[k1].frequency, entries[k1].ballot)) == 1
  {
    var p := (entries[k1].frequency, entries[k1].ballot);
    CountDistinct(ConstructPairs(entries), p);
  }
}
