/** The Borda-prefilter Kemeny hybrid (rules/idea.py). Candidates are sorted
    by ascending Borda score. The last seven are ranked by Kemeny on
    ballots restricted to them. The others get negative scores by their
    place, the best of them −1. */
module Idea {
  import opened Seqs
  import opened Profiles
  import Borda
  import Kemeny
  import opened Sorting

  /** `KEMENY_RULE_MAX_SUPPORTED_CANDIDATES_COUNT`. */
  const KemenyMaxCandidates: nat := 7

  /** Lines 15-17: the dictionary from each candidate to its Borda score. */
  method HeuristicScoreTable(profile: Profile) returns (scores: map<int, int>)
    ensures forall c :: c in scores <==> c in profile.candidates
    ensures forall c :: c in scores ==> scores[c] == Borda.BordaRule(profile, c)
  {
    scores := map[];
    var j := 0;
    while j < |profile.candidates|
      invariant 0 <= j <= |profile.candidates|
      invariant forall c :: c in scores <==> c in profile.candidates[..j]
      invariant forall c :: c in scores ==> scores[c] == Borda.BordaRule(profile, c)
    {
      var c := profile.candidates[j];
      assert profile.candidates[..j + 1] == profile.candidates[..j] + [c];
      scores := scores[c := Borda.BordaRule(profile, c)];
      j := j + 1;
    }
    assert profile.candidates[..j] == profile.candidates;
  }

  /** The entries of `s` that are in `t`, in order. */
  function Keep(s: seq<int>, t: seq<int>): (r: seq<int>)
    ensures forall x :: x in r <==> x in s && x in t
  {
    if |s| == 0 then []
    else
      assert forall x :: x in s <==> x == s[0] || x in s[1..];
      (if s[0] in t then [s[0]] else []) + Keep(s[1..], t)
  }

  /** The entries of `s` that are not in `t`, in order. */
  function Drop(s: seq<int>, t: seq<int>): (r: seq<int>)
    ensures forall x :: x in r <==> x in s && x !in t
  {
    if |s| == 0 then []
    else
      assert forall x :: x in s <==> x == s[0] || x in s[1..];
      (if s[0] !in t then [s[0]] else []) + Drop(s[1..], t)
  }

  /** How many candidates the slice `[-7:]` keeps. */
  function KemenyCount(n: nat): (r: nat)
    ensures r <= n && r <= KemenyMaxCandidates
    ensures r == n || r == KemenyMaxCandidates
  {
    if n < KemenyMaxCandidates then n else KemenyMaxCandidates
  }

  /** The sort key of line 20. */
  function BordaKey(profile: Profile): int -> int
  {
    c => Borda.BordaRule(profile, c)
  }

  /** Lines 19-21: the dictionary's keys (the candidates, in first-insertion
      order) sorted by ascending Borda score. */
  function SortedCandidates(profile: Profile): seq<int>
  {
    SortBy(Dedup(profile.candidates), BordaKey(profile))
  }

  /** Line 22: the last seven of the sorted candidates. */
  function KemenySet(profile: Profile): seq<int>
  {
    var sorted := SortedCandidates(profile);
    sorted[|sorted| - KemenyCount(|sorted|)..]
  }

  /** Line 23: the rest, in sorted order. */
  function Excluded(profile: Profile): seq<int>
  {
    Drop(SortedCandidates(profile), KemenySet(profile))
  }

  /** Line 26: minus one more than the place counted from the end. */
  function ExcludedScore(excluded: seq<int>, candidate: int): int
    requires candidate in excluded
  {
    assert candidate in multiset(Reverse(excluded));
    -(IndexOf(Reverse(excluded), candidate) + 1)
  }

  /** Lines 28-31: every ballot restricted to the Kemeny set; equal
      `(frequency, ballot)` results collapse into one set element. */
  function RestrictedPairs(profile: Profile): seq<Pair>
  {
    Dedup(Restrict(profile.pairs, KemenySet(profile)))
  }

  /** Every pair with its ballot restricted to `t`. */
  function Restrict(pairs: seq<Pair>, t: seq<int>): (r: seq<Pair>)
    ensures |r| == |pairs|
    ensures forall q :: 0 <= q < |pairs| ==> r[q] == (pairs[q].0, Keep(pairs[q].1, t))
  {
    if |pairs| == 0 then []
    else Restrict(pairs[..|pairs| - 1], t) + [(pairs[|pairs| - 1].0, Keep(pairs[|pairs| - 1].1, t))]
  }

  /** Lines 32-36. The candidates of `Profile(num_candidates=7)` come from
      the profile library and are a parameter here. No pair is added, and
      every restricted ballot names Kemeny-set candidates only. */
  function RestrictedProfile(profile: Profile, kemenyCandidates: seq<int>): (r: Profile)
    ensures r.candidates == kemenyCandidates
    ensures |r.pairs| <= |profile.pairs|
    ensures forall k, x :: 0 <= k < |r.pairs| && x in r.pairs[k].1 ==> x in KemenySet(profile)
  {
    RestrictedBallotsIn(profile);
    Profile(kemenyCandidates, RestrictedPairs(profile))
  }

  lemma RestrictedBallotsIn(profile: Profile)
    ensures forall k, x :: 0 <= k < |RestrictedPairs(profile)| && x in RestrictedPairs(profile)[k].1 ==>
      x in KemenySet(profile)
  {
    var t := KemenySet(profile);
    var restricted := Restrict(profile.pairs, t);
    var r := RestrictedPairs(profile);
    forall k, x | 0 <= k < |r| && x in r[k].1
      ensures x in t
    {
      assert r[k] in restricted;
      var q :| 0 <= q < |restricted| && restricted[q] == r[k];
      assert x in Keep(profile.pairs[q].1, t);
    }
  }

  /** What `idea_rule` needs to return a score: an excluded candidate, or
      one that the restricted Kemeny call can rank. */
  predicate Scorable(profile: Profile, kemenyCandidates: seq<int>, candidate: int)
  {
    || candidate in Excluded(profile)
    || (candidate in kemenyCandidates && BallotsWithin(RestrictedPairs(profile), |kemenyCandidates|))
  }

  /** The value `idea_rule` returns: negative exactly for excluded
      candidates, between 1 and the Kemeny candidate count for the others. */
  function IdeaScore(profile: Profile, kemenyCandidates: seq<int>, candidate: int): (score: int)
    requires Scorable(profile, kemenyCandidates, candidate)
    ensures candidate in Excluded(profile) ==> -|Excluded(profile)| <= score <= -1
    ensures candidate !in Excluded(profile) ==> 1 <= score <= |kemenyCandidates|
  {
    if candidate in Excluded(profile) then ExcludedScore(Excluded(profile), candidate)
    else Kemeny.KemenyScore(RestrictedProfile(profile, kemenyCandidates), candidate)
  }

  /** `idea_rule(profile, candidate)`. */
  method IdeaRule(profile: Profile, kemenyCandidates: seq<int>, candidate: int) returns (finalScore: int)
    requires Scorable(profile, kemenyCandidates, candidate)
    ensures finalScore == IdeaScore(profile, kemenyCandidates, candidate)
  {
    var candidateToHeuristicScore := HeuristicScoreTable(profile);
    var candidatesSortedByHeuristicScoreAsc := SortByTable(profile, candidateToHeuristicScore);
    var n := |candidatesSortedByHeuristicScoreAsc|;
    var candidatesForKemenyRule := candidatesSortedByHeuristicScoreAsc[n - KemenyCount(n)..];
    assert candidatesForKemenyRule == KemenySet(profile);
    var candidatesExcludedFromKemenyRule := Drop(candidatesSortedByHeuristicScoreAsc, candidatesForKemenyRule);
    assert candidatesExcludedFromKemenyRule == Excluded(profile);
    if candidate in candidatesExcludedFromKemenyRule {
      assert candidate in multiset(Reverse(candidatesExcludedFromKemenyRule));
      finalScore := -(IndexOf(Reverse(candidatesExcludedFromKemenyRule), candidate) + 1);
    } else {
      var pairsWithBestCandidates := RestrictedPairs(profile);
      var profileWithBestCandidates := Profile(kemenyCandidates, pairsWithBestCandidates);
      finalScore := Kemeny.KemenyRule(profileWithBestCandidates, candidate);
    }
  }

  /** Lines 19-21: sorting the keys by the looked-up score is sorting the
      candidates by their Borda score. */
  method SortByTable(profile: Profile, table: map<int, int>) returns (sorted: seq<int>)
    requires forall c :: c in table <==> c in profile.candidates
    requires forall c :: c in table ==> table[c] == Borda.BordaRule(profile, c)
    ensures sorted == SortedCandidates(profile)
  {
    var keys := Dedup(profile.candidates);
    var key := c => if c in table then table[c] else 0;
    assert forall c :: c in keys ==> key(c) == Borda.BordaRule(profile, c);
    SortByCongruent(keys, key, BordaKey(profile));
    sorted := SortBy(keys, key);
  }

  // ----- properties -------------------------------------------------------

  /** The sorted list holds every candidate once, in ascending Borda order,
      and candidates with equal Borda scores keep their order. */
  lemma SortedCandidatesFacts(profile: Profile)
    ensures Distinct(SortedCandidates(profile))
    ensures forall c :: c in SortedCandidates(profile) <==> c in profile.candidates
    ensures SortedBy(SortedCandidates(profile), BordaKey(profile))
    ensures forall k :: WithKey(SortedCandidates(profile), BordaKey(profile), k)
                     == WithKey(Dedup(profile.candidates), BordaKey(profile), k)
    ensures Distinct(profile.candidates) ==> |SortedCandidates(profile)| == |profile.candidates|
  {
    var keys := Dedup(profile.candidates);
    var key := BordaKey(profile);
    var sorted := SortBy(keys, key);
    PermutationDistinct(sorted, keys);
    assert forall c :: c in sorted <==> c in multiset(keys);
    SortBySorted(keys, key);
    forall k
      ensures WithKey(sorted, key, k) == WithKey(keys, key, k)
    {
      SortByStable(keys, key, k);
    }
    if Distinct(profile.candidates) {
      DedupOfDistinct(profile.candidates);
    }
  }

  /** The two lists partition the candidates; the Kemeny set has
      `min(7, n)` of them; the excluded list is the sorted list without its
      last `min(7, n)` entries. */
  lemma Partition(profile: Profile)
    ensures forall c :: c in profile.candidates <==> c in KemenySet(profile) || c in Excluded(profile)
    ensures forall c :: !(c in KemenySet(profile) && c in Excluded(profile))
    ensures |KemenySet(profile)| == KemenyCount(|SortedCandidates(profile)|)
    ensures Excluded(profile)
         == SortedCandidates(profile)[..|SortedCandidates(profile)| - KemenyCount(|SortedCandidates(profile)|)]
  {
    SortedCandidatesFacts(profile);
    var sorted := SortedCandidates(profile);
    var m := |sorted| - KemenyCount(|sorted|);
    assert forall c :: c in sorted <==> c in sorted[..m] || c in sorted[m..] by {
      assert sorted == sorted[..m] + sorted[m..];
    }
    DropSuffix(sorted, m);
  }

  /** Dropping the entries of a suffix of a duplicate-free list leaves the prefix. */
  lemma DropSuffix(s: seq<int>, m: nat)
    requires Distinct(s) && m <= |s|
    ensures Drop(s, s[m..]) == s[..m]
  {
    forall i | 0 <= i < m
      ensures s[i] !in s[m..]
    {
    }
    DropSplit(s, s[m..], m);
  }

  lemma {:induction false} DropSplit(s: seq<int>, t: seq<int>, m: nat)
    requires m <= |s|
    requires forall i :: 0 <= i < m ==> s[i] !in t
    requires forall i :: m <= i < |s| ==> s[i] in t
    ensures Drop(s, t) == s[..m]
  {
    if |s| > 0 {
      if m > 0 {
        DropSplit(s[1..], t, m - 1);
        assert s[..m] == [s[0]] + s[1..][..m - 1];
      } else {
        assert s[0] in t;
        DropSplit(s[1..], t, 0);
      }
    }
  }

  /** The Kemeny set holds the candidates with the highest Borda scores. */
  lemma KemenySetIsTop(profile: Profile, a: int, b: int)
    requires a in KemenySet(profile) && b in Excluded(profile)
    ensures Borda.BordaRule(profile, b) <= Borda.BordaRule(profile, a)
  {
    var sorted := SortedCandidates(profile);
    var key := BordaKey(profile);
    var m := |sorted| - KemenyCount(|sorted|);
    SortBySorted(Dedup(profile.candidates), key);
    var i :| 0 <= i < |sorted| && sorted[i] == b;
    var j :| m <= j < |sorted| && sorted[j] == a;
    SuffixIsTop(sorted, key, m, i, j);
  }

  /** In a sorted list, an entry outside the suffix from `m` has a key no
      larger than any entry of that suffix. */
  lemma SuffixIsTop(s: seq<int>, key: int -> int, m: nat, i: nat, j: nat)
    requires SortedBy(s, key)
    requires i < |s| && m <= j < |s|
    requires s[i] !in s[m..]
    ensures key(s[i]) <= key(s[j])
  {
    forall k | m <= k < |s|
      ensures s[k] != s[i]
    {
      assert s[k] == s[m..][k - m];
    }
  }

  /** Excluded candidates score between `−|excluded|` and −1, pairwise
      distinct, and the one with the highest Borda score gets −1. */
  lemma ExcludedScores(profile: Profile)
    ensures forall c :: c in Excluded(profile) ==>
      -|Excluded(profile)| <= ExcludedScore(Excluded(profile), c) <= -1
    ensures forall a, b :: a in Excluded(profile) && b in Excluded(profile) && a != b ==>
      ExcludedScore(Excluded(profile), a) != ExcludedScore(Excluded(profile), b)
    ensures |Excluded(profile)| > 0 ==>
      ExcludedScore(Excluded(profile), Excluded(profile)[|Excluded(profile)| - 1]) == -1
    ensures |Excluded(profile)| == |SortedCandidates(profile)| - KemenyCount(|SortedCandidates(profile)|)
  {
    Partition(profile);
    SortedCandidatesFacts(profile);
    var excluded := Excluded(profile);
    var sorted := SortedCandidates(profile);
    var m := |sorted| - KemenyCount(|sorted|);
    assert Distinct(excluded) by {
      assert excluded == sorted[..m];
    }
    forall a | a in excluded
      ensures ExcludedScore(excluded, a) == -(|excluded| - IndexOf(excluded, a))
    {
      ReverseIndexOf(excluded, a);
    }
    forall a, b | a in excluded && b in excluded && a != b
      ensures ExcludedScore(excluded, a) != ExcludedScore(excluded, b)
    {
      var i := IndexOf(excluded, a);
      var j := IndexOf(excluded, b);
      assert excluded[i] != excluded[j];
    }
    if |excluded| > 0 {
      IndexOfDistinct(excluded, |excluded| - 1);
    }
  }

  /** On a duplicate-free ballot the restriction keeps the relative order of
      the entries it keeps. */
  lemma {:induction false} KeepOrder(s: seq<int>, t: seq<int>)
    requires Distinct(s)
    ensures Distinct(Keep(s, t))
    ensures forall x, y :: x in Keep(s, t) && y in Keep(s, t) ==>
      (IndexOf(Keep(s, t), x) < IndexOf(Keep(s, t), y) <==> IndexOf(s, x) < IndexOf(s, y))
  {
    if |s| > 0 {
      var tail := s[1..];
      assert Distinct(tail);
      KeepOrder(tail, t);
      var r := Keep(s, t);
      var rt := Keep(tail, t);
      assert s[0] !in tail;
      forall x | x in s && x != s[0]
        ensures x in tail && IndexOf(s, x) == 1 + IndexOf(tail, x)
      {
      }
      if s[0] in t {
        assert r == [s[0]] + rt;
        forall x | x in rt
          ensures IndexOf(r, x) == 1 + IndexOf(rt, x)
        {
        }
      } else {
        assert r == rt;
      }
    }
  }

  /** The restricted pairs are the restrictions of the original pairs, each
      distinct `(frequency, ballot)` once. */
  lemma RestrictedPairsFacts(profile: Profile)
    ensures Distinct(RestrictedPairs(profile))
    ensures forall p :: p in RestrictedPairs(profile) <==>
      exists q :: 0 <= q < |profile.pairs| && p == (profile.pairs[q].0, Keep(profile.pairs[q].1, KemenySet(profile)))
  {
    var t := KemenySet(profile);
    var r := Restrict(profile.pairs, t);
    forall p
      ensures p in r <==> exists q :: 0 <= q < |profile.pairs| && p == (profile.pairs[q].0, Keep(profile.pairs[q].1, t))
    {
      if p in r {
        var q :| 0 <= q < |r| && r[q] == p;
      }
    }
  }

  /** Restricted ballots of duplicate-free ballots have at most seven
      entries, so the Kemeny call can rank any of seven candidates. */
  lemma RestrictedBallotsFit(profile: Profile)
    requires forall q :: 0 <= q < |profile.pairs| ==> Distinct(profile.pairs[q].1)
    ensures BallotsWithin(RestrictedPairs(profile), KemenyMaxCandidates)
  {
    var kemenySet := KemenySet(profile);
    Partition(profile);
    var restricted := Restrict(profile.pairs, kemenySet);
    forall q | 0 <= q < |restricted|
      ensures |restricted[q].1| <= KemenyMaxCandidates
    {
      KeepOrder(profile.pairs[q].1, kemenySet);
      DistinctSubsetLength(restricted[q].1, kemenySet);
    }
    var r := RestrictedPairs(profile);
    forall k | 0 <= k < |r|
      ensures |r[k].1| <= KemenyMaxCandidates
    {
      assert r[k] in restricted;
    }
  }

  /** A Kemeny-set candidate ranked by the restricted Kemeny call scores at
      least 1, above every excluded candidate. */
  lemma KemenyAboveExcluded(profile: Profile, kemenyCandidates: seq<int>, a: int, b: int)
    requires a in KemenySet(profile) && b in Excluded(profile)
    requires Scorable(profile, kemenyCandidates, a)
    ensures IdeaScore(profile, kemenyCandidates, b) <= -1
    ensures IdeaScore(profile, kemenyCandidates, a) >= 1
  {
    Partition(profile);
    ExcludedScores(profile);
  }
}
