/** The elimination tabulator of rules/stv_rule_elishay.py. Candidates are
    the indices `0 .. n-1`. Each of the `n − 1` rounds tallies the first
    entry of every ballot, eliminates a live candidate with the fewest
    votes (any of them on a tie) and gives it the round's score; the
    survivor scores `n`. Votes are not transferred: a ballot whose first
    entry is eliminated adds to that eliminated slot only, which stays at
    infinity, so every live candidate's tally is its first-place tally in
    every round. The infinity sentinel is the `eliminated` flag here. */
module StvElishay {
  import opened Seqs
  import opened Profiles
  import Plurality

  /** A live candidate's tally in every round. */
  function Tally(pairs: seq<Pair>, c: int): int
  {
    Plurality.FirstPlaceTally(pairs, c)
  }

  /** `votes[ballot[0]]` must name a slot, so every ballot needs a first
      entry among the candidates' indices. */
  predicate FirstChoicesInRange(pairs: seq<Pair>, n: nat)
  {
    forall k :: 0 <= k < |pairs| ==> |pairs[k].1| > 0 && 0 <= pairs[k].1[0] < n
  }

  /** `order` lists candidates in the order of the rounds that eliminate
      them, the survivor last, and each is a live candidate with the
      fewest votes when it goes. */
  predicate IsEliminationOrder(pairs: seq<Pair>, n: nat, order: seq<int>)
  {
    && |order| == n
    && IsEliminationPrefix(pairs, n, order)
  }

  predicate IsEliminationPrefix(pairs: seq<Pair>, n: nat, order: seq<int>)
  {
    && Distinct(order)
    && (forall r :: 0 <= r < |order| ==> 0 <= order[r] < n)
    && (forall r, c :: 0 <= r < |order| && 0 <= c < n && c !in order[..r] ==>
          Tally(pairs, order[r]) <= Tally(pairs, c))
  }

  /** `stv_rule_elishay(profile, candidate)`: the score is one more than the
      candidate's place in some elimination order. */
  method StvRuleElishay(profile: Profile, candidate: int) returns (result: int)
    requires |profile.candidates| >= 1
    requires 0 <= candidate < |profile.candidates|
    requires |profile.candidates| >= 2 ==> FirstChoicesInRange(profile.pairs, |profile.candidates|)
    ensures exists order :: (IsEliminationOrder(profile.pairs, |profile.candidates|, order)
      && candidate in order && result == IndexOf(order, candidate) + 1)
  {
    var pairs := profile.pairs;
    var m := |profile.candidates| - 1;
    var numAlternatives := |profile.candidates|;
    var scores := new int[numAlternatives](_ => 0);
    var score := 1;
    var votes := new int[numAlternatives](_ => 0);
    var eliminated := new bool[numAlternatives](_ => false);
    ghost var order: seq<int> := [];

    var round := 0;
    while round < m
      invariant 0 <= round <= m
      invariant score == round + 1
      invariant |order| == round
      invariant IsEliminationPrefix(pairs, numAlternatives, order)
      invariant forall c :: 0 <= c < numAlternatives ==> (eliminated[c] <==> c in order)
      invariant forall c :: 0 <= c < numAlternatives && !eliminated[c] ==> votes[c] == 0
      invariant forall r :: 0 <= r < |order| ==> scores[order[r]] == r + 1
    {
      var eliminatedAlternative := ChooseEliminated(votes, eliminated, pairs, order);
      eliminated[eliminatedAlternative] := true;
      ResetLive(votes, eliminated);
      scores[eliminatedAlternative] := score;
      order := order + [eliminatedAlternative];
      score := score + 1;
      round := round + 1;
    }

    result := CrownSurvivor(eliminated, scores, pairs, order, score, candidate);
  }

  /** Lines 36-39: the slot not at infinity is the survivor, who scores `n`;
      the candidate's score is then read off. */
  method CrownSurvivor(eliminated: array<bool>, scores: array<int>, pairs: seq<Pair>, ghost order: seq<int>, score: int, candidate: int)
    returns (result: int)
    requires eliminated.Length == scores.Length && |order| == eliminated.Length - 1 && score == |order| + 1
    requires 0 <= candidate < eliminated.Length
    requires IsEliminationPrefix(pairs, eliminated.Length, order)
    requires forall c :: 0 <= c < eliminated.Length ==> (eliminated[c] <==> c in order)
    requires forall r :: 0 <= r < |order| ==> scores[order[r]] == r + 1
    modifies scores
    ensures exists winner :: (0 <= winner < scores.Length && !eliminated[winner]
      && scores[..] == old(scores[..])[winner := score])
    ensures exists full :: (IsEliminationOrder(pairs, eliminated.Length, full)
      && candidate in full && result == IndexOf(full, candidate) + 1)
  {
    var winner := FirstLive(eliminated, order);
    scores[winner] := score;
    ghost var full := order + [winner];
    Survivor(pairs, eliminated.Length, full);
    IndexOfDistinct(full, IndexOf(full, candidate));
    result := scores[candidate];
  }

  /** Lines 16-28 of one round: tally the first choices, then pick a live
      candidate with the fewest votes (the only one, or any on a tie). */
  method ChooseEliminated(votes: array<int>, eliminated: array<bool>, pairs: seq<Pair>, ghost order: seq<int>)
    returns (eliminatedAlternative: int)
    requires votes.Length == eliminated.Length && |order| < votes.Length
    requires FirstChoicesInRange(pairs, votes.Length)
    requires IsEliminationPrefix(pairs, votes.Length, order)
    requires forall c :: 0 <= c < votes.Length ==> (eliminated[c] <==> c in order)
    requires forall c :: 0 <= c < votes.Length && !eliminated[c] ==> votes[c] == 0
    modifies votes
    ensures forall c :: 0 <= c < votes.Length && !eliminated[c] ==> votes[c] == Tally(pairs, c)
    ensures 0 <= eliminatedAlternative < votes.Length && eliminatedAlternative !in order
    ensures IsEliminationPrefix(pairs, votes.Length, order + [eliminatedAlternative])
  {
    ghost var live := DistinctRangeMissing(order, votes.Length);
    AddFirstChoices(votes, eliminated, pairs);
    var minVotes := LiveMinimum(votes, eliminated, live);
    var minVoteIndices := MinIndices(votes, eliminated, minVotes);
    if |minVoteIndices| == 1 {
      eliminatedAlternative := minVoteIndices[0];
      assert eliminatedAlternative in minVoteIndices;
    } else {
      eliminatedAlternative :| eliminatedAlternative in minVoteIndices;
    }
    EliminationStep(pairs, votes.Length, order, eliminatedAlternative);
  }

  /** Line 32: every slot not at infinity goes back to 0. */
  method ResetLive(votes: array<int>, eliminated: array<bool>)
    requires votes.Length == eliminated.Length
    modifies votes
    ensures forall c :: 0 <= c < votes.Length ==> votes[c] == if eliminated[c] then old(votes[c]) else 0
  {
    forall c | 0 <= c < votes.Length && !eliminated[c] {
      votes[c] := 0;
    }
  }

  /** Lines 16-17: every ballot's first entry gains the pair's frequency
      unless that slot is eliminated (infinity plus a number is infinity). */
  method AddFirstChoices(votes: array<int>, eliminated: array<bool>, pairs: seq<Pair>)
    requires votes.Length == eliminated.Length
    requires forall k :: 0 <= k < |pairs| ==> |pairs[k].1| > 0 && 0 <= pairs[k].1[0] < votes.Length
    modifies votes
    ensures forall c :: 0 <= c < votes.Length && !eliminated[c] ==>
      votes[c] == old(votes[c]) + Tally(pairs, c)
  {
    var q := 0;
    while q < |pairs|
      invariant 0 <= q <= |pairs|
      invariant forall c :: 0 <= c < votes.Length && !eliminated[c] ==>
        votes[c] == old(votes[c]) + Tally(pairs[..q], c)
    {
      var (frequency, ballot) := pairs[q];
      TallyStep(pairs, q);
      if !eliminated[ballot[0]] {
        votes[ballot[0]] := votes[ballot[0]] + frequency;
      }
      q := q + 1;
    }
    assert pairs[..q] == pairs;
  }

  lemma TallyStep(pairs: seq<Pair>, q: nat)
    requires q < |pairs| && |pairs[q].1| > 0
    ensures forall c :: (Tally(pairs[..q + 1], c)
      == Tally(pairs[..q], c) + (if pairs[q].1[0] == c then pairs[q].0 else 0))
  {
    assert pairs[..q + 1][..q] == pairs[..q];
  }

  /** Line 20: the eliminated slots hold infinity, so the minimum is taken
      over the live ones. */
  method LiveMinimum(votes: array<int>, eliminated: array<bool>, ghost live: int) returns (minVotes: int)
    requires votes.Length == eliminated.Length
    requires 0 <= live < votes.Length && !eliminated[live]
    ensures exists c :: 0 <= c < votes.Length && !eliminated[c] && votes[c] == minVotes
    ensures forall c :: 0 <= c < votes.Length && !eliminated[c] ==> minVotes <= votes[c]
  {
    var found := false;
    minVotes := 0;
    var j := 0;
    while j < votes.Length
      invariant 0 <= j <= votes.Length
      invariant found <==> exists c :: 0 <= c < j && !eliminated[c]
      invariant found ==> exists c :: 0 <= c < j && !eliminated[c] && votes[c] == minVotes
      invariant forall c :: 0 <= c < j && !eliminated[c] ==> minVotes <= votes[c]
    {
      if !eliminated[j] && (!found || votes[j] < minVotes) {
        minVotes := votes[j];
        found := true;
      }
      j := j + 1;
    }
    assert found by {
      assert 0 <= live < j && !eliminated[live];
    }
  }

  /** Line 21: the live slots holding the minimum, in increasing order. */
  method MinIndices(votes: array<int>, eliminated: array<bool>, minVotes: int) returns (indices: seq<int>)
    requires votes.Length == eliminated.Length
    ensures forall c :: c in indices <==> 0 <= c < votes.Length && !eliminated[c] && votes[c] == minVotes
  {
    indices := [];
    var j := 0;
    while j < votes.Length
      invariant 0 <= j <= votes.Length
      invariant forall c :: c in indices <==> 0 <= c < j && !eliminated[c] && votes[c] == minVotes
    {
      if !eliminated[j] && votes[j] == minVotes {
        indices := indices + [j];
      }
      j := j + 1;
    }
  }

  /** Line 37: the first slot not at infinity. */
  method FirstLive(eliminated: array<bool>, ghost order: seq<int>) returns (winner: int)
    requires Distinct(order) && |order| < eliminated.Length
    requires forall r :: 0 <= r < |order| ==> 0 <= order[r] < eliminated.Length
    requires forall c :: 0 <= c < eliminated.Length ==> (eliminated[c] <==> c in order)
    ensures 0 <= winner < eliminated.Length && !eliminated[winner]
    ensures forall c :: 0 <= c < winner ==> eliminated[c]
  {
    ghost var live := DistinctRangeMissing(order, eliminated.Length);
    winner := 0;
    while eliminated[winner]
      invariant 0 <= winner <= live
      invariant forall c :: 0 <= c < winner ==> eliminated[c]
      decreases live - winner
    {
      winner := winner + 1;
    }
  }

  /** Eliminating a live candidate of minimum tally extends an elimination prefix. */
  lemma EliminationStep(pairs: seq<Pair>, n: nat, order: seq<int>, e: int)
    requires IsEliminationPrefix(pairs, n, order)
    requires 0 <= e < n && e !in order
    requires forall c :: 0 <= c < n && c !in order ==> Tally(pairs, e) <= Tally(pairs, c)
    ensures IsEliminationPrefix(pairs, n, order + [e])
  {
    var next := order + [e];
    assert next[..|order|] == order;
    forall r | 0 <= r < |order|
      ensures next[..r] == order[..r]
    {
    }
  }

  /** The candidate left after `n − 1` eliminations completes the order. */
  lemma Survivor(pairs: seq<Pair>, n: nat, order: seq<int>)
    requires |order| == n && n >= 1
    requires IsEliminationPrefix(pairs, n, order[..n - 1])
    requires 0 <= order[n - 1] < n && order[n - 1] !in order[..n - 1]
    ensures IsEliminationOrder(pairs, n, order)
    ensures forall c :: 0 <= c < n ==> c in order
  {
    var init := order[..n - 1];
    assert order == init + [order[n - 1]];
    assert Distinct(order);
    DistinctRangeCovers(order, n);
    forall r, c | 0 <= r < n && 0 <= c < n && c !in order[..r]
      ensures Tally(pairs, order[r]) <= Tally(pairs, c)
    {
      if r < n - 1 {
        assert order[..r] == init[..r];
      } else {
        assert order[..r] == init;
        assert c in order;
        var j :| 0 <= j < n && order[j] == c;
        assert j == n - 1;
      }
    }
  }

  // ----- properties -------------------------------------------------------

  /** An elimination order lists every candidate once, so the scores
      `1 + position` of the candidates are pairwise distinct and are
      exactly `1..n`. */
  lemma StvScoresArePermutation(pairs: seq<Pair>, n: nat, order: seq<int>)
    requires IsEliminationOrder(pairs, n, order)
    ensures forall c :: 0 <= c < n ==> c in order
    ensures forall a, b :: 0 <= a < n && 0 <= b < n && a != b ==> IndexOf(order, a) != IndexOf(order, b)
    ensures (set c: int | 0 <= c < n && c in order :: IndexOf(order, c) + 1) == (set i | i in Range(n) :: i + 1)
  {
    DistinctRangeCovers(order, n);
    PositionScores(order, n);
  }

  /** The positions-plus-one of a duplicate-free listing of `0 .. n-1` are `1 .. n`. */
  lemma PositionScores(order: seq<int>, n: nat)
    requires Distinct(order) && |order| == n
    requires forall r :: 0 <= r < |order| ==> 0 <= order[r] < n
    requires forall c :: 0 <= c < n ==> c in order
    ensures (set c: int | 0 <= c < n && c in order :: IndexOf(order, c) + 1) == (set i | i in Range(n) :: i + 1)
  {
    var scores := set c: int | 0 <= c < n && c in order :: IndexOf(order, c) + 1;
    var expected := set i | i in Range(n) :: i + 1;
    forall v | v in expected
      ensures v in scores
    {
      var i :| i in Range(n) && v == i + 1;
      IndexOfDistinct(order, i);
      var c := order[i];
      assert 0 <= c < n;
      assert IndexOf(order, c) + 1 == v;
    }
    forall c | 0 <= c < n
      ensures IndexOf(order, c) + 1 in expected
    {
      assert IndexOf(order, c) in Range(n);
    }
  }

  /** A candidate with a strictly smaller tally than another is eliminated
      strictly earlier, so it ends with a strictly smaller score. */
  lemma StvSmallerTallyScoresLower(pairs: seq<Pair>, n: nat, order: seq<int>, a: int, b: int)
    requires IsEliminationOrder(pairs, n, order)
    requires 0 <= a < n && 0 <= b < n
    requires Tally(pairs, a) < Tally(pairs, b)
    ensures a in order && b in order
    ensures IndexOf(order, a) < IndexOf(order, b)
  {
    DistinctRangeCovers(order, n);
    var j := IndexOf(order, b);
    assert Tally(pairs, a) < Tally(pairs, order[j]);
    assert a in order[..j];
    var h :| 0 <= h < j && order[h] == a;
    assert IndexOf(order, a) <= h;
  }

  /** The survivor, who scores `n`, has the largest tally. */
  lemma StvSurvivorHasMaxTally(pairs: seq<Pair>, n: nat, order: seq<int>)
    requires IsEliminationOrder(pairs, n, order) && n >= 1
    ensures forall c :: 0 <= c < n ==> Tally(pairs, c) <= Tally(pairs, order[n - 1])
  {
    DistinctRangeCovers(order, n);
    forall c | 0 <= c < n
      ensures Tally(pairs, c) <= Tally(pairs, order[n - 1])
    {
      var j := IndexOf(order, c);
      assert forall h :: 0 <= h < j ==> order[h] != order[n - 1];
    }
  }

  /** With a single candidate no round runs and it scores 1. */
  lemma StvSingleCandidate(pairs: seq<Pair>, order: seq<int>)
    requires IsEliminationOrder(pairs, 1, order)
    ensures order == [0]
  {
  }
}
