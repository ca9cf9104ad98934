/** The plurality rule (rules/plurality_rule.py): every voter's first choice
    is listed once per voter, and a candidate scores the number of times
    it is listed. */
module Plurality {
  import opened Seqs
  import opened Profiles
  import opened Sums

  /** What one pair gives `c` under plurality: its frequency if `c` heads the ballot. */
  function FirstPlaceTerm(p: Pair, c: int): int
  {
    if |p.1| > 0 && p.1[0] == c then p.0 else 0
  }

  /** The number of voters whose first choice is `c`. */
  function FirstPlaceTally(pairs: seq<Pair>, c: int): int
  {
    PairSum(pairs, FirstPlaceTerm, c)
  }

  /** `ballot[0]` is read for every voter, so a pair with voters needs a
      non-empty ballot. */
  predicate VotersHaveFirstChoice(pairs: seq<Pair>)
  {
    forall k :: 0 <= k < |pairs| && pairs[k].0 > 0 ==> |pairs[k].1| > 0
  }

  /** The list of line 16: each pair's first choice, once per voter. */
  function FirstChoices(pairs: seq<Pair>): (r: seq<int>)
    requires VotersHaveFirstChoice(pairs)
    ensures |r| == FreqSum(pairs)
  {
    if |pairs| == 0 then []
    else
      var last := pairs[|pairs| - 1];
      FirstChoices(pairs[..|pairs| - 1]) + (if last.0 == 0 then [] else seq(last.0, _ => last.1[0]))
  }

  /** `plurality_rule(profile, candidate)`: the `Counter` lookup, 0 for a
      candidate never listed. */
  function PluralityRule(profile: Profile, candidate: int): (score: int)
    requires VotersHaveFirstChoice(profile.pairs)
    ensures score == FirstPlaceTally(profile.pairs, candidate)
  {
    FirstChoicesCount(profile.pairs, candidate);
    Count(FirstChoices(profile.pairs), candidate)
  }

  lemma {:induction false} RepeatCount(x: int, n: nat, c: int)
    ensures Count(seq(n, _ => x), c) == if x == c then n else 0
  {
    if n > 0 {
      assert seq(n, _ => x)[..n - 1] == seq(n - 1, _ => x);
      RepeatCount(x, n - 1, c);
    }
  }

  /** Expanding by frequency and then counting is the frequency-weighted tally. */
  lemma {:induction false} FirstChoicesCount(pairs: seq<Pair>, c: int)
    requires VotersHaveFirstChoice(pairs)
    ensures Count(FirstChoices(pairs), c) == FirstPlaceTally(pairs, c)
  {
    if |pairs| > 0 {
      var init := pairs[..|pairs| - 1];
      var last := pairs[|pairs| - 1];
      FirstChoicesCount(init, c);
      var tail := if last.0 == 0 then [] else seq(last.0, _ => last.1[0]);
      CountConcat(FirstChoices(init), tail, c);
      if last.0 > 0 {
        RepeatCount(last.1[0], last.0, c);
      }
    }
  }

  /** A candidate heading no ballot scores 0. */
  lemma PluralityNeverFirst(profile: Profile, candidate: int)
    requires VotersHaveFirstChoice(profile.pairs)
    requires forall k :: 0 <= k < |profile.pairs| && |profile.pairs[k].1| > 0 ==> profile.pairs[k].1[0] != candidate
    ensures PluralityRule(profile, candidate) == 0
  {
    PairSumZero(profile.pairs, FirstPlaceTerm, candidate);
  }

  /** The score lies between 0 and the number of voters. */
  lemma PluralityBounds(profile: Profile, candidate: int)
    requires VotersHaveFirstChoice(profile.pairs)
    ensures 0 <= PluralityRule(profile, candidate) <= FreqSum(profile.pairs)
  {
    PairSumBounds(profile.pairs, FirstPlaceTerm, candidate, 1);
  }

  /** When every ballot is headed by one of the distinct candidates, the
      scores add up to the number of voters. */
  lemma PluralityTotal(profile: Profile)
    requires Distinct(profile.candidates)
    requires forall k :: 0 <= k < |profile.pairs| ==>
      |profile.pairs[k].1| > 0 && profile.pairs[k].1[0] in profile.candidates
    ensures SumOver(profile.candidates, c => PluralityRule(profile, c)) == FreqSum(profile.pairs)
  {
    var cs := profile.candidates;
    var pairs := profile.pairs;
    var t: (Pair, int) -> int := FirstPlaceTerm;
    SumOverCongruent(cs, c => PluralityRule(profile, c), c => PairSum(pairs, t, c));
    forall k | 0 <= k < |pairs|
      ensures SumOver(cs, c => t(pairs[k], c)) == pairs[k].0 * 1
    {
      assert forall y :: t(pairs[k], y) == FirstPlaceTerm(pairs[k], y);
      SumOverIndicator(cs, c => t(pairs[k], c), pairs[k].1[0], pairs[k].0);
    }
    SwapSumsScaled(cs, pairs, t, 1);
  }
}
