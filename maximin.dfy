/** The maximin rule as coded (rules/maximin_rule.py): for every pair and
    every other candidate `y` the list receives the pair's frequency when
    the candidate beats `y` (positive net preference) and 0 otherwise; the
    score is the list's minimum. */
module Maximin {
  import opened Seqs
  import opened Profiles

  /** What the inner loop appends for one pair, over the candidates `ys` in order. */
  function RowScores(frequency: int, ys: seq<int>, net: NetPreference, x: int): seq<int>
  {
    if |ys| == 0 then []
    else
      var y := ys[|ys| - 1];
      RowScores(frequency, ys[..|ys| - 1], net, x) + (if y != x then [if net(x, y) > 0 then frequency else 0] else [])
  }

  /** `possible_x_scores` once the loops are done. */
  function MaximinList(pairs: seq<Pair>, candidates: seq<int>, net: NetPreference, x: int): seq<int>
  {
    if |pairs| == 0 then []
    else MaximinList(pairs[..|pairs| - 1], candidates, net, x) + RowScores(pairs[|pairs| - 1].0, candidates, net, x)
  }

  /** The candidate beats every other candidate. */
  predicate BeatsAll(candidates: seq<int>, net: NetPreference, x: int)
  {
    forall y :: y in candidates && y != x ==> net(x, y) > 0
  }

  /** The minimum of line 14. `min` of an empty list fails, so there must
      be a pair and another candidate. */
  function MaximinScore(profile: Profile, net: NetPreference, candidate: int): int
    requires |profile.pairs| > 0 && HasRival(profile.candidates, candidate)
  {
    MaximinCharacterization(profile, net, candidate);
    MinOf(MaximinList(profile.pairs, profile.candidates, net, candidate))
  }

  /** `maximin_rule(profile, candidate)`. */
  method MaximinRule(profile: Profile, net: NetPreference, candidate: int) returns (score: int)
    requires |profile.pairs| > 0 && HasRival(profile.candidates, candidate)
    ensures score == MaximinScore(profile, net, candidate)
    ensures 0 <= score && forall k :: 0 <= k < |profile.pairs| ==> score <= profile.pairs[k].0
    ensures !BeatsAll(profile.candidates, net, candidate) ==> score == 0
    ensures BeatsAll(profile.candidates, net, candidate) ==>
      exists k :: 0 <= k < |profile.pairs| && score == profile.pairs[k].0
  {
    var possibleXScores: seq<int> := [];
    var x := candidate;
    var q := 0;
    while q < |profile.pairs|
      invariant 0 <= q <= |profile.pairs|
      invariant possibleXScores == MaximinList(profile.pairs[..q], profile.candidates, net, x)
    {
      var (frequency, ballot) := profile.pairs[q];
      assert profile.pairs[..q + 1][..q] == profile.pairs[..q];
      possibleXScores := AppendRow(possibleXScores, frequency, profile.candidates, net, x);
      q := q + 1;
    }
    assert profile.pairs[..q] == profile.pairs;
    MaximinCharacterization(profile, net, candidate);
    score := MinOf(possibleXScores);
  }

  /** Lines 9-13: one entry per candidate other than `x`. */
  method AppendRow(possibleXScores: seq<int>, frequency: int, candidates: seq<int>, net: NetPreference, x: int)
    returns (extended: seq<int>)
    ensures extended == possibleXScores + RowScores(frequency, candidates, net, x)
  {
    extended := possibleXScores;
    var j := 0;
    while j < |candidates|
      invariant 0 <= j <= |candidates|
      invariant extended == possibleXScores + RowScores(frequency, candidates[..j], net, x)
    {
      var y := candidates[j];
      assert candidates[..j + 1][..j] == candidates[..j];
      if y != x {
        var preference := net(x, y);
        var nXGtY := if preference > 0 then frequency else 0;
        extended := extended + [nXGtY];
      }
      j := j + 1;
    }
    assert candidates[..j] == candidates;
  }

  /** A row holds the frequency or 0, only the frequency when the candidate
      beats everyone, and one entry for every other candidate. */
  lemma {:induction false} RowFacts(frequency: int, ys: seq<int>, net: NetPreference, x: int)
    ensures forall i :: 0 <= i < |RowScores(frequency, ys, net, x)| ==>
      RowScores(frequency, ys, net, x)[i] == frequency || RowScores(frequency, ys, net, x)[i] == 0
    ensures BeatsAll(ys, net, x) ==>
      forall i :: 0 <= i < |RowScores(frequency, ys, net, x)| ==> RowScores(frequency, ys, net, x)[i] == frequency
    ensures forall y :: y in ys && y != x ==> (if net(x, y) > 0 then frequency else 0) in RowScores(frequency, ys, net, x)
  {
    if |ys| > 0 {
      var init := ys[..|ys| - 1];
      RowFacts(frequency, init, net, x);
      assert forall y :: y in ys <==> y in init || y == ys[|ys| - 1];
      assert BeatsAll(ys, net, x) ==> BeatsAll(init, net, x);
    }
  }

  /** Every entry of the list is non-negative. */
  lemma {:induction false} ListNonNegative(pairs: seq<Pair>, candidates: seq<int>, net: NetPreference, x: int)
    ensures forall i :: 0 <= i < |MaximinList(pairs, candidates, net, x)| ==> MaximinList(pairs, candidates, net, x)[i] >= 0
  {
    if |pairs| > 0 {
      var init := pairs[..|pairs| - 1];
      var last := pairs[|pairs| - 1];
      ListNonNegative(init, candidates, net, x);
      RowFacts(last.0, candidates, net, x);
      var a := MaximinList(init, candidates, net, x);
      var r := RowScores(last.0, candidates, net, x);
      assert MaximinList(pairs, candidates, net, x) == a + r;
      forall i | 0 <= i < |a + r|
        ensures (a + r)[i] >= 0
      {
        if i >= |a| {
          assert (a + r)[i] == r[i - |a|];
        }
      }
    }
  }

  /** When the candidate beats everyone each entry is some pair's frequency. */
  lemma {:induction false} ListFrequencies(pairs: seq<Pair>, candidates: seq<int>, net: NetPreference, x: int)
    requires BeatsAll(candidates, net, x)
    ensures forall i :: 0 <= i < |MaximinList(pairs, candidates, net, x)| ==>
      exists k :: 0 <= k < |pairs| && MaximinList(pairs, candidates, net, x)[i] == pairs[k].0
  {
    if |pairs| > 0 {
      var init := pairs[..|pairs| - 1];
      var last := pairs[|pairs| - 1];
      ListFrequencies(init, candidates, net, x);
      RowFacts(last.0, candidates, net, x);
      var a := MaximinList(init, candidates, net, x);
      var r := RowScores(last.0, candidates, net, x);
      var list := MaximinList(pairs, candidates, net, x);
      assert list == a + r;
      forall i | 0 <= i < |list|
        ensures exists k :: 0 <= k < |pairs| && list[i] == pairs[k].0
      {
        if i < |a| {
          var k :| 0 <= k < |init| && a[i] == init[k].0;
          assert pairs[k] == init[k];
          assert list[i] == pairs[k].0;
        } else {
          assert list[i] == r[i - |a|] == pairs[|pairs| - 1].0;
        }
      }
    } else {
      assert MaximinList(pairs, candidates, net, x) == [];
    }
  }

  /** Every pair contributes one entry per rival. */
  lemma {:induction false} ListHasEntries(pairs: seq<Pair>, candidates: seq<int>, net: NetPreference, x: int)
    ensures forall k, y :: 0 <= k < |pairs| && y in candidates && y != x ==>
      (if net(x, y) > 0 then pairs[k].0 else 0) in MaximinList(pairs, candidates, net, x)
  {
    if |pairs| > 0 {
      var init := pairs[..|pairs| - 1];
      var last := pairs[|pairs| - 1];
      ListHasEntries(init, candidates, net, x);
      RowFacts(last.0, candidates, net, x);
      var a := MaximinList(init, candidates, net, x);
      var r := RowScores(last.0, candidates, net, x);
      assert MaximinList(pairs, candidates, net, x) == a + r;
      forall k, y | 0 <= k < |pairs| && y in candidates && y != x
        ensures (if net(x, y) > 0 then pairs[k].0 else 0) in a + r
      {
        if k < |init| {
          assert pairs[k] == init[k];
        }
      }
    }
  }

  /** The value of line 14: 0 unless the candidate beats every other one,
      and then the smallest pair frequency. */
  lemma MaximinCharacterization(profile: Profile, net: NetPreference, candidate: int)
    requires |profile.pairs| > 0 && HasRival(profile.candidates, candidate)
    ensures |MaximinList(profile.pairs, profile.candidates, net, candidate)| > 0
    ensures var score := MinOf(MaximinList(profile.pairs, profile.candidates, net, candidate));
      && 0 <= score
      && (forall k :: 0 <= k < |profile.pairs| ==> score <= profile.pairs[k].0)
      && (!BeatsAll(profile.candidates, net, candidate) ==> score == 0)
      && (BeatsAll(profile.candidates, net, candidate) ==> exists k :: 0 <= k < |profile.pairs| && score == profile.pairs[k].0)
  {
    var pairs := profile.pairs;
    var list := MaximinList(pairs, profile.candidates, net, candidate);
    ListNonNegative(pairs, profile.candidates, net, candidate);
    ListHasEntries(pairs, profile.candidates, net, candidate);
    if BeatsAll(profile.candidates, net, candidate) {
      ListFrequencies(pairs, profile.candidates, net, candidate);
    }
    var rival :| rival in profile.candidates && rival != candidate;
    assert (if net(candidate, rival) > 0 then pairs[0].0 else 0) in list;
    var score := MinOf(list);
    forall k | 0 <= k < |pairs|
      ensures score <= pairs[k].0
    {
      var v := if net(candidate, rival) > 0 then pairs[k].0 else 0;
      assert v in list;
    }
    if !BeatsAll(profile.candidates, net, candidate) {
      var y :| y in profile.candidates && y != candidate && net(candidate, y) <= 0;
      assert 0 in list;
    }
  }
}
