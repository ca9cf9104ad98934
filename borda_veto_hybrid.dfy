/** The Borda/veto hybrid (rules/borda_veto_hybrid_rule.py): a profile whose
    ballots are mostly truncated is scored by veto, any other by Borda. */
module BordaVetoHybrid {
  import opened Profiles
  import opened Borda
  import opened Veto

  /** The distortion ratio at or above which the veto score is used (line 3). */
  const DistortionThreshold: real := 0.8

  /** Total length of the ballots, one term per pair (not per voter). */
  function LengthSum(pairs: seq<Pair>): nat
  {
    if |pairs| == 0 then 0 else LengthSum(pairs[..|pairs| - 1]) + |pairs[|pairs| - 1].1|
  }

  /** Lines 8-9: one minus the average ballot length over the candidate
      count. Both divisions fail on an empty profile. The ratio never
      exceeds 1, and reaches it exactly when every ballot is empty. */
  function DistortionRatio(profile: Profile): (ratio: real)
    requires |profile.pairs| > 0 && |profile.candidates| > 0
    ensures ratio <= 1.0
    ensures ratio == 1.0 <==> forall k :: 0 <= k < |profile.pairs| ==> |profile.pairs[k].1| == 0
  {
    LengthSumZero(profile.pairs);
    RatioOne(LengthSum(profile.pairs) as real, |profile.pairs| as real, |profile.candidates| as real);
    1.0 - (LengthSum(profile.pairs) as real / |profile.pairs| as real) / |profile.candidates| as real
  }

  /** The summed length is zero exactly when every ballot is empty. */
  lemma {:induction false} LengthSumZero(pairs: seq<Pair>)
    ensures LengthSum(pairs) == 0 <==> forall k :: 0 <= k < |pairs| ==> |pairs[k].1| == 0
  {
    if |pairs| > 0 {
      LengthSumZero(pairs[..|pairs| - 1]);
      assert forall k :: 0 <= k < |pairs| - 1 ==> pairs[..|pairs| - 1][k] == pairs[k];
    }
  }

  lemma RatioOne(l: real, m: real, n: real)
    requires 0.0 <= l && m > 0.0 && n > 0.0
    ensures 1.0 - (l / m) / n <= 1.0
    ensures 1.0 - (l / m) / n == 1.0 <==> l == 0.0
  {
    assert l / m >= 0.0;
    assert (l / m) / n >= 0.0;
    if (l / m) / n == 0.0 {
      assert l / m == ((l / m) / n) * n;
      assert l == (l / m) * m;
    }
  }

  /** `borda_veto_hybrid_rule(profile, candidate)`. The two branches are
      written out in the source; they are the veto and Borda computations. */
  method BordaVetoHybridRule(profile: Profile, candidate: int) returns (score: int)
    requires |profile.pairs| > 0 && |profile.candidates| > 0
    ensures DistortionRatio(profile) >= DistortionThreshold ==> score == VetoScore(profile, candidate)
    ensures DistortionRatio(profile) < DistortionThreshold ==> score == BordaRule(profile, candidate)
    ensures DistortionRatio(profile) >= DistortionThreshold ==>
      -(FreqSum(profile.pairs) as int) <= score <= 0
  {
    var averageBallotLength := LengthSum(profile.pairs) as real / |profile.pairs| as real;
    var profileDistortionRatio := 1.0 - averageBallotLength / |profile.candidates| as real;
    if profileDistortionRatio >= DistortionThreshold {
      score := VetoRule(profile, candidate);
      VetoBounds(profile, candidate);
    } else {
      score := BordaRule(profile, candidate);
    }
  }

  lemma {:induction false} LengthSumFull(pairs: seq<Pair>, n: nat)
    requires forall k :: 0 <= k < |pairs| ==> |pairs[k].1| == n
    ensures LengthSum(pairs) == |pairs| * n
  {
    if |pairs| > 0 {
      LengthSumFull(pairs[..|pairs| - 1], n);
    }
  }

  lemma {:induction false} LengthSumWithin(pairs: seq<Pair>, n: nat)
    requires BallotsWithin(pairs, n)
    ensures LengthSum(pairs) <= |pairs| * n
  {
    if |pairs| > 0 {
      LengthSumWithin(pairs[..|pairs| - 1], n);
    }
  }

  /** With every ballot full the ratio is 0, so the Borda branch is taken. */
  lemma FullBallotsUseBorda(profile: Profile)
    requires |profile.pairs| > 0 && |profile.candidates| > 0
    requires forall k :: 0 <= k < |profile.pairs| ==> |profile.pairs[k].1| == |profile.candidates|
    ensures DistortionRatio(profile) == 0.0
    ensures DistortionRatio(profile) < DistortionThreshold
  {
    var n := |profile.candidates|;
    var m := |profile.pairs|;
    LengthSumFull(profile.pairs, n);
    CastProduct(m, n);
    AverageOfFull(LengthSum(profile.pairs) as real, m as real, n as real);
  }

  /** Integer products survive the conversion to `real`. */
  lemma {:induction false} CastProduct(a: nat, b: nat)
    ensures (a * b) as real == a as real * b as real
  {
    if b > 0 {
      CastProduct(a, b - 1);
      assert a * b == a * (b - 1) + a;
      assert a as real * b as real == a as real * (b - 1) as real + a as real;
    }
  }

  lemma AverageOfFull(l: real, m: real, n: real)
    requires l == m * n && m > 0.0 && n > 0.0
    ensures 1.0 - (l / m) / n == 0.0
  {
    assert (m * n) / m == n;
  }

  lemma RatioWithin(l: real, m: real, n: real)
    requires 0.0 <= l <= m * n && m > 0.0 && n > 0.0
    ensures 0.0 <= 1.0 - (l / m) / n <= 1.0
  {
    assert l / m <= n by {
      assert (m * n) / m == n;
    }
    assert (l / m) / n <= 1.0 by {
      assert n / n == 1.0;
    }
  }

  /** With ballots no longer than the candidate list the ratio lies in [0, 1]. */
  lemma DistortionRatioBounds(profile: Profile)
    requires |profile.pairs| > 0 && |profile.candidates| > 0
    requires BallotsWithin(profile.pairs, |profile.candidates|)
    ensures 0.0 <= DistortionRatio(profile) <= 1.0
  {
    LengthSumWithin(profile.pairs, |profile.candidates|);
    CastProduct(|profile.pairs|, |profile.candidates|);
    RatioWithin(LengthSum(profile.pairs) as real, |profile.pairs| as real, |profile.candidates| as real);
  }
}
