/** The preference profile shared by every rule: a candidate list and a
    sequence of `(frequency, ballot)` pairs, each ballot a best-first list of
    candidates that may be truncated. Python iterates `profile.pairs`, a set,
    in an unspecified order; the model fixes one order, which none of the
    rules' sums depends on. */
module Profiles {
  import opened Seqs

  type Ballot = seq<int>
  type Pair = (nat, Ballot)

  datatype Profile = Profile(candidates: seq<int>, pairs: seq<Pair>)

  /** `profile.get_net_preference(x, y)`, computed by the profile library
      whose code is not part of this model; the pairwise rules take it as a
      parameter. */
  type NetPreference = (int, int) -> int

  /** The profile library's net preference is antisymmetric:
      `net(a, b) == -net(b, a)`, so in particular `net(a, a) == 0`. */
  ghost predicate Antisymmetric(net: NetPreference)
  {
    forall a, b :: net(a, b) == -net(b, a)
  }

  /** Some candidate other than `x` exists. */
  predicate HasRival(candidates: seq<int>, x: int)
  {
    exists y :: y in candidates && y != x
  }

  /** Total number of voters: the sum of all frequencies. */
  function FreqSum(pairs: seq<Pair>): nat
  {
    if |pairs| == 0 then 0
    else FreqSum(pairs[..|pairs| - 1]) + pairs[|pairs| - 1].0
  }

  /** Number of voters whose ballot mentions `c` at all. */
  function ContainingFreqSum(pairs: seq<Pair>, c: int): nat
  {
    if |pairs| == 0 then 0
    else
      ContainingFreqSum(pairs[..|pairs| - 1], c)
      + (if c in pairs[|pairs| - 1].1 then pairs[|pairs| - 1].0 else 0)
  }

  /** The pairs whose ballot mentions `c`, in profile order. */
  function PairsContaining(pairs: seq<Pair>, c: int): (r: seq<Pair>)
    ensures forall k :: 0 <= k < |r| ==> c in r[k].1
    ensures forall x :: x in r <==> x in pairs && c in x.1
  {
    if |pairs| == 0 then []
    else
      var init := PairsContaining(pairs[..|pairs| - 1], c);
      assert forall x :: x in pairs <==> x in pairs[..|pairs| - 1] || x == pairs[|pairs| - 1];
      if c in pairs[|pairs| - 1].1 then init + [pairs[|pairs| - 1]] else init
  }

  /** No ballot is longer than `n`. */
  predicate BallotsWithin(pairs: seq<Pair>, n: nat)
  {
    forall k :: 0 <= k < |pairs| ==> |pairs[k].1| <= n
  }

  /** Every ballot entry is a candidate. */
  predicate BallotsOverCandidates(p: Profile)
  {
    forall k, x :: 0 <= k < |p.pairs| && x in p.pairs[k].1 ==> x in p.candidates
  }

  /** The profile invariants the rules rely on: candidates are distinct,
      ballots list distinct candidates. */
  predicate WellFormed(p: Profile)
  {
    && Distinct(p.candidates)
    && (forall k :: 0 <= k < |p.pairs| ==> Distinct(p.pairs[k].1))
    && BallotsOverCandidates(p)
  }

  /** In a well-formed profile no ballot is longer than the candidate list. */
  lemma WellFormedBallotsWithin(p: Profile)
    requires WellFormed(p)
    ensures BallotsWithin(p.pairs, |p.candidates|)
  {
    forall k | 0 <= k < |p.pairs|
      ensures |p.pairs[k].1| <= |p.candidates|
    {
      assert forall x :: x in p.pairs[k].1 ==> x in p.candidates;
      DistinctSubsetLength(p.pairs[k].1, p.candidates);
    }
  }

  /** The voters mentioning `c` are among all voters. */
  lemma {:induction false} ContainingFreqSumBound(pairs: seq<Pair>, c: int)
    ensures ContainingFreqSum(pairs, c) <= FreqSum(pairs)
  {
    if |pairs| > 0 {
      ContainingFreqSumBound(pairs[..|pairs| - 1], c);
    }
  }
}
