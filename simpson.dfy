/** The Simpson rule (rules/simpson_rule.py): a candidate's score is its
    worst net preference against any other candidate. */
module Simpson {
  import opened Seqs
  import opened Profiles
  import Maximin

  /** `candidates - {x}`, in list order. */
  function Without(s: seq<int>, x: int): (r: seq<int>)
    ensures forall y :: y in r <==> y in s && y != x
  {
    if |s| == 0 then []
    else
      var init := Without(s[..|s| - 1], x);
      assert forall y :: y in s <==> y in s[..|s| - 1] || y == s[|s| - 1];
      init + (if s[|s| - 1] != x then [s[|s| - 1]] else [])
  }

  /** The list comprehension of lines 5-8. */
  function NetScores(net: NetPreference, x: int, others: seq<int>): (r: seq<int>)
    ensures |r| == |others|
    ensures forall i :: 0 <= i < |others| ==> r[i] == net(x, others[i])
  {
    seq(|others|, i requires 0 <= i < |others| => net(x, others[i]))
  }

  /** `simpson_rule(profile, candidate)`: `min` fails on an empty list, so
      another candidate must exist. The score is a lower bound of the net
      preferences against the others, and one of them attains it. */
  function SimpsonRule(profile: Profile, net: NetPreference, candidate: int): (score: int)
    requires HasRival(profile.candidates, candidate)
    ensures forall m :: m in profile.candidates && m != candidate ==> score <= net(candidate, m)
    ensures exists m :: m in profile.candidates && m != candidate && score == net(candidate, m)
  {
    var others := Without(profile.candidates, candidate);
    var rival :| rival in profile.candidates && rival != candidate;
    assert rival in others;
    var scores := NetScores(net, candidate, others);
    var score := MinOf(scores);
    assert forall m :: m in others ==> score <= net(candidate, m) by {
      forall m | m in others
        ensures score <= net(candidate, m)
      {
        var i :| 0 <= i < |others| && others[i] == m;
        assert scores[i] == net(candidate, m);
      }
    }
    var i :| 0 <= i < |scores| && scores[i] == score;
    assert others[i] in others;
    score
  }

  // ----- properties -------------------------------------------------------

  /** A positive score means beating every other candidate head to head, and
      conversely. */
  lemma SimpsonPositiveIffBeatsAll(profile: Profile, net: NetPreference, candidate: int)
    requires HasRival(profile.candidates, candidate)
    ensures SimpsonRule(profile, net, candidate) > 0 <==> Maximin.BeatsAll(profile.candidates, net, candidate)
  {
    if Maximin.BeatsAll(profile.candidates, net, candidate) {
      var m :| m in profile.candidates && m != candidate && SimpsonRule(profile, net, candidate) == net(candidate, m);
    }
  }

  /** With an antisymmetric net preference at most one candidate has a
      positive score: it is the Condorcet winner. */
  lemma SimpsonPositiveUnique(profile: Profile, net: NetPreference, x: int, y: int)
    requires Antisymmetric(net)
    requires x in profile.candidates && y in profile.candidates && x != y
    requires SimpsonRule(profile, net, x) > 0
    ensures SimpsonRule(profile, net, y) < 0
  {
    assert net(x, y) > 0;
    assert net(y, x) == -net(x, y);
  }

  /** The score only grows when every net preference of the candidate grows. */
  lemma SimpsonMonotone(profile: Profile, net1: NetPreference, net2: NetPreference, candidate: int)
    requires HasRival(profile.candidates, candidate)
    requires forall m :: m in profile.candidates && m != candidate ==> net1(candidate, m) <= net2(candidate, m)
    ensures SimpsonRule(profile, net1, candidate) <= SimpsonRule(profile, net2, candidate)
  {
    var m :| m in profile.candidates && m != candidate && SimpsonRule(profile, net2, candidate) == net2(candidate, m);
    assert SimpsonRule(profile, net1, candidate) <= net1(candidate, m);
  }

  /** Simpson is positive exactly when maximin, over voters that exist, is positive. */
  lemma SimpsonAgreesWithMaximin(profile: Profile, net: NetPreference, candidate: int)
    requires |profile.pairs| > 0 && HasRival(profile.candidates, candidate)
    requires forall k :: 0 <= k < |profile.pairs| ==> profile.pairs[k].0 > 0
    ensures SimpsonRule(profile, net, candidate) > 0
        <==> Maximin.MaximinScore(profile, net, candidate) > 0
  {
    Maximin.MaximinCharacterization(profile, net, candidate);
    SimpsonPositiveIffBeatsAll(profile, net, candidate);
  }
}
