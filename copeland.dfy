/** The Copeland rule (rules/example_rule.py): a candidate scores +1 for
    every candidate it beats head to head, −1 for every one it loses to and
    0 for a tie; the loop runs over all candidates, the candidate itself
    included. */
module Copeland {
  import opened Seqs
  import opened Profiles
  import opened Sums
  import Maximin
  import Simpson

  /** `np.sign`. */
  function Sign(v: int): (r: int)
    ensures r == 1 <==> v > 0
    ensures r == -1 <==> v < 0
    ensures r == 0 <==> v == 0
  {
    if v > 0 then 1 else if v < 0 then -1 else 0
  }

  /** The list `scores` after visiting the candidates `ms` in order. */
  function Signs(net: NetPreference, x: int, ms: seq<int>): seq<int>
  {
    if |ms| == 0 then []
    else Signs(net, x, ms[..|ms| - 1]) + [Sign(net(x, ms[|ms| - 1]))]
  }

  /** Python's `sum` of a list. */
  function Sum(s: seq<int>): int
  {
    if |s| == 0 then 0 else Sum(s[..|s| - 1]) + s[|s| - 1]
  }

  /** Number of entries of `ms` that `x` beats. */
  function Wins(net: NetPreference, x: int, ms: seq<int>): nat
  {
    if |ms| == 0 then 0
    else Wins(net, x, ms[..|ms| - 1]) + (if net(x, ms[|ms| - 1]) > 0 then 1 else 0)
  }

  /** Number of entries of `ms` that beat `x`. */
  function Losses(net: NetPreference, x: int, ms: seq<int>): nat
  {
    if |ms| == 0 then 0
    else Losses(net, x, ms[..|ms| - 1]) + (if net(x, ms[|ms| - 1]) < 0 then 1 else 0)
  }

  /** `copeland_rule(profile, candidate)`: wins minus losses. */
  method CopelandRule(profile: Profile, net: NetPreference, candidate: int) returns (score: int)
    ensures score == Wins(net, candidate, profile.candidates) as int - Losses(net, candidate, profile.candidates) as int
  {
    var scores: seq<int> := [];
    var j := 0;
    while j < |profile.candidates|
      invariant 0 <= j <= |profile.candidates|
      invariant scores == Signs(net, candidate, profile.candidates[..j])
    {
      var m := profile.candidates[j];
      assert profile.candidates[..j + 1][..j] == profile.candidates[..j];
      var preference := net(candidate, m);
      scores := scores + [Sign(preference)];
      j := j + 1;
    }
    assert profile.candidates[..j] == profile.candidates;
    SignsSum(net, candidate, profile.candidates);
    score := Sum(scores);
  }

  // ----- properties -------------------------------------------------------

  /** Summing the signs counts wins minus losses. */
  lemma {:induction false} SignsSum(net: NetPreference, x: int, ms: seq<int>)
    ensures Sum(Signs(net, x, ms)) == Wins(net, x, ms) as int - Losses(net, x, ms) as int
  {
    if |ms| > 0 {
      SignsSum(net, x, ms[..|ms| - 1]);
    }
  }

  /** Every candidate is a win, a loss or a tie. */
  lemma {:induction false} WinsLossesBound(net: NetPreference, x: int, ms: seq<int>)
    ensures Wins(net, x, ms) + Losses(net, x, ms) <= |ms|
  {
    if |ms| > 0 {
      WinsLossesBound(net, x, ms[..|ms| - 1]);
    }
  }

  /** Under an antisymmetric net preference `x` ties with itself. */
  lemma {:induction false} WinsLossesTie(net: NetPreference, x: int, ms: seq<int>)
    requires Antisymmetric(net)
    requires x in ms
    ensures Wins(net, x, ms) + Losses(net, x, ms) <= |ms| - 1
  {
    var init := ms[..|ms| - 1];
    assert forall y :: y in ms <==> y in init || y == ms[|ms| - 1];
    if ms[|ms| - 1] == x {
      assert net(x, x) == -net(x, x);
      WinsLossesBound(net, x, init);
    } else {
      WinsLossesTie(net, x, init);
    }
  }

  /** Every entry of `ms` other than `x` is a win exactly when `x` beats all
      of them; and `x` itself is never a win under an antisymmetric net
      preference. */
  lemma {:induction false} WinsAll(net: NetPreference, x: int, ms: seq<int>)
    requires Antisymmetric(net)
    requires Distinct(ms) && x in ms
    ensures Wins(net, x, ms) <= |ms| - 1
    ensures Wins(net, x, ms) == |ms| - 1 <==> Maximin.BeatsAll(ms, net, x)
  {
    assert net(x, x) == -net(x, x);
    var init := ms[..|ms| - 1];
    var last := ms[|ms| - 1];
    assert Distinct(init);
    assert forall y :: y in ms <==> y in init || y == last;
    if last == x {
      assert x !in init;
      WinsNoneMissing(net, x, init);
    } else {
      assert x in init;
      WinsAll(net, x, init);
      assert Maximin.BeatsAll(ms, net, x) <==> Maximin.BeatsAll(init, net, x) && net(x, last) > 0;
    }
  }

  /** Over entries that are all distinct from `x`, every entry is a win
      exactly when `x` beats all of them. */
  lemma {:induction false} WinsNoneMissing(net: NetPreference, x: int, ms: seq<int>)
    ensures Wins(net, x, ms) <= |ms|
    ensures x !in ms ==> (Wins(net, x, ms) == |ms| <==> Maximin.BeatsAll(ms, net, x))
  {
    if |ms| > 0 {
      var init := ms[..|ms| - 1];
      var last := ms[|ms| - 1];
      WinsNoneMissing(net, x, init);
      assert forall y :: y in ms <==> y in init || y == last;
      if x !in ms {
        assert x !in init;
        assert Maximin.BeatsAll(ms, net, x) <==> Maximin.BeatsAll(init, net, x) && net(x, last) > 0;
      }
    }
  }

  /** The score reads the net preference only at pairs starting with the
      candidate, so changing it elsewhere leaves the score unchanged. */
  lemma {:induction false} CopelandLocal(net1: NetPreference, net2: NetPreference, x: int, ms: seq<int>)
    requires forall m :: m in ms ==> net1(x, m) == net2(x, m)
    ensures Signs(net1, x, ms) == Signs(net2, x, ms)
    ensures Sum(Signs(net1, x, ms)) == Sum(Signs(net2, x, ms))
  {
    if |ms| > 0 {
      var init := ms[..|ms| - 1];
      assert forall m :: m in init ==> m in ms;
      CopelandLocal(net1, net2, x, init);
      var last := ms[|ms| - 1];
      assert last in ms;
      assert Sign(net1(x, last)) == Sign(net2(x, last));
      assert Signs(net1, x, ms) == Signs(net1, x, init) + [Sign(net1(x, last))];
    }
  }

  /** The score lies between `−C` and `C`. */
  lemma CopelandBounds(net: NetPreference, x: int, ms: seq<int>)
    ensures -|ms| <= Sum(Signs(net, x, ms)) <= |ms|
  {
    SignsSum(net, x, ms);
    WinsLossesBound(net, x, ms);
  }

  /** Over any candidate list the Copeland scores add up to zero: every win
      of one candidate is a loss of another, and a candidate ties with
      itself. */
  lemma CopelandZeroSum(net: NetPreference, cs: seq<int>)
    requires Antisymmetric(net)
    ensures SumOver(cs, c => Wins(net, c, cs) as int - Losses(net, c, cs) as int) == 0
  {
    ByColumns(net, cs, cs);
    ColumnsAntisymmetric(net, cs, cs);
    forall k | 0 <= k < |cs|
      ensures Wins(net, cs[k], cs) as int - Losses(net, cs[k], cs) as int == RowSums(net, cs)(cs[k])
    {
      SignsSum(net, cs[k], cs);
    }
    SumOverCongruent(cs, c => Wins(net, c, cs) as int - Losses(net, c, cs) as int, RowSums(net, cs));
  }

  /** A candidate's Copeland score against the candidates `ys`. */
  function RowSums(net: NetPreference, ys: seq<int>): int -> int
  {
    x => Sum(Signs(net, x, ys))
  }

  /** `sum(sign(net(x, y)) for x in xs)`. */
  function ColumnSum(net: NetPreference, xs: seq<int>, y: int): int
  {
    if |xs| == 0 then 0 else ColumnSum(net, xs[..|xs| - 1], y) + Sign(net(xs[|xs| - 1], y))
  }

  /** The signs of `xs × ys` summed column by column. */
  function ColumnsTotal(net: NetPreference, xs: seq<int>, ys: seq<int>): int
  {
    if |ys| == 0 then 0 else ColumnsTotal(net, xs, ys[..|ys| - 1]) + ColumnSum(net, xs, ys[|ys| - 1])
  }

  lemma SignsAppend(net: NetPreference, x: int, ys: seq<int>, y: int)
    ensures Sum(Signs(net, x, ys + [y])) == Sum(Signs(net, x, ys)) + Sign(net(x, y))
  {
    assert (ys + [y])[..|ys|] == ys;
    var s := Signs(net, x, ys);
    assert (s + [Sign(net(x, y))])[..|s|] == s;
  }

  /** Adding a column to every row adds that column's sum. */
  lemma {:induction false} RowsAppend(net: NetPreference, xs: seq<int>, ys: seq<int>, y: int)
    ensures SumOver(xs, RowSums(net, ys + [y])) == SumOver(xs, RowSums(net, ys)) + ColumnSum(net, xs, y)
  {
    if |xs| > 0 {
      RowsAppend(net, xs[..|xs| - 1], ys, y);
      SignsAppend(net, xs[|xs| - 1], ys, y);
    }
  }

  /** Summing row by row equals summing column by column. */
  lemma {:induction false} ByColumns(net: NetPreference, xs: seq<int>, ys: seq<int>)
    ensures SumOver(xs, RowSums(net, ys)) == ColumnsTotal(net, xs, ys)
  {
    if |ys| == 0 {
      SumOverZero(xs, RowSums(net, ys));
    } else {
      var init := ys[..|ys| - 1];
      ByColumns(net, xs, init);
      assert ys == init + [ys[|ys| - 1]];
      RowsAppend(net, xs, init, ys[|ys| - 1]);
    }
  }

  /** Under antisymmetry a column is minus the row of the same candidate. */
  lemma {:induction false} ColumnAntisymmetric(net: NetPreference, xs: seq<int>, y: int)
    requires Antisymmetric(net)
    ensures ColumnSum(net, xs, y) == -Sum(Signs(net, y, xs))
  {
    if |xs| > 0 {
      var init := xs[..|xs| - 1];
      var x := xs[|xs| - 1];
      ColumnAntisymmetric(net, init, y);
      assert xs == init + [x];
      SignsAppend(net, y, init, x);
      assert net(x, y) == -net(y, x);
    }
  }

  lemma {:induction false} ColumnsAntisymmetric(net: NetPreference, xs: seq<int>, ys: seq<int>)
    requires Antisymmetric(net)
    ensures ColumnsTotal(net, xs, ys) == -SumOver(ys, RowSums(net, xs))
  {
    if |ys| > 0 {
      ColumnsAntisymmetric(net, xs, ys[..|ys| - 1]);
      ColumnAntisymmetric(net, xs, ys[|ys| - 1]);
    }
  }

  /** A candidate's score is `C − 1` exactly when it beats every other
      candidate, which is when its Simpson score is positive. */
  lemma CopelandCondorcetWinner(profile: Profile, net: NetPreference, x: int)
    requires Antisymmetric(net)
    requires Distinct(profile.candidates) && x in profile.candidates
    requires HasRival(profile.candidates, x)
    ensures Sum(Signs(net, x, profile.candidates)) <= |profile.candidates| - 1
    ensures Sum(Signs(net, x, profile.candidates)) == |profile.candidates| - 1
        <==> Simpson.SimpsonRule(profile, net, x) > 0
  {
    var ms := profile.candidates;
    SignsSum(net, x, ms);
    WinsLossesBound(net, x, ms);
    WinsAll(net, x, ms);
    Simpson.SimpsonPositiveIffBeatsAll(profile, net, x);
    WinsLossesTie(net, x, ms);
  }
}
