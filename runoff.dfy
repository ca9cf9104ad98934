/** `find_winner` of rules/runoff_rule.py: the keys of a dictionary whose
    value is the largest one, where the running maximum starts at 0. The
    dictionary is its sequence of `(key, value)` items in iteration order. */
module Runoff {
  import opened Seqs

  type Items = seq<(int, int)>

  /** Dictionary keys are unique. */
  predicate UniqueKeys(d: Items)
  {
    forall i, j :: 0 <= i < j < |d| ==> d[i].0 != d[j].0
  }

  /** `max_point` after the loop of lines 46-49: the largest value, or 0
      when no value is positive. */
  function MaxPoint(d: Items): (r: int)
    ensures r >= 0
    ensures forall i :: 0 <= i < |d| ==> d[i].1 <= r
    ensures r == 0 || exists i :: 0 <= i < |d| && d[i].1 == r
  {
    if |d| == 0 then 0
    else
      var m := MaxPoint(d[..|d| - 1]);
      if d[|d| - 1].1 > m then d[|d| - 1].1 else m
  }

  /** The keys holding value `v`, in iteration order. */
  function KeysWithValue(d: Items, v: int): (r: seq<int>)
    ensures |r| <= |d|
    ensures forall c :: c in r <==> exists i :: 0 <= i < |d| && d[i].0 == c && d[i].1 == v
  {
    if |d| == 0 then []
    else
      var init := KeysWithValue(d[..|d| - 1], v);
      assert forall i :: 0 <= i < |d| - 1 ==> d[..|d| - 1][i] == d[i];
      init + (if d[|d| - 1].1 == v then [d[|d| - 1].0] else [])
  }

  /** `find_winner(aggregated_result)`. */
  method FindWinner(d: Items) returns (winner: seq<int>)
    ensures winner == KeysWithValue(d, MaxPoint(d))
  {
    var maxPoint := 0;
    var j := 0;
    while j < |d|
      invariant 0 <= j <= |d|
      invariant maxPoint == MaxPoint(d[..j])
    {
      assert d[..j + 1][..j] == d[..j];
      var point := d[j].1;
      if point > maxPoint {
        maxPoint := point;
      }
      j := j + 1;
    }
    assert d[..j] == d;
    winner := [];
    j := 0;
    while j < |d|
      invariant 0 <= j <= |d|
      invariant winner == KeysWithValue(d[..j], maxPoint)
    {
      assert d[..j + 1][..j] == d[..j];
      var (candidate, point) := d[j];
      if point == maxPoint {
        winner := winner + [candidate];
      }
      j := j + 1;
    }
    assert d[..j] == d;
  }

  // ----- properties -------------------------------------------------------

  /** `max_point` is `max(0, max of the values)`. */
  lemma MaxPointIsFlooredMax(d: Items)
    ensures |d| == 0 ==> MaxPoint(d) == 0
    ensures (forall i :: 0 <= i < |d| ==> d[i].1 <= 0) ==> MaxPoint(d) == 0
    ensures (exists i :: 0 <= i < |d| && d[i].1 > 0) ==>
      exists i :: 0 <= i < |d| && d[i].1 == MaxPoint(d)
  {
  }

  /** With a positive value the result is non-empty and every key in it
      holds the largest value. */
  lemma SomePositive(d: Items)
    requires UniqueKeys(d)
    requires exists i :: 0 <= i < |d| && d[i].1 > 0
    ensures |KeysWithValue(d, MaxPoint(d))| > 0
    ensures forall i, j :: 0 <= i < |d| && 0 <= j < |d| && d[i].0 in KeysWithValue(d, MaxPoint(d)) ==>
      d[j].1 <= d[i].1
  {
    var k :| 0 <= k < |d| && d[k].1 > 0;
    var m := MaxPoint(d);
    var w := KeysWithValue(d, m);
    var top :| 0 <= top < |d| && d[top].1 == m;
    assert d[top].0 in w;
    forall i, j | 0 <= i < |d| && 0 <= j < |d| && d[i].0 in w
      ensures d[j].1 <= d[i].1
    {
      var h :| 0 <= h < |d| && d[h].0 == d[i].0 && d[h].1 == m;
      assert h == i;
    }
  }

  /** With every value negative, or no value at all, nobody wins. */
  lemma AllNegative(d: Items)
    requires forall i :: 0 <= i < |d| ==> d[i].1 < 0
    ensures KeysWithValue(d, MaxPoint(d)) == []
  {
    MaxPointIsFlooredMax(d);
    NoKeysWithValue(d, 0);
  }

  /** No item holds `v`, so no key is collected. */
  lemma {:induction false} NoKeysWithValue(d: Items, v: int)
    requires forall i :: 0 <= i < |d| ==> d[i].1 != v
    ensures KeysWithValue(d, v) == []
  {
    if |d| > 0 {
      var init := d[..|d| - 1];
      assert forall i :: 0 <= i < |init| ==> init[i] == d[i];
      NoKeysWithValue(init, v);
    }
  }

  /** A key left out of the result has a value below `max_point`. */
  lemma OutsideIsBelow(d: Items)
    ensures forall i :: 0 <= i < |d| && d[i].0 !in KeysWithValue(d, MaxPoint(d)) ==> d[i].1 < MaxPoint(d)
  {
  }
}
