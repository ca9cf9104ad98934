/** `itertools.permutations` over a candidate list: every arrangement of the
    list, in lexicographic order of the input positions. The first element
    ranges over the positions in order and each is followed by the
    permutations of the remaining elements. */
module Itertools {
  import opened Seqs

  function RemoveAt(s: seq<int>, i: nat): (r: seq<int>)
    requires i < |s|
    ensures |r| == |s| - 1
    ensures multiset(r) + multiset{s[i]} == multiset(s)
  {
    assert s == s[..i] + [s[i]] + s[i + 1..];
    s[..i] + s[i + 1..]
  }

  function PrependEach(x: int, ps: seq<seq<int>>): (r: seq<seq<int>>)
    ensures |r| == |ps|
    ensures forall k :: 0 <= k < |ps| ==> r[k] == [x] + ps[k]
  {
    seq(|ps|, k requires 0 <= k < |ps| => [x] + ps[k])
  }

  /** `list(itertools.permutations(s))`. The input order itself comes
      first, which is the permutation a tie in the Kemeny search keeps. */
  function Permutations(s: seq<int>): (r: seq<seq<int>>)
    ensures |r| > 0 && r[0] == s
    decreases |s|, 1, 0
  {
    if |s| == 0 then [[]]
    else
      assert [s[0]] + RemoveAt(s, 0) == s;
      PermutationsFrom(s, 0)
  }

  /** The permutations of `s` whose first element comes from position `i` or later. */
  function PermutationsFrom(s: seq<int>, i: nat): seq<seq<int>>
    requires i <= |s|
    decreases |s|, 0, |s| - i
  {
    if i == |s| then []
    else PrependEach(s[i], Permutations(RemoveAt(s, i))) + PermutationsFrom(s, i + 1)
  }

  /** Everything enumerated is a rearrangement of `s`. */
  lemma {:induction false} PermutationsSound(s: seq<int>)
    ensures forall k :: 0 <= k < |Permutations(s)| ==>
      multiset(Permutations(s)[k]) == multiset(s) && |Permutations(s)[k]| == |s|
    decreases |s|, 1, 0
  {
    if |s| > 0 {
      PermutationsFromSound(s, 0);
    }
  }

  lemma {:induction false} PermutationsFromSound(s: seq<int>, i: nat)
    requires i <= |s|
    ensures forall k :: 0 <= k < |PermutationsFrom(s, i)| ==>
      multiset(PermutationsFrom(s, i)[k]) == multiset(s) && |PermutationsFrom(s, i)[k]| == |s|
    decreases |s|, 0, |s| - i
  {
    if i < |s| {
      var rest := Permutations(RemoveAt(s, i));
      var block := PrependEach(s[i], rest);
      PermutationsSound(RemoveAt(s, i));
      PermutationsFromSound(s, i + 1);
      var tail := PermutationsFrom(s, i + 1);
      forall k | 0 <= k < |block + tail|
        ensures multiset((block + tail)[k]) == multiset(s) && |(block + tail)[k]| == |s|
      {
        if k < |block| {
          assert block[k] == [s[i]] + rest[k];
          assert multiset(block[k]) == multiset{s[i]} + multiset(rest[k]);
        } else {
          assert (block + tail)[k] == tail[k - |block|];
        }
      }
    }
  }

  /** The block of permutations starting with `s[i]` is enumerated from any earlier position. */
  lemma {:induction false} BlockEnumerated(s: seq<int>, j: nat, i: nat)
    requires j <= i < |s|
    ensures forall q :: q in PrependEach(s[i], Permutations(RemoveAt(s, i))) ==> q in PermutationsFrom(s, j)
    decreases i - j
  {
    if j < i {
      BlockEnumerated(s, j + 1, i);
    }
  }

  lemma PrependedEnumerated(x: int, ps: seq<seq<int>>, q: seq<int>)
    requires q in ps
    ensures [x] + q in PrependEach(x, ps)
  {
    var k :| 0 <= k < |ps| && ps[k] == q;
    assert PrependEach(x, ps)[k] == [x] + q;
  }

  /** Removing the first entry of a rearrangement of `s`, and that entry's
      position from `s`, leaves rearrangements of each other. */
  lemma TailRearranges(s: seq<int>, p: seq<int>, i: nat)
    requires multiset(p) == multiset(s) && |p| > 0
    requires i < |s| && s[i] == p[0]
    ensures multiset(p[1..]) == multiset(RemoveAt(s, i))
  {
    assert p == [p[0]] + p[1..];
    assert multiset(p[1..]) == multiset(p) - multiset{p[0]};
    assert multiset(RemoveAt(s, i)) == multiset(s) - multiset{s[i]};
  }

  /** Every rearrangement of `s` is enumerated. */
  lemma {:induction false} PermutationsComplete(s: seq<int>, p: seq<int>)
    requires multiset(p) == multiset(s)
    ensures p in Permutations(s)
    decreases |s|
  {
    assert |p| == |multiset(p)| == |s|;
    if |s| == 0 {
      assert p == [];
    } else {
      assert p[0] in multiset(s);
      var i := IndexOf(s, p[0]);
      TailRearranges(s, p, i);
      PermutationsComplete(RemoveAt(s, i), p[1..]);
      InBlock(s, i, p);
    }
  }

  /** A list starting with `s[i]` and followed by an enumerated permutation
      of the rest is enumerated. */
  lemma InBlock(s: seq<int>, i: nat, p: seq<int>)
    requires i < |s| && |p| > 0 && p[0] == s[i]
    requires p[1..] in Permutations(RemoveAt(s, i))
    ensures p in Permutations(s)
  {
    PrependedEnumerated(s[i], Permutations(RemoveAt(s, i)), p[1..]);
    assert [s[i]] + p[1..] == p;
    BlockEnumerated(s, 0, i);
  }
}
