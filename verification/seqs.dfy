/**
  Order-preserving selection from a sequence: the iterator `filter` and
  `filter_map` steps of the aggregation, described by the positions of the
  selected elements.
 */
module Seqs {

  predicate Increasing(idx: seq<nat>) {
    forall a, b :: 0 <= a < b < |idx| ==> idx[a] < idx[b]
  }

  /** The positions of `s` whose element satisfies `p`, in ascending order. */
  function Positions<T>(p: T -> bool, s: seq<T>): (idx: seq<nat>)
    ensures Increasing(idx)
    ensures forall k :: 0 <= k < |idx| ==> idx[k] < |s|
    ensures forall i :: 0 <= i < |s| ==> (i in idx <==> p(s[i]))
    decreases |s|
  {
    if |s| == 0 then []
    else
      var front := Positions(p, s[..|s| - 1]);
      if p(s[|s| - 1]) then front + [|s| - 1] else front
  }

  /** `s.iter().filter(p)`: the elements satisfying `p`, in their original order. */
  function Filter<T>(p: T -> bool, s: seq<T>): (r: seq<T>)
    ensures |r| == |Positions(p, s)|
    ensures forall k :: 0 <= k < |r| ==> r[k] == s[Positions(p, s)[k]]
    decreases |s|
  {
    if |s| == 0 then []
    else
      var front := Filter(p, s[..|s| - 1]);
      if p(s[|s| - 1]) then front + [s[|s| - 1]] else front
  }

  /** Every kept element satisfies the predicate. */
  lemma FilterSound<T>(p: T -> bool, s: seq<T>)
    ensures forall k :: 0 <= k < |Filter(p, s)| ==> p(Filter(p, s)[k])
  {
    var idx := Positions(p, s);
    forall k | 0 <= k < |Filter(p, s)|
      ensures p(Filter(p, s)[k])
    {
      assert idx[k] in idx;
    }
  }

  /** Nothing is kept exactly when no element satisfies the predicate. */
  lemma FilterEmptyIff<T>(p: T -> bool, s: seq<T>)
    ensures Filter(p, s) == [] <==> forall i :: 0 <= i < |s| ==> !p(s[i])
  {
    var idx := Positions(p, s);
    if exists i :: 0 <= i < |s| && p(s[i]) {
      var i :| 0 <= i < |s| && p(s[i]);
      assert i in idx;
    }
  }

  /** The number of elements of `s` satisfying `p`. */
  function Count<T>(p: T -> bool, s: seq<T>): nat
    decreases |s|
  {
    if |s| == 0 then 0
    else Count(p, s[1..]) + (if p(s[0]) then 1 else 0)
  }

  lemma {:induction false} CountAppend<T>(p: T -> bool, s: seq<T>, t: seq<T>)
    ensures Count(p, s + t) == Count(p, s) + Count(p, t)
    decreases |s|
  {
    if |s| == 0 {
      assert s + t == t;
    } else {
      assert (s + t)[1..] == s[1..] + t;
      CountAppend(p, s[1..], t);
    }
  }

  /** One position is recorded per element satisfying the predicate. */
  lemma {:induction false} PositionsCount<T>(p: T -> bool, s: seq<T>)
    ensures |Positions(p, s)| == Count(p, s)
    decreases |s|
  {
    if |s| > 0 {
      var n := |s| - 1;
      PositionsCount(p, s[..n]);
      assert s == s[..n] + [s[n]];
      CountAppend(p, s[..n], [s[n]]);
      assert [s[n]][1..] == [];
    }
  }

  /** An ascending sequence of positions below `n` has at most `n` entries. */
  lemma {:induction false} IncreasingBounded(idx: seq<nat>, n: nat)
    requires Increasing(idx)
    requires forall k :: 0 <= k < |idx| ==> idx[k] < n
    ensures |idx| <= n
    decreases |idx|
  {
    if |idx| > 0 {
      var m := |idx| - 1;
      IncreasingBounded(idx[..m], idx[m]);
    }
  }
}
