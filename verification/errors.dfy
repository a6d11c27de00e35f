/**
  The outcome of a whole validation run, and its equality as the source
  writes it: walk `self` by index and compare with `other` at the same
  index, which faults once `other` runs out.
 */
module Errors {
  import opened Feedbacks

  datatype Error = Error(feedbacks: seq<Feedback>)

  /** The result of comparing two errors: an answer, or the index at which `other` ran out. */
  datatype Comparison = Decided(equal: bool) | IndexFault(index: nat)

  /**
    The comparison loop from index `i` on, the entries before `i` having
    compared equal.
   */
  function CompareFrom(xs: seq<Feedback>, ys: seq<Feedback>, i: nat): (r: Comparison)
    requires i <= |xs| && i <= |ys|
    requires xs[..i] == ys[..i]
    ensures r.Decided? && r.equal <==> xs <= ys
    ensures r.IndexFault? <==> ys < xs
    ensures r.IndexFault? ==> r.index == |ys|
    decreases |xs| - i
  {
    if i == |xs| then
      assert xs == ys[..i];
      Decided(true)
    else if i == |ys| then
      assert ys == xs[..i];
      IndexFault(i)
    else if !FeedbackEq(xs[i], ys[i]) then
      assert xs[..i + 1][i] != ys[..i + 1][i];
      Decided(false)
    else
      assert xs[..i + 1] == xs[..i] + [xs[i]] && ys[..i + 1] == ys[..i] + [ys[i]];
      CompareFrom(xs, ys, i + 1)
  }

  /**
    `PartialEq` for errors as written: equal when `a` is a prefix of `b`,
    unequal at the first differing position, and a fault when `b` is a
    proper prefix of `a`.
   */
  function ErrorEq(a: Error, b: Error): (r: Comparison)
    ensures r.Decided? && r.equal <==> a.feedbacks <= b.feedbacks
    ensures r.IndexFault? <==> b.feedbacks < a.feedbacks
    ensures r.IndexFault? ==> r.index == |b.feedbacks|
  {
    CompareFrom(a.feedbacks, b.feedbacks, 0)
  }

  /** The comparison never faults when `b` is at least as long as `a`. */
  lemma ErrorEqNoFault(a: Error, b: Error)
    requires |a.feedbacks| <= |b.feedbacks|
    ensures ErrorEq(a, b).Decided?
  {
  }

  /** A difference at a shared position makes the errors unequal. */
  lemma ErrorEqMismatch(a: Error, b: Error, i: nat)
    requires i < |a.feedbacks| && i < |b.feedbacks|
    requires a.feedbacks[i] != b.feedbacks[i]
    ensures ErrorEq(a, b) == Decided(false)
  {
    assert !(a.feedbacks <= b.feedbacks);
    assert !(b.feedbacks < a.feedbacks);
  }

  /** For errors of the same length the comparison is plain structural equality. */
  lemma ErrorEqSameLength(a: Error, b: Error)
    requires |a.feedbacks| == |b.feedbacks|
    ensures ErrorEq(a, b) == Decided(a == b)
  {
  }

  /** An empty error equals every error. */
  lemma EmptyErrorEqualsAll(b: Error)
    ensures ErrorEq(Error([]), b) == Decided(true)
  {
  }

  /** The relation is not symmetric: a prefix equals the longer error, the other way round faults. */
  lemma ErrorEqAsymmetric(f: Feedback, g: Feedback)
    ensures ErrorEq(Error([f]), Error([f, g])) == Decided(true)
    ensures ErrorEq(Error([f, g]), Error([f])) == IndexFault(1)
  {
    assert [f] <= [f, g];
  }
}
