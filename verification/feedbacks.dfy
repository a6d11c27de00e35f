/** The outcome for one field: its name and the messages of its failing validators. */
module Feedbacks {
  import opened Messages

  datatype Feedback = Feedback(field: string, messages: seq<Message>)

  /** `is_negative`: the field has at least one failure message, so it differs from the field's empty feedback. */
  predicate IsNegative(f: Feedback): (r: bool)
    ensures r <==> !FeedbackEq(f, Feedback(f.field, []))
  {
    |f.messages| > 0
  }

  /** Rust's `Vec<Message>` equality: same length and `MessageEq` position by position. */
  predicate MessagesEq(a: seq<Message>, b: seq<Message>) {
    |a| == |b| && forall i :: 0 <= i < |a| ==> MessageEq(a[i], b[i])
  }

  /** `PartialEq` for feedback: field names equal, then messages equal in order. */
  function FeedbackEq(a: Feedback, b: Feedback): (r: bool)
    ensures r <==> a == b
  {
    if a.field != b.field then false
    else
      assert MessagesEq(a.messages, b.messages) ==> a.messages == b.messages;
      MessagesEq(a.messages, b.messages)
  }

  /** Feedback without messages is not negative; with one message it is. */
  lemma IsNegativeExamples()
    ensures !IsNegative(Feedback("name", []))
    ensures IsNegative(Feedback("name", [Message("lorem ipsum", [])]))
  {
  }

  /** Equality is reflexive, and fails on a different field or on a different message. */
  lemma FeedbackEqExamples()
    ensures var a := Feedback("name", [Message("lorem ipsum", [])]);
      && FeedbackEq(a, a)
      && FeedbackEq(a, Feedback("name", [Message("lorem ipsum", [])]))
      && !FeedbackEq(a, Feedback("description", [Message("lorem ipsum", [])]))
      && !FeedbackEq(a, Feedback("name", [Message("lorem ipsum {0}", ["dolor sit amet"])]))
  {
    var a := Feedback("name", [Message("lorem ipsum", [])]);
    assert a.field != "description";
    assert a.messages[0] != Message("lorem ipsum {0}", ["dolor sit amet"]);
  }

  /** Feedback equality is an equivalence. */
  lemma FeedbackEqEquivalence(a: Feedback, b: Feedback, c: Feedback)
    ensures FeedbackEq(a, a)
    ensures FeedbackEq(a, b) <==> FeedbackEq(b, a)
    ensures FeedbackEq(a, b) && FeedbackEq(b, c) ==> FeedbackEq(a, c)
  {
  }
}
