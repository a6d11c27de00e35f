/**
  The `validate!` entry point: every validator of every field runs, each
  field's failure messages are collected in order, fields without failures
  are dropped, and the result is success exactly when nothing failed.
 */
module Aggregate {
  import opened Wrappers
  import opened Seqs
  import opened Messages
  import opened Feedbacks
  import opened Errors
  import opened Validation
  import opened Length
  import opened Decimal

  /** One `name => value => [validators]` entry of a `validate!` call. */
  datatype Field<!V> = Field(name: string, value: V, validators: seq<V -> ValidationResult>)

  predicate Failed(r: ValidationResult) {
    r.Err?
  }

  /** The outcome of every validator on the value, in declaration order. */
  function Outcomes<V>(value: V, validators: seq<V -> ValidationResult>): (rs: seq<ValidationResult>)
    ensures |rs| == |validators|
    ensures forall i :: 0 <= i < |rs| ==> rs[i] == validators[i](value)
  {
    seq(|validators|, i requires 0 <= i < |validators| => validators[i](value))
  }

  /** The positions of the field's validators that failed, ascending. */
  function FailedValidators<V>(f: Field<V>): seq<nat> {
    Positions(Failed, Outcomes(f.value, f.validators))
  }

  /**
    A field's messages (`filter_map(|c| c.err())`): the failure message of
    each failing validator, in declaration order.
   */
  function FieldMessages<V>(f: Field<V>): (ms: seq<Message>)
    ensures |ms| == |FailedValidators(f)|
    ensures forall k :: 0 <= k < |ms| ==> f.validators[FailedValidators(f)[k]](f.value) == Err(ms[k])
  {
    var outcomes := Outcomes(f.value, f.validators);
    var fails := Filter(Failed, outcomes);
    FilterSound(Failed, outcomes);
    seq(|fails|, k requires 0 <= k < |fails| => fails[k].error)
  }

  function FieldFeedback<V>(f: Field<V>): Feedback {
    Feedback(f.name, FieldMessages(f))
  }

  /** The feedback of every field, in declaration order. */
  function AllFeedback<V>(fields: seq<Field<V>>): (fs: seq<Feedback>)
    ensures |fs| == |fields|
    ensures forall j :: 0 <= j < |fs| ==> fs[j] == FieldFeedback(fields[j])
  {
    seq(|fields|, j requires 0 <= j < |fields| => FieldFeedback(fields[j]))
  }

  /** The positions of the fields whose feedback is negative, ascending. */
  function NegativeFields<V>(fields: seq<Field<V>>): seq<nat> {
    Positions(IsNegative, AllFeedback(fields))
  }

  /**
    `validate!`: an error holding the negative feedback in field order, or
    success when there is none.
   */
  function Validate<V>(fields: seq<Field<V>>): (r: Result<(), Error>)
    ensures r.Err? ==> |r.error.feedbacks| > 0
    ensures r.Err? ==> forall k :: 0 <= k < |r.error.feedbacks| ==> IsNegative(r.error.feedbacks[k])
    ensures r.Err? ==> |r.error.feedbacks| == |NegativeFields(fields)|
    ensures r.Err? ==> forall k :: 0 <= k < |r.error.feedbacks| ==>
                          r.error.feedbacks[k] == FieldFeedback(fields[NegativeFields(fields)[k]])
  {
    var errors := Filter(IsNegative, AllFeedback(fields));
    FilterSound(IsNegative, AllFeedback(fields));
    if |errors| > 0 then Err(Error(errors)) else Ok(())
  }

  /** The number of a field's messages is the number of its validators that fail. */
  lemma MessageCount<V>(f: Field<V>)
    ensures |FieldMessages(f)| == Count(Failed, Outcomes(f.value, f.validators))
  {
    PositionsCount(Failed, Outcomes(f.value, f.validators));
  }

  /** Every failing validator contributes its message: nothing is skipped after an earlier failure. */
  lemma NoShortCircuit<V>(f: Field<V>, i: nat)
    requires i < |f.validators| && f.validators[i](f.value).Err?
    ensures exists k :: 0 <= k < |FieldMessages(f)| && FailedValidators(f)[k] == i
                        && FieldMessages(f)[k] == f.validators[i](f.value).error
  {
    var outcomes := Outcomes(f.value, f.validators);
    assert Failed(outcomes[i]);
    var k :| 0 <= k < |FailedValidators(f)| && FailedValidators(f)[k] == i;
    assert f.validators[FailedValidators(f)[k]](f.value) == Err(FieldMessages(f)[k]);
  }

  /** A field's feedback is negative exactly when one of its validators fails. */
  lemma FieldNegativeIff<V>(f: Field<V>)
    ensures IsNegative(FieldFeedback(f)) <==>
      exists i :: 0 <= i < |f.validators| && f.validators[i](f.value).Err?
  {
    if exists i :: 0 <= i < |f.validators| && f.validators[i](f.value).Err? {
      var i :| 0 <= i < |f.validators| && f.validators[i](f.value).Err?;
      NoShortCircuit(f, i);
    }
    if IsNegative(FieldFeedback(f)) {
      var i := FailedValidators(f)[0];
      assert f.validators[i](f.value) == Err(FieldMessages(f)[0]);
    }
  }

  /** The run succeeds exactly when every validator of every field passes. */
  lemma ValidateOkIff<V>(fields: seq<Field<V>>)
    ensures Validate(fields).Ok? <==>
      forall j, i :: 0 <= j < |fields| && 0 <= i < |fields[j].validators| ==>
        fields[j].validators[i](fields[j].value).Ok?
  {
    var fbs := AllFeedback(fields);
    FilterEmptyIff(IsNegative, fbs);
    forall j | 0 <= j < |fields| {
      FieldNegativeIff(fields[j]);
    }
  }

  /** A field appears in the error exactly when one of its validators fails. */
  lemma FieldReportedIff<V>(fields: seq<Field<V>>, j: nat)
    requires j < |fields|
    ensures j in NegativeFields(fields) <==>
      exists i :: 0 <= i < |fields[j].validators| && fields[j].validators[i](fields[j].value).Err?
  {
    FieldNegativeIff(fields[j]);
  }

  /** A run over one field fails with that field's feedback exactly when the feedback is negative. */
  lemma SingleField<V>(f: Field<V>)
    ensures Validate([f]) == if IsNegative(FieldFeedback(f)) then Err(Error([FieldFeedback(f)])) else Ok(())
  {
    var idx := NegativeFields([f]);
    if IsNegative(FieldFeedback(f)) {
      assert 0 in idx;
      IncreasingBounded(idx, 1);
      assert idx[0] == 0;
      var fbs := Validate([f]).error.feedbacks;
      assert |fbs| == 1 && fbs[0] == FieldFeedback(f);
      assert fbs == [FieldFeedback(f)];
    } else {
      ValidateOkIff([f]);
      FieldNegativeIff(f);
    }
  }

  /** A field with a single validator carries that validator's message, if any. */
  lemma SingleValidator<V>(name: string, value: V, g: V -> ValidationResult)
    ensures FieldMessages(Field(name, value, [g])) == if g(value).Err? then [g(value).error] else []
  {
    var f := Field(name, value, [g]);
    if g(value).Err? {
      NoShortCircuit(f, 0);
    } else {
      FieldNegativeIff(f);
    }
  }

  /** A validator that always fails with the message "Error", and one that always passes. */
  function AlwaysFail(s: string): ValidationResult {
    Err(Message("Error", []))
  }

  function AlwaysPass(s: string): ValidationResult {
    Ok(())
  }

  /** The unit tests: one failing validator makes the run fail, one passing validator lets it succeed. */
  lemma FailureAndSuccessExamples()
    ensures Validate([Field("input", "", [AlwaysFail])]) == Err(Error([Feedback("input", [Message("Error", [])])]))
    ensures Validate([Field("input", "", [AlwaysPass])]) == Ok(())
  {
    SingleValidator("input", "", AlwaysFail);
    SingleField(Field("input", "", [AlwaysFail]));
    SingleValidator("input", "", AlwaysPass);
    SingleField(Field("input", "", [AlwaysPass]));
  }

  /** Two failing validators on one field give two messages, in order. */
  lemma TwoFailuresKept()
    ensures FieldMessages(Field("input", "", [AlwaysFail, AlwaysFail])) == [Message("Error", []), Message("Error", [])]
  {
    var f := Field("input", "", [AlwaysFail, AlwaysFail]);
    MessageCount(f);
    var outcomes := Outcomes(f.value, f.validators);
    assert outcomes == [Err(Message("Error", [])), Err(Message("Error", []))];
    assert Count(Failed, outcomes) == 2 by {
      assert outcomes[1..] == [Err(Message("Error", []))];
      assert outcomes[1..][1..] == [];
      assert Count(Failed, outcomes[1..]) == 1;
    }
  }

  const Text := "lorem ipsum dolor sit amet"

  /** The documentation example, failing part: 26 characters fail `max(9)`, giving one feedback for "name". */
  lemma DocumentationExampleFails()
    ensures Validate([Field("name", Text, [s => Max(9, s)])]) ==
      Err(Error([Feedback("name", [Message(MaxTemplate, ["9"])])]))
  {
    assert |Text| == 26;
    var g := s => Max(9, s);
    assert NatToString(9) == "9";
    assert g(Text) == Err(Message(MaxTemplate, ["9"]));
    SingleValidator("name", Text, g);
    SingleField(Field("name", Text, [g]));
  }

  /** The documentation example's failure message reads "... than 9". */
  lemma DocumentationExampleMessage()
    ensures Render(Message(MaxTemplate, ["9"])) == Ok("Must not contain more characters than 9")
  {
    assert NatToString(9) == "9";
    MaxFailureRenders(9);
    MaxNineText();
  }

  lemma MaxNineText()
    ensures "Must not contain more characters than " + "9" == "Must not contain more characters than 9"
  {
    var a, b, c := "Must not contain more characters than ", "9", "Must not contain more characters than 9";
    forall i | 0 <= i < |c| ensures (a + b)[i] == c[i] {
      if i < |a| { assert (a + b)[i] == a[i]; } else { assert (a + b)[i] == b[i - |a|]; }
    }
  }

  /** The documentation example, passing part: the same text passes `max(64)` and `max(255)` on two fields. */
  lemma DocumentationExamplePasses()
    ensures Validate([Field("name", Text, [s => Max(64, s)]), Field("description", Text, [s => Max(255, s)])]) == Ok(())
  {
    assert |Text| == 26;
    ValidateOkIff([Field("name", Text, [s => Max(64, s)]), Field("description", Text, [s => Max(255, s)])]);
  }
}
