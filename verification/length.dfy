/** The length validator. */
module Length {
  import opened Wrappers
  import opened Decimal
  import opened Messages
  import opened Validation

  /** The message of a `max` failure; written in the validator itself, not taken from the catalog. */
  const MaxTemplate := "Must not contain more characters than {0}"

  /** `max(size)` applied to `s`: passes up to and including `size` characters, and reports `size` in decimal otherwise. */
  function Max(size: nat, s: string): (r: ValidationResult)
    ensures r.Ok? <==> |s| <= size
    ensures r.Err? ==> r.error == Message(MaxTemplate, [NatToString(size)])
  {
    if |s| > size then
      Err(Message(MaxTemplate, [NatToString(size)]))
    else
      Ok(())
  }

  /** A `max` failure always renders: its one argument is a number, never the placeholder text. */
  lemma MaxFailureRenders(size: nat)
    ensures Render(Message(MaxTemplate, [NatToString(size)])) ==
      Ok("Must not contain more characters than " + NatToString(size))
  {
    var prefix := "Must not contain more characters than ";
    var arg := NatToString(size);
    assert MaxTemplate == prefix + "{0}";
    assert BraceFree(prefix);
    assert arg != "{0}" by {
      assert IsDigit(arg[0]);
    }
    RenderTextThenFirst(prefix, [arg]);
  }

  /** The unit tests: four characters pass `max(9)`, fail `max(3)`, and the failure reads "... than 3". */
  lemma MaxExamples()
    ensures Max(9, "test").Ok?
    ensures Max(3, "test") == Err(Message(MaxTemplate, ["3"]))
    ensures Render(Max(3, "test").error) == Ok("Must not contain more characters than 3")
  {
    assert NatToString(3) == "3";
    MaxFailureRenders(3);
    MaxThreeText();
  }

  lemma MaxThreeText()
    ensures "Must not contain more characters than " + "3" == "Must not contain more characters than 3"
  {
    var a, b, c := "Must not contain more characters than ", "3", "Must not contain more characters than 3";
    forall i | 0 <= i < |c| ensures (a + b)[i] == c[i] {
      if i < |a| { assert (a + b)[i] == a[i]; } else { assert (a + b)[i] == b[i - |a|]; }
    }
  }
}
