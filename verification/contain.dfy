/** Validators on substrings: required, optional by pattern, forbidden, and optional by input. */
module Contain {
  import opened Wrappers
  import opened Messages
  import opened Validation

  /** `part` occurs in `s` starting at position `i`. */
  predicate OccursAt(part: string, s: string, i: nat) {
    i + |part| <= |s| && s[i..i + |part|] == part
  }

  /** `part` occurs in `s` at some position. */
  ghost predicate IsSubstring(part: string, s: string) {
    exists i: nat :: OccursAt(part, s, i)
  }

  /** `str::contains`: tries `part` at each position of `s` from the left. */
  function StrContains(s: string, part: string): (r: bool)
    ensures r <==> IsSubstring(part, s)
    decreases |s|
  {
    if part <= s then
      assert OccursAt(part, s, 0);
      true
    else if |s| == 0 then false
    else
      SubstringStep(part, s);
      StrContains(s[1..], part)
  }

  /** When `part` is not a prefix of non-empty `s`, it occurs in `s` exactly when it occurs in the tail of `s`. */
  lemma SubstringStep(part: string, s: string)
    requires |s| > 0 && !(part <= s)
    ensures IsSubstring(part, s) <==> IsSubstring(part, s[1..])
  {
    if IsSubstring(part, s[1..]) {
      var i: nat :| OccursAt(part, s[1..], i);
      assert s[i + 1..i + 1 + |part|] == part;
      assert OccursAt(part, s, i + 1);
    }
    if IsSubstring(part, s) {
      var i: nat :| OccursAt(part, s, i);
      if i > 0 {
        assert s[1..][i - 1..i - 1 + |part|] == part;
        assert OccursAt(part, s[1..], i - 1);
      }
    }
  }

  /** The message of a `contains` failure. */
  const ContainsTemplate := "Must contain {0}"

  /** The message of a `not_contain_if_given` failure. */
  const NotContainTemplate := "Must not contain {0}"

  /** `contains(part)` applied to `s`: fails exactly when `part` does not occur in `s`. */
  function Contains(part: string, s: string): (r: ValidationResult)
    ensures r.Ok? <==> IsSubstring(part, s)
    ensures r.Err? ==> r.error == Message(ContainsTemplate, [part])
  {
    assert Catalog[3] == ("contains", ContainsTemplate);
    Handle(!StrContains(s, part), "contains", [part])
  }

  /**
    `contains_if_given(part)` applied to `s`: an absent or empty pattern
    accepts everything; otherwise it behaves like `contains`.
   */
  function ContainsIfGiven(part: Option<string>, s: string): (r: ValidationResult)
    ensures part.None? || part == Some("") ==> r == Ok(())
    ensures part.Some? && part.value != "" ==> (r.Ok? <==> IsSubstring(part.value, s))
    ensures r.Err? ==> part.Some? && r.error == Message(ContainsTemplate, [part.value])
  {
    var p := part.GetOr("");
    assert Catalog[3] == ("contains", ContainsTemplate);
    Handle(p != "" && !StrContains(s, p), "contains", [p])
  }

  /**
    `not_contain_if_given(part)` applied to `s`: an absent or empty pattern
    accepts everything; otherwise it fails exactly when the pattern occurs.
   */
  function NotContainIfGiven(part: Option<string>, s: string): (r: ValidationResult)
    ensures part.None? || part == Some("") ==> r == Ok(())
    ensures part.Some? && part.value != "" ==> (r.Err? <==> IsSubstring(part.value, s))
    ensures r.Err? ==> part.Some? && r.error == Message(NotContainTemplate, [part.value])
  {
    var p := part.GetOr("");
    assert Catalog[4] == ("not_contain", NotContainTemplate);
    Handle(p != "" && StrContains(s, p), "not_contain", [p])
  }

  /** `contains_if_present(part)` applied to an optional input: absent input passes, present input is checked by `contains`. */
  function ContainsIfPresent(part: string, s: Option<string>): (r: ValidationResult)
    ensures r.Ok? <==> s.None? || IsSubstring(part, s.value)
    ensures s.Some? ==> r == Contains(part, s.value)
  {
    match s
    case None => Ok(())
    case Some(v) => Contains(part, v)
  }

  /** A failure of `contains` renders as "Must contain " and the pattern, unless the pattern is the placeholder text itself. */
  lemma ContainsFailureRenders(part: string)
    ensures Render(Message(ContainsTemplate, [part])) ==
      if part == "{0}" then Err(ArityMismatch) else Ok("Must contain " + part)
  {
    assert ContainsTemplate == "Must contain " + "{0}";
    RenderTextThenFirst("Must contain ", [part]);
  }

  /** A failure of `not_contain_if_given` renders as "Must not contain " and the pattern, with the same exception. */
  lemma NotContainFailureRenders(part: string)
    ensures Render(Message(NotContainTemplate, [part])) ==
      if part == "{0}" then Err(ArityMismatch) else Ok("Must not contain " + part)
  {
    assert NotContainTemplate == "Must not contain " + "{0}";
    RenderTextThenFirst("Must not contain ", [part]);
  }

  /** The unit tests' cases for `contains`. */
  lemma ContainsExamples()
    ensures Contains("lorem", "lorem ipsum").Ok?
    ensures Contains("dolor sit amet", "lorem ipsum") == Err(Message(ContainsTemplate, ["dolor sit amet"]))
  {
    assert OccursAt("lorem", "lorem ipsum", 0);
  }

  /** The unit tests' cases for `contains_if_given`. */
  lemma ContainsIfGivenExamples()
    ensures ContainsIfGiven(None, "lorem ipsum").Ok?
    ensures ContainsIfGiven(Some(""), "lorem ipsum").Ok?
    ensures ContainsIfGiven(Some("lorem"), "lorem ipsum").Ok?
    ensures ContainsIfGiven(Some("dolor sit amet"), "lorem ipsum") == Err(Message(ContainsTemplate, ["dolor sit amet"]))
  {
    assert OccursAt("lorem", "lorem ipsum", 0);
  }

  /** The unit test where `not_contain_if_given` accepts: no pattern, the empty pattern, a pattern that does not occur. */
  lemma NotContainIfGivenOk()
    ensures NotContainIfGiven(None, "lorem ipsum").Ok?
    ensures NotContainIfGiven(Some(""), "lorem ipsum").Ok?
    ensures NotContainIfGiven(Some("dolor sit amet"), "lorem ipsum").Ok?
  {
  }

  /** The unit test where `not_contain_if_given` rejects a pattern that occurs. */
  lemma NotContainIfGivenErr()
    ensures NotContainIfGiven(Some("ipsum"), "lorem ipsum").Err?
  {
    var s := "lorem ipsum";
    assert s[6..11] == "ipsum";
    assert OccursAt("ipsum", s, 6);
  }

  /** The unit test's failing `not_contain_if_given` call carries the "not_contain" message with the pattern. */
  lemma NotContainIfGivenMessage()
    ensures NotContainIfGiven(Some("dolor"), "dolor sit amet") == Err(Message(NotContainTemplate, ["dolor"]))
  {
    var s := "dolor sit amet";
    assert s[0..5] == "dolor";
    assert OccursAt("dolor", s, 0);
  }

  /** The unit tests' cases for `contains_if_present`. */
  lemma ContainsIfPresentExamples()
    ensures ContainsIfPresent("dolor sit amet", Some("lorem ipsum dolor sit amet")).Ok?
    ensures ContainsIfPresent("dolor sit amet", None).Ok?
    ensures ContainsIfPresent("dolor sit amet", Some("lorem ipsum")) == Err(Message(ContainsTemplate, ["dolor sit amet"]))
  {
    assert OccursAt("dolor sit amet", "lorem ipsum dolor sit amet", 12);
  }

  /** The rendered `contains` failure the unit tests expect. */
  lemma ContainsRenderExample()
    ensures Render(Message(ContainsTemplate, ["dolor sit amet"])) == Ok("Must contain dolor sit amet")
  {
    ContainsExampleText();
    ContainsFailureRenders("dolor sit amet");
  }

  lemma ContainsExampleText()
    ensures "Must contain " + "dolor sit amet" == "Must contain dolor sit amet"
  {
    var a, b, c := "Must contain ", "dolor sit amet", "Must contain dolor sit amet";
    forall i | 0 <= i < |c| ensures (a + b)[i] == c[i] {
      if i < |a| { assert (a + b)[i] == a[i]; } else { assert (a + b)[i] == b[i - |a|]; }
    }
  }

  /** The rendered `not_contain_if_given` failure the unit tests expect. */
  lemma NotContainRenderExample()
    ensures Render(Message(NotContainTemplate, ["dolor"])) == Ok("Must not contain dolor")
  {
    NotContainExampleText();
    NotContainFailureRenders("dolor");
  }

  lemma NotContainExampleText()
    ensures "Must not contain " + "dolor" == "Must not contain dolor"
  {
    var a, b, c := "Must not contain ", "dolor", "Must not contain dolor";
    forall i | 0 <= i < |c| ensures (a + b)[i] == c[i] {
      if i < |a| { assert (a + b)[i] == a[i]; } else { assert (a + b)[i] == b[i - |a|]; }
    }
  }
}
