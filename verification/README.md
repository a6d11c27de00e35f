# adequate — a Dafny model of field validation with collected feedback

`adequate` is a small Rust crate that validates named fields. Each field has a
value and an ordered list of validators. Every validator runs, and each
failure is recorded as a `Message`: a template with `{i}` placeholders and its
arguments. A field's failures are grouped into a `Feedback`. The negative
feedbacks of a whole run become an `Error`. A `Message` can render itself. It
panics when its template and its arguments disagree.

This project models that crate as immutable datatypes and pure functions, and
proves what the code promises about them.

- `Wrappers` (wrappers.dfy): Rust's `Option` and `Result`.
- `Decimal` (decimal.dfy): `usize::to_string`, and reading a placeholder key
  back as an index. Printing and parsing are proved to be inverse in both
  directions.
- `Seqs` (seqs.dfy): the order-preserving `filter` step, described by the
  ascending positions of the kept elements.
- `Template` (template.dfy): the part of the `strfmt` template language that
  rendering uses, which is literal text plus `{key}` placeholders. Parsing is
  proved to invert writing the template out. Substitution is total exactly
  when every placeholder key is in the argument table.
- `Messages` (messages.dfy, for src/message.rs): `Message`, `Render` with its
  two panics as `RenderFault` values, structural equality, and the
  five-entry catalog with its lookup.
- `Feedbacks` (feedbacks.dfy, for src/feedback.rs): `Feedback`,
  `IsNegative`, and equality.
- `Errors` (errors.dfy, for src/error.rs): `Error` and its positional
  equality exactly as written. The comparison can fault, so it returns a
  `Comparison`: either `Decided(equal)` or `IndexFault(index)`.
- `Validation` (validation.dfy, for src/validation/mod.rs): `ValidationResult`
  and `Handle`.
- `Contain` (contain.dfy, for src/validation/contain.rs): `contains`,
  `contains_if_given`, `not_contain_if_given` and `contains_if_present`.
  Each takes the pattern and the input as two arguments.
- `Length` (length.dfy, for src/validation/length.rs): `max`.
- `Aggregate` (aggregate.dfy, for the `validate!` macro in src/lib.rs): a run
  over a sequence of `Field(name, value, validators)` entries. Each validator is
  a Dafny function value.

In these places the model follows the code as written:

- Error equality indexes `other` without a length check. `ErrorEq` reports an
  `IndexFault` when `other` is a proper prefix of `self`. It answers "equal"
  when `self` is a prefix of `other`, so the relation is not symmetric. A
  length mismatch is not treated as "not equal".
- The arity check in rendering only compares the output with the template.
  Surplus arguments go unnoticed (`RenderIgnoresSurplusArguments`). An argument
  that spells its own placeholder is rejected although the counts match
  (`RenderRejectsEchoedPlaceholder`). For the same reason, `contains("{0}")`
  builds a failure message that cannot render (`ContainsFailureRenders`).
- When a catalog key is missing, the template is the empty string.
- The catalog's `"max"` template reads "Must not have more characters than
  {0}". The `max` validator does not use the catalog. It writes its own text,
  "Must not contain more characters than {0}", and both are modelled as
  written.
- Placeholder keys are matched as text against `i.to_string()`. So `{00}` names
  no argument (`RenderPaddedIndex`).

## Model

| member | source | states |
|---|---|---|
| `Decimal.NatToString` | src/message.rs:18 | `n.to_string()` is canonical decimal text: non-empty digits with no leading zero, a single digit exactly when `n < 10` |
| `Decimal.ParseNatToString` | src/message.rs:17-18 | reading the key `i.to_string()` back gives index `i` |
| `Decimal.NatToStringOfParse` | src/message.rs:17-18 | a canonical digit string is exactly the `to_string` of the number it denotes, so each index has exactly one key |
| `Template.Parse` | src/message.rs:21 | a successful parse yields well-formed pieces that write back to the same template text |
| `Template.ParseUnparse` | src/message.rs:21 | parsing the text written from well-formed pieces recovers those pieces |
| `Template.Substitute` | src/message.rs:21 | substitution succeeds exactly when every placeholder key is a key of the argument table |
| `Template.SubstituteAppend` | src/message.rs:21 | substitution works piece by piece: the output for a concatenation is the concatenation of the outputs |
| `Messages.ArgTable` | src/message.rs:16-19 | the table maps the key `i.to_string()` to `args[i]` for every index, and holds no other kind of key |
| `Messages.ArgTableKeys` | src/message.rs:16-21 | a key is in the table exactly when it is the canonical decimal text of an index below the argument count |
| `Messages.Render` | src/message.rs:14-26 | rendering fails with `FormatInvalid` exactly when the template has an unmatched brace or a placeholder that names no argument; a successful render returns the template with each `{i}` replaced by `args[i]` (the reference `Fill`); it fails with `ArityMismatch` exactly when the template is valid, there are arguments, and that filled-in text equals the template |
| `Messages.SubstituteFill` | src/message.rs:16-21 | when every placeholder names an argument, substituting from the table of `i.to_string()` keys gives exactly the text with each `{i}` replaced by `args[i]` |
| `Messages.RenderFill` | src/message.rs:14-26 | for any template written from well-formed pieces whose placeholders all name arguments, rendering gives the filled-in text, or `ArityMismatch` when there are arguments and that text is the template itself |
| `Messages.RenderPlainText` | src/message.rs:21-25 | a template without braces renders as itself when there are no arguments, and fails with `ArityMismatch` when there are some |
| `Messages.RenderTextThenFirst` | src/message.rs:17-25 | text followed by `{0}` renders as the text plus `args[0]`, whatever arguments follow; it fails only when `args[0]` is `{0}` |
| `Messages.RenderExample` | src/message.rs:53-60 | `"lorem ipsum {0}"` with `["dolor sit amet"]` renders as `"lorem ipsum dolor sit amet"` |
| `Messages.RenderMissingArgument` | src/message.rs:21 | a placeholder with no matching argument makes rendering fail with `FormatInvalid` |
| `Messages.RenderPaddedIndex` | src/message.rs:17-21 | `{00}` names no argument even when one argument is given |
| `Messages.RenderIgnoresSurplusArguments` | src/message.rs:22-24 | a second, unused argument passes the arity check |
| `Messages.RenderRejectsEchoedPlaceholder` | src/message.rs:22-24 | the argument `"{0}"` for the template `"Must contain {0}"` makes the arity check fail |
| `Messages.MessageEq` | src/message.rs:29-36 | equality of texts and then of argument lists coincides with structural equality of messages |
| `Messages.RenderRange` | src/message.rs:14-26 | text followed by `{0}-{1}`, with at least two arguments, renders as the text, `args[0]`, a dash and `args[1]`, and fails only when that equals the template |
| `Messages.RenderWithinExample` | src/message.rs:43 | the `"within"` template with `["3", "8"]` renders as `"Must be chars length within a range of 3-8"` |
| `Messages.EqualityIgnoresRendering` | src/message.rs:62-87 | a message that cannot render equals itself and its copy; a different text or different arguments make it unequal |
| `Messages.MessageEqEquivalence` | src/message.rs:29-36 | message equality is reflexive, symmetric and transitive |
| `Messages.Find` | src/validation/mod.rs:13-15 | the lookup finds nothing exactly when no entry has the key; otherwise it returns the value of the last entry with that key |
| `Messages.FindDistinct` | src/validation/mod.rs:13-15 | when keys are distinct, every entry is found under its own key |
| `Messages.CatalogDistinct` | src/message.rs:40-46 | the catalog's five keys are distinct |
| `Messages.CatalogPlaceholders` | src/message.rs:40-46 | every catalog template parses; its placeholder set is `{0}`, except `"within"`, whose set is `{0, 1}` |
| `Feedbacks.IsNegative` | src/feedback.rs:12-14 | feedback is negative exactly when it differs from the feedback of the same field with no messages |
| `Feedbacks.FeedbackEq` | src/feedback.rs:17-24 | equality of field names and then of message lists in order coincides with structural equality of feedback |
| `Feedbacks.IsNegativeExamples` | src/feedback.rs:31-47 | feedback with no messages is not negative; feedback with one message is |
| `Feedbacks.FeedbackEqExamples` | src/feedback.rs:49-86 | feedback equals itself and its copy; a different field name or a different message makes it unequal |
| `Feedbacks.FeedbackEqEquivalence` | src/feedback.rs:17-24 | feedback equality is reflexive, symmetric and transitive |
| `Errors.CompareFrom` | src/error.rs:9-15 | from index `i` on, with the entries before `i` equal, the loop answers "equal" exactly when `self` is a prefix of `other`; it faults at the index equal to the length of `other` exactly when `other` is a proper prefix of `self` |
| `Errors.ErrorEq` | src/error.rs:7-16 | equality answers true exactly when `self` is a prefix of `other`; it faults, at the index equal to the length of `other`, exactly when `other` is a proper prefix of `self` |
| `Errors.ErrorEqNoFault` | src/error.rs:9-11 | when `other` is at least as long as `self`, the comparison does not fault |
| `Errors.ErrorEqMismatch` | src/error.rs:11-13 | a difference at a position both errors have makes the answer false |
| `Errors.ErrorEqSameLength` | src/error.rs:9-16 | for errors of equal length the answer is structural equality |
| `Errors.EmptyErrorEqualsAll` | src/error.rs:9-15 | an empty error equals every error |
| `Errors.ErrorEqAsymmetric` | src/error.rs:9-16 | a one-entry error equals its two-entry extension, and the reverse comparison faults at index 1 |
| `Validation.Handle` | src/validation/mod.rs:11-21 | no error flag gives `Ok`; otherwise the failure carries the given arguments and the catalog template for the key, or the empty text for an unknown key |
| `Contain.StrContains` | src/validation/contain.rs:6 | the substring search is true exactly when the pattern occurs at some position of the input |
| `Contain.Contains` | src/validation/contain.rs:4-8 | passes exactly when the pattern occurs in the input; a failure is `"Must contain {0}"` with the pattern as its only argument |
| `Contain.ContainsIfGiven` | src/validation/contain.rs:11-20 | an absent or empty pattern passes everything; otherwise it passes exactly when the pattern occurs; a failure carries the `"contains"` template and the pattern |
| `Contain.NotContainIfGiven` | src/validation/contain.rs:24-33 | an absent or empty pattern passes everything; otherwise it fails exactly when the pattern occurs; a failure carries the `"not_contain"` template and the pattern |
| `Contain.ContainsIfPresent` | src/validation/contain.rs:37-42 | absent input passes; present input gives the same result as `contains` |
| `Contain.ContainsFailureRenders` | src/validation/contain.rs:6 | a `contains` failure renders as `"Must contain "` plus the pattern, except for the pattern `"{0}"`, which fails the arity check |
| `Contain.NotContainFailureRenders` | src/validation/contain.rs:28-30 | a `not_contain_if_given` failure renders as `"Must not contain "` plus the pattern, with the same exception |
| `Contain.ContainsExamples` | src/validation/contain.rs:49-61 | `contains("lorem")` accepts `"lorem ipsum"`; `contains("dolor sit amet")` rejects it |
| `Contain.ContainsIfGivenExamples` | src/validation/contain.rs:73-106 | the unit tests' accept and reject cases for `contains_if_given` |
| `Contain.NotContainIfGivenOk` | src/validation/contain.rs:109-124 | no pattern, the empty pattern, and a pattern absent from `"lorem ipsum"` all pass |
| `Contain.NotContainIfGivenErr` | src/validation/contain.rs:126-133 | the pattern `"ipsum"` in `"lorem ipsum"` fails |
| `Contain.NotContainIfGivenMessage` | src/validation/contain.rs:135-143 | the pattern `"dolor"` in `"dolor sit amet"` fails with the `"not_contain"` template and the argument `"dolor"` |
| `Contain.ContainsIfPresentExamples` | src/validation/contain.rs:145-163 | the unit tests' accept and reject cases for `contains_if_present` |
| `Contain.ContainsRenderExample` | src/validation/contain.rs:63-71 | the rendered failure reads `"Must contain dolor sit amet"` |
| `Contain.NotContainRenderExample` | src/validation/contain.rs:135-143 | the rendered failure reads `"Must not contain dolor"` |
| `Length.Max` | src/validation/length.rs:5-16 | passes exactly when the input has at most `size` characters, so length `size` itself passes; a failure is the `max` text with the decimal `size` as its only argument |
| `Length.MaxFailureRenders` | src/validation/length.rs:8-11 | a `max` failure always renders, as `"Must not contain more characters than "` plus the decimal size |
| `Length.MaxExamples` | src/validation/length.rs:22-44 | `"test"` passes `max(9)`, fails `max(3)`, and the failure renders as `"Must not contain more characters than 3"` |
| `Aggregate.FieldMessages` | src/lib.rs:50-54 | a field's messages are the failure messages of its failing validators, one each, in declaration order |
| `Aggregate.MessageCount` | src/lib.rs:50-54 | the number of a field's messages equals the number of its failing validators |
| `Aggregate.NoShortCircuit` | src/lib.rs:50-54 | every failing validator's message appears, also after earlier failures |
| `Aggregate.FieldNegativeIff` | src/lib.rs:47-59 | a field's feedback is negative exactly when one of its validators fails |
| `Aggregate.Validate` | src/lib.rs:45-67 | an error is non-empty, holds only negative feedback, and holds one feedback per negative field, in field declaration order |
| `Aggregate.ValidateOkIff` | src/lib.rs:59-65 | the run succeeds exactly when every validator of every field passes |
| `Aggregate.FieldReportedIff` | src/lib.rs:57-62 | a field is reported exactly when one of its validators fails |
| `Aggregate.SingleField` | src/lib.rs:47-65 | a run over one field fails with exactly that field's feedback when the feedback is negative, and succeeds otherwise |
| `Aggregate.SingleValidator` | src/lib.rs:50-54 | a field with one validator carries that validator's message exactly when it fails |
| `Aggregate.FailureAndSuccessExamples` | src/lib.rs:74-103 | an always-failing validator makes the run fail with its one message; an always-passing validator lets the run succeed |
| `Aggregate.TwoFailuresKept` | src/lib.rs:50-54 | two always-failing validators on one field give two messages |
| `Aggregate.DocumentationExampleFails` | src/lib.rs:30-35 | a 26-character text under `max(9)` fails with exactly one `"name"` feedback carrying the `max` message with the argument `"9"` |
| `Aggregate.DocumentationExampleMessage` | src/validation/length.rs:8-11 | the message of that failure renders as `"Must not contain more characters than 9"` |
| `Aggregate.DocumentationExamplePasses` | src/lib.rs:37-41 | the same text passes `max(64)` on `"name"` and `max(255)` on `"description"` |
| `Seqs.Positions` | src/lib.rs:57-60 | the kept positions are ascending and in range, and a position is kept exactly when its element satisfies the predicate |
| `Seqs.Filter` | src/lib.rs:57-60 | the filtered sequence is the elements at the kept positions, in order |
| `Seqs.FilterEmptyIff` | src/lib.rs:59-61 | nothing is kept exactly when no element satisfies the predicate |

## Left out

- The rest of `strfmt`'s template language: the `{{` and `}}` escapes, named
  keys and format specifications. `strfmt` is an external library. Here, a
  brace that does not open a `{key}` placeholder closed by the next `}` makes
  the template invalid. A key is the text up to that `}`.
- The `lazy_static!` initialisation of the catalog and the `HashMap` built on
  every `handle` call. The catalog is a constant sequence of pairs, and the
  lookup is `Find`. `Find` keeps the last entry for a repeated key, as
  collecting into a hash map does.
- The `validate!` macro syntax and the boxed `Fn` closures. A call is a
  sequence of `Field` values, and validators are Dafny function values. In
  one call, all fields share one value type. The macro lets each field have its
  own type.
- `Contain.Contains`, `Contain.ContainsIfGiven`, `Contain.NotContainIfGiven`, `Contain.ContainsIfPresent`, `Length.Max`: each
  takes its configuration and its input together. The source returns a
  closure over the configuration.
- `Length.Max`: counts characters, while `String::len` counts UTF-8 bytes. The
  two agree on ASCII text. `size` is an unbounded natural number, not a
  64-bit `usize`.
- The three struct definitions at the top of src/lib.rs duplicate the ones in
  message.rs, feedback.rs and error.rs. The model has one `Message`, one
  `Feedback` and one `Error`. It also does not distinguish `String` from
  `&'static str`.
- The `dbg!` call in src/error.rs only prints, so it is not modelled.
- `Display` writes into a `Formatter`. Only the rendered string is modelled,
  and the two panics become `RenderFault` values.
- src/validator/length.rs is a stale copy of `max` in a module that the crate
  never declares, so it is not part of this model.
- src/lib.rs does not declare the `message`, `feedback` and `error` modules,
  and src/validation/mod.rs does not define the `Validator` and
  `OptionalValidator` aliases. The model reads them as validators over
  `&str` and over `Option<&str>`.
- The catalog's `"min"` and `"within"` templates have no validator in the
  crate. Only their templates are modelled.
