/**
  A validation failure message: a template with `{i}` placeholders and the
  arguments they stand for. Rendering fills the placeholders in and refuses
  (the source panics) when the template and the arguments disagree.
 */
module Messages {
  import opened Wrappers
  import opened Decimal
  import opened Template

  datatype Message = Message(text: string, args: seq<string>)

  /** The two panics of rendering: the template is not valid for the arguments, or the arguments changed nothing. */
  datatype RenderFault = FormatInvalid | ArityMismatch

  /** Whether placeholder key `k` names one of `n` arguments: it must be exactly the decimal text of an index below `n`. */
  predicate NamesArgument(k: string, n: nat) {
    ParseIndex(k).Some? && ParseIndex(k).value < n
  }

  /** Every placeholder of `ps` names one of `n` arguments. */
  predicate Bound(ps: seq<Piece>, n: nat) {
    forall k :: k in HoleKeys(ps) ==> NamesArgument(k, n)
  }

  /**
    The table rendering looks keys up in, built by inserting argument `i`
    under the key `i.to_string()` for each index in turn.
   */
  function ArgTable(args: seq<string>): (m: map<string, string>)
    ensures forall i: nat :: i < |args| ==> NatToString(i) in m && m[NatToString(i)] == args[i]
    ensures forall k :: k in m ==> NamesArgument(k, |args|)
    decreases |args|
  {
    if |args| == 0 then map[]
    else
      var n := |args| - 1;
      var front := ArgTable(args[..n]);
      NatToStringInjective();
      ParseNatToString(n);
      front[NatToString(n) := args[n]]
  }

  /** The table's keys are exactly the keys that name an argument. */
  lemma ArgTableKeys(args: seq<string>, k: string)
    ensures k in ArgTable(args) <==> NamesArgument(k, |args|)
  {
    if NamesArgument(k, |args|) {
      NatToStringOfParse(k);
    }
  }

  lemma BoundIffInTable(ps: seq<Piece>, args: seq<string>)
    ensures Bound(ps, |args|) <==> HoleKeys(ps) <= ArgTable(args).Keys
  {
    forall k | k in HoleKeys(ps) {
      ArgTableKeys(args, k);
    }
  }

  /**
    The text rendering is meant to produce, defined piece by piece: a
    literal stands for itself and the placeholder `{i}` for `args[i]`.
   */
  function Fill(ps: seq<Piece>, args: seq<string>): string
    requires Bound(ps, |args|)
    decreases |ps|
  {
    if |ps| == 0 then ""
    else
      HoleKeysCons(ps);
      match ps[0]
      case Literal(c) => [c] + Fill(ps[1..], args)
      case Hole(k) => args[ParseIndex(k).value] + Fill(ps[1..], args)
  }

  /** Substituting from the argument table yields exactly the filled-in text. */
  lemma {:induction false} SubstituteFill(ps: seq<Piece>, args: seq<string>)
    requires Bound(ps, |args|)
    ensures Substitute(ps, ArgTable(args)) == Some(Fill(ps, args))
    decreases |ps|
  {
    if |ps| > 0 {
      HoleKeysCons(ps);
      SubstituteFill(ps[1..], args);
      match ps[0]
      case Literal(c) =>
      case Hole(k) =>
        NatToStringOfParse(k);
    }
  }

  /**
    The text of a message (its `Display`): every `{i}` replaced by
    `args[i]`. Fails with `FormatInvalid` when the template has an unmatched
    brace or a placeholder naming no argument, and with `ArityMismatch` when
    there are arguments yet the output is the template itself.
   */
  function Render(m: Message): (r: Result<string, RenderFault>)
    ensures r == Err(FormatInvalid) <==> Parse(m.text).None? || !Bound(Parse(m.text).value, |m.args|)
    ensures r.Ok? ==> Parse(m.text).Some? && Bound(Parse(m.text).value, |m.args|)
                      && r.value == Fill(Parse(m.text).value, m.args)
    ensures r == Err(ArityMismatch) <==>
              Parse(m.text).Some? && Bound(Parse(m.text).value, |m.args|)
              && |m.args| > 0 && Fill(Parse(m.text).value, m.args) == m.text
  {
    match Parse(m.text)
    case None => Err(FormatInvalid)
    case Some(ps) =>
      BoundIffInTable(ps, m.args);
      assert Bound(ps, |m.args|) ==> Substitute(ps, ArgTable(m.args)) == Some(Fill(ps, m.args)) by {
        if Bound(ps, |m.args|) { SubstituteFill(ps, m.args); }
      }
      match Substitute(ps, ArgTable(m.args))
      case None => Err(FormatInvalid)
      case Some(out) =>
        if |m.args| > 0 && m.text == out then Err(ArityMismatch) else Ok(out)
  }

  /**
    Rendering the text written from well-formed pieces whose placeholders all
    name arguments: the filled-in text, unless there are arguments and that
    text is the template itself.
   */
  lemma RenderFill(ps: seq<Piece>, args: seq<string>)
    requires WellFormed(ps) && Bound(ps, |args|)
    ensures Render(Message(Unparse(ps), args)) ==
              if |args| > 0 && Fill(ps, args) == Unparse(ps) then Err(ArityMismatch) else Ok(Fill(ps, args))
  {
    ParseUnparse(ps);
    SubstituteFill(ps, args);
  }

  predicate BraceFree(s: string) {
    forall i :: 0 <= i < |s| ==> !IsBrace(s[i])
  }

  /** A template without placeholders renders as itself when there are no arguments, and faults when there are some. */
  lemma RenderPlainText(text: string, args: seq<string>)
    requires BraceFree(text)
    ensures Render(Message(text, args)) == if |args| == 0 then Ok(text) else Err(ArityMismatch)
  {
    LiteralsText(text, ArgTable(args));
    ParseUnparse(Literals(text));
  }

  lemma AppendCancel(p: string, a: string, b: string)
    requires p + a == p + b
    ensures a == b
  {
    assert a == (p + a)[|p|..];
    assert b == (p + b)[|p|..];
  }

  /**
    A text followed by `{0}` renders as the text followed by the first
    argument, however many arguments follow it; it faults only when that
    argument is the placeholder `{0}` itself.
   */
  lemma RenderTextThenFirst(prefix: string, args: seq<string>)
    requires BraceFree(prefix)
    requires |args| > 0
    ensures Render(Message(prefix + "{0}", args)) == if args[0] == "{0}" then Err(ArityMismatch) else Ok(prefix + args[0])
  {
    var table := ArgTable(args);
    assert NatToString(0) == "0";
    assert "0" in table && table["0"] == args[0];
    ParseTextThenHole(prefix, "0");
    assert prefix + "{0}" == prefix + "{" + "0" + "}";
    SubstituteTextThenHole(prefix, "0", table);
    if prefix + args[0] == prefix + "{0}" {
      AppendCancel(prefix, args[0], "{0}");
    }
  }

  /** The rendering of a message with one argument: `{0}` becomes "dolor sit amet". */
  lemma RenderExample()
    ensures Render(Message("lorem ipsum {0}", ["dolor sit amet"])) == Ok("lorem ipsum dolor sit amet")
  {
    assert "lorem ipsum {0}" == "lorem ipsum " + "{0}";
    assert "lorem ipsum " + "dolor sit amet" == "lorem ipsum dolor sit amet";
    RenderTextThenFirst("lorem ipsum ", ["dolor sit amet"]);
  }

  /** A placeholder naming a missing argument makes the template invalid. */
  lemma RenderMissingArgument()
    ensures Render(Message("lorem ipsum {0}", [])) == Err(FormatInvalid)
  {
    assert "lorem ipsum {0}" == "lorem ipsum " + "{" + "0" + "}";
    ParseTextThenHole("lorem ipsum ", "0");
    SubstituteTextThenHole("lorem ipsum ", "0", map[]);
  }

  /** A key is matched as text, so `{00}` names no argument even though it reads as zero. */
  lemma RenderPaddedIndex()
    ensures Render(Message("{00}", ["a"])) == Err(FormatInvalid)
  {
    assert "{00}" == "" + "{" + "00" + "}";
    ParseTextThenHole("", "00");
    SubstituteTextThenHole("", "00", map[]);
    assert !Canonical("00");
  }

  /** Surplus arguments go unnoticed: the arity check only sees an unchanged text. */
  lemma RenderIgnoresSurplusArguments()
    ensures Render(Message("Must contain {0}", ["lorem", "ipsum"])) == Ok("Must contain lorem")
  {
    assert "Must contain {0}" == "Must contain " + "{0}";
    assert "Must contain " + "lorem" == "Must contain lorem";
    RenderTextThenFirst("Must contain ", ["lorem", "ipsum"]);
  }

  /** An argument that spells its own placeholder leaves the text unchanged, which the arity check rejects. */
  lemma RenderRejectsEchoedPlaceholder()
    ensures Render(Message("Must contain {0}", ["{0}"])) == Err(ArityMismatch)
  {
    assert "Must contain {0}" == "Must contain " + "{0}";
    RenderTextThenFirst("Must contain ", ["{0}"]);
  }

  /** Rust's `Vec<String>` equality: same length and equal strings position by position. */
  predicate ArgsEq(a: seq<string>, b: seq<string>) {
    |a| == |b| && forall i :: 0 <= i < |a| ==> a[i] == b[i]
  }

  /** `PartialEq` for messages: templates equal, then arguments equal; rendering plays no part. */
  function MessageEq(a: Message, b: Message): (r: bool)
    ensures r <==> a == b
  {
    if a.text != b.text then false
    else ArgsEq(a.args, b.args)
  }

  /** Equality looks at template and arguments only: an unrenderable message still equals its copy. */
  lemma EqualityIgnoresRendering()
    ensures var a := Message("lorem ipsum {0}", []);
      && Render(a).Err?
      && MessageEq(a, a)
      && MessageEq(a, Message("lorem ipsum {0}", []))
      && !MessageEq(a, Message("", ["dolor sit amet"]))
      && !MessageEq(a, Message("lorem ipsum {0}", ["dolor sit amet"]))
  {
    RenderMissingArgument();
  }

  /** Message equality is an equivalence. */
  lemma MessageEqEquivalence(a: Message, b: Message, c: Message)
    ensures MessageEq(a, a)
    ensures MessageEq(a, b) <==> MessageEq(b, a)
    ensures MessageEq(a, b) && MessageEq(b, c) ==> MessageEq(a, c)
  {
  }

  /** The catalog of templates by validator key. */
  const Catalog: seq<(string, string)> := [
    ("max", "Must not have more characters than {0}"),
    ("min", "Must not have less characters than {0}"),
    ("within", "Must be chars length within a range of {0}-{1}"),
    ("contains", "Must contain {0}"),
    ("not_contain", "Must not contain {0}")
  ]

  predicate DistinctKeys(table: seq<(string, string)>) {
    forall i, j :: 0 <= i < j < |table| ==> table[i].0 != table[j].0
  }

  /**
    The template stored under `key` in a table collected into a hash map:
    when a key repeats, the last entry wins.
   */
  function Find(table: seq<(string, string)>, key: string): (r: Option<string>)
    ensures r.None? <==> forall i :: 0 <= i < |table| ==> table[i].0 != key
    ensures r.Some? ==> exists i :: 0 <= i < |table| && table[i] == (key, r.value) &&
                                    forall j :: i < j < |table| ==> table[j].0 != key
    decreases |table|
  {
    if |table| == 0 then None
    else if table[|table| - 1].0 == key then Some(table[|table| - 1].1)
    else
      var r := Find(table[..|table| - 1], key);
      assert forall i :: 0 <= i < |table| - 1 ==> table[..|table| - 1][i] == table[i];
      r
  }

  /** With distinct keys, every entry is found under its own key. */
  lemma FindDistinct(table: seq<(string, string)>, i: nat)
    requires DistinctKeys(table)
    requires i < |table|
    ensures Find(table, table[i].0) == Some(table[i].1)
  {
  }

  lemma CatalogDistinct()
    ensures DistinctKeys(Catalog)
  {
  }

  /** A catalog-style template: brace-free text ending in the one placeholder `{0}`. */
  lemma SingleHoleTemplate(prefix: string)
    requires BraceFree(prefix)
    ensures Parse(prefix + "{0}").Some?
    ensures HoleKeys(Parse(prefix + "{0}").value) == {"0"}
  {
    assert prefix + "{0}" == prefix + "{" + "0" + "}";
    ParseTextThenHole(prefix, "0");
    SubstituteTextThenHole(prefix, "0", map[]);
  }

  /** The pieces of each catalog template: one `{0}`, except "within", which has `{0}` and `{1}`. */
  lemma CatalogPlaceholders(i: nat)
    requires i < |Catalog|
    ensures Parse(Catalog[i].1).Some?
    ensures HoleKeys(Parse(Catalog[i].1).value) == if Catalog[i].0 == "within" then {"0", "1"} else {"0"}
  {
    if i == 0 {
      assert Catalog[0].1 == "Must not have more characters than " + "{0}";
      SingleHoleTemplate("Must not have more characters than ");
    } else if i == 1 {
      assert Catalog[1].1 == "Must not have less characters than " + "{0}";
      SingleHoleTemplate("Must not have less characters than ");
    } else if i == 2 {
      WithinPlaceholders();
    } else if i == 3 {
      assert Catalog[3].1 == "Must contain " + "{0}";
      SingleHoleTemplate("Must contain ");
    } else {
      assert Catalog[4].1 == "Must not contain " + "{0}";
      SingleHoleTemplate("Must not contain ");
    }
  }

  lemma WithinPlaceholders()
    ensures Parse(Catalog[2].1).Some?
    ensures HoleKeys(Parse(Catalog[2].1).value) == {"0", "1"}
  {
    assert Catalog[2].1 == "Must be chars length within a range of " + "{0}-{1}";
    RangeTemplate("Must be chars length within a range of ");
  }

  /** The pieces of brace-free text followed by `{0}-{1}`. */
  function RangePieces(prefix: string): seq<Piece>
    requires BraceFree(prefix)
  {
    Literals(prefix) + [Hole("0"), Literal('-'), Hole("1")]
  }

  /** Those pieces are well formed, are written as the template, and have the placeholders `0` and `1`. */
  lemma RangePiecesText(prefix: string)
    requires BraceFree(prefix)
    ensures WellFormed(RangePieces(prefix))
    ensures Unparse(RangePieces(prefix)) == prefix + "{0}-{1}"
    ensures HoleKeys(RangePieces(prefix)) == {"0", "1"}
  {
    var tail := [Hole("0"), Literal('-'), Hole("1")];
    var ps := RangePieces(prefix);
    LiteralsText(prefix, map[]);
    assert WellFormed(tail);
    WellFormedAppend(Literals(prefix), tail);
    assert Unparse(tail) == "{0}-{1}" by {
      assert tail[1..] == [Literal('-'), Hole("1")];
      assert tail[1..][1..] == [Hole("1")];
      assert [Hole("1")][1..] == [];
    }
    UnparseAppend(Literals(prefix), tail);
    assert ps[|prefix|] == Hole("0") && ps[|prefix| + 2] == Hole("1");
    forall k | k in HoleKeys(ps) ensures k == "0" || k == "1" {
      var j :| 0 <= j < |ps| && ps[j].Hole? && ps[j].key == k;
      assert ps[j] == tail[j - |prefix|];
    }
  }

  /** Brace-free text followed by `{0}-{1}`. */
  lemma RangeTemplate(prefix: string)
    requires BraceFree(prefix)
    ensures Parse(prefix + "{0}-{1}").Some?
    ensures HoleKeys(Parse(prefix + "{0}-{1}").value) == {"0", "1"}
  {
    RangePiecesText(prefix);
    ParseUnparse(RangePieces(prefix));
  }

  /** The placeholders `0` and `1` name arguments when there are at least two. */
  lemma RangeBound(prefix: string, n: nat)
    requires BraceFree(prefix)
    requires n >= 2
    ensures Bound(RangePieces(prefix), n)
  {
    RangePiecesText(prefix);
    assert ParseIndex("0") == Some(0) by { ParseNatToString(0); }
    assert ParseIndex("1") == Some(1) by { ParseNatToString(1); }
  }

  lemma RangeTailSubstitute(args: seq<string>)
    requires |args| >= 2
    ensures Substitute([Hole("0"), Literal('-'), Hole("1")], ArgTable(args)) == Some(args[0] + "-" + args[1])
  {
    var table := ArgTable(args);
    assert NatToString(0) == "0" && NatToString(1) == "1";
    assert "0" in table && table["0"] == args[0];
    assert "1" in table && table["1"] == args[1];
    TailSteps(table, args[0], args[1]);
  }

  lemma TailSteps(table: map<string, string>, a: string, b: string)
    requires "0" in table && table["0"] == a
    requires "1" in table && table["1"] == b
    ensures Substitute([Hole("0"), Literal('-'), Hole("1")], table) == Some(a + "-" + b)
  {
    var t1 := [Hole("1")];
    var t2 := [Literal('-'), Hole("1")];
    var t3 := [Hole("0"), Literal('-'), Hole("1")];
    assert Substitute(t1, table) == Some(b) by {
      assert t1[1..] == [];
      assert b + "" == b;
    }
    assert Substitute(t2, table) == Some("-" + b) by {
      assert t2[1..] == t1;
    }
    assert t3[1..] == t2;
    assert a + ("-" + b) == a + "-" + b;
  }

  /** With two arguments or more, the range pieces fill in as the prefix, `args[0]`, a dash and `args[1]`. */
  lemma RangeFill(prefix: string, args: seq<string>)
    requires BraceFree(prefix)
    requires |args| >= 2
    ensures Bound(RangePieces(prefix), |args|)
    ensures Fill(RangePieces(prefix), args) == prefix + (args[0] + "-" + args[1])
  {
    var tail := [Hole("0"), Literal('-'), Hole("1")];
    var table := ArgTable(args);
    RangeBound(prefix, |args|);
    RangeTailSubstitute(args);
    LiteralsText(prefix, table);
    SubstituteAppend(Literals(prefix), tail, table);
    SubstituteFill(RangePieces(prefix), args);
  }

  /**
    Brace-free text followed by `{0}-{1}` renders with both placeholders
    filled in, and faults only when that leaves the template unchanged.
   */
  lemma RenderRange(prefix: string, args: seq<string>)
    requires BraceFree(prefix)
    requires |args| >= 2
    ensures var out := prefix + (args[0] + "-" + args[1]);
      Render(Message(prefix + "{0}-{1}", args)) == if out == prefix + "{0}-{1}" then Err(ArityMismatch) else Ok(out)
  {
    RangePiecesText(prefix);
    RangeFill(prefix, args);
    RenderFill(RangePieces(prefix), args);
  }

  /** The "within" template with a range of 3 to 8 renders as "... 3-8". */
  lemma RenderWithinExample()
    ensures Render(Message(Catalog[2].1, ["3", "8"])) == Ok("Must be chars length within a range of 3-8")
  {
    var prefix := "Must be chars length within a range of ";
    assert Catalog[2].1 == prefix + "{0}-{1}";
    assert "3" + "-" + "8" == "3-8";
    assert prefix + "3-8" == "Must be chars length within a range of 3-8";
    RenderRange(prefix, ["3", "8"]);
  }
}
