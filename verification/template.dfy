/**
  The part of the `strfmt` template language that message rendering relies
  on: literal text and `{key}` placeholders, each key looked up in a table
  of arguments. A brace that does not open a closed placeholder makes the
  template invalid.
 */
module Template {
  import opened Wrappers

  datatype Piece = Literal(c: char) | Hole(key: string)

  predicate IsBrace(c: char) {
    c == '{' || c == '}'
  }

  /** A piece that template text can produce: a literal is not a brace, a key holds no closing brace. */
  predicate PieceOk(p: Piece) {
    match p
    case Literal(c) => !IsBrace(c)
    case Hole(k) => '}' !in k
  }

  /** Pieces that some template text produces. */
  predicate WellFormed(ps: seq<Piece>) {
    forall i :: 0 <= i < |ps| ==> PieceOk(ps[i])
  }

  /** The template text a piece sequence is written as. */
  function Unparse(ps: seq<Piece>): string
    decreases |ps|
  {
    if |ps| == 0 then ""
    else
      match ps[0]
      case Literal(c) => [c] + Unparse(ps[1..])
      case Hole(k) => "{" + k + "}" + Unparse(ps[1..])
  }

  /** The position of the first `c` in `s`, if any. */
  function IndexOf(s: string, c: char): (r: Option<nat>)
    ensures r.Some? ==> r.value < |s| && s[r.value] == c && c !in s[..r.value]
    ensures r.None? ==> c !in s
    decreases |s|
  {
    if |s| == 0 then None
    else if s[0] == c then Some(0)
    else
      match IndexOf(s[1..], c)
      case None => None
      case Some(j) =>
        assert s[..j + 1] == [s[0]] + s[1..][..j];
        Some(j + 1)
  }

  /** Splits a template into pieces; `None` when a brace is unmatched. */
  function Parse(t: string): (r: Option<seq<Piece>>)
    ensures r.Some? ==> WellFormed(r.value) && Unparse(r.value) == t
    decreases |t|
  {
    if |t| == 0 then Some([])
    else if t[0] == '{' then
      match IndexOf(t[1..], '}')
      case None => None
      case Some(j) =>
        var key := t[1..j + 1];
        match Parse(t[j + 2..])
        case None => None
        case Some(rest) =>
          assert t == "{" + key + "}" + t[j + 2..];
          Some([Hole(key)] + rest)
    else if t[0] == '}' then None
    else
      match Parse(t[1..])
      case None => None
      case Some(rest) =>
        assert t == [t[0]] + t[1..];
        Some([Literal(t[0])] + rest)
  }

  /** Parsing recovers the pieces a template was written from. */
  lemma {:induction false} ParseUnparse(ps: seq<Piece>)
    requires WellFormed(ps)
    ensures Parse(Unparse(ps)) == Some(ps)
    decreases |ps|
  {
    if |ps| > 0 {
      assert WellFormed(ps[1..]) by {
        forall i | 0 <= i < |ps[1..]| ensures ps[1..][i] == ps[i + 1] { }
      }
      ParseUnparse(ps[1..]);
      var tail := Unparse(ps[1..]);
      assert ps == [ps[0]] + ps[1..];
      assert PieceOk(ps[0]);
      match ps[0]
      case Literal(c) =>
        var t := [c] + tail;
        assert t[1..] == tail;
      case Hole(k) =>
        ParseHole(k, tail);
    }
  }

  /** A placeholder whose key holds no closing brace is split off the front of the text it starts. */
  lemma ParseHole(k: string, tail: string)
    requires '}' !in k
    ensures Parse("{" + k + "}" + tail) == match Parse(tail) case None => None case Some(rest) => Some([Hole(k)] + rest)
  {
    var t := "{" + k + "}" + tail;
    assert t[1..] == k + "}" + tail;
    assert (k + "}" + tail)[|k|] == '}';
    assert (k + "}" + tail)[..|k|] == k;
    assert IndexOf(t[1..], '}') == Some(|k|);
    assert t[1..|k| + 1] == k;
    assert t[|k| + 2..] == tail;
  }

  /** The keys of the placeholders. */
  function HoleKeys(ps: seq<Piece>): set<string> {
    set i | 0 <= i < |ps| && ps[i].Hole? :: ps[i].key
  }

  lemma HoleKeysCons(ps: seq<Piece>)
    requires |ps| > 0
    ensures HoleKeys(ps) == (if ps[0].Hole? then {ps[0].key} else {}) + HoleKeys(ps[1..])
  {
    forall k | k in HoleKeys(ps)
      ensures k in (if ps[0].Hole? then {ps[0].key} else {}) + HoleKeys(ps[1..])
    {
      var i :| 0 <= i < |ps| && ps[i].Hole? && ps[i].key == k;
      if i > 0 { assert ps[1..][i - 1] == ps[i]; }
    }
    forall k | k in HoleKeys(ps[1..]) ensures k in HoleKeys(ps) {
      var i :| 0 <= i < |ps[1..]| && ps[1..][i].Hole? && ps[1..][i].key == k;
      assert ps[i + 1] == ps[1..][i];
    }
  }

  /**
    Replaces every placeholder by its entry in `table`; `None` when a
    placeholder's key is not in the table.
   */
  function Substitute(ps: seq<Piece>, table: map<string, string>): (r: Option<string>)
    ensures r.Some? <==> HoleKeys(ps) <= table.Keys
    decreases |ps|
  {
    if |ps| == 0 then Some("")
    else
      HoleKeysCons(ps);
      var rest := Substitute(ps[1..], table);
      match ps[0]
      case Literal(c) => if rest.Some? then Some([c] + rest.value) else None
      case Hole(k) => if k in table && rest.Some? then Some(table[k] + rest.value) else None
  }

  /** Substitution works piece by piece, so it distributes over concatenation. */
  lemma {:induction false} SubstituteAppend(xs: seq<Piece>, ys: seq<Piece>, table: map<string, string>)
    requires Substitute(xs, table).Some? && Substitute(ys, table).Some?
    ensures Substitute(xs + ys, table) == Some(Substitute(xs, table).value + Substitute(ys, table).value)
    decreases |xs|
  {
    if |xs| == 0 {
      assert xs + ys == ys;
      assert "" + Substitute(ys, table).value == Substitute(ys, table).value;
    } else {
      assert (xs + ys)[1..] == xs[1..] + ys;
      assert (xs + ys)[0] == xs[0];
      HoleKeysCons(xs);
      SubstituteAppend(xs[1..], ys, table);
      var a := Substitute(xs[1..], table).value;
      var b := Substitute(ys, table).value;
      match xs[0]
      case Literal(c) =>
        assert [c] + (a + b) == ([c] + a) + b;
      case Hole(k) =>
        assert table[k] + (a + b) == (table[k] + a) + b;
    }
  }

  /** The pieces of brace-free text: one literal per character. */
  function Literals(s: string): (ps: seq<Piece>)
    requires forall i :: 0 <= i < |s| ==> !IsBrace(s[i])
    ensures |ps| == |s|
    ensures forall i :: 0 <= i < |ps| ==> ps[i] == Literal(s[i])
  {
    seq(|s|, i requires 0 <= i < |s| => Literal(s[i]))
  }

  /** Brace-free text is written and substituted as itself, whatever the table. */
  lemma {:induction false} LiteralsText(s: string, table: map<string, string>)
    requires forall i :: 0 <= i < |s| ==> !IsBrace(s[i])
    ensures WellFormed(Literals(s))
    ensures Unparse(Literals(s)) == s
    ensures Substitute(Literals(s), table) == Some(s)
    decreases |s|
  {
    if |s| > 0 {
      var ps := Literals(s);
      assert ps[1..] == Literals(s[1..]);
      LiteralsText(s[1..], table);
      assert s == [s[0]] + s[1..];
    }
  }

  /** A brace-free text followed by one placeholder is parsed as its literals and that placeholder. */
  lemma ParseTextThenHole(prefix: string, key: string)
    requires forall i :: 0 <= i < |prefix| ==> !IsBrace(prefix[i])
    requires '}' !in key
    ensures Parse(prefix + "{" + key + "}") == Some(Literals(prefix) + [Hole(key)])
  {
    var ps := Literals(prefix) + [Hole(key)];
    LiteralsText(prefix, map[]);
    assert WellFormed([Hole(key)]);
    WellFormedAppend(Literals(prefix), [Hole(key)]);
    assert Unparse([Hole(key)]) == "{" + key + "}" by {
      assert [Hole(key)][1..] == [];
    }
    UnparseAppend(Literals(prefix), [Hole(key)]);
    var t := Unparse(ps);
    assert t == prefix + "{" + key + "}";
    ParseUnparse(ps);
  }

  /** Substituting a brace-free text followed by one placeholder appends that placeholder's entry. */
  lemma SubstituteTextThenHole(prefix: string, key: string, table: map<string, string>)
    requires forall i :: 0 <= i < |prefix| ==> !IsBrace(prefix[i])
    ensures HoleKeys(Literals(prefix) + [Hole(key)]) == {key}
    ensures key in table ==> Substitute(Literals(prefix) + [Hole(key)], table) == Some(prefix + table[key])
  {
    var ps := Literals(prefix) + [Hole(key)];
    assert ps[|prefix|] == Hole(key);
    assert forall i :: 0 <= i < |prefix| ==> ps[i] == Literal(prefix[i]);
    if key in table {
      LiteralsText(prefix, table);
      assert Substitute([Hole(key)], table) == Some(table[key]) by {
        assert [Hole(key)][1..] == [];
        assert Substitute([], table) == Some("");
        assert table[key] + "" == table[key];
      }
      SubstituteAppend(Literals(prefix), [Hole(key)], table);
    }
  }

  lemma WellFormedAppend(xs: seq<Piece>, ys: seq<Piece>)
    requires WellFormed(xs) && WellFormed(ys)
    ensures WellFormed(xs + ys)
  {
    forall i | 0 <= i < |xs + ys|
      ensures PieceOk((xs + ys)[i])
    {
      if i < |xs| { assert (xs + ys)[i] == xs[i]; } else { assert (xs + ys)[i] == ys[i - |xs|]; }
    }
  }

  lemma {:induction false} UnparseAppend(xs: seq<Piece>, ys: seq<Piece>)
    ensures Unparse(xs + ys) == Unparse(xs) + Unparse(ys)
    decreases |xs|
  {
    if |xs| == 0 {
      assert xs + ys == ys;
    } else {
      assert (xs + ys)[1..] == xs[1..] + ys;
      assert (xs + ys)[0] == xs[0];
      UnparseAppend(xs[1..], ys);
    }
  }
}
