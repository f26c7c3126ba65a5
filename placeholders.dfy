/**
  Placeholder substitution (parseVariables): `%name%` tokens in action
  strings, cell templates and function arguments are filled in with the
  values of the current row; `%_P%` stands for the primary-key column.
 */
module Placeholders {
  import opened Php

  /** The characters the token pattern allows between the two `%`: [A-Za-z0-9_ -]. */
  predicate IsNameChar(c: char)
  {
    ('A' <= c <= 'Z') || ('a' <= c <= 'z') || ('0' <= c <= '9') || c == '_' || c == ' ' || c == '-'
  }

  predicate IsName(s: string)
  {
    forall k :: 0 <= k < |s| ==> IsNameChar(s[k])
  }

  /** The length of the longest run of name characters at the head of `s`. */
  function NameLen(s: string): (n: nat)
    ensures n <= |s|
    ensures IsName(s[..n])
    ensures n < |s| ==> !IsNameChar(s[n])
    decreases |s|
  {
    if s == [] || !IsNameChar(s[0]) then 0
    else
      var m := NameLen(s[1..]);
      assert s[..m + 1] == [s[0]] + s[1..][..m];
      m + 1
  }

  /**
    The name of the token that starts `s`, if one does: a `%`, a run of name
    characters and a closing `%`. The run is maximal because `%` is not a
    name character, so backtracking cannot find a shorter match.
   */
  function TokenAt(s: string): (t: Option<string>)
    ensures t.Some? ==> IsName(t.value) && |t.value| + 2 <= |s|
    ensures t.Some? ==> s[0] == '%' && s[1..|t.value| + 1] == t.value && s[|t.value| + 1] == '%'
  {
    if s != [] && s[0] == '%' then
      var n := NameLen(s[1..]);
      if n + 1 < |s| && s[n + 1] == '%' then
        assert s[1..n + 1] == s[1..][..n];
        Some(s[1..n + 1])
      else None
    else None
  }

  /** A whole placeholder token, `%name%`. */
  predicate IsToken(m: string)
  {
    |m| >= 2 && m[0] == '%' && m[|m| - 1] == '%' && IsName(m[1..|m| - 1])
  }

  /** The full matches of preg_match_all over `s`, left to right and not overlapping. */
  function Matches(s: string): (ms: seq<string>)
    ensures forall k :: 0 <= k < |ms| ==> IsToken(ms[k])
    decreases |s|
  {
    if s == [] then []
    else
      match TokenAt(s)
      case Some(name) =>
        var m := s[..|name| + 2];
        assert m[1..|m| - 1] == name;
        [m] + Matches(s[|name| + 2..])
      case None => Matches(s[1..])
  }

  /** `str_replace('%', '', $v)`: the column name a token refers to. */
  function TokenName(v: string): string
  {
    ReplaceAll(v, "%", "")
  }

  /** The `foreach` of parseVariables as written: each match is replaced everywhere, one after the other. */
  function ReplaceEach(s: string, tokens: seq<string>, row: Assoc): string
    decreases |tokens|
  {
    if tokens == [] then s
    else ReplaceEach(ReplaceAll(s, tokens[0], Get(row, TokenName(tokens[0]))), tokens[1..], row)
  }

  /** parseVariables' substitution loop as written (lines 398-401). */
  method SubstituteAsWritten(row: Assoc, act: string) returns (r: string)
    ensures r == ReplaceEach(act, Matches(act), row)
  {
    var vars := Matches(act);
    r := act;
    for k := 0 to |vars|
      invariant ReplaceEach(r, vars[k..], row) == ReplaceEach(act, vars, row)
    {
      assert vars[k..][1..] == vars[k + 1..];
      r := ReplaceAll(r, vars[k], Get(row, TokenName(vars[k])));
    }
    assert vars[|vars|..] == [];
  }

  /**
    The substitution as intended: one left-to-right pass in which every
    token is replaced by the row's value under its name, and text between
    tokens is copied.
   */
  function Expand(s: string, row: Assoc): string
    decreases |s|
  {
    if s == [] then []
    else
      match TokenAt(s)
      case Some(name) => Get(row, name) + Expand(s[|name| + 2..], row)
      case None => [s[0]] + Expand(s[1..], row)
  }

  /** A text without `%` holds no placeholder and is returned as it is. */
  lemma {:induction false} ExpandPlain(s: string, row: Assoc)
    requires '%' !in s
    ensures Expand(s, row) == s
    decreases |s|
  {
    if s != [] {
      assert s[0] in s;
      assert forall c :: c in s[1..] ==> c in s;
      ExpandPlain(s[1..], row);
    }
  }

  /** Plain text in front of the rest is copied unchanged by the substitution. */
  lemma {:induction false} ExpandLiteral(a: string, b: string, row: Assoc)
    requires '%' !in a
    ensures Expand(a + b, row) == a + Expand(b, row)
    decreases |a|
  {
    if a != [] {
      assert a[0] in a;
      assert forall c :: c in a[1..] ==> c in a;
      assert (a + b)[0] == a[0] && (a + b)[1..] == a[1..] + b;
      assert TokenAt(a + b).None?;
      assert Expand(a + b, row) == [a[0]] + Expand(a[1..] + b, row);
      ExpandLiteral(a[1..], b, row);
      assert [a[0]] + (a[1..] + Expand(b, row)) == a + Expand(b, row);
    } else {
      assert a + b == b;
    }
  }

  /** A `%name%` at the head of a text is recognised as a token with that name. */
  lemma TokenAtName(name: string, b: string)
    requires IsName(name)
    ensures TokenAt("%" + name + "%" + b) == Some(name)
    ensures ("%" + name + "%" + b)[|name| + 2..] == b
  {
    var tail := "%" + b;
    var s := "%" + name + "%" + b;
    assert s == "%" + (name + tail);
    assert s[1..] == name + tail;
    NameLenOfName(name, tail);
    assert s[|name| + 1] == '%';
    assert s[1..|name| + 1] == name;
  }

  /** A token at the head is replaced by the row's value under its name. */
  lemma ExpandToken(name: string, b: string, row: Assoc)
    requires IsName(name)
    ensures Expand("%" + name + "%" + b, row) == Get(row, name) + Expand(b, row)
  {
    TokenAtName(name, b);
  }

  lemma {:induction false} NameLenOfName(name: string, rest: string)
    requires IsName(name) && (rest == [] || !IsNameChar(rest[0]))
    ensures NameLen(name + rest) == |name|
    decreases |name|
  {
    if name != [] {
      assert (name + rest)[1..] == name[1..] + rest;
      assert IsName(name[1..]) by {
        forall k | 0 <= k < |name[1..]| ensures IsNameChar(name[1..][k]) {
          assert name[1..][k] == name[k + 1];
        }
      }
      assert IsNameChar(name[0]);
      NameLenOfName(name[1..], rest);
    } else {
      assert name + rest == rest;
    }
  }

  /** A template written as literal text and `%name%` tokens. */
  datatype Piece = Lit(text: string) | Var(name: string)

  predicate WellFormed(ps: seq<Piece>)
  {
    forall k :: 0 <= k < |ps| ==>
      match ps[k]
      case Lit(text) => '%' !in text
      case Var(name) => IsName(name)
  }

  /** The template text. */
  function Render(ps: seq<Piece>): string
    decreases |ps|
  {
    if ps == [] then ""
    else
      match ps[0]
      case Lit(text) => text + Render(ps[1..])
      case Var(name) => "%" + name + "%" + Render(ps[1..])
  }

  /** The template with each token replaced by the row's value. */
  function Fill(ps: seq<Piece>, row: Assoc): string
    decreases |ps|
  {
    if ps == [] then ""
    else
      match ps[0]
      case Lit(text) => text + Fill(ps[1..], row)
      case Var(name) => Get(row, name) + Fill(ps[1..], row)
  }

  /**
    Every `%name%` token of a template is replaced by `row[name]` and all
    the literal text is kept, whatever the row values contain.
   */
  lemma {:induction false} ExpandRender(ps: seq<Piece>, row: Assoc)
    requires WellFormed(ps)
    ensures Expand(Render(ps), row) == Fill(ps, row)
    decreases |ps|
  {
    if ps != [] {
      assert WellFormed(ps[1..]) by {
        forall k | 0 <= k < |ps[1..]| ensures ps[1..][k] == ps[k + 1] { }
      }
      ExpandRender(ps[1..], row);
      match ps[0]
      case Lit(text) =>
        assert '%' !in text by { assert ps[0] == ps[0]; }
        ExpandLiteral(text, Render(ps[1..]), row);
      case Var(name) =>
        ExpandToken(name, Render(ps[1..]), row);
    }
  }

  /** The row used in the counterexample: b, a and c hold B, A and C. */
  const SAMPLE_ROW: Assoc := [("b", "B"), ("a", "A"), ("c", "C")]

  /**
    The substitution as written replaces `%b%` everywhere first, and so
    also the `%b%` formed by the closing `%` of `%a%`, the `b` after it and
    the opening `%` of `%c%`; the later tokens are then gone. One pass
    gives the intended text.
   */
  lemma SubstituteAsWrittenMisreads()
    ensures Matches(SAMPLE_ACTION) == ["%b%", "%a%", "%c%"]
    ensures ReplaceEach(SAMPLE_ACTION, Matches(SAMPLE_ACTION), SAMPLE_ROW) == "B.%aBc%"
    ensures Expand(SAMPLE_ACTION, SAMPLE_ROW) == "B.AbC"
  {
    SampleMatches(SAMPLE_ACTION);
    SampleReplaceEach();
    SampleExpand();
  }

  /** The action of the counterexample. */
  const SAMPLE_ACTION: string := "%b%.%a%b%c%"

  /** A token at the head is a match, and matching goes on after it. */
  lemma MatchesToken(name: string, b: string)
    requires IsName(name)
    ensures Matches("%" + name + "%" + b) == ["%" + name + "%"] + Matches(b)
  {
    TokenAtName(name, b);
    var s := "%" + name + "%" + b;
    assert s[..|name| + 2] == "%" + name + "%";
  }

  /** Text without `%` in front of the rest adds no match. */
  lemma {:induction false} MatchesLiteral(a: string, b: string)
    requires '%' !in a
    ensures Matches(a + b) == Matches(b)
    decreases |a|
  {
    if a != [] {
      assert a[0] in a;
      assert forall c :: c in a[1..] ==> c in a;
      assert (a + b)[0] == a[0] && (a + b)[1..] == a[1..] + b;
      MatchesLiteral(a[1..], b);
    } else {
      assert a + b == b;
    }
  }

  /** The `%name%` tokens of a template, in order. */
  function Tokens(ps: seq<Piece>): seq<string>
    decreases |ps|
  {
    if ps == [] then []
    else
      match ps[0]
      case Lit(_) => Tokens(ps[1..])
      case Var(name) => ["%" + name + "%"] + Tokens(ps[1..])
  }

  /** preg_match_all finds exactly the tokens of a template, in order. */
  lemma {:induction false} MatchesRender(ps: seq<Piece>)
    requires WellFormed(ps)
    ensures Matches(Render(ps)) == Tokens(ps)
    decreases |ps|
  {
    if ps != [] {
      assert WellFormed(ps[1..]) by {
        forall k | 0 <= k < |ps[1..]| ensures ps[1..][k] == ps[k + 1] { }
      }
      MatchesRender(ps[1..]);
      match ps[0]
      case Lit(text) =>
        MatchesLiteral(text, Render(ps[1..]));
      case Var(name) =>
        MatchesToken(name, Render(ps[1..]));
    }
  }

  /** The counterexample action as a template. */
  function SamplePieces(): (ps: seq<Piece>)
    ensures WellFormed(ps) && Render(ps) == SAMPLE_ACTION
  {
    var ps := [Var("b"), Lit("."), Var("a"), Lit("b"), Var("c")];
    assert IsName("b") && IsName("a") && IsName("c");
    assert ps[1..] == [Lit("."), Var("a"), Lit("b"), Var("c")];
    assert ps[2..] == [Var("a"), Lit("b"), Var("c")];
    assert ps[3..] == [Lit("b"), Var("c")];
    assert ps[4..] == [Var("c")];
    assert ps[1..][1..] == ps[2..] && ps[2..][1..] == ps[3..] && ps[3..][1..] == ps[4..] && ps[4..][1..] == [];
    assert Render(ps[4..]) == "%c%";
    assert Render(ps[3..]) == "b%c%";
    assert Render(ps[2..]) == "%a%b%c%";
    assert Render(ps[1..]) == ".%a%b%c%";
    ps
  }

  /** preg_match_all finds the three tokens `%b%`, `%a%` and `%c%`. */
  lemma SampleMatches(s: string)
    requires s == SAMPLE_ACTION
    ensures Matches(s) == ["%b%", "%a%", "%c%"]
  {
    MatchesRender(SamplePieces());
    SampleTokens();
  }

  /** The tokens of the sample template are `%b%`, `%a%` and `%c%`. */
  lemma SampleTokens()
    ensures Tokens(SamplePieces()) == ["%b%", "%a%", "%c%"]
  {
    var ps := SamplePieces();
    assert ps == [Var("b"), Lit(".")] + SAMPLE_TAIL;
    assert ps[1..] == [Lit(".")] + SAMPLE_TAIL && ps[1..][1..] == SAMPLE_TAIL;
    SampleTailTokens();
    assert Tokens(ps[1..]) == Tokens(SAMPLE_TAIL);
    assert Tokens(ps) == ["%" + "b" + "%"] + Tokens(ps[1..]);
    assert "%" + "b" + "%" == "%b%";
  }

  /** The last three pieces of the sample action. */
  const SAMPLE_TAIL: seq<Piece> := [Var("a"), Lit("b"), Var("c")]

  /** The tokens of the last three pieces are `%a%` and `%c%`. */
  lemma SampleTailTokens()
    ensures Tokens(SAMPLE_TAIL) == ["%a%", "%c%"]
  {
    var ps := SAMPLE_TAIL;
    assert ps[1..] == [Lit("b"), Var("c")] && ps[1..][1..] == [Var("c")] && ps[1..][1..][1..] == [];
    assert "%" + "c" + "%" == "%c%" && "%" + "a" + "%" == "%a%";
    assert Tokens([Var("c")]) == ["%c%"];
  }

  /** `str_replace('%', '', '%name%')` is the name. */
  lemma TokenNameOf(name: string)
    requires '%' !in name
    ensures TokenName("%" + name + "%") == name
  {
    ReplaceAllHead("%", name + "%", "");
    assert "%" + name + "%" == "%" + (name + "%");
    ReplaceAllPlainPrefix(name, "%", "%", "");
    ReplaceAllHead("%", "", "");
    assert "%" + "" == "%";
  }

  /** The loop as written: `%b%` is replaced first, and `%a%` and `%c%` are then no longer there. */
  lemma SampleReplaceEach()
    ensures ReplaceEach(SAMPLE_ACTION, ["%b%", "%a%", "%c%"], SAMPLE_ROW) == "B.%aBc%"
  {
    var step1 := "B.%aBc%";
    TokenNameOf("b");
    TokenNameOf("a");
    TokenNameOf("c");
    assert "%" + "b" + "%" == "%b%" && "%" + "a" + "%" == "%a%" && "%" + "c" + "%" == "%c%";
    assert Get(SAMPLE_ROW, "b") == "B";
    SampleFirstReplacement();
    LaterTokensGone("%a%");
    LaterTokensGone("%c%");
    ReplaceAllAbsent(step1, "%a%", Get(SAMPLE_ROW, "a"));
    ReplaceAllAbsent(step1, "%c%", Get(SAMPLE_ROW, "c"));
    assert ["%b%", "%a%", "%c%"][1..] == ["%a%", "%c%"];
    assert ["%a%", "%c%"][1..] == ["%c%"];
    assert ["%c%"][1..] == [];
  }

  /** A needle at the head is replaced, and the rest is scanned after it. */
  lemma ReplaceAllHead(pat: string, b: string, rep: string)
    requires pat != []
    ensures ReplaceAll(pat + b, pat, rep) == rep + ReplaceAll(b, pat, rep)
  {
    assert pat <= pat + b;
    assert (pat + b)[|pat|..] == b;
  }

  /** A character that does not start the needle is copied. */
  lemma ReplaceAllSkip(c: char, b: string, pat: string, rep: string)
    requires pat != [] && !(pat <= [c] + b)
    ensures ReplaceAll([c] + b, pat, rep) == [c] + ReplaceAll(b, pat, rep)
  {
    assert ([c] + b)[0] == c && ([c] + b)[1..] == b;
  }

  /** Replacing `%b%` everywhere also consumes the `%b%` spanning `%a%b%c%`. */
  lemma SampleFirstReplacement()
    ensures ReplaceAll(SAMPLE_ACTION, "%b%", "B") == "B.%aBc%"
  {
    var pat := "%b%";
    SampleTailReplacement();
    assert !(pat <= "%a%b%c%") by { assert "%a%b%c%"[1] != pat[1]; }
    ReplaceAllSkip('%', "a%b%c%", pat, "B");
    assert ['%'] + "a%b%c%" == "%a%b%c%";
    assert !(pat <= ".%a%b%c%") by { assert ".%a%b%c%"[0] != pat[0]; }
    ReplaceAllSkip('.', "%a%b%c%", pat, "B");
    assert ['.'] + "%a%b%c%" == ".%a%b%c%";
    ReplaceAllHead(pat, ".%a%b%c%", "B");
    SampleActionSplit();
  }

  /** The sample action is `%b%` followed by `.%a%b%c%`; the replaced text is `B.%` followed by `aBc%`. */
  lemma SampleActionSplit()
    ensures "%b%" + ".%a%b%c%" == SAMPLE_ACTION
    ensures "B" + (['.'] + (['%'] + "aBc%")) == "B.%aBc%"
  {
  }

  /** The tail `a%b%c%` of the sample action: its `%b%` becomes `B`. */
  lemma SampleTailReplacement()
    ensures ReplaceAll("a%b%c%", "%b%", "B") == "aBc%"
  {
    var pat := "%b%";
    SampleTailEnd();
    ReplaceAllHead(pat, "c%", "B");
    assert pat + "c%" == "%b%c%" && "B" + "c%" == "Bc%";
    assert !(pat <= "a%b%c%") by { assert "a%b%c%"[0] != pat[0]; }
    ReplaceAllSkip('a', "%b%c%", pat, "B");
    assert ['a'] + "%b%c%" == "a%b%c%" && ['a'] + "Bc%" == "aBc%";
  }

  /** No `%b%` in `c%`. */
  lemma SampleTailEnd()
    ensures ReplaceAll("c%", "%b%", "B") == "c%"
  {
    assert "%b%"[1] == 'b' && 'b' !in "c%";
    MissingCharNotContained("c%", "%b%", 1);
    ReplaceAllAbsent("c%", "%b%", "B");
  }

  /** One pass over the same action gives every token its own value. */
  lemma SampleExpand()
    ensures Expand(SAMPLE_ACTION, SAMPLE_ROW) == "B.AbC"
  {
    var ps := SamplePieces();
    assert ps == [Var("b"), Lit("."), Var("a"), Lit("b"), Var("c")];
    assert ps[1..][1..] == ps[2..] && ps[2..][1..] == ps[3..] && ps[3..][1..] == ps[4..] && ps[4..][1..] == [];
    assert Get(SAMPLE_ROW, "a") == "A" && Get(SAMPLE_ROW, "c") == "C";
    assert Fill(ps[4..], SAMPLE_ROW) == "C";
    assert Fill(ps[3..], SAMPLE_ROW) == "bC";
    assert Fill(ps[2..], SAMPLE_ROW) == "AbC";
    assert Fill(ps[1..], SAMPLE_ROW) == ".AbC";
    assert Fill(ps, SAMPLE_ROW) == "B.AbC";
    ExpandRender(ps, SAMPLE_ROW);
  }

  /** A text whose `k`-th character differs from that of `p`, and whose tail lacks `p`, lacks `p`. */
  lemma NotContainsStep(c: char, b: string, p: string, k: nat)
    requires k < |p| && (k > |b| || ([c] + b)[k] != p[k])
    requires !Contains(b, p)
    ensures !Contains([c] + b, p)
  {
    assert ([c] + b)[1..] == b;
    assert !(p <= [c] + b);
  }

  /** After the first replacement neither `%a%` nor `%c%` is left: the only `%` inside is followed by `a`, then `B`. */
  lemma LaterTokensGone(p: string)
    requires p == "%a%" || p == "%c%"
    ensures !Contains("B.%aBc%", p)
  {
    TailLacksTokens(p);
    NotContainsStep('%', "aBc%", p, 2);
    assert ['%'] + "aBc%" == "%aBc%";
    NotContainsStep('.', "%aBc%", p, 0);
    assert ['.'] + "%aBc%" == ".%aBc%";
    NotContainsStep('B', ".%aBc%", p, 0);
    assert ['B'] + ".%aBc%" == "B.%aBc%";
  }

  /** Neither token is in the tail `aBc%`. */
  lemma TailLacksTokens(p: string)
    requires p == "%a%" || p == "%c%"
    ensures !Contains("aBc%", p)
  {
    assert !Contains("", p);
    NotContainsStep('%', "", p, 1);
    assert ['%'] + "" == "%";
    NotContainsStep('c', "%", p, 0);
    assert ['c'] + "%" == "c%";
    NotContainsStep('B', "c%", p, 0);
    assert ['B'] + "c%" == "Bc%";
    NotContainsStep('a', "Bc%", p, 0);
    assert ['a'] + "Bc%" == "aBc%";
  }

  /**
    The tokens of a template are kept apart: every stretch of literal text
    between two tokens holds a character that cannot be part of a name.
    `apart` says whether the stretch since the last token already holds one
    (it does when there was no token yet).
   */
  predicate Apart(ps: seq<Piece>, apart: bool)
    decreases |ps|
  {
    ps == [] ||
    match ps[0]
    case Lit(text) => Apart(ps[1..], apart || !IsName(text))
    case Var(_) => apart && Apart(ps[1..], false)
  }

  /** No value of the row holds a `%`. */
  predicate PlainValues(row: Assoc)
  {
    forall i :: 0 <= i < |row| ==> '%' !in row[i].1
  }

  /** The template with every token named `n` turned into the literal text `v`. */
  function FillName(ps: seq<Piece>, n: string, v: string): (qs: seq<Piece>)
    ensures |qs| == |ps|
    ensures forall k :: 0 <= k < |ps| ==> qs[k] == if ps[k] == Var(n) then Lit(v) else ps[k]
    decreases |ps|
  {
    if ps == [] then [] else [if ps[0] == Var(n) then Lit(v) else ps[0]] + FillName(ps[1..], n, v)
  }

  /**
    The substitution as written agrees with the one-pass substitution on a
    template whose tokens are kept apart, when no row value holds a `%`:
    each str_replace then meets only the template's own tokens. The
    counterexample of the findings is not kept apart (only `b` lies between
    `%a%` and `%c%`).
   */
  lemma ReplaceEachAgrees(ps: seq<Piece>, row: Assoc)
    requires WellFormed(ps) && Apart(ps, true) && PlainValues(row)
    ensures ReplaceEach(Render(ps), Matches(Render(ps)), row) == Expand(Render(ps), row)
  {
    MatchesRender(ps);
    ExpandRender(ps, row);
    TokensOfVars(ps);
    ReplaceEachFills(ps, Tokens(ps), row);
  }

  /** The counterexample action is not kept apart. */
  lemma SampleNotApart()
    ensures !Apart(SamplePieces(), true)
  {
    var ps := SamplePieces();
    assert ps == [Var("b"), Lit("."), Var("a"), Lit("b"), Var("c")];
    assert ps[1..][1..] == ps[2..] && ps[2..][1..] == ps[3..] && ps[3..][1..] == ps[4..];
    assert IsName("b");
    assert !Apart(ps[3..], false);
  }

  /** Every token of a template is among its `%name%` tokens. */
  lemma {:induction false} TokensOfVars(ps: seq<Piece>)
    ensures forall k :: 0 <= k < |ps| && ps[k].Var? ==> "%" + ps[k].name + "%" in Tokens(ps)
    decreases |ps|
  {
    if ps != [] {
      TokensOfVars(ps[1..]);
      forall k | 0 <= k < |ps| && ps[k].Var?
        ensures "%" + ps[k].name + "%" in Tokens(ps)
      {
        if k > 0 {
          assert ps[k] == ps[1..][k - 1];
        }
      }
    }
  }

  /**
    Replacing the tokens `ts` one after the other, each everywhere, fills a
    template kept apart when every token of the template is among `ts`.
   */
  lemma {:induction false} ReplaceEachFills(qs: seq<Piece>, ts: seq<string>, row: Assoc)
    requires WellFormed(qs) && Apart(qs, true) && PlainValues(row)
    requires forall k :: 0 <= k < |ts| ==> IsToken(ts[k])
    requires forall k :: 0 <= k < |qs| && qs[k].Var? ==> "%" + qs[k].name + "%" in ts
    ensures ReplaceEach(Render(qs), ts, row) == Fill(qs, row)
    decreases |ts|
  {
    if ts == [] {
      RenderNoVars(qs, row);
    } else {
      var t := ts[0];
      var n := t[1..|t| - 1];
      assert t == "%" + n + "%";
      NameLacksPercent(n);
      TokenNameOf(n);
      var v := Get(row, n);
      GetPlain(row, n);
      ReplaceAllRender(qs, n, v, true);
      var rs := FillName(qs, n, v);
      FillNameKeeps(qs, n, v, true);
      FillNameFill(qs, n, row);
      forall k | 0 <= k < |rs| && rs[k].Var?
        ensures "%" + rs[k].name + "%" in ts[1..]
      {
        assert rs[k] == qs[k] && qs[k].name != n;
        TokenNamesDiffer(qs[k].name, n);
      }
      ReplaceEachFills(rs, ts[1..], row);
    }
  }

  /** A name holds no `%`. */
  lemma NameLacksPercent(n: string)
    requires IsName(n)
    ensures '%' !in n
  {
    forall k | 0 <= k < |n| ensures n[k] != '%' {
      assert IsNameChar(n[k]);
    }
  }

  /** Two tokens with different names are different strings. */
  lemma TokenNamesDiffer(x: string, n: string)
    requires x != n
    ensures "%" + x + "%" != "%" + n + "%"
  {
    assert ("%" + x + "%")[1..|x| + 1] == x;
    assert ("%" + n + "%")[1..|n| + 1] == n;
  }

  /** The value a row gives any name holds no `%` when none of its values does. */
  lemma {:induction false} GetPlain(row: Assoc, n: string)
    requires PlainValues(row)
    ensures '%' !in Get(row, n)
    decreases |row|
  {
    if row != [] && row[0].0 != n {
      assert PlainValues(row[1..]) by {
        forall i | 0 <= i < |row[1..]| ensures '%' !in row[1..][i].1 {
          assert row[1..][i] == row[i + 1];
        }
      }
      GetPlain(row[1..], n);
    }
  }

  /** A template without tokens renders as its filled text. */
  lemma {:induction false} RenderNoVars(qs: seq<Piece>, row: Assoc)
    requires forall k :: 0 <= k < |qs| ==> qs[k].Lit?
    ensures Render(qs) == Fill(qs, row)
    decreases |qs|
  {
    if qs != [] {
      assert qs[0].Lit?;
      assert forall k :: 0 <= k < |qs[1..]| ==> qs[1..][k] == qs[k + 1];
      RenderNoVars(qs[1..], row);
    }
  }

  /** Filling the tokens named `n` with the row's value under `n` changes nothing the row fills in. */
  lemma {:induction false} FillNameFill(qs: seq<Piece>, n: string, row: Assoc)
    ensures Fill(FillName(qs, n, Get(row, n)), row) == Fill(qs, row)
    decreases |qs|
  {
    if qs != [] {
      var rs := FillName(qs, n, Get(row, n));
      assert rs[1..] == FillName(qs[1..], n, Get(row, n));
      FillNameFill(qs[1..], n, row);
    }
  }

  /** Filling the tokens named `n` with text without `%` keeps a template well formed and its tokens apart. */
  lemma {:induction false} FillNameKeeps(qs: seq<Piece>, n: string, v: string, apart: bool)
    requires WellFormed(qs) && Apart(qs, apart) && '%' !in v
    ensures WellFormed(FillName(qs, n, v)) && Apart(FillName(qs, n, v), apart)
    decreases |qs|
  {
    var rs := FillName(qs, n, v);
    assert WellFormed(rs) by {
      forall k | 0 <= k < |rs| ensures match rs[k] case Lit(text) => '%' !in text case Var(name) => IsName(name) {
        assert qs[k] == qs[k];
      }
    }
    if qs != [] {
      assert rs[1..] == FillName(qs[1..], n, v);
      assert WellFormed(qs[1..]) by {
        forall k | 0 <= k < |qs[1..]| ensures qs[1..][k] == qs[k + 1] { }
      }
      match qs[0]
      case Lit(text) =>
        FillNameKeeps(qs[1..], n, v, apart || !IsName(text));
      case Var(x) =>
        FillNameKeeps(qs[1..], n, v, false);
        if x == n {
          ApartWeaken(rs[1..]);
        }
    }
  }

  /** A stretch that already holds a separating character is no harder to keep apart. */
  lemma {:induction false} ApartWeaken(ps: seq<Piece>)
    requires Apart(ps, false)
    ensures Apart(ps, true)
    decreases |ps|
  {
    if ps != [] && ps[0].Lit? && IsName(ps[0].text) {
      ApartWeaken(ps[1..]);
    }
  }

  /**
    One str_replace of the token `%n%` over a template kept apart replaces
    exactly the template's tokens named `n`, whatever the replacement is.
   */
  lemma {:induction false} ReplaceAllRender(qs: seq<Piece>, n: string, v: string, apart: bool)
    requires WellFormed(qs) && Apart(qs, apart) && IsName(n)
    ensures ReplaceAll(Render(qs), "%" + n + "%", v) == Render(FillName(qs, n, v))
    decreases |qs|, 1
  {
    if qs != [] {
      WellFormedRest(qs);
      match qs[0]
      case Lit(text) =>
        ReplaceAllRender(qs[1..], n, v, apart || !IsName(text));
        LitStep(qs, n, v);
      case Var(x) =>
        if x == n {
          ReplaceAllRender(qs[1..], n, v, false);
          SameTokenStep(qs, n, v);
        } else {
          ReplaceAllAfterToken("", qs[1..], n, v);
          assert "%" + "" + Render(qs[1..]) == "%" + Render(qs[1..]);
          assert "%" + "" + Render(FillName(qs[1..], n, v)) == "%" + Render(FillName(qs[1..], n, v));
          OtherTokenStep(qs, n, v);
        }
    }
  }

  /**
    After the closing `%` of a token not named `n`, and the text `p` of
    name characters that follows it: no `%n%` starts at that `%`, and the
    rest is replaced as a template.
   */
  lemma {:induction false} ReplaceAllAfterToken(p: string, qs: seq<Piece>, n: string, v: string)
    requires IsName(p) && WellFormed(qs) && Apart(qs, false) && IsName(n)
    ensures ReplaceAll("%" + p + Render(qs), "%" + n + "%", v) == "%" + p + Render(FillName(qs, n, v))
    decreases |qs|, 0
  {
    NameLacksPercent(p);
    if qs == [] {
      assert "%" + p + Render(qs) == "%" + p && "%" + p + Render(FillName(qs, n, v)) == "%" + p;
      AfterTokenEnd(p, n, v);
    } else {
      WellFormedRest(qs);
      var text := qs[0].text;
      if IsName(text) {
        assert IsName(p + text) by {
          forall k | 0 <= k < |p + text| ensures IsNameChar((p + text)[k]) {
            if k >= |p| { assert (p + text)[k] == text[k - |p|]; }
          }
        }
        ReplaceAllAfterToken(p + text, qs[1..], n, v);
        NameTextStep(p, qs, n, v);
      } else {
        ReplaceAllRender(qs[1..], n, v, true);
        BreakTextStep(p, qs, n, v);
      }
    }
  }

  /** The rest of a well-formed template is well formed, and its first piece is a plain text or a name. */
  lemma WellFormedRest(qs: seq<Piece>)
    requires WellFormed(qs) && qs != []
    ensures WellFormed(qs[1..])
    ensures qs[0].Lit? ==> '%' !in qs[0].text
    ensures qs[0].Var? ==> IsName(qs[0].name)
  {
    var rest := qs[1..];
    assert WellFormed(rest) by {
      forall k | 0 <= k < |rest| ensures rest[k] == qs[k + 1] { }
    }
    assert qs[0] == qs[0];
  }

  /** The step of ReplaceAllRender over a plain text: the needle starts with `%`, so the text is passed over. */
  lemma LitStep(qs: seq<Piece>, n: string, v: string)
    requires qs != [] && qs[0].Lit? && '%' !in qs[0].text && IsName(n)
    requires ReplaceAll(Render(qs[1..]), "%" + n + "%", v) == Render(FillName(qs[1..], n, v))
    ensures ReplaceAll(Render(qs), "%" + n + "%", v) == Render(FillName(qs, n, v))
  {
    var text, rest, rs := qs[0].text, qs[1..], FillName(qs, n, v);
    assert rs[0] == Lit(text) && rs[1..] == FillName(rest, n, v);
    assert Render(qs) == text + Render(rest);
    assert Render(rs) == text + Render(rs[1..]);
    ReplaceAllPlainPrefix(text, Render(rest), "%" + n + "%", v);
  }

  /** The step of ReplaceAllRender over the token `%n%`: it is replaced by `v`. */
  lemma SameTokenStep(qs: seq<Piece>, n: string, v: string)
    requires qs != [] && qs[0] == Var(n)
    requires ReplaceAll(Render(qs[1..]), "%" + n + "%", v) == Render(FillName(qs[1..], n, v))
    ensures ReplaceAll(Render(qs), "%" + n + "%", v) == Render(FillName(qs, n, v))
  {
    var pat, rest, rs := "%" + n + "%", qs[1..], FillName(qs, n, v);
    assert rs[0] == Lit(v) && rs[1..] == FillName(rest, n, v);
    assert Render(qs) == pat + Render(rest);
    assert Render(rs) == v + Render(rs[1..]);
    ReplaceAllHead(pat, Render(rest), v);
  }

  /** The step of ReplaceAllRender over a token with another name: its text is passed over up to its closing `%`. */
  lemma OtherTokenStep(qs: seq<Piece>, n: string, v: string)
    requires qs != [] && qs[0].Var? && qs[0].name != n && IsName(qs[0].name) && IsName(n)
    requires ReplaceAll("%" + Render(qs[1..]), "%" + n + "%", v) == "%" + Render(FillName(qs[1..], n, v))
    ensures ReplaceAll(Render(qs), "%" + n + "%", v) == Render(FillName(qs, n, v))
  {
    var x, rest, rs := qs[0].name, qs[1..], FillName(qs, n, v);
    assert rs[0] == qs[0] && rs[1..] == FillName(rest, n, v);
    var a, b := Render(rest), Render(rs[1..]);
    assert Render(qs) == "%" + x + "%" + a;
    assert Render(rs) == "%" + x + "%" + b;
    OtherToken(x, a, b, n, v);
  }

  /** A token with another name starts no `%n%`, so only what follows its closing `%` is replaced. */
  lemma OtherToken(x: string, a: string, b: string, n: string, v: string)
    requires IsName(x) && IsName(n) && x != n
    requires ReplaceAll("%" + a, "%" + n + "%", v) == "%" + b
    ensures ReplaceAll("%" + x + "%" + a, "%" + n + "%", v) == "%" + x + "%" + b
  {
    var pat := "%" + n + "%";
    NameLacksPercent(x);
    OtherTokenNotPrefix(x, n, "%" + a);
    assert "%" + x + "%" + a == ['%'] + (x + ("%" + a));
    assert "%" + x + "%" + b == ['%'] + (x + ("%" + b));
    ReplaceAllSkip('%', x + ("%" + a), pat, v);
    ReplaceAllPlainPrefix(x, "%" + a, pat, v);
  }

  /** The closing `%` of a token followed only by name characters starts no `%n%`. */
  lemma AfterTokenEnd(p: string, n: string, v: string)
    requires IsName(p) && IsName(n) && '%' !in p
    ensures ReplaceAll("%" + p, "%" + n + "%", v) == "%" + p
  {
    var pat := "%" + n + "%";
    assert "%" + p == ['%'] + p;
    StretchEndNotPrefix(p, n);
    ReplaceAllSkip('%', p, pat, v);
    MissingCharNotContained(p, pat, 0);
    ReplaceAllAbsent(p, pat, v);
  }

  /** The step of ReplaceAllAfterToken over a text of name characters: the stretch after the `%` grows. */
  lemma NameTextStep(p: string, qs: seq<Piece>, n: string, v: string)
    requires qs != [] && qs[0].Lit?
    requires ReplaceAll("%" + (p + qs[0].text) + Render(qs[1..]), "%" + n + "%", v)
          == "%" + (p + qs[0].text) + Render(FillName(qs[1..], n, v))
    ensures ReplaceAll("%" + p + Render(qs), "%" + n + "%", v) == "%" + p + Render(FillName(qs, n, v))
  {
    var text, rest, rs := qs[0].text, qs[1..], FillName(qs, n, v);
    assert rs[0] == qs[0] && rs[1..] == FillName(rest, n, v);
    var a, b := Render(rest), Render(rs[1..]);
    assert Render(qs) == text + a;
    assert Render(rs) == text + b;
    Regroup3("%", p, text, a);
    Regroup3("%", p, text, b);
  }

  /** Text after a prefix can be grouped with the pieces before it or after it. */
  lemma Regroup3(h: string, p: string, t: string, r: string)
    ensures h + p + (t + r) == h + (p + t) + r
  {
  }

  /** The step of ReplaceAllAfterToken over a text with a character outside the names: no `%n%` starts at the `%`. */
  lemma BreakTextStep(p: string, qs: seq<Piece>, n: string, v: string)
    requires '%' !in p && IsName(n)
    requires qs != [] && qs[0].Lit? && '%' !in qs[0].text && !IsName(qs[0].text)
    requires ReplaceAll(Render(qs[1..]), "%" + n + "%", v) == Render(FillName(qs[1..], n, v))
    ensures ReplaceAll("%" + p + Render(qs), "%" + n + "%", v) == "%" + p + Render(FillName(qs, n, v))
  {
    var text, rest, rs := qs[0].text, qs[1..], FillName(qs, n, v);
    assert rs[0] == qs[0] && rs[1..] == FillName(rest, n, v);
    var w := p + text;
    assert !IsName(w) by {
      var j :| 0 <= j < |text| && !IsNameChar(text[j]);
      assert w[|p| + j] == text[j];
    }
    var a, b := Render(rest), Render(rs[1..]);
    assert Render(qs) == text + a;
    assert Render(rs) == text + b;
    Regroup3("%", p, text, a);
    Regroup3("%", p, text, b);
    BrokenStretch(w, a, b, n, v);
  }

  /** A `%` followed by a stretch that is not a name starts no `%n%`, so only what follows the stretch is replaced. */
  lemma BrokenStretch(w: string, a: string, b: string, n: string, v: string)
    requires !IsName(w) && '%' !in w && IsName(n)
    requires ReplaceAll(a, "%" + n + "%", v) == b
    ensures ReplaceAll("%" + w + a, "%" + n + "%", v) == "%" + w + b
  {
    var pat := "%" + n + "%";
    StretchNotPrefix(w, n, a);
    assert "%" + w + a == ['%'] + (w + a);
    assert "%" + w + b == ['%'] + (w + b);
    ReplaceAllSkip('%', w + a, pat, v);
    ReplaceAllPlainPrefix(w, a, pat, v);
  }

  /** `%n%` does not start a token with another name. */
  lemma OtherTokenNotPrefix(x: string, n: string, b: string)
    requires IsName(x) && IsName(n) && x != n
    requires b != [] && b[0] == '%'
    ensures !("%" + n + "%" <= ['%'] + (x + b))
  {
    var pat, s := "%" + n + "%", ['%'] + (x + b);
    NameLacksPercent(x);
    NameLacksPercent(n);
    if |n| < |x| {
      assert s[|n| + 1] == x[|n|] && pat[|n| + 1] == '%';
      assert x[|n|] in x;
    } else if |x| < |n| {
      assert s[|x| + 1] == '%' && pat[|x| + 1] == n[|x|];
      assert n[|x|] in n;
    } else {
      var k :| 0 <= k < |x| && x[k] != n[k];
      assert s[k + 1] == x[k] && pat[k + 1] == n[k];
    }
  }

  /** `%n%` does not start at a `%` that is followed only by name characters. */
  lemma StretchEndNotPrefix(p: string, n: string)
    requires IsName(p) && IsName(n)
    ensures !("%" + n + "%" <= ['%'] + p)
  {
    var pat, s := "%" + n + "%", ['%'] + p;
    if |n| + 1 < |s| {
      NameLacksPercent(p);
      assert s[|n| + 1] == p[|n|] && pat[|n| + 1] == '%';
      assert p[|n|] in p;
    }
  }

  /** `%n%` does not start at a `%` whose stretch up to the next `%` holds a character outside the names. */
  lemma StretchNotPrefix(w: string, n: string, b: string)
    requires !IsName(w) && '%' !in w && IsName(n)
    ensures !("%" + n + "%" <= ['%'] + (w + b))
  {
    var pat, s := "%" + n + "%", ['%'] + (w + b);
    var j :| 0 <= j < |w| && !IsNameChar(w[j]);
    if j < |n| {
      assert s[j + 1] == w[j] && pat[j + 1] == n[j];
      assert IsNameChar(n[j]);
    } else {
      assert s[|n| + 1] == w[|n|] && pat[|n| + 1] == '%';
      assert w[|n|] in w;
    }
  }

  /** The alias token for the primary-key column. */
  const PRIMARY_ALIAS: string := "%_P%"

  /** One string argument of parseVariables: the alias is rewritten only for a truthy primary key, then tokens are filled in. */
  function ParseText(primary: string, row: Assoc, act: string): string
  {
    var aliased := if Truthy(primary) then ReplaceAll(act, PRIMARY_ALIAS, "%" + primary + "%") else act;
    Expand(aliased, row)
  }

  /** A string with no `%` comes back unchanged. */
  lemma ParseTextPlain(primary: string, row: Assoc, act: string)
    requires '%' !in act
    ensures ParseText(primary, row, act) == act
  {
    MissingCharNotContained(act, PRIMARY_ALIAS, 0);
    ReplaceAllAbsent(act, PRIMARY_ALIAS, "%" + primary + "%");
    ExpandPlain(act, row);
  }

  /** Replacing a needle that starts with `%` skips over text without `%`. */
  lemma {:induction false} ReplaceAllPlainPrefix(a: string, b: string, pat: string, rep: string)
    requires '%' !in a && pat != [] && pat[0] == '%'
    ensures ReplaceAll(a + b, pat, rep) == a + ReplaceAll(b, pat, rep)
    decreases |a|
  {
    if a != [] {
      assert a[0] in a;
      assert forall c :: c in a[1..] ==> c in a;
      assert (a + b)[0] == a[0] && (a + b)[1..] == a[1..] + b;
      assert !(pat <= a + b) by { assert pat[0] != (a + b)[0]; }
      assert ReplaceAll(a + b, pat, rep) == [a[0]] + ReplaceAll(a[1..] + b, pat, rep);
      ReplaceAllPlainPrefix(a[1..], b, pat, rep);
      assert [a[0]] + (a[1..] + ReplaceAll(b, pat, rep)) == a + ReplaceAll(b, pat, rep);
    } else {
      assert a + b == b;
    }
  }

  /**
    `%_P%` between plain text reads the primary-key column of the row
    (as in "alert('Deleting %_P%')").
   */
  lemma ParseTextAlias(primary: string, row: Assoc, a: string, b: string)
    requires Truthy(primary) && IsName(primary)
    requires '%' !in a && '%' !in b
    ensures ParseText(primary, row, a + PRIMARY_ALIAS + b) == a + Get(row, primary) + b
  {
    var rep := "%" + primary + "%";
    assert a + PRIMARY_ALIAS + b == a + (PRIMARY_ALIAS + b);
    ReplaceAllPlainPrefix(a, PRIMARY_ALIAS + b, PRIMARY_ALIAS, rep);
    assert (PRIMARY_ALIAS + b)[|PRIMARY_ALIAS|..] == b;
    MissingCharNotContained(b, PRIMARY_ALIAS, 0);
    ReplaceAllAbsent(b, PRIMARY_ALIAS, rep);
    assert ReplaceAll(a + PRIMARY_ALIAS + b, PRIMARY_ALIAS, rep) == a + rep + b;
    var ps := [Lit(a), Var(primary), Lit(b)];
    assert ps[1..] == [Var(primary), Lit(b)] && ps[1..][1..] == [Lit(b)] && [Lit(b)][1..] == [];
    assert Render([Lit(b)]) == b;
    assert Render(ps) == a + rep + b;
    assert Fill([Lit(b)], row) == b;
    assert Fill(ps, row) == a + Get(row, primary) + b;
    ExpandRender(ps, row);
  }

  /** An argument of parseVariables: a string, or an array of them (the arguments of a TYPE_FUNCTION column). */
  datatype Template = Text(text: string) | List(items: seq<Template>)

  /** The same shape: a string for a string, an array of the same length, element by element, for an array. */
  predicate SameShape(t: Template, r: Template)
    decreases t
  {
    match t
    case Text(_) => r.Text?
    case List(items) =>
      r.List? && |r.items| == |items| && forall k :: 0 <= k < |items| ==> SameShape(items[k], r.items[k])
  }

  /** parseVariables: an array is mapped element by element, a string is substituted. */
  function ParseVariables(primary: string, row: Assoc, t: Template): (r: Template)
    ensures SameShape(t, r)
    ensures t.Text? ==> r == Text(ParseText(primary, row, t.text))
    decreases t
  {
    match t
    case Text(s) => Text(ParseText(primary, row, s))
    case List(items) =>
      List(seq(|items|, k requires 0 <= k < |items| => ParseVariables(primary, row, items[k])))
  }

  /** No string anywhere in the template holds `%`. */
  predicate NoPercent(t: Template)
    decreases t
  {
    match t
    case Text(s) => '%' !in s
    case List(items) => forall k :: 0 <= k < |items| ==> NoPercent(items[k])
  }

  /** A template (or array of them) without `%` comes back unchanged. */
  lemma {:induction false} ParseVariablesPlain(primary: string, row: Assoc, t: Template)
    requires NoPercent(t)
    ensures ParseVariables(primary, row, t) == t
    decreases t
  {
    match t
    case Text(s) =>
      ParseTextPlain(primary, row, s);
    case List(items) =>
      forall k | 0 <= k < |items| ensures ParseVariables(primary, row, items[k]) == items[k] {
        ParseVariablesPlain(primary, row, items[k]);
      }
      assert ParseVariables(primary, row, t).items == items;
  }
}
