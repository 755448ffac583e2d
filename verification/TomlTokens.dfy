// A token-level reading of TOML text, and the proof that the mask agrees with it.
module TomlTokens {
  import opened TomlMask

  // A piece of string content: a backslash and the character it escapes, one
  // character, or one or two quotes inside a multi-line string.
  datatype Unit = Escaped(c: char) | Char(c: char) | Quotes(n: nat)

  datatype Token =
    | Plain(c: char)
    | Comment(body: string)                       // with its newline
    | LastComment(body: string)                   // ended by the text itself
    | Basic(units: seq<Unit>)
    | Literal(body: string)
    | MultiBasic(units: seq<Unit>, extra: nat)    // extra quotes adjoin the end
    | MultiLiteral(units: seq<Unit>, extra: nat)

  function Times(q: char, n: nat): (s: string)
    ensures |s| == n && forall i :: 0 <= i < n ==> s[i] == q
  {
    seq(n, _ => q)
  }

  function UnitText(q: char, u: Unit): string {
    match u
    case Escaped(c) => ['\\', c]
    case Char(c) => [c]
    case Quotes(n) => Times(q, n)
  }

  function UnitsText(q: char, units: seq<Unit>): string {
    if units == [] then "" else UnitText(q, units[0]) + UnitsText(q, units[1..])
  }

  // Content of a single-line basic string.
  predicate BasicUnits(units: seq<Unit>) {
    forall i :: 0 <= i < |units| ==>
      units[i].Escaped? || (units[i].Char? && units[i].c != '"' && units[i].c != '\\')
  }

  // Content of a multi-line string delimited by q: at most two quotes together,
  // and none right before the closing delimiter.
  predicate MultiUnits(q: char, units: seq<Unit>) {
    forall i :: 0 <= i < |units| ==> MultiUnitOk(q, units, i)
  }

  predicate MultiUnitOk(q: char, units: seq<Unit>, i: nat)
    requires i < |units|
  {
    match units[i]
    case Escaped(_) => q == '"'
    case Char(c) => c != q && !(q == '"' && c == '\\')
    case Quotes(n) => 1 <= n <= 2 && i + 1 < |units| && !units[i + 1].Quotes?
  }

  predicate TokenOk(t: Token) {
    match t
    case Plain(c) => c != '#' && c != '"' && c != '\''
    case Comment(body) => '\n' !in body
    case LastComment(body) => '\n' !in body
    case Basic(units) => BasicUnits(units)
    case Literal(body) => '\'' !in body
    case MultiBasic(units, _) => MultiUnits('"', units)
    case MultiLiteral(units, _) => MultiUnits('\'', units)
  }

  // A token followed by the rest of a text.
  function Written(t: Token, rest: string): string {
    match t
    case Plain(c) => [c] + rest
    case Comment(body) => "#" + (body + ("\n" + rest))
    case LastComment(body) => "#" + (body + rest)
    case Basic(units) => "\"" + (UnitsText('"', units) + ("\"" + rest))
    case Literal(body) => "'" + (body + ("'" + rest))
    case MultiBasic(units, extra) => Times('"', 3) + (UnitsText('"', units) + (Times('"', 3 + extra) + rest))
    case MultiLiteral(units, extra) => Times('\'', 3) + (UnitsText('\'', units) + (Times('\'', 3 + extra) + rest))
  }

  // The structural bytes of a token, before those of the rest: delimiters, the
  // hash of a comment and its newline, and no content.
  function Marked(t: Token, rest: seq<bool>): seq<bool> {
    match t
    case Plain(c) => Repeat(true, 1) + rest
    case Comment(body) => Repeat(true, 1) + (Repeat(false, |body|) + (Repeat(true, 1) + rest))
    case LastComment(body) => Repeat(true, 1) + (Repeat(false, |body|) + rest)
    case Basic(units) => Repeat(true, 1) + (Repeat(false, |UnitsText('"', units)|) + (Repeat(true, 1) + rest))
    case Literal(body) => Repeat(true, 1) + (Repeat(false, |body|) + (Repeat(true, 1) + rest))
    case MultiBasic(units, extra) =>
      Repeat(true, 3) + (Repeat(false, |UnitsText('"', units)|) + (Repeat(true, 3 + extra) + rest))
    case MultiLiteral(units, extra) =>
      Repeat(true, 3) + (Repeat(false, |UnitsText('\'', units)|) + (Repeat(true, 3 + extra) + rest))
  }

  // What may come right after a token without being read as part of it.
  predicate MayFollow(t: Token, rest: string) {
    match t
    case LastComment(_) => rest == ""
    case Basic(units) => units == [] ==> rest == "" || rest[0] != '"'
    case Literal(body) => body == "" ==> rest == "" || rest[0] != '\''
    case MultiBasic(_, _) => rest == "" || rest[0] != '"'
    case MultiLiteral(_, _) => rest == "" || rest[0] != '\''
    case _ => true
  }

  function TokensText(ts: seq<Token>): string {
    if ts == [] then "" else Written(ts[0], TokensText(ts[1..]))
  }

  function TokensStructural(ts: seq<Token>): seq<bool> {
    if ts == [] then [] else Marked(ts[0], TokensStructural(ts[1..]))
  }

  predicate WellFormed(ts: seq<Token>) {
    ts == [] || (TokenOk(ts[0]) && MayFollow(ts[0], TokensText(ts[1..])) && WellFormed(ts[1..]))
  }

  // ----- Reading one token ---------------------------------------------------

  // The mask of the rest of a text; a name for Lex that is not unfolded twice.
  function Reading(st: LexState, s: string): seq<bool> {
    Lex(st, s)
  }

  lemma StepLex(st: LexState, s: string, n: nat, b: bool, next: LexState, rest: string)
    requires s != "" && Step(st, s) == (n, b, next) && n <= |s| && rest == s[n..]
    ensures Reading(st, s) == Repeat(b, n) + Reading(next, rest)
    ensures LexEnd(st, s) == LexEnd(next, rest)
  {
  }

  lemma RunOf(q: char, n: nat, rest: string)
    requires rest == "" || rest[0] != q
    ensures Run(q, Times(q, n) + rest) == n
  {
    var s := Times(q, n) + rest;
    var r := Run(q, s);
    assert forall i :: 0 <= i < n ==> s[i] == q;
    assert n < |s| ==> s[n] == rest[0];
  }

  lemma {:induction false} ReadComment(body: string, rest: string)
    requires '\n' !in body
    ensures Reading(InComment, body + rest) == Repeat(false, |body|) + Reading(InComment, rest)
    ensures LexEnd(InComment, body + rest) == LexEnd(InComment, rest)
  {
    if body == "" {
      assert body + rest == rest;
    } else {
      var s := body + rest;
      assert s[0] == body[0] && body[0] in body;
      assert s[1..] == body[1..] + rest;
      StepLex(InComment, s, 1, false, InComment, body[1..] + rest);
      ReadComment(body[1..], rest);
      assert Repeat(false, 1) + Repeat(false, |body| - 1) == Repeat(false, |body|);
    }
  }

  lemma {:induction false} ReadLiteral(body: string, rest: string)
    requires '\'' !in body
    ensures Reading(InLiteral, body + rest) == Repeat(false, |body|) + Reading(InLiteral, rest)
    ensures LexEnd(InLiteral, body + rest) == LexEnd(InLiteral, rest)
  {
    if body == "" {
      assert body + rest == rest;
    } else {
      var s := body + rest;
      assert s[0] == body[0] && body[0] in body;
      assert s[1..] == body[1..] + rest;
      StepLex(InLiteral, s, 1, false, InLiteral, body[1..] + rest);
      ReadLiteral(body[1..], rest);
      assert Repeat(false, 1) + Repeat(false, |body| - 1) == Repeat(false, |body|);
    }
  }

  lemma RepeatJoin(b: bool, m: nat, n: nat, tail: seq<bool>)
    ensures Repeat(b, m) + (Repeat(b, n) + tail) == Repeat(b, m + n) + tail
  {
  }

  lemma ReadBasicUnit(u: Unit, tail: string)
    requires BasicUnits([u]) && tail != ""
    ensures Reading(InBasic, UnitText('"', u) + tail) == Repeat(false, |UnitText('"', u)|) + Reading(InBasic, tail)
    ensures LexEnd(InBasic, UnitText('"', u) + tail) == LexEnd(InBasic, tail)
  {
    var t := UnitText('"', u);
    assert [u][0] == u;
    assert (t + tail)[|t|..] == tail;
    StepLex(InBasic, t + tail, |t|, false, InBasic, tail);
  }

  lemma {:induction false} ReadBasic(units: seq<Unit>, rest: string)
    requires BasicUnits(units) && rest != ""
    ensures Reading(InBasic, UnitsText('"', units) + rest) ==
            Repeat(false, |UnitsText('"', units)|) + Reading(InBasic, rest)
    ensures LexEnd(InBasic, UnitsText('"', units) + rest) == LexEnd(InBasic, rest)
  {
    if units == [] {
      assert UnitsText('"', units) + rest == rest;
    } else {
      var u, more := UnitText('"', units[0]), UnitsText('"', units[1..]);
      assert UnitsText('"', units) + rest == u + (more + rest);
      ReadBasicUnit(units[0], more + rest);
      ReadBasic(units[1..], rest);
      RepeatJoin(false, |u|, |more|, Reading(InBasic, rest));
    }
  }

  // The state inside a multi-line string delimited by q.
  function InMulti(q: char): LexState {
    if q == '"' then InMultiBasic else InMultiLiteral
  }

  // A unit that does not run into quotes after it.
  predicate MultiUnit(q: char, u: Unit, tail: string) {
    match u
    case Escaped(_) => q == '"'
    case Char(c) => c != q && !(q == '"' && c == '\\')
    case Quotes(n) => 1 <= n <= 2 && tail != "" && tail[0] != q
  }

  lemma ReadMultiUnit(q: char, u: Unit, tail: string)
    requires (q == '"' || q == '\'') && MultiUnit(q, u, tail) && tail != ""
    ensures Reading(InMulti(q), UnitText(q, u) + tail) == Repeat(false, |UnitText(q, u)|) + Reading(InMulti(q), tail)
    ensures LexEnd(InMulti(q), UnitText(q, u) + tail) == LexEnd(InMulti(q), tail)
  {
    var t := UnitText(q, u);
    if u.Quotes? { RunOf(q, u.n, tail); }
    assert (t + tail)[|t|..] == tail;
    StepLex(InMulti(q), t + tail, |t|, false, InMulti(q), tail);
  }

  lemma FirstMultiUnit(q: char, units: seq<Unit>, rest: string)
    requires (q == '"' || q == '\'') && MultiUnits(q, units) && units != []
    ensures MultiUnit(q, units[0], UnitsText(q, units[1..]) + rest)
    ensures MultiUnits(q, units[1..])
  {
    forall i | 0 <= i < |units[1..]|
      ensures MultiUnitOk(q, units[1..], i)
    {
      assert MultiUnitOk(q, units, i + 1);
    }
    assert MultiUnitOk(q, units, 0);
    if units[0].Quotes? {
      assert MultiUnitOk(q, units, 1);
      assert UnitText(q, units[1])[0] != q;
      assert units[1..][0] == units[1];
      assert (UnitsText(q, units[1..]) + rest)[0] == UnitText(q, units[1])[0];
    }
  }

  lemma {:induction false} ReadMulti(q: char, units: seq<Unit>, rest: string)
    requires (q == '"' || q == '\'') && MultiUnits(q, units) && rest != ""
    ensures Reading(InMulti(q), UnitsText(q, units) + rest) ==
            Repeat(false, |UnitsText(q, units)|) + Reading(InMulti(q), rest)
    ensures LexEnd(InMulti(q), UnitsText(q, units) + rest) == LexEnd(InMulti(q), rest)
  {
    hide Reading, LexEnd, MultiUnits, MultiUnit, UnitText;
    if units == [] {
      assert UnitsText(q, units) + rest == rest;
    } else {
      var u, more := UnitText(q, units[0]), UnitsText(q, units[1..]);
      assert UnitsText(q, units) + rest == u + (more + rest);
      FirstMultiUnit(q, units, rest);
      ReadMultiUnit(q, units[0], more + rest);
      ReadMulti(q, units[1..], rest);
      RepeatJoin(false, |u|, |more|, Reading(InMulti(q), rest));
    }
  }

  lemma ReadCommentToken(body: string, rest: string)
    requires '\n' !in body
    ensures Reading(Normal, Written(Comment(body), rest)) == Marked(Comment(body), Reading(Normal, rest))
  {
    var s, after := Written(Comment(body), rest), "\n" + rest;
    assert s[1..] == body + after && after[1..] == rest;
    StepLex(Normal, s, 1, true, InComment, body + after);
    ReadComment(body, after);
    StepLex(InComment, after, 1, true, Normal, rest);
  }

  lemma ReadLastComment(body: string)
    requires '\n' !in body
    ensures Reading(Normal, Written(LastComment(body), "")) == Marked(LastComment(body), Reading(Normal, ""))
  {
    var s := Written(LastComment(body), "");
    assert s[1..] == body + "";
    StepLex(Normal, s, 1, true, InComment, body + "");
    ReadComment(body, "");
    assert Reading(InComment, "") == [] == Reading(Normal, "");
  }

  lemma ReadPlain(c: char, rest: string)
    requires TokenOk(Plain(c))
    ensures Reading(Normal, Written(Plain(c), rest)) == Marked(Plain(c), Reading(Normal, rest))
  {
    assert (Written(Plain(c), rest))[1..] == rest;
    StepLex(Normal, Written(Plain(c), rest), 1, true, Normal, rest);
  }

  lemma ReadBasicToken(units: seq<Unit>, rest: string)
    requires TokenOk(Basic(units)) && MayFollow(Basic(units), rest)
    ensures Reading(Normal, Written(Basic(units), rest)) == Marked(Basic(units), Reading(Normal, rest))
  {
    var body, after := UnitsText('"', units), "\"" + rest;
    var s := Written(Basic(units), rest);
    assert s[1..] == body + after && after[1..] == rest;
    assert !Triple('"', s) by {
      if units != [] {
        assert UnitText('"', units[0])[0] != '"';
        assert s[1] == UnitText('"', units[0])[0];
      } else if rest != "" {
        assert s[2] == rest[0];
      }
    }
    StepLex(Normal, s, 1, true, InBasic, body + after);
    ReadBasic(units, after);
    StepLex(InBasic, after, 1, true, Normal, rest);
  }

  lemma ReadLiteralToken(body: string, rest: string)
    requires TokenOk(Literal(body)) && MayFollow(Literal(body), rest)
    ensures Reading(Normal, Written(Literal(body), rest)) == Marked(Literal(body), Reading(Normal, rest))
  {
    var after := "'" + rest;
    var s := Written(Literal(body), rest);
    assert s[1..] == body + after && after[1..] == rest;
    assert !Triple('\'', s) by {
      if body != "" {
        assert s[1] == body[0] && body[0] in body;
      } else if rest != "" {
        assert s[2] == rest[0];
      }
    }
    StepLex(Normal, s, 1, true, InLiteral, body + after);
    ReadLiteral(body, after);
    StepLex(InLiteral, after, 1, true, Normal, rest);
  }

  // Multi-line content and the run of quotes that ends it.
  lemma ReadMultiRest(q: char, units: seq<Unit>, extra: nat, rest: string)
    requires (q == '"' || q == '\'') && MultiUnits(q, units) && (rest == "" || rest[0] != q)
    ensures Reading(InMulti(q), UnitsText(q, units) + (Times(q, 3 + extra) + rest)) ==
            Repeat(false, |UnitsText(q, units)|) + (Repeat(true, 3 + extra) + Reading(Normal, rest))
  {
    var after := Times(q, 3 + extra) + rest;
    assert after[3 + extra..] == rest;
    ReadMulti(q, units, after);
    RunOf(q, 3 + extra, rest);
    StepLex(InMulti(q), after, 3 + extra, true, Normal, rest);
  }

  lemma OpenMulti(q: char, tail: string)
    requires q == '"' || q == '\''
    ensures Reading(Normal, Times(q, 3) + tail) == Repeat(true, 3) + Reading(InMulti(q), tail)
  {
    var s := Times(q, 3) + tail;
    assert s[3..] == tail;
    assert Triple(q, s);
    StepLex(Normal, s, 3, true, InMulti(q), tail);
  }

  lemma ReadMultiBasicToken(units: seq<Unit>, extra: nat, rest: string)
    requires MultiUnits('"', units) && (rest == "" || rest[0] != '"')
    ensures Reading(Normal, Written(MultiBasic(units, extra), rest)) ==
            Marked(MultiBasic(units, extra), Reading(Normal, rest))
  {
    hide Reading, UnitsText, Times, MultiUnits;
    var inner := UnitsText('"', units) + (Times('"', 3 + extra) + rest);
    OpenMulti('"', inner);
    ReadMultiRest('"', units, extra, rest);
  }

  lemma ReadMultiLiteralToken(units: seq<Unit>, extra: nat, rest: string)
    requires MultiUnits('\'', units) && (rest == "" || rest[0] != '\'')
    ensures Reading(Normal, Written(MultiLiteral(units, extra), rest)) ==
            Marked(MultiLiteral(units, extra), Reading(Normal, rest))
  {
    hide Reading, UnitsText, Times, MultiUnits;
    var inner := UnitsText('\'', units) + (Times('\'', 3 + extra) + rest);
    OpenMulti('\'', inner);
    ReadMultiRest('\'', units, extra, rest);
  }

  // A token is read as itself, whatever may follow it.
  lemma ReadToken(t: Token, rest: string)
    requires TokenOk(t) && MayFollow(t, rest)
    ensures Reading(Normal, Written(t, rest)) == Marked(t, Reading(Normal, rest))
  {
    match t
    case Plain(c) => ReadPlain(c, rest);
    case Comment(body) => ReadCommentToken(body, rest);
    case LastComment(body) => ReadLastComment(body);
    case Basic(units) => ReadBasicToken(units, rest);
    case Literal(body) => ReadLiteralToken(body, rest);
    case MultiBasic(units, extra) => ReadMultiBasicToken(units, extra, rest);
    case MultiLiteral(units, extra) => ReadMultiLiteralToken(units, extra, rest);
  }

  // The mask of a text is the structural bytes of its tokens: no byte of string
  // content or comment body is structural, except quotes that adjoin the end of
  // a multi-line string, and every other byte is.
  lemma {:induction false} MaskReadsTokens(ts: seq<Token>)
    requires WellFormed(ts)
    ensures Reading(Normal, TokensText(ts)) == TokensStructural(ts)
  {
    if ts != [] {
      ReadToken(ts[0], TokensText(ts[1..]));
      MaskReadsTokens(ts[1..]);
    }
  }

  // ----- Reading a text in two parts -----------------------------------------

  // No quote of b can extend a run of quotes that ends a.
  predicate Seam(a: string, b: string) {
    || b == "" || (b[0] != '"' && b[0] != '\'')
    || (a != "" && a[|a| - 1] != '"' && a[|a| - 1] != '\'')
  }

  predicate Closed(st: LexState) {
    st.Normal? || st.InComment?
  }

  lemma {:induction false} RunInFront(q: char, a: string, b: string)
    requires a != "" && Seam(a, b) && (q == '"' || q == '\'')
    ensures Run(q, a + b) == Run(q, a)
  {
    var s := a + b;
    assert s[0] == a[0] && s[1..] == a[1..] + b;
    if a[0] == q {
      if |a| == 1 {
        assert s[1..] == b && a[1..] == "";
      } else {
        RunInFront(q, a[1..], b);
      }
    }
  }

  lemma StepInFront(st: LexState, a: string, b: string)
    requires a != "" && Seam(a, b)
    requires a == "\\" ==> !st.InBasic? && !st.InMultiBasic?
    ensures Step(st, a + b) == Step(st, a)
  {
    RunInFront('"', a, b);
    RunInFront('\'', a, b);
    var s := a + b;
    assert s[0] == a[0];
    assert |a| > 1 ==> s[1] == a[1];
    assert |a| > 2 ==> s[2] == a[2];
    if |a| == 1 && |s| > 1 { assert s[1] == b[0]; }
    if |a| == 2 && |s| > 2 { assert s[2] == b[0]; }
  }

  lemma LoneBackslash(st: LexState)
    requires st.InBasic? || st.InMultiBasic?
    ensures LexEnd(st, "\\") == st
  {
    StepLex(st, "\\", 1, false, st, "");
  }

  lemma ClosedStep(st: LexState, a: string, b: string)
    requires a != "" && Seam(a, b) && Closed(LexEnd(st, a))
    ensures Step(st, a + b) == Step(st, a)
    ensures var n := Step(st, a).0; a[n..] != "" ==> Seam(a[n..], b)
  {
    if st.InBasic? || st.InMultiBasic? { LoneBackslash(st); }
    StepInFront(st, a, b);
    var n := Step(st, a).0;
    assert a[n..] != "" ==> a[n..][|a[n..]| - 1] == a[|a| - 1];
  }

  // A text that ends outside every string is read the same in front of other
  // text, unless quotes meet at the seam.
  lemma {:induction false} LexConcat(st: LexState, a: string, b: string)
    requires Seam(a, b) && Closed(LexEnd(st, a))
    ensures Reading(st, a + b) == Reading(st, a) + Reading(LexEnd(st, a), b)
    ensures LexEnd(st, a + b) == LexEnd(LexEnd(st, a), b)
    decreases |a|
  {
    hide Step, Seam, Reading, LexEnd, Closed;
    if a == "" {
      assert a + b == b;
      NothingRead(st);
    } else {
      ClosedStep(st, a, b);
      var (n, mark, next) := Step(st, a);
      var rest := a[n..];
      assert (a + b)[n..] == rest + b;
      StepLex(st, a + b, n, mark, next, rest + b);
      StepLex(st, a, n, mark, next, rest);
      if rest == "" {
        assert rest + b == b;
        NothingRead(next);
        assert Reading(st, a) == Repeat(mark, n);
      } else {
        LexConcat(next, rest, b);
        Regroup(Repeat(mark, n), Reading(next, rest), Reading(LexEnd(st, a), b));
      }
    }
  }

  lemma NothingRead(st: LexState)
    ensures Reading(st, "") == [] && LexEnd(st, "") == st
  {
  }

  // A newline never leaves the lexer inside a comment.
  lemma {:induction false} NewlineEndsComment(st: LexState, a: string)
    requires a != "" && a[|a| - 1] == '\n' && Closed(LexEnd(st, a))
    ensures LexEnd(st, a) == Normal
    decreases |a|
  {
    var (n, mark, next) := Step(st, a);
    if a[n..] != "" {
      assert a[n..][|a[n..]| - 1] == a[|a| - 1];
      NewlineEndsComment(next, a[n..]);
    }
  }

  // ----- Every text has a reading --------------------------------------------

  lemma {:induction false} FindComment(s: string) returns (body: string, rest: string, last: bool)
    requires Closed(LexEnd(InComment, s))
    ensures '\n' !in body && (last ==> rest == "")
    ensures s == if last then body else body + ("\n" + rest)
    ensures |rest| <= |s| && (!last ==> LexEnd(Normal, rest) == LexEnd(InComment, s))
    decreases |s|
  {
    if s == "" {
      body, rest, last := "", "", true;
    } else if s[0] == '\n' {
      body, rest, last := "", s[1..], false;
    } else {
      body, rest, last := FindComment(s[1..]);
      assert s == [s[0]] + s[1..];
      body := [s[0]] + body;
    }
  }

  lemma {:induction false} FindLiteral(s: string) returns (body: string, rest: string)
    requires Closed(LexEnd(InLiteral, s))
    ensures '\'' !in body && s == body + ("'" + rest)
    ensures LexEnd(Normal, rest) == LexEnd(InLiteral, s)
    decreases |s|
  {
    if s[0] == '\'' {
      body, rest := "", s[1..];
    } else {
      body, rest := FindLiteral(s[1..]);
      assert s == [s[0]] + s[1..];
      body := [s[0]] + body;
    }
  }

  lemma FirstUnit(q: char, u: Unit, units: seq<Unit>, s: string, tail: string)
    requires s == UnitText(q, u) + (UnitsText(q, units) + tail)
    ensures s == UnitsText(q, [u] + units) + tail
  {
    assert ([u] + units)[1..] == units;
  }

  lemma {:induction false} FindBasic(s: string) returns (units: seq<Unit>, rest: string)
    requires Closed(LexEnd(InBasic, s))
    ensures BasicUnits(units) && s == UnitsText('"', units) + ("\"" + rest)
    ensures LexEnd(Normal, rest) == LexEnd(InBasic, s)
    decreases |s|
  {
    if s[0] == '"' {
      units, rest := [], s[1..];
    } else {
      var escaped := s[0] == '\\' && |s| > 1;
      var n, u := if escaped then 2 else 1, if escaped then Escaped(s[1]) else Char(s[0]);
      LoneBackslash(InBasic);
      assert s == "\\" || u.Escaped? || s[0] != '\\';
      var more;
      more, rest := FindBasic(s[n..]);
      assert s == UnitText('"', u) + s[n..];
      FirstUnit('"', u, more, s, "\"" + rest);
      units := [u] + more;
    }
  }

  // The unit at the front of a multi-line string that does not end there.
  lemma FindMultiUnit(q: char, s: string) returns (u: Unit, rest: string)
    requires (q == '"' || q == '\'') && Closed(LexEnd(InMulti(q), s)) && Run(q, s) < 3
    ensures s == UnitText(q, u) + rest && |rest| < |s| && LexEnd(InMulti(q), s) == LexEnd(InMulti(q), rest)
    ensures s[0] == q <==> u.Quotes?
    ensures match u
            case Escaped(_) => q == '"'
            case Char(c) => c != q && !(q == '"' && c == '\\')
            case Quotes(n) => 1 <= n <= 2 && rest != "" && rest[0] != q
  {
    var r := Run(q, s);
    if r > 0 {
      u, rest := Quotes(r), s[r..];
      assert s[..r] == Times(q, r);
      assert s == s[..r] + rest;
      NothingRead(InMulti(q));
    } else if q == '"' && s[0] == '\\' {
      LoneBackslash(InMultiBasic);
      assert |s| == 1 ==> s == "\\";
      u, rest := Escaped(s[1]), s[2..];
    } else {
      u, rest := Char(s[0]), s[1..];
    }
  }

  lemma FindMultiEnd(q: char, s: string) returns (extra: nat, rest: string)
    requires (q == '"' || q == '\'') && Run(q, s) >= 3
    ensures s == Times(q, 3 + extra) + rest && (rest == "" || rest[0] != q) && |rest| < |s|
    ensures LexEnd(Normal, rest) == LexEnd(InMulti(q), s)
  {
    var r := Run(q, s);
    extra, rest := r - 3, s[r..];
    assert s[..r] == Times(q, r);
    assert s == s[..r] + rest;
  }

  // The content of a multi-line string up to the run of quotes that ends it.
  lemma {:induction false} FindMulti(q: char, s: string) returns (units: seq<Unit>, extra: nat, rest: string)
    requires (q == '"' || q == '\'') && Closed(LexEnd(InMulti(q), s))
    ensures MultiUnits(q, units) && s == UnitsText(q, units) + (Times(q, 3 + extra) + rest)
    ensures rest == "" || rest[0] != q
    ensures LexEnd(Normal, rest) == LexEnd(InMulti(q), s)
    ensures s != "" && s[0] != q ==> units != [] && !units[0].Quotes?
    decreases |s|
  {
    hide LexEnd, Times, UnitText;
    if Run(q, s) >= 3 {
      units := [];
      extra, rest := FindMultiEnd(q, s);
    } else {
      var u, tail := FindMultiUnit(q, s);
      var more;
      more, extra, rest := FindMulti(q, tail);
      FirstUnit(q, u, more, s, Times(q, 3 + extra) + rest);
      MoreMulti(q, u, more);
      units := [u] + more;
    }
  }

  lemma MoreMulti(q: char, u: Unit, more: seq<Unit>)
    requires MultiUnits(q, more) && MultiUnitOk(q, [u] + more, 0)
    ensures MultiUnits(q, [u] + more)
  {
    forall i | 0 <= i < |more| + 1
      ensures MultiUnitOk(q, [u] + more, i)
    {
      if i > 0 { assert MultiUnitOk(q, more, i - 1); }
    }
  }

  // The state behind what opens a token.
  lemma OpenToken(s: string, n: nat, next: LexState)
    requires s != "" && n <= |s| && Step(Normal, s) == (n, true, next)
    ensures LexEnd(Normal, s) == LexEnd(next, s[n..])
  {
  }

  lemma FindMultiToken(q: char, tail: string) returns (t: Token, rest: string)
    requires (q == '"' || q == '\'') && Closed(LexEnd(InMulti(q), tail))
    ensures TokenOk(t) && MayFollow(t, rest) && Times(q, 3) + tail == Written(t, rest)
    ensures |rest| <= |tail| && Closed(LexEnd(Normal, rest))
  {
    hide LexEnd, UnitsText, MultiUnits, Times, Closed;
    var units, extra, more := FindMulti(q, tail);
    t, rest := if q == '"' then MultiBasic(units, extra) else MultiLiteral(units, extra), more;
  }

  // A text that opens a multi-line string.
  lemma OpenMultiToken(q: char, s: string)
    requires (q == '"' || q == '\'') && Triple(q, s)
    ensures s == Times(q, 3) + s[3..] && LexEnd(Normal, s) == LexEnd(InMulti(q), s[3..])
  {
    OpenToken(s, 3, InMulti(q));
    assert s[..3] == Times(q, 3) && s == s[..3] + s[3..];
  }

  // The token at the front of a text.
  lemma FindToken(s: string) returns (t: Token, rest: string)
    requires s != "" && Closed(LexEnd(Normal, s))
    ensures TokenOk(t) && MayFollow(t, rest) && s == Written(t, rest)
    ensures |rest| < |s| && Closed(LexEnd(Normal, rest))
  {
    var tail := s[1..];
    assert s == [s[0]] + tail;
    if Triple('"', s) {
      OpenMultiToken('"', s);
      t, rest := FindMultiToken('"', s[3..]);
    } else if Triple('\'', s) {
      OpenMultiToken('\'', s);
      t, rest := FindMultiToken('\'', s[3..]);
    } else {
      OpenToken(s, 1, Step(Normal, s).2);
      hide LexEnd, UnitsText, BasicUnits;
      if s[0] == '#' {
        t, rest := FindCommentToken(tail);
      } else if s[0] == '"' {
        t, rest := FindBasicToken(tail);
      } else if s[0] == '\'' {
        t, rest := FindLiteralToken(tail);
      } else {
        t, rest := Plain(s[0]), tail;
      }
    }
  }

  lemma FindCommentToken(tail: string) returns (t: Token, rest: string)
    requires Closed(LexEnd(InComment, tail))
    ensures TokenOk(t) && MayFollow(t, rest) && "#" + tail == Written(t, rest)
    ensures |rest| <= |tail| && Closed(LexEnd(Normal, rest))
  {
    NothingRead(Normal);
    hide LexEnd;
    var body, more, last := FindComment(tail);
    t, rest := if last then LastComment(body) else Comment(body), more;
    assert last ==> body + rest == body;
  }

  lemma FindBasicToken(tail: string) returns (t: Token, rest: string)
    requires Closed(LexEnd(InBasic, tail)) && !Triple('"', "\"" + tail)
    ensures TokenOk(t) && MayFollow(t, rest) && "\"" + tail == Written(t, rest)
    ensures |rest| <= |tail| && Closed(LexEnd(Normal, rest))
  {
    hide LexEnd;
    var units, more := FindBasic(tail);
    t, rest := Basic(units), more;
    if units == [] {
      assert tail == "\"" + rest;
      assert ("\"" + tail)[1] == '"' && (rest != "" ==> ("\"" + tail)[2] == rest[0]);
    }
  }

  lemma FindLiteralToken(tail: string) returns (t: Token, rest: string)
    requires Closed(LexEnd(InLiteral, tail)) && !Triple('\'', "'" + tail)
    ensures TokenOk(t) && MayFollow(t, rest) && "'" + tail == Written(t, rest)
    ensures |rest| <= |tail| && Closed(LexEnd(Normal, rest))
  {
    hide LexEnd;
    var body, more := FindLiteral(tail);
    t, rest := Literal(body), more;
    if body == "" {
      assert tail == "'" + rest;
      assert ("'" + tail)[1] == '\'' && (rest != "" ==> ("'" + tail)[2] == rest[0]);
    }
  }

  // Every text that ends outside strings is the text of some tokens.
  lemma {:induction false} EveryTextHasTokens(s: string) returns (ts: seq<Token>)
    requires Closed(LexEnd(Normal, s))
    ensures WellFormed(ts) && TokensText(ts) == s
    decreases |s|
  {
    if s == "" {
      ts := [];
    } else {
      var t, rest := FindToken(s);
      var more := EveryTextHasTokens(rest);
      ts := [t] + more;
      assert ts[1..] == more;
    }
  }
}
