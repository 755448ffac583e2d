// The hook blocks the installer prints, and what the scanner reads in each of
// their lines.
module CodexBlocks {
  import opened Common
  import opened Strings
  import opened TomlMask
  import opened TomlTokens
  import opened CodexLines

  // ----- Printing ------------------------------------------------------------

  function HexDigit(n: nat): char
    requires n < 16
  {
    "0123456789abcdef"[n]
  }

  function HexUnits(n: nat, digits: nat): seq<Unit> {
    if digits == 0 then [] else HexUnits(n / 16, digits - 1) + [Char(HexDigit(n % 16))]
  }

  // strconv.Quote of one character; `printable` is unicode.IsPrint.
  function QuoteChar(printable: char -> bool, c: char): seq<Unit> {
    if c == '"' || c == '\\' then [Escaped(c)]
    else if c == '\n' then [Escaped('n')]
    else if printable(c) then [Char(c)]
    else if c == '\U{0007}' then [Escaped('a')]
    else if c == '\U{0008}' then [Escaped('b')]
    else if c == '\U{000C}' then [Escaped('f')]
    else if c == '\r' then [Escaped('r')]
    else if c == '\t' then [Escaped('t')]
    else if c == '\U{000B}' then [Escaped('v')]
    else if c as int < 0x80 then [Escaped('x')] + HexUnits(c as int, 2)
    else if c as int < 0x10000 then [Escaped('u')] + HexUnits(c as int, 4)
    else [Escaped('U')] + HexUnits(c as int, 8)
  }

  function QuoteUnits(printable: char -> bool, s: string): seq<Unit> {
    if s == "" then [] else QuoteChar(printable, s[0]) + QuoteUnits(printable, s[1..])
  }

  function Quote(printable: char -> bool, s: string): string {
    "\"" + (UnitsText('"', QuoteUnits(printable, s)) + "\"")
  }

  // What a block says: the event, its commands (no Windows line when empty),
  // and whether the newline before it was added with it.
  datatype Block = Block(event: string, command: string, windows: string, lent: bool)

  // The header that opens an event's group, and the one of its handlers.
  function GroupHeader(e: string): string {
    "[[hooks." + e + "]]"
  }

  function HandlersHeader(e: string): string {
    "[[hooks." + e + ".hooks]]"
  }

  function BlockLines(printable: char -> bool, b: Block): seq<string> {
    [MARKER,
     META_PREFIX + (if b.lent then "true" else "false"),
     GroupHeader(b.event),
     "matcher = \"\"",
     "",
     HandlersHeader(b.event),
     "type = \"command\"",
     "command = " + Quote(printable, b.command)] +
    (if b.windows == "" then [] else ["commandWindows = " + Quote(printable, b.windows)])
  }

  function JoinLines(ls: seq<string>): string {
    if ls == [] then "" else (ls[0] + "\n") + JoinLines(ls[1..])
  }

  // renderAOTWithWindows, after the newline it may add in front.
  function BlockText(printable: char -> bool, b: Block): string {
    JoinLines(BlockLines(printable, b))
  }

  // ----- Quoted text ---------------------------------------------------------

  lemma {:induction false} HexUnitsBasic(n: nat, digits: nat)
    ensures BasicUnits(HexUnits(n, digits)) && OneLine(HexUnits(n, digits))
  {
    if digits > 0 {
      HexUnitsBasic(n / 16, digits - 1);
      assert HexDigit(n % 16) in "0123456789abcdef";
    }
  }

  // No unit is a raw newline.
  predicate OneLine(units: seq<Unit>) {
    forall i :: 0 <= i < |units| ==>
      (units[i].Char? ==> units[i].c != '\n') && (units[i].Escaped? ==> units[i].c != '\n') && !units[i].Quotes?
  }

  lemma {:induction false} QuoteIsBasic(printable: char -> bool, s: string)
    ensures BasicUnits(QuoteUnits(printable, s)) && OneLine(QuoteUnits(printable, s))
  {
    hide QuoteChar, BasicUnits, OneLine;
    if s == "" {
      NothingIsBasic();
    } else {
      QuoteIsBasic(printable, s[1..]);
      QuoteCharIsBasic(printable, s[0]);
      BasicJoin(QuoteChar(printable, s[0]), QuoteUnits(printable, s[1..]));
    }
  }

  lemma NothingIsBasic()
    ensures BasicUnits([]) && OneLine([])
  {
  }

  lemma BasicJoin(a: seq<Unit>, b: seq<Unit>)
    requires BasicUnits(a) && OneLine(a) && BasicUnits(b) && OneLine(b)
    ensures BasicUnits(a + b) && OneLine(a + b)
  {
  }

  lemma QuoteCharIsBasic(printable: char -> bool, c: char)
    ensures BasicUnits(QuoteChar(printable, c)) && OneLine(QuoteChar(printable, c))
  {
    if !printable(c) {
      HexUnitsBasic(c as int, 2);
      HexUnitsBasic(c as int, 4);
      HexUnitsBasic(c as int, 8);
    }
    hide HexUnits;
  }

  lemma {:induction false} UnitsOneLine(units: seq<Unit>)
    requires OneLine(units)
    ensures '\n' !in UnitsText('"', units)
  {
    if units != [] {
      assert OneLine(units[1..]) by {
        assert forall i :: 0 <= i < |units[1..]| ==> units[1..][i] == units[i + 1];
      }
      UnitsOneLine(units[1..]);
      assert '\n' !in UnitText('"', units[0]);
    }
  }

  // ----- Reading text that ends outside strings ------------------------------

  predicate PlainText(p: string) {
    forall i :: 0 <= i < |p| ==> p[i] != '#' && p[i] != '"' && p[i] != '\''
  }

  lemma {:induction false} EndAfterPlain(p: string, rest: string)
    requires PlainText(p)
    ensures LexEnd(Normal, p + rest) == LexEnd(Normal, rest)
  {
    if p == "" {
      assert p + rest == rest;
    } else {
      assert (p + rest)[1..] == p[1..] + rest;
      StepLex(Normal, p + rest, 1, true, Normal, p[1..] + rest);
      EndAfterPlain(p[1..], rest);
    }
  }

  lemma NotTriple(units: seq<Unit>, rest: string)
    requires BasicUnits(units) && (rest == "" || rest[0] != '"')
    ensures !Triple('"', ("\"" + (UnitsText('"', units) + "\"")) + rest)
  {
    var s := ("\"" + (UnitsText('"', units) + "\"")) + rest;
    if units != [] {
      assert UnitText('"', units[0])[0] != '"';
      assert s[1] == UnitText('"', units[0])[0];
    } else if rest != "" {
      assert s[2] == rest[0];
    }
  }

  lemma QuoteSteps(s: string, t: string)
    requires s != "" && s[0] == '"' && !Triple('"', s) && t != "" && t[0] == '"'
    ensures Step(Normal, s) == (1, true, InBasic) && Step(InBasic, t) == (1, true, Normal)
  {
  }

  lemma EndAfterQuoted(units: seq<Unit>, rest: string)
    requires BasicUnits(units) && (rest == "" || rest[0] != '"')
    ensures LexEnd(Normal, ("\"" + (UnitsText('"', units) + "\"")) + rest) == LexEnd(Normal, rest)
  {
    var body, after := UnitsText('"', units), "\"" + rest;
    var s := ("\"" + (body + "\"")) + rest;
    hide UnitsText, BasicUnits, Triple, Step, LexEnd, Reading;
    NotTriple(units, rest);
    assert s[1..] == body + after && after[1..] == rest;
    QuoteSteps(s, after);
    StepLex(Normal, s, 1, true, InBasic, body + after);
    ReadBasic(units, after);
    StepLex(InBasic, after, 1, true, Normal, rest);
  }

  // A line whose newline the lexer reads outside strings and comments.
  predicate Settled(line: string) {
    '\n' !in line && LexEnd(Normal, line + "\n") == Normal
  }

  lemma PlainLineSettled(p: string)
    requires PlainText(p) && '\n' !in p
    ensures Settled(p)
  {
    EndAfterPlain(p, "\n");
    StepLex(Normal, "\n", 1, true, Normal, "");
  }

  lemma QuotedLineSettled(p: string, units: seq<Unit>)
    requires PlainText(p) && '\n' !in p && BasicUnits(units) && OneLine(units)
    ensures Settled(p + ("\"" + (UnitsText('"', units) + "\"")))
  {
    var q := "\"" + (UnitsText('"', units) + "\"");
    UnitsOneLine(units);
    assert (p + q) + "\n" == p + (q + "\n");
    EndAfterPlain(p, q + "\n");
    EndAfterQuoted(units, "\n");
    StepLex(Normal, "\n", 1, true, Normal, "");
  }

  lemma CommentLineSettled(body: string)
    requires '\n' !in body
    ensures Settled("#" + body)
  {
    var s, after := ("#" + body) + "\n", "\n" + "";
    assert s[1..] == body + after && after[1..] == "";
    StepLex(Normal, s, 1, true, InComment, body + after);
    ReadComment(body, after);
    StepLex(InComment, after, 1, true, Normal, "");
  }

  lemma FirstByteOutside(s: string)
    requires s != ""
    ensures Lex(Normal, s)[0]
  {
  }

  // ----- Comments and headers of printed lines -------------------------------

  lemma {:induction false} PlainHasNoComment(p: string, rest: string)
    requires PlainText(p)
    ensures CommentAt(p + rest, None, false) == |p| + CommentAt(rest, None, false)
  {
    if p == "" {
      assert p + rest == rest;
    } else {
      assert (p + rest)[1..] == p[1..] + rest;
      PlainHasNoComment(p[1..], rest);
    }
  }

  lemma {:induction false} UnitsHaveNoComment(units: seq<Unit>, rest: string)
    requires BasicUnits(units)
    ensures CommentAt(UnitsText('"', units) + rest, Some('"'), false) ==
            |UnitsText('"', units)| + CommentAt(rest, Some('"'), false)
  {
    if units == [] {
      assert UnitsText('"', units) + rest == rest;
    } else {
      var u, more := UnitText('"', units[0]), UnitsText('"', units[1..]);
      assert UnitsText('"', units) + rest == u + (more + rest);
      UnitHasNoComment(units[0], more + rest);
      UnitsHaveNoComment(units[1..], rest);
    }
  }

  lemma UnitHasNoComment(unit: Unit, rest: string)
    requires BasicUnits([unit])
    ensures CommentAt(UnitText('"', unit) + rest, Some('"'), false) == |UnitText('"', unit)| + CommentAt(rest, Some('"'), false)
  {
    var u := UnitText('"', unit);
    var s := u + rest;
    assert [unit][0] == unit;
    assert s[0] == u[0] && s[1..] == u[1..] + rest;
    if unit.Escaped? {
      assert s[1..][0] == u[1] && s[1..][1..] == rest;
    } else {
      assert s[1..] == rest;
    }
  }

  lemma QuotedLineHasNoComment(p: string, units: seq<Unit>)
    requires PlainText(p) && BasicUnits(units)
    ensures var line := p + ("\"" + (UnitsText('"', units) + "\"")); Code(line) == line && CommentOf(line) == ""
  {
    var body := UnitsText('"', units);
    var q := "\"" + (body + "\"");
    PlainHasNoComment(p, q);
    assert q[1..] == body + "\"";
    UnitsHaveNoComment(units, "\"");
    assert "\""[1..] == "";
  }

  lemma TrimIdentity(s: string)
    requires s == "" || (!IsSpace(s[0]) && !IsSpace(s[|s| - 1]))
    ensures TrimSpace(s) == s
  {
  }

  lemma {:induction false} TrimRightFirst(s: string)
    requires s != "" && !IsSpace(s[0])
    ensures TrimRight(s) != "" && TrimRight(s)[0] == s[0]
  {
    if IsSpace(s[|s| - 1]) {
      TrimRightFirst(s[..|s| - 1]);
    }
  }

  // What a line that starts with a letter and carries no comment can mean.
  lemma CodeLineFact(line: Line, m: seq<bool>)
    requires line.text != "" && |line.text| <= |m| && m[0]
    requires 'a' <= line.text[0] <= 'z' && CommentOf(line.text) == ""
    ensures var f := FactOf(line, m);
            !f.marker && !f.trailing && !f.meta && f.prefix.None? && f.header.None? && f.code
  {
    var s := line.text;
    TrimKeepsFirst(s);
    assert TrimSpace("") == "";
    hide TrimSpace, AssignsInline;
    assert Code(s) == s;
    assert (META_PREFIX + "true")[0] == '#' && (META_PREFIX + "false")[0] == '#' && MARKER[0] == '#';
  }

  lemma TrimKeepsFirst(s: string)
    requires s != "" && 'a' <= s[0] <= 'z'
    ensures TrimSpace(s) != "" && TrimSpace(s)[0] == s[0]
  {
    assert !IsSpace(s[0]);
    TrimRightFirst(s);
  }
}
