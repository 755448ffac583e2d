// What the scanner reads in text put together from parts, and in each line of a
// printed hook block.
module CodexFacts {
  import opened Common
  import opened Strings
  import opened TomlMask
  import opened TomlTokens
  import opened CodexLines
  import opened CodexBlocks

  // ----- Lines of text put together ------------------------------------------

  // Text after which a new line starts.
  predicate WholeLines(s: string) {
    s == "" || s[|s| - 1] == '\n'
  }

  // The lines of a text.
  function SourceLines(s: string, at: nat): seq<Line> {
    Lines(s, at)
  }

  lemma LinesStep(s: string, at: nat, n: nat, rest: string)
    requires n < |s| && s[n] == '\n' && '\n' !in s[..n] && rest == s[n + 1..]
    ensures SourceLines(s, at) == [Line(at, at + n + 1, s[..n])] + SourceLines(rest, at + n + 1)
  {
    IndexIs(s, '\n', n);
  }

  lemma LinesLast(s: string, at: nat)
    requires s != "" && '\n' !in s
    ensures SourceLines(s, at) == [Line(at, at + |s|, s)]
  {
    IndexNone(s, '\n');
  }

  predicate LineInside(l: Line, at: nat, end: nat) {
    at <= l.start && l.start + |l.text| <= l.full <= end && l.start < l.full
  }

  predicate LinesWithin(ls: seq<Line>, at: nat, end: nat) {
    forall l :: l in ls ==> LineInside(l, at, end)
  }

  predicate LinesFollow(ls: seq<Line>, at: nat) {
    forall l :: l in ls ==> at <= l.start
  }

  lemma {:induction false} LinesInside(s: string, at: nat)
    ensures LinesWithin(SourceLines(s, at), at, at + |s|)
    decreases |s|
  {
    if s == "" {
    } else if '\n' !in s {
      LinesLast(s, at);
    } else {
      var n := IndexOf(s, '\n');
      LinesStep(s, at, n, s[n + 1..]);
      LinesInside(s[n + 1..], at + n + 1);
    }
  }

  lemma {:induction false} LinesConcat(a: string, b: string, at: nat)
    requires WholeLines(a)
    ensures SourceLines(a + b, at) == SourceLines(a, at) + SourceLines(b, at + |a|)
    decreases |a|
  {
    if a == "" {
      NoLines(at);
      assert a + b == b;
    } else {
      var n, rest := FirstBreak(a);
      LinesConcat(rest, b, at + n + 1);
      LinesConcatStep(a, b, at, n, rest);
    }
  }

  lemma NoLines(at: nat)
    ensures SourceLines("", at) == []
  {
  }

  lemma LinesConcatStep(a: string, b: string, at: nat, n: nat, rest: string)
    requires n < |a| && a[n] == '\n' && '\n' !in a[..n] && rest == a[n + 1..]
    requires SourceLines(rest + b, at + n + 1) ==
             SourceLines(rest, at + n + 1) + SourceLines(b, at + n + 1 + |rest|)
    ensures SourceLines(a + b, at) == SourceLines(a, at) + SourceLines(b, at + |a|)
  {
    hide SourceLines;
    assert (a + b)[..n] == a[..n] && (a + b)[n + 1..] == rest + b;
    LinesStep(a, at, n, rest);
    LinesStep(a + b, at, n, rest + b);
    Reassociate([Line(at, at + n + 1, a[..n])], SourceLines(rest, at + n + 1), SourceLines(b, at + |a|));
  }

  lemma FirstBreak(a: string) returns (n: nat, rest: string)
    requires WholeLines(a) && a != ""
    ensures n < |a| && a[n] == '\n' && '\n' !in a[..n] && rest == a[n + 1..] && WholeLines(rest)
  {
    assert '\n' in a;
    n := IndexOf(a, '\n');
    rest := a[n + 1..];
    assert rest != "" ==> rest[|rest| - 1] == a[|a| - 1];
  }

  lemma WholeLinesRead(a: string, b: string)
    requires WholeLines(a) && Closed(LexEnd(Normal, a))
    ensures LexEnd(Normal, a) == Normal
    ensures Reading(Normal, a + b) == Reading(Normal, a) + Reading(Normal, b)
    ensures LexEnd(Normal, a + b) == LexEnd(Normal, b)
  {
    if a == "" {
      assert a + b == b;
    } else {
      NewlineEndsComment(Normal, a);
      LexConcat(Normal, a, b);
    }
  }

  // The facts of a text that begins at offset `at`, outside strings.
  function TextFacts(s: string, at: nat): seq<Fact> {
    Facts(SourceLines(s, at), Reading(Normal, s), at)
  }

  lemma SliceLeft(l: Line, x: seq<bool>, y: seq<bool>, at: nat)
    requires LineInside(l, at, at + |x|)
    ensures Slice(x + y, l, at) == Slice(x, l, at)
  {
    assert (x + y)[l.start - at..l.start - at + |l.text|] == x[l.start - at..l.start - at + |l.text|];
  }

  lemma SliceRight(l: Line, x: seq<bool>, y: seq<bool>, at: nat)
    requires at + |x| <= l.start
    ensures Slice(x + y, l, at) == Slice(y, l, at + |x|)
  {
    if l.start - at + |l.text| <= |x + y| {
      assert (x + y)[l.start - at..l.start - at + |l.text|] ==
             y[l.start - at - |x|..l.start - at - |x| + |l.text|];
    }
  }

  lemma FactsLeft(lines: seq<Line>, more: seq<Line>, x: seq<bool>, y: seq<bool>, at: nat, mid: nat)
    requires mid == at + |x| && LinesWithin(lines, at, mid) && LinesFollow(more, mid)
    ensures Facts(lines + more, x + y, at) == Facts(lines, x, at) + Facts(more, y, mid)
  {
    hide FactOf, Slice;
    forall i | 0 <= i < |lines|
      ensures Slice(x + y, lines[i], at) == Slice(x, lines[i], at)
    {
      assert LineInside(lines[i], at, mid);
      SliceLeft(lines[i], x, y, at);
    }
    forall i | 0 <= i < |more|
      ensures Slice(x + y, more[i], at) == Slice(y, more[i], mid)
    {
      assert mid <= more[i].start;
      SliceRight(more[i], x, y, at);
    }
  }

  lemma LinesBeyond(b: string, mid: nat)
    ensures LinesFollow(SourceLines(b, mid), mid)
  {
    LinesInside(b, mid);
    hide SourceLines;
    forall l | l in SourceLines(b, mid)
      ensures mid <= l.start
    {
      assert LineInside(l, mid, mid + |b|);
    }
  }

  lemma ReadingLength(s: string)
    ensures |Reading(Normal, s)| == |s|
  {
  }

  lemma FactsOfParts(a: string, b: string, at: nat)
    ensures Facts(SourceLines(a, at) + SourceLines(b, at + |a|), Reading(Normal, a) + Reading(Normal, b), at) ==
            TextFacts(a, at) + TextFacts(b, at + |a|)
  {
    hide SourceLines, Reading, Facts, LinesFollow, LinesWithin;
    ReadingLength(a);
    LinesInside(a, at);
    LinesBeyond(b, at + |a|);
    FactsLeft(SourceLines(a, at), SourceLines(b, at + |a|), Reading(Normal, a), Reading(Normal, b), at, at + |a|);
  }

  lemma FactsJoin(a: string, b: string, at: nat)
    requires WholeLines(a) && Reading(Normal, a + b) == Reading(Normal, a) + Reading(Normal, b)
    ensures TextFacts(a + b, at) == TextFacts(a, at) + TextFacts(b, at + |a|)
  {
    hide SourceLines, Reading, Facts;
    LinesConcat(a, b, at);
    FactsOfParts(a, b, at);
  }

  // The facts of whole lines and of what follows them are read separately.
  lemma FactsConcat(a: string, b: string, at: nat)
    requires WholeLines(a) && Closed(LexEnd(Normal, a))
    ensures TextFacts(a + b, at) == TextFacts(a, at) + TextFacts(b, at + |a|)
    ensures LexEnd(Normal, a) == Normal && LexEnd(Normal, a + b) == LexEnd(Normal, b)
  {
    hide TextFacts, LexEnd, Reading;
    WholeLinesRead(a, b);
    FactsJoin(a, b, at);
  }

  // ----- Facts do not depend on where the text is ----------------------------

  function MovedLine(l: Line, offset: nat): Line {
    Line(l.start + offset, l.full + offset, l.text)
  }

  function MovedFact(f: Fact, offset: nat): Fact {
    f.(start := f.start + offset, full := f.full + offset)
  }

  function MovedFacts(fs: seq<Fact>, offset: nat): (r: seq<Fact>)
    ensures |r| == |fs| && forall i :: 0 <= i < |fs| ==> r[i] == MovedFact(fs[i], offset)
  {
    seq(|fs|, i requires 0 <= i < |fs| => MovedFact(fs[i], offset))
  }

  lemma {:induction false} LinesMoved(s: string, at: nat, offset: nat)
    ensures MovedLines(SourceLines(s, at), SourceLines(s, at + offset), offset)
    decreases |s|
  {
    hide SourceLines;
    if s == "" {
      NoLines(at);
      NoLines(at + offset);
    } else if '\n' !in s {
      LinesLast(s, at);
      LinesLast(s, at + offset);
    } else {
      var n := IndexOf(s, '\n');
      var rest := s[n + 1..];
      var next := at + n + 1;
      LinesStep(s, at, n, rest);
      LinesStep(s, at + offset, n, rest);
      LinesMoved(rest, next, offset);
      hide IndexOf;
      assert at + offset + n + 1 == next + offset;
      MovedFirst(Line(at, next, s[..n]), SourceLines(rest, next), SourceLines(rest, next + offset), offset);
    }
  }

  lemma MovedFirst(l: Line, here: seq<Line>, there: seq<Line>, offset: nat)
    requires MovedLines(here, there, offset)
    ensures MovedLines([l] + here, [MovedLine(l, offset)] + there, offset)
  {
  }

  predicate MovedLines(here: seq<Line>, there: seq<Line>, offset: nat) {
    |there| == |here| && forall i :: 0 <= i < |here| ==> there[i] == MovedLine(here[i], offset)
  }

  lemma FactsMoved(s: string, at: nat)
    ensures TextFacts(s, at) == MovedFacts(TextFacts(s, 0), at)
  {
    LinesMoved(s, 0, at);
    LinesInside(s, 0);
    hide SourceLines, Reading;
    FactsOfMoved(SourceLines(s, 0), SourceLines(s, at), Reading(Normal, s), at);
  }

  lemma FactsOfMoved(here: seq<Line>, there: seq<Line>, m: seq<bool>, at: nat)
    requires MovedLines(here, there, at)
    requires forall l :: l in here ==> LineInside(l, 0, |m|)
    ensures Facts(there, m, at) == MovedFacts(Facts(here, m, 0), at)
  {
    forall i | 0 <= i < |here|
      ensures FactOf(there[i], Slice(m, there[i], at)) == MovedFact(FactOf(here[i], Slice(m, here[i], 0)), at)
    {
      assert LineInside(here[i], 0, |m|);
      FactMoved(here[i], m, at);
    }
  }

  lemma FactMoved(l: Line, m: seq<bool>, at: nat)
    requires LineInside(l, 0, |m|)
    ensures FactOf(MovedLine(l, at), Slice(m, MovedLine(l, at), at)) == MovedFact(FactOf(l, Slice(m, l, 0)), at)
  {
    assert Slice(m, MovedLine(l, at), at) == Slice(m, l, 0);
  }

  // ----- The facts of printed lines ------------------------------------------

  lemma OneLineFacts(line: string, at: nat)
    requires '\n' !in line
    ensures TextFacts(line + "\n", at) ==
            [FactOf(Line(at, at + |line| + 1, line), Reading(Normal, line + "\n")[..|line|])]
  {
    var s := line + "\n";
    assert s[..|line|] == line && s[|line| + 1..] == "";
    LinesStep(s, at, |line|, "");
    var l := Line(at, at + |line| + 1, line);
    assert SourceLines(s, at) == [l];
    assert Slice(Reading(Normal, s), l, at) == Reading(Normal, s)[..|line|];
  }

  // The facts of a text printed line by line.
  lemma JoinedFacts(line: string, rest: seq<string>, at: nat)
    requires Settled(line)
    ensures TextFacts(JoinLines([line] + rest), at) ==
            [FactOf(Line(at, at + |line| + 1, line), Reading(Normal, line + "\n")[..|line|])] +
            TextFacts(JoinLines(rest), at + |line| + 1)
    ensures LexEnd(Normal, JoinLines([line] + rest)) == LexEnd(Normal, JoinLines(rest))
  {
    hide TextFacts, FactOf, LexEnd, JoinLines;
    JoinStep(line, rest);
    OneLineFacts(line, at);
    FactsConcat(line + "\n", JoinLines(rest), at);
    assert |line + "\n"| == |line| + 1;
  }

  lemma JoinStep(line: string, rest: seq<string>)
    ensures JoinLines([line] + rest) == (line + "\n") + JoinLines(rest)
  {
    assert ([line] + rest)[1..] == rest;
  }

  predicate Letters(s: string) {
    forall i :: 0 <= i < |s| ==> 'a' <= s[i] <= 'z' || 'A' <= s[i] <= 'Z'
  }

  predicate Name(e: string) {
    e != "" && Letters(e)
  }

  lemma EventLetters(e: string)
    requires e in MANAGED_EVENTS
    ensures Name(e)
  {
  }

  lemma NoCommentInPlain(p: string)
    requires PlainText(p)
    ensures Code(p) == p && CommentOf(p) == ""
  {
    assert p + "" == p;
    PlainHasNoComment(p, "");
  }

  lemma TrimmedParts(parts: seq<string>)
    requires forall i :: 0 <= i < |parts| ==> parts[i] != "" && TrimSpace(parts[i]) == parts[i]
    ensures TrimAll(parts) == parts && "" !in parts
  {
  }

  // A fact is what the scanner reads in a printed line.
  predicate FactFrom(f: Fact, text: string) {
    f == FactOf(Line(f.start, f.full, text), Reading(Normal, text + "\n")[..|text|])
  }

  predicate AllSettled(ls: seq<string>) {
    forall l :: l in ls ==> Settled(l)
  }

  // The facts of printed lines, line by line.
  predicate PrintedFacts(fs: seq<Fact>, ls: seq<string>) {
    |fs| == |ls| && forall i :: 0 <= i < |ls| ==> FactFrom(fs[i], ls[i])
  }

  // The facts of printed lines, from the first line's start to the last one's end.
  lemma {:induction false} PrintedText(ls: seq<string>, at: nat)
    requires AllSettled(ls)
    ensures var fs, text := TextFacts(JoinLines(ls), at), JoinLines(ls);
            && PrintedFacts(fs, ls) && WholeLines(text) && LexEnd(Normal, text) == Normal
            && (ls != [] ==> fs[0].start == at && fs[|fs| - 1].full == at + |text|)
  {
    if ls == [] {
      NoLines(at);
    } else {
      var line, rest := ls[0], ls[1..];
      assert ls == [line] + rest && Settled(line);
      hide Settled, TextFacts, LexEnd, JoinLines, FactOf;
      PrintedText(rest, at + |line| + 1);
      JoinedFacts(line, rest, at);
      JoinStep(line, rest);
      var first := FactOf(Line(at, at + |line| + 1, line), Reading(Normal, line + "\n")[..|line|]);
      FactPlace(Line(at, at + |line| + 1, line), Reading(Normal, line + "\n")[..|line|]);
      PrintedStep(first, TextFacts(JoinLines(rest), at + |line| + 1), line, rest);
      NothingPrinted(rest);
    }
  }

  lemma NothingPrinted(ls: seq<string>)
    ensures ls == [] ==> JoinLines(ls) == ""
  {
  }

  lemma FactPlace(l: Line, m: seq<bool>)
    requires |l.text| <= |m|
    ensures FactOf(l, m).start == l.start && FactOf(l, m).full == l.full
  {
  }

  lemma PrintedStep(f: Fact, fs: seq<Fact>, line: string, ls: seq<string>)
    requires FactFrom(f, line) && PrintedFacts(fs, ls)
    ensures PrintedFacts([f] + fs, [line] + ls)
  {
  }

  // ----- What each kind of printed line means --------------------------------

  // Nothing the scanner looks for outside code.
  predicate Silent(f: Fact) {
    !f.marker && !f.trailing && !f.meta && f.prefix.None?
  }

  lemma CommentLineFact(f: Fact, text: string)
    requires FactFrom(f, text) && text != "" && text[0] == '#' && !IsSpace(text[|text| - 1])
    ensures f.column == 0 && !f.trailing && f.header.None? && !f.inlineArray && !f.code
    ensures f.marker <==> text == MARKER
    ensures f.meta <==> HasPrefix(text, META_PREFIX)
    ensures f.prefix == if text == META_PREFIX + "true" then Some(true)
                        else if text == META_PREFIX + "false" then Some(false) else None
  {
    var m := Reading(Normal, text + "\n")[..|text|];
    FirstByteOutside(text + "\n");
    assert m[0];
    TrimIdentity(text);
    assert TrimSpace("") == "";
    assert Code(text) == "";
    hide TrimSpace, Reading;
    assert ParseHeader(text).None?;
  }

  lemma BlankLineFact(f: Fact)
    requires FactFrom(f, "")
    ensures Silent(f) && f.header.None? && !f.inlineArray && !f.code
  {
    assert TrimSpace("") == "";
  }

  lemma HeaderLineFact(f: Fact, text: string, header: Header)
    requires FactFrom(f, text) && |text| >= 2 && text[0] == '[' && text[|text| - 1] == ']' && PlainText(text)
    requires ParseHeader(text) == Some(header)
    ensures Silent(f) && f.header == Some(header)
  {
    var m := Reading(Normal, text + "\n")[..|text|];
    FirstByteOutside(text + "\n");
    assert m[0];
    TrimIdentity(text);
    NoCommentInPlain(text);
    assert TrimSpace("") == "";
    assert (META_PREFIX + "true")[0] == '#' && (META_PREFIX + "false")[0] == '#' && MARKER[0] == '#';
    hide TrimSpace, Reading, ParseHeader;
  }

  lemma HeaderParses(inner: string, text: string, path: seq<string>)
    requires inner != "" && !IsSpace(inner[0]) && !IsSpace(inner[|inner| - 1]) && PlainText(inner)
    requires text == "[[" + inner + "]]" && HeaderPath(inner) == Some(path)
    ensures ParseHeader(text) == Some(Header(true, path)) && PlainText(text)
    ensures |text| >= 4 && text[0] == '[' && text[|text| - 1] == ']' && '\n' !in inner ==> '\n' !in text
  {
    assert text[..2] == "[[" && text[|text| - 2..] == "]]" && text[2..|text| - 2] == inner;
    NoCommentInPlain(text);
    TrimIdentity(text);
    TrimIdentity(inner);
  }

  lemma NameParts(e: string)
    requires Name(e)
    ensures TrimSpace(e) == e && Split(e, '.') == [e] && '.' !in e
  {
    TrimIdentity(e);
    SplitNothing(e, '.');
  }

  lemma GroupPath(e: string)
    requires Name(e)
    ensures HeaderPath("hooks" + (['.'] + e)) == Some(["hooks", e])
  {
    assert Name("hooks");
    hide HeaderPath, Split, TrimSpace, Name;
    NameParts(e);
    NameParts("hooks");
    SplitFirst("hooks", e, '.');
    EventPath("hooks" + (['.'] + e), ["hooks", e]);
  }

  lemma HandlersPath(e: string)
    requires Name(e)
    ensures HeaderPath("hooks" + (['.'] + (e + (['.'] + "hooks")))) == Some(["hooks", e, "hooks"])
  {
    assert Name("hooks");
    hide HeaderPath, Split, TrimSpace, Name;
    NameParts(e);
    NameParts("hooks");
    SplitFirst("hooks", e + (['.'] + "hooks"), '.');
    SplitFirst(e, "hooks", '.');
    EventPath("hooks" + (['.'] + (e + (['.'] + "hooks"))), ["hooks", e, "hooks"]);
  }

  lemma GroupHeaderParses(e: string)
    requires Name(e)
    ensures ParseHeader(GroupHeader(e)) == Some(Header(true, ["hooks", e])) && PlainText(GroupHeader(e))
    ensures '\n' !in GroupHeader(e)
  {
    var g := "hooks" + (['.'] + e);
    GroupPath(e);
    hide ParseHeader, HeaderPath;
    assert g[0] == 'h' && g[|g| - 1] == e[|e| - 1];
    assert GroupHeader(e) == "[[" + g + "]]";
    HeaderParses(g, GroupHeader(e), ["hooks", e]);
  }

  lemma HandlersHeaderParses(e: string)
    requires Name(e)
    ensures ParseHeader(HandlersHeader(e)) == Some(Header(true, ["hooks", e, "hooks"])) && PlainText(HandlersHeader(e))
    ensures '\n' !in HandlersHeader(e)
  {
    var h := "hooks" + (['.'] + (e + (['.'] + "hooks")));
    HandlersPath(e);
    hide ParseHeader, HeaderPath;
    assert h[0] == 'h' && h[|h| - 1] == 's';
    assert HandlersHeader(e) == "[[" + h + "]]";
    HeaderParses(h, HandlersHeader(e), ["hooks", e, "hooks"]);
  }

  lemma EventPath(inner: string, parts: seq<string>)
    requires inner != "" && Split(inner, '.') == parts
    requires forall i :: 0 <= i < |parts| ==> parts[i] != "" && TrimSpace(parts[i]) == parts[i]
    ensures HeaderPath(inner) == Some(parts)
  {
    TrimmedParts(parts);
  }

  // ----- The facts of a block ------------------------------------------------

  // What the scanner reads in a block printed at an offset.
  ghost predicate BlockShape(fs: seq<Fact>, b: Block, at: nat, end: nat) {
    && 8 <= |fs|
    && fs[0].marker && !fs[0].trailing && !fs[0].meta && fs[0].header.None? && !fs[0].inlineArray
    && fs[0].start == at && fs[0].column == 0
    && fs[1].prefix == Some(b.lent) && !fs[1].marker && !fs[1].trailing && fs[1].header.None? && !fs[1].inlineArray
    && Silent(fs[2]) && fs[2].header == Some(Header(true, ["hooks", b.event]))
    && Silent(fs[3]) && fs[3].header.None? && Silent(fs[4]) && fs[4].header.None?
    && Silent(fs[5]) && fs[5].header == Some(Header(true, ["hooks", b.event, "hooks"]))
    && (forall i :: 6 <= i < |fs| ==> Silent(fs[i]) && fs[i].header.None? && fs[i].code)
    && fs[|fs| - 1].full == end
  }

  lemma QuotedLine(key: string, printable: char -> bool, value: string)
    requires PlainText(key) && '\n' !in key && key != "" && 'a' <= key[0] <= 'z'
    ensures Settled(key + Quote(printable, value))
    ensures CommentOf(key + Quote(printable, value)) == ""
  {
    QuoteIsBasic(printable, value);
    QuotedLineSettled(key, QuoteUnits(printable, value));
    QuotedLineHasNoComment(key, QuoteUnits(printable, value));
  }

  lemma CodeFact(f: Fact, text: string)
    requires FactFrom(f, text) && text != "" && 'a' <= text[0] <= 'z' && CommentOf(text) == ""
    ensures Silent(f) && f.header.None? && f.code
  {
    FirstByteOutside(text + "\n");
    CodeLineFact(Line(f.start, f.full, text), Reading(Normal, text + "\n")[..|text|]);
  }

  function Chars(s: string): seq<Unit> {
    if s == "" then [] else [Char(s[0])] + Chars(s[1..])
  }

  lemma {:induction false} CharsText(s: string)
    requires PlainText(s) && '\n' !in s && '\\' !in s
    ensures BasicUnits(Chars(s)) && OneLine(Chars(s)) && UnitsText('"', Chars(s)) == s
  {
    if s != "" {
      CharsText(s[1..]);
      assert UnitText('"', Char(s[0])) == [s[0]];
    }
  }

  lemma TypeLine()
    ensures Settled("type = \"command\"") && CommentOf("type = \"command\"") == ""
  {
    CharsText("command");
    TypeLineOf(Chars("command"));
  }

  lemma TypeLineOf(units: seq<Unit>)
    requires BasicUnits(units) && OneLine(units) && UnitsText('"', units) == "command"
    ensures Settled("type = \"command\"") && CommentOf("type = \"command\"") == ""
  {
    hide Settled, CommentOf, BasicUnits, OneLine, UnitsText;
    assert "type = \"command\"" == "type = " + ("\"" + (UnitsText('"', units) + "\""));
    QuotedLineSettled("type = ", units);
    QuotedLineHasNoComment("type = ", units);
  }

  // A line that assigns a value: whole on its line and without a comment.
  predicate Assignment(text: string) {
    Settled(text) && text != "" && 'a' <= text[0] <= 'z' && CommentOf(text) == ""
  }

  lemma MatcherLine(printable: char -> bool)
    ensures Assignment("matcher = \"\"")
  {
    assert Quote(printable, "") == "\"\"";
    assert "matcher = \"\"" == "matcher = " + Quote(printable, "");
    QuotedLine("matcher = ", printable, "");
  }

  lemma CommandLine(key: string, printable: char -> bool, value: string)
    requires PlainText(key) && '\n' !in key && key != "" && 'a' <= key[0] <= 'z'
    ensures Assignment(key + Quote(printable, value))
  {
    QuotedLine(key, printable, value);
    hide Settled, CommentOf;
  }

  // Every printed line settles, and each is of its kind.
  predicate Printed(ls: seq<string>, b: Block) {
    && 8 <= |ls| && AllSettled(ls)
    && ls[0] == MARKER && ls[1] == META_PREFIX + (if b.lent then "true" else "false")
    && ls[2] == GroupHeader(b.event) && Assignment(ls[3]) && ls[4] == ""
    && ls[5] == HandlersHeader(b.event)
    && forall i :: 6 <= i < |ls| ==> Assignment(ls[i])
  }

  lemma CommentLinesSettled()
    ensures Settled(MARKER) && Settled(META_PREFIX + "true") && Settled(META_PREFIX + "false")
  {
    CommentLineSettled(MARKER[1..]);
    assert MARKER == "#" + MARKER[1..];
    CommentLineSettled((META_PREFIX + "true")[1..]);
    assert META_PREFIX + "true" == "#" + (META_PREFIX + "true")[1..];
    CommentLineSettled((META_PREFIX + "false")[1..]);
    assert META_PREFIX + "false" == "#" + (META_PREFIX + "false")[1..];
  }

  lemma HeaderLinesSettled(e: string)
    requires Name(e)
    ensures Settled(GroupHeader(e)) && Settled(HandlersHeader(e)) && Settled("")
  {
    GroupHeaderParses(e);
    HandlersHeaderParses(e);
    hide Settled, ParseHeader, GroupHeader, HandlersHeader;
    PlainLineSettled(GroupHeader(e));
    PlainLineSettled(HandlersHeader(e));
    PlainLineSettled("");
  }

  lemma BlockIsPrinted(printable: char -> bool, b: Block)
    requires Name(b.event)
    ensures Printed(BlockLines(printable, b), b)
  {
    hide Settled, CommentOf, Quote, GroupHeader, HandlersHeader;
    CommentLinesSettled();
    HeaderLinesSettled(b.event);
    MatcherLine(printable);
    TypeLine();
    CommandLine("command = ", printable, b.command);
    CommandLine("commandWindows = ", printable, b.windows);
  }

  lemma FirstFacts(fs: seq<Fact>, ls: seq<string>, b: Block)
    requires PrintedFacts(fs, ls) && Printed(ls, b)
    ensures fs[0].marker && !fs[0].trailing && !fs[0].meta && fs[0].header.None? && !fs[0].inlineArray
    ensures fs[0].column == 0
    ensures fs[1].prefix == Some(b.lent) && !fs[1].marker && !fs[1].trailing && fs[1].header.None? && !fs[1].inlineArray
  {
    hide FactFrom, AllSettled, Assignment, GroupHeader, HandlersHeader;
    CommentLineFact(fs[0], MARKER);
    MetaIsNotMarker(b.lent);
    CommentLineFact(fs[1], ls[1]);
  }

  lemma MetaIsNotMarker(lent: bool)
    ensures var meta := META_PREFIX + (if lent then "true" else "false");
            meta != MARKER && meta[0] == '#' && !IsSpace(meta[|meta| - 1])
            && (meta == META_PREFIX + "true" <==> lent)
    ensures !HasPrefix(MARKER, META_PREFIX) && MARKER != META_PREFIX + "true" && MARKER != META_PREFIX + "false"
  {
    assert |MARKER| < |META_PREFIX|;
    assert |META_PREFIX + "true"| != |META_PREFIX + "false"|;
  }

  lemma LaterFacts(fs: seq<Fact>, ls: seq<string>, b: Block)
    requires PrintedFacts(fs, ls) && Printed(ls, b) && Name(b.event)
    ensures Silent(fs[2]) && fs[2].header == Some(Header(true, ["hooks", b.event]))
    ensures Silent(fs[3]) && fs[3].header.None? && Silent(fs[4]) && fs[4].header.None?
    ensures Silent(fs[5]) && fs[5].header == Some(Header(true, ["hooks", b.event, "hooks"]))
    ensures forall i :: 6 <= i < |fs| ==> Silent(fs[i]) && fs[i].header.None? && fs[i].code
  {
    hide FactFrom, Settled, CommentOf, ParseHeader, Silent;
    GroupHeaderParses(b.event);
    HandlersHeaderParses(b.event);
    HeaderLineFact(fs[2], ls[2], Header(true, ["hooks", b.event]));
    CodeFact(fs[3], ls[3]);
    BlankLineFact(fs[4]);
    HeaderLineFact(fs[5], ls[5], Header(true, ["hooks", b.event, "hooks"]));
    forall i | 6 <= i < |fs|
      ensures Silent(fs[i]) && fs[i].header.None? && fs[i].code
    {
      CodeFact(fs[i], ls[i]);
    }
  }

  // What the scanner reads in a printed block.
  lemma BlockFacts(printable: char -> bool, b: Block, at: nat)
    requires Name(b.event)
    ensures var text := BlockText(printable, b);
            && BlockShape(TextFacts(text, at), b, at, at + |text|)
            && WholeLines(text) && LexEnd(Normal, text) == Normal
  {
    hide *;
    BlockIsPrinted(printable, b);
    ShapeOfLines(BlockLines(printable, b), b, at);
    BlockTextIs(printable, b);
  }

  lemma BlockTextIs(printable: char -> bool, b: Block)
    ensures BlockText(printable, b) == JoinLines(BlockLines(printable, b))
  {
    hide JoinLines, BlockLines;
  }

  lemma ShapeOfLines(ls: seq<string>, b: Block, at: nat)
    requires Printed(ls, b) && Name(b.event)
    ensures var text := JoinLines(ls);
            BlockShape(TextFacts(text, at), b, at, at + |text|) && WholeLines(text) && LexEnd(Normal, text) == Normal
  {
    hide *;
    BlockPrintedParts(ls, b);
    PrintedText(ls, at);
    PrintedCount(TextFacts(JoinLines(ls), at), ls);
    ShapeOfPrinted(TextFacts(JoinLines(ls), at), ls, b, at, at + |JoinLines(ls)|);
  }

  lemma PrintedCount(fs: seq<Fact>, ls: seq<string>)
    requires PrintedFacts(fs, ls)
    ensures |fs| == |ls|
  {
  }

  lemma ShapeOfPrinted(fs: seq<Fact>, ls: seq<string>, b: Block, at: nat, end: nat)
    requires PrintedFacts(fs, ls) && Printed(ls, b) && Name(b.event) && 8 <= |fs|
    requires fs[0].start == at && fs[|fs| - 1].full == end
    ensures BlockShape(fs, b, at, end)
  {
    hide Printed, PrintedFacts, Silent, Name;
    FirstFacts(fs, ls, b);
    LaterFacts(fs, ls, b);
  }

  lemma BlockPrintedParts(ls: seq<string>, b: Block)
    requires Printed(ls, b)
    ensures AllSettled(ls) && |ls| >= 8
  {
  }
}
