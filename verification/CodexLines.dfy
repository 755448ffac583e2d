// The line-oriented reading of a Codex config: source lines, comments, headers
// and what each line means to the hook installer.
module CodexLines {
  import opened Common
  import opened Strings
  import opened TomlMask

  const MARKER := "# hfg:managed"
  const META_PREFIX := "# hfg:prefix-newline="

  // ----- Source lines --------------------------------------------------------

  // A line: its bytes without the newline, where it starts, and where the next
  // line does.
  datatype Line = Line(start: nat, full: nat, text: string)

  // The lines of a text that begins at offset `at`.
  function Lines(s: string, at: nat): seq<Line>
    decreases |s|
  {
    if s == "" then []
    else
      var n := IndexOf(s, '\n');
      if n == |s| then [Line(at, at + n, s)]
      else [Line(at, at + n + 1, s[..n])] + Lines(s[n + 1..], at + n + 1)
  }

  // The first line of the rest of a text, and where the next one starts.
  function FirstLine(text: string, start: nat): (r: Line)
    requires start < |text|
    ensures start < r.full <= |text|
  {
    var n := IndexOf(text[start..], '\n');
    if start + n == |text| then Line(start, |text|, text[start..])
    else Line(start, start + n + 1, text[start..start + n])
  }

  lemma LinesFrom(text: string, start: nat)
    requires start < |text|
    ensures var line := FirstLine(text, start);
            Lines(text[start..], start) == [line] + Lines(text[line.full..], line.full)
  {
    hide IndexOf;
    var rest := text[start..];
    var n := IndexOf(rest, '\n');
    if n == |rest| {
      assert text[|text|..] == "";
      assert Lines("", |text|) == [];
    } else {
      assert rest[..n] == text[start..start + n];
      assert rest[n + 1..] == text[start + n + 1..];
    }
  }

  method SplitSourceLines(text: string) returns (lines: seq<Line>)
    ensures lines == Lines(text, 0)
  {
    lines := [];
    var start := 0;
    assert text[0..] == text;
    while start < |text|
      invariant start <= |text|
      invariant lines + Lines(text[start..], start) == Lines(text, 0)
      decreases |text| - start
    {
      LinesFrom(text, start);
      var line := FirstLine(text, start);
      Reassociate(lines, [line], Lines(text[line.full..], line.full));
      lines, start := lines + [line], line.full;
    }
    assert text[start..] == "";
  }

  lemma Reassociate(a: seq<Line>, b: seq<Line>, c: seq<Line>)
    ensures a + (b + c) == a + b + c
  {
  }

  // ----- Comments ------------------------------------------------------------

  // Where the comment of a line starts, reading from inside a quote q or not,
  // and right after a backslash or not; the length of the line without one.
  function CommentAt(s: string, q: Option<char>, escaped: bool): (n: nat)
    ensures n <= |s|
  {
    if s == "" then 0
    else
      var c := s[0];
      match q
      case Some(quote) =>
        if quote == '"' && escaped then 1 + CommentAt(s[1..], q, false)
        else if quote == '"' && c == '\\' then 1 + CommentAt(s[1..], q, true)
        else if c == quote then 1 + CommentAt(s[1..], None, false)
        else 1 + CommentAt(s[1..], q, escaped)
      case None =>
        if c == '"' || c == '\'' then 1 + CommentAt(s[1..], Some(c), escaped)
        else if c == '#' then 0
        else 1 + CommentAt(s[1..], None, escaped)
  }

  function Code(line: string): string {
    line[..CommentAt(line, None, false)]
  }

  function CommentOf(line: string): string {
    line[CommentAt(line, None, false)..]
  }

  method SplitComment(line: string) returns (code: string, comment: string)
    ensures code == Code(line) && comment == CommentOf(line)
  {
    var quote: Option<char> := None;
    var escaped := false;
    var i := 0;
    assert line[0..] == line;
    while i < |line|
      invariant i <= |line|
      invariant CommentAt(line, None, false) == i + CommentAt(line[i..], quote, escaped)
      decreases |line| - i
    {
      assert line[i..][1..] == line[i + 1..];
      var c := line[i];
      if quote.Some? {
        if quote.value == '"' && escaped {
          escaped := false;
        } else if quote.value == '"' && c == '\\' {
          escaped := true;
        } else if c == quote.value {
          quote, escaped := None, false;
        }
      } else if c == '"' || c == '\'' {
        quote := Some(c);
      } else if c == '#' {
        return line[..i], line[i..];
      }
      i := i + 1;
    }
    return line, "";
  }

  // ----- Headers -------------------------------------------------------------

  datatype Header = Header(isArray: bool, path: seq<string>)

  function TrimAll(parts: seq<string>): (r: seq<string>)
    ensures |r| == |parts| && forall i :: 0 <= i < |parts| ==> r[i] == TrimSpace(parts[i])
  {
    seq(|parts|, i requires 0 <= i < |parts| => TrimSpace(parts[i]))
  }

  // The dotted path inside the brackets, when no part is empty.
  function HeaderPath(inner: string): Option<seq<string>> {
    if inner == "" then None
    else
      var parts := TrimAll(Split(inner, '.'));
      if "" in parts then None else Some(parts)
  }

  function ParseHeader(line: string): Option<Header> {
    var t := TrimSpace(Code(line));
    if |t| >= 4 && t[..2] == "[[" && t[|t| - 2..] == "]]" then
      var path := HeaderPath(TrimSpace(t[2..|t| - 2]));
      if path.Some? then Some(Header(true, path.value)) else None
    else if |t| >= 2 && t[0] == '[' && t[|t| - 1] == ']' then
      var path := HeaderPath(TrimSpace(t[1..|t| - 1]));
      if path.Some? then Some(Header(false, path.value)) else None
    else None
  }

  // ----- What a line means ---------------------------------------------------

  // Whether the first byte that is not blank is structural.
  function StartsOutside(text: string, m: seq<bool>): bool
    requires |text| <= |m|
  {
    if text == "" then false
    else if text[0] in " \t\r" then StartsOutside(text[1..], m[1..])
    else m[0]
  }

  // Whether structural code precedes any comment.
  function HasCode(text: string, m: seq<bool>): bool
    requires |text| <= |m|
  {
    if text == "" then false
    else if !m[0] || text[0] in " \t\r" then HasCode(text[1..], m[1..])
    else text[0] != '#'
  }

  // Where c first occurs outside quotes, as CommentAt reads them; the length of
  // s when it does not.
  function OutsideAt(s: string, c: char, q: Option<char>, escaped: bool): (n: nat)
    ensures n <= |s|
  {
    if s == "" then 0
    else
      var d := s[0];
      match q
      case Some(quote) =>
        if quote == '"' && escaped then 1 + OutsideAt(s[1..], c, q, false)
        else if quote == '"' && d == '\\' then 1 + OutsideAt(s[1..], c, q, true)
        else if d == quote then 1 + OutsideAt(s[1..], c, None, false)
        else 1 + OutsideAt(s[1..], c, q, escaped)
      case None =>
        if d == '"' || d == '\'' then 1 + OutsideAt(s[1..], c, Some(d), escaped)
        else if d == c then 0
        else 1 + OutsideAt(s[1..], c, None, escaped)
  }

  function SkipBlanks(s: string): string {
    if s != "" && (s[0] == ' ' || s[0] == '\t') then SkipBlanks(s[1..]) else s
  }

  // Whether a line assigns an inline array to one of the events.
  predicate AssignsInline(text: string, events: seq<string>) {
    var code := Code(text);
    var eq := OutsideAt(code, '=', None, false);
    && eq < |code| && TrimSpace(text[..eq]) in events
    && var value := SkipBlanks(text[eq + 1..]); value != "" && value[0] == '['
  }

  const MANAGED_EVENTS: seq<string> := [
    "PermissionRequest", "PostCompact", "PostToolUse", "PreCompact", "PreToolUse",
    "SessionStart", "Stop", "SubagentStart", "SubagentStop", "UserPromptSubmit"]

  const LEGACY_EVENTS: seq<string> := [
    "post_tool_use", "pre_tool_use", "session_end", "session_start", "turn_end", "turn_start"]

  // What the scanner asks of a line.
  datatype Fact = Fact(
    start: nat, full: nat, column: nat,
    marker: bool,              // a standalone ownership marker
    trailing: bool,            // an ownership marker after code
    meta: bool,                // starts with the metadata prefix
    prefix: Option<bool>,      // well-formed metadata
    header: Option<Header>,
    inlineArray: bool,         // would assign a managed inline array
    code: bool)

  function PrefixOf(text: string): Option<bool> {
    var t := TrimSpace(text);
    if t == META_PREFIX + "true" then Some(true)
    else if t == META_PREFIX + "false" then Some(false)
    else None
  }

  predicate HasPrefix(s: string, p: string) {
    p <= s
  }

  // The facts of one line, given the mask of its bytes.
  function FactOf(line: Line, m: seq<bool>): Fact
    requires |line.text| <= |m|
  {
    var t := TrimSpace(line.text);
    var column := IndexOf(line.text, '#');
    var outside := StartsOutside(line.text, m);
    var at := |Code(line.text)|;
    Fact(line.start, line.full, column,
         t == MARKER && column < |line.text| && m[column],
         TrimSpace(CommentOf(line.text)) == MARKER && at < |line.text| && m[at] && TrimSpace(Code(line.text)) != "",
         HasPrefix(t, META_PREFIX) && outside,
         if outside then PrefixOf(line.text) else None,
         if outside then ParseHeader(line.text) else None,
         outside && AssignsInline(line.text, MANAGED_EVENTS),
         HasCode(line.text, m))
  }

  // The mask bytes of one line.
  function Slice(mask: seq<bool>, line: Line, at: nat): (m: seq<bool>)
    ensures |m| == |line.text|
  {
    if at <= line.start && line.start - at + |line.text| <= |mask|
    then mask[line.start - at..line.start - at + |line.text|]
    else Repeat(false, |line.text|)
  }

  function Facts(lines: seq<Line>, mask: seq<bool>, at: nat): seq<Fact> {
    seq(|lines|, i requires 0 <= i < |lines| => FactOf(lines[i], Slice(mask, lines[i], at)))
  }
}
