// The lexer that tells structural TOML bytes from string and comment content.
module TomlMask {

  datatype LexState = Normal | InComment | InBasic | InLiteral | InMultiBasic | InMultiLiteral

  // How many times q is repeated at the front of s.
  function Run(q: char, s: string): (n: nat)
    ensures n <= |s|
    ensures forall i :: 0 <= i < n ==> s[i] == q
    ensures n < |s| ==> s[n] != q
  {
    if s != "" && s[0] == q then 1 + Run(q, s[1..]) else 0
  }

  function Repeat(b: bool, n: nat): (r: seq<bool>)
    ensures |r| == n && forall i :: 0 <= i < n ==> r[i] == b
  {
    seq(n, _ => b)
  }

  // Whether s opens a multi-line string delimited by q.
  predicate Triple(q: char, s: string) {
    |s| >= 3 && s[0] == q && s[1] == q && s[2] == q
  }

  // One step of the lexer on the rest of the text: how many bytes it consumes,
  // whether they are structural, and the state after them.
  function Step(st: LexState, s: string): (r: (nat, bool, LexState))
    requires s != ""
    ensures 1 <= r.0 <= |s|
  {
    var c := s[0];
    match st
    case Normal =>
      if c == '#' then (1, true, InComment)
      else if c == '"' then if Triple('"', s) then (3, true, InMultiBasic) else (1, true, InBasic)
      else if c == '\'' then if Triple('\'', s) then (3, true, InMultiLiteral) else (1, true, InLiteral)
      else (1, true, Normal)
    case InComment => if c == '\n' then (1, true, Normal) else (1, false, InComment)
    case InBasic =>
      if c == '\\' && |s| > 1 then (2, false, InBasic)
      else if c == '"' then (1, true, Normal)
      else (1, false, InBasic)
    case InLiteral => if c == '\'' then (1, true, Normal) else (1, false, InLiteral)
    case InMultiBasic =>
      if c == '\\' && |s| > 1 then (2, false, InMultiBasic)
      else if c == '"' then
        if Run('"', s) >= 3 then (Run('"', s), true, Normal) else (Run('"', s), false, InMultiBasic)
      else (1, false, InMultiBasic)
    case InMultiLiteral =>
      if c == '\'' then
        if Run('\'', s) >= 3 then (Run('\'', s), true, Normal) else (Run('\'', s), false, InMultiLiteral)
      else (1, false, InMultiLiteral)
  }

  // The mask of the rest of a text, read from a state.
  function Lex(st: LexState, s: string): (r: seq<bool>)
    ensures |r| == |s|
    decreases |s|
  {
    if s == "" then []
    else
      var (n, b, next) := Step(st, s);
      Repeat(b, n) + Lex(next, s[n..])
  }

  // The state at the end of the text.
  function LexEnd(st: LexState, s: string): LexState
    decreases |s|
  {
    if s == "" then st
    else
      var (n, b, next) := Step(st, s);
      LexEnd(next, s[n..])
  }

  lemma LexAt(state: LexState, text: string, i: nat)
    requires i < |text|
    ensures var (n, mark, next) := Step(state, text[i..]);
            Lex(state, text[i..]) == Repeat(mark, n) + Lex(next, text[i + n..])
  {
    var (n, mark, next) := Step(state, text[i..]);
    assert text[i..][n..] == text[i + n..];
  }

  lemma Regroup(a: seq<bool>, b: seq<bool>, c: seq<bool>)
    ensures a + (b + c) == (a + b) + c
  {
  }

  // One iteration of the pass, at byte i.
  method ScanStep(state: LexState, text: string, i: nat) returns (n: nat, mark: bool, next: LexState)
    requires i < |text|
    ensures (n, mark, next) == Step(state, text[i..])
  {
    var c := text[i];
    n, mark, next := 1, false, state;
    match state
    case Normal =>
      mark := true;
      if c == '#' {
        next := InComment;
      } else if c == '"' || c == '\'' {
        if i + 2 < |text| && text[i + 1] == c && text[i + 2] == c {
          n, next := 3, if c == '"' then InMultiBasic else InMultiLiteral;
        } else {
          next := if c == '"' then InBasic else InLiteral;
        }
      }
    case InComment =>
      if c == '\n' { mark, next := true, Normal; }
    case InBasic =>
      if c == '\\' && i + 1 < |text| { n := 2; }
      else if c == '"' { mark, next := true, Normal; }
    case InLiteral =>
      if c == '\'' { mark, next := true, Normal; }
    case InMultiBasic =>
      if c == '\\' && i + 1 < |text| {
        n := 2;
      } else if c == '"' {
        n := CountRun('"', text, i);
        if n >= 3 { mark, next := true, Normal; }
      }
    case InMultiLiteral =>
      if c == '\'' {
        n := CountRun('\'', text, i);
        if n >= 3 { mark, next := true, Normal; }
      }
  }

  // tomlOutsideStringMask: one pass over the bytes.
  method OutsideStringMask(text: string) returns (outside: array<bool>)
    ensures fresh(outside) && outside[..] == Lex(Normal, text)
  {
    hide Lex, Step, Repeat;
    outside := new bool[|text|](_ => false);
    var state := Normal;
    var i := 0;
    assert text[0..] == text && outside[..0] == [];
    while i < |text|
      invariant i <= |text| && outside.Length == |text|
      invariant outside[..i] + Lex(state, text[i..]) == Lex(Normal, text)
      invariant forall k :: i <= k < |text| ==> !outside[k]
      decreases |text| - i
    {
      ghost var before := outside[..i];
      LexAt(state, text, i);
      var n, mark, next := ScanStep(state, text, i);
      Extend(outside, i, n, mark);
      Regroup(before, Repeat(mark, n), Lex(next, text[i + n..]));
      i, state := i + n, next;
    }
    assert text[|text|..] == "";
    LexNothing(state);
    assert outside[..|text|] == outside[..];
  }

  lemma LexNothing(st: LexState)
    ensures Lex(st, "") == []
  {
  }

  // Records one step in the mask, which is still unset from here on.
  method Extend(outside: array<bool>, i: nat, n: nat, mark: bool)
    requires i + n <= outside.Length && forall k :: i <= k < outside.Length ==> !outside[k]
    modifies outside
    ensures outside[..i + n] == old(outside[..i]) + Repeat(mark, n)
    ensures forall k :: i + n <= k < outside.Length ==> !outside[k]
  {
    if mark { Mark(outside, i, n); }
  }

  method CountRun(q: char, text: string, at: nat) returns (n: nat)
    requires at < |text| && text[at] == q
    ensures n == Run(q, text[at..])
  {
    n := 1;
    assert text[at..][1..] == text[at + 1..];
    while at + n < |text| && text[at + n] == q
      invariant at + n <= |text|
      invariant Run(q, text[at..]) == n + Run(q, text[at + n..])
    {
      assert text[at + n..][1..] == text[at + n + 1..];
      n := n + 1;
    }
  }

  method Mark(a: array<bool>, from: nat, n: nat)
    requires from + n <= a.Length
    modifies a
    ensures forall k :: 0 <= k < a.Length ==> a[k] == (if from <= k < from + n then true else old(a[k]))
  {
    for j := 0 to n
      invariant forall k :: 0 <= k < a.Length ==> a[k] == (if from <= k < from + j then true else old(a[k]))
    {
      a[from + j] := true;
    }
  }
}
