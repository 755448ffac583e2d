// The displayed command line, and how a POSIX shell splits it.
module ShellQuote {
  import opened Common

  const SPECIAL := " \t\n'\"`$;&|<>\\*?[](){}#!~"

  predicate NeedsQuotes(s: string) {
    exists i :: 0 <= i < |s| && s[i] in SPECIAL
  }

  // Each single quote becomes a closing quote, an escaped one and an opening one.
  function Escaped(s: string): string {
    if s == "" then "" else (if s[0] == '\'' then "'\\''" else [s[0]]) + Escaped(s[1..])
  }

  function Quoted(arg: string): string {
    if arg == "" then "''"
    else if NeedsQuotes(arg) then "'" + Escaped(arg) + "'"
    else arg
  }

  function JoinWords(parts: seq<string>): string {
    if parts == [] then "" else if |parts| == 1 then parts[0] else parts[0] + (" " + JoinWords(parts[1..]))
  }

  function QuotedAll(parts: seq<string>): seq<string> {
    if parts == [] then [] else [Quoted(parts[0])] + QuotedAll(parts[1..])
  }

  // FormatExecSpec
  method FormatExecSpec(command: string, args: seq<string>) returns (line: string)
    ensures line == JoinWords(QuotedAll([command] + args))
  {
    hide Quoted, QuotedAll, JoinWords;
    var all := [command] + args;
    var parts := new string[|all|](i requires 0 <= i < |all| => all[i]);
    QuotedAllAt(all);
    for i := 0 to parts.Length
      invariant forall k :: 0 <= k < i ==> parts[k] == Quoted(all[k])
      invariant forall k :: i <= k < parts.Length ==> parts[k] == all[k]
    {
      parts[i] := Quoted(parts[i]);
    }
    assert parts[..] == QuotedAll(all);
    line := JoinWords(parts[..]);
  }

  lemma {:induction false} QuotedAllAt(parts: seq<string>)
    ensures |QuotedAll(parts)| == |parts|
    ensures forall i :: 0 <= i < |parts| ==> QuotedAll(parts)[i] == Quoted(parts[i])
  {
    hide Quoted;
    if parts != [] { QuotedAllAt(parts[1..]); }
  }

  // ----- Splitting -----------------------------------------------------------

  // Where a shell is in a line: between words, in a word, or in a word inside
  // single quotes.
  datatype State = Between | InWord(word: string) | InQuotes(word: string)

  function WordSoFar(st: State): string {
    if st.Between? then "" else st.word
  }

  // What a shell interprets when it is not quoted: the characters of section 2.2 that
  // always have to be quoted, and those that have to be in some places, without the
  // ones that mean something only beside these or in assignments.
  const INTERPRETED := "|&;<>()$`\\\"' \t\n" + "*?[]#~!{}"

  // The words of a line by the quoting rules of sections 2.2.1 and 2.2.2 of the
  // POSIX Shell Command Language; nothing when the line holds anything else a
  // shell interprets, or ends inside quotes.
  function Words(st: State, s: string): Option<seq<string>>
    decreases |s|
  {
    if s == "" then
      (match st
       case Between => Some([])
       case InWord(word) => Some([word])
       case InQuotes(_) => None)
    else
      var c := s[0];
      if st.InQuotes? then Words(if c == '\'' then InWord(st.word) else InQuotes(st.word + [c]), s[1..])
      else if c == '\'' then Words(InQuotes(WordSoFar(st)), s[1..])
      else if c == ' ' || c == '\t' then
        var rest := Words(Between, s[1..]);
        if rest.None? || st.Between? then rest else Some([st.word] + rest.value)
      else if c == '\\' then
        if |s| == 1 || s[1] == '\n' then None else Words(InWord(WordSoFar(st) + [s[1]]), s[2..])
      else if c in INTERPRETED then None
      else Words(InWord(WordSoFar(st) + [c]), s[1..])
  }

  // Whatever a shell interprets is quoted.
  lemma InterpretedIsSpecial(c: char)
    ensures c in INTERPRETED ==> c in SPECIAL
  {
    assert SPECIAL[9] == '|' && SPECIAL[8] == '&' && SPECIAL[7] == ';' && SPECIAL[10] == '<' && SPECIAL[11] == '>';
    assert SPECIAL[17] == '(' && SPECIAL[18] == ')' && SPECIAL[6] == '$' && SPECIAL[5] == '`';
    assert SPECIAL[12] == '\\' && SPECIAL[4] == '"' && SPECIAL[3] == '\'' && SPECIAL[0] == ' ' && SPECIAL[1] == '\t';
    assert SPECIAL[2] == '\n' && SPECIAL[13] == '*' && SPECIAL[14] == '?' && SPECIAL[15] == '[';
    assert SPECIAL[16] == ']' && SPECIAL[21] == '#' && SPECIAL[23] == '~' && SPECIAL[22] == '!' && SPECIAL[19] == '{';
    assert SPECIAL[20] == '}';
  }

  // Text that needs no quotes is taken as it is.
  lemma {:induction false} PlainWord(st: State, a: string, rest: string)
    requires a != "" && !st.InQuotes? && !NeedsQuotes(a)
    ensures Words(st, a + rest) == Words(InWord(WordSoFar(st) + a), rest)
    decreases |a|
  {
    var s := a + rest;
    assert s[0] == a[0] && s[1..] == a[1..] + rest;
    assert a[0] !in SPECIAL;
    InterpretedIsSpecial(a[0]);
    var next := InWord(WordSoFar(st) + [a[0]]);
    if |a| == 1 {
      assert a[1..] + rest == rest && [a[0]] == a;
    } else {
      assert !NeedsQuotes(a[1..]) by {
        assert forall i :: 0 <= i < |a[1..]| ==> a[1..][i] == a[i + 1];
      }
      PlainWord(next, a[1..], rest);
      assert (WordSoFar(st) + [a[0]]) + a[1..] == WordSoFar(st) + a;
    }
  }

  // Escaped text inside quotes is the text.
  lemma {:induction false} QuotedWord(word: string, a: string, rest: string)
    ensures Words(InQuotes(word), Escaped(a) + rest) == Words(InQuotes(word + a), rest)
    decreases |a|
  {
    if a == "" {
      assert Escaped(a) + rest == rest && word + a == word;
    } else {
      var more := Escaped(a[1..]) + rest;
      assert (word + [a[0]]) + a[1..] == word + a;
      if a[0] == '\'' {
        assert Escaped(a) + rest == "'\\''" + more;
        QuoteInQuotes(word, more);
      } else {
        assert Escaped(a) + rest == [a[0]] + more;
        assert ([a[0]] + more)[1..] == more;
      }
      QuotedWord(word + [a[0]], a[1..], rest);
    }
  }

  lemma QuoteInQuotes(word: string, more: string)
    ensures Words(InQuotes(word), "'\\''" + more) == Words(InQuotes(word + "'"), more)
  {
    var s := "'\\''" + more;
    var s1 := "\\''" + more;
    var s2 := "'" + more;
    assert s[1..] == s1 && s1[2..] == s2 && s2[1..] == more;
    assert Words(InQuotes(word), s) == Words(InWord(word), s1);
    assert Words(InWord(word), s1) == Words(InWord(word + "'"), s2);
  }

  // Text between single quotes is one word.
  lemma QuotedArgument(arg: string, rest: string)
    ensures Words(Between, "'" + Escaped(arg) + "'" + rest) == Words(InWord(arg), rest)
  {
    hide Escaped;
    var s, after := "'" + Escaped(arg) + "'" + rest, "'" + rest;
    assert s[1..] == Escaped(arg) + after && after[1..] == rest;
    assert Words(Between, s) == Words(InQuotes(""), Escaped(arg) + after);
    QuotedWord("", arg, after);
    assert "" + arg == arg;
  }

  // A quoted argument is one word, the argument.
  lemma ArgumentIsWord(arg: string, rest: string)
    ensures Words(Between, Quoted(arg) + rest) == Words(InWord(arg), rest)
  {
    hide Words, NeedsQuotes;
    if arg == "" || NeedsQuotes(arg) {
      QuotedArgument(arg, rest);
      assert arg == "" ==> "'" + Escaped(arg) + "'" == "''";
    } else {
      PlainWord(Between, arg, rest);
      assert "" + arg == arg;
    }
  }

  // Splitting the displayed line gives back exactly the command and its
  // arguments.
  lemma {:induction false} LineSplitsBack(parts: seq<string>)
    requires parts != []
    ensures Words(Between, JoinWords(QuotedAll(parts))) == Some(parts)
  {
    hide Quoted;
    QuotedAllAt(parts);
    var q := Quoted(parts[0]);
    if |parts| == 1 {
      ArgumentIsWord(parts[0], "");
      assert q + "" == q && [parts[0]] == parts;
    } else {
      LineSplitsBack(parts[1..]);
      var more := JoinWords(QuotedAll(parts[1..]));
      assert QuotedAll(parts)[1..] == QuotedAll(parts[1..]);
      ArgumentIsWord(parts[0], " " + more);
      assert (" " + more)[1..] == more;
      assert [parts[0]] + parts[1..] == parts;
    }
  }

  // Letters, digits and the punctuation of paths, options and assignments.
  predicate Everyday(c: char) {
    'a' <= c <= 'z' || 'A' <= c <= 'Z' || '0' <= c <= '9' || c in "-_./:=@%+,"
  }

  lemma EverydayIsPlain(c: char)
    requires Everyday(c)
    ensures c !in SPECIAL
  {
  }

  // What needs no quotes anywhere is shown as it is.
  lemma PlainIsShown(arg: string)
    requires arg != "" && forall i :: 0 <= i < |arg| ==> Everyday(arg[i])
    ensures Quoted(arg) == arg
  {
    hide Everyday;
    if NeedsQuotes(arg) {
      var i :| 0 <= i < |arg| && arg[i] in SPECIAL;
      EverydayIsPlain(arg[i]);
    }
  }
}
