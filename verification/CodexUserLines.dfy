// Whether the lines of a user's config survive an uninstall: a newline that the
// installer lent goes with its block, and what was written behind the block joins
// the line before it.
module CodexUserLines {
  import opened Common
  import opened Strings
  import opened TomlMask
  import opened TomlTokens
  import opened CodexLines
  import opened CodexFacts
  import opened CodexRegions
  import opened CodexBlocks
  import opened CodexScanProofs
  import opened CodexDocument
  import opened CodexRewrite
  import opened CodexConfig
  import opened CodexInstall
  import opened CodexInstallProofs

  // The texts of the lines.
  function LineTexts(s: string): seq<string> {
    TextsOf(SourceLines(s, 0))
  }

  function TextsOf(ls: seq<Line>): (ts: seq<string>)
    ensures |ts| == |ls| && forall i :: 0 <= i < |ls| ==> ts[i] == ls[i].text
  {
    seq(|ls|, i requires 0 <= i < |ls| => ls[i].text)
  }

  lemma {:induction false} SameTexts(s: string, at: nat)
    ensures TextsOf(SourceLines(s, at)) == LineTexts(s)
  {
    LinesMoved(s, 0, at);
  }

  lemma WholeTexts(a: string, b: string)
    requires WholeLines(a) || b == ""
    ensures LineTexts(a + b) == LineTexts(a) + LineTexts(b)
  {
    hide SourceLines;
    if b == "" {
      assert a + b == a;
      NoLines(0);
    } else {
      LinesConcat(a, b, 0);
      SameTexts(b, |a|);
    }
  }

  lemma FirstText(s: string, n: nat)
    requires n < |s| && s[n] == '\n' && '\n' !in s[..n]
    ensures LineTexts(s) == [s[..n]] + LineTexts(s[n + 1..])
  {
    LinesStep(s, 0, n, s[n + 1..]);
    SameTexts(s[n + 1..], n + 1);
    hide SourceLines;
  }

  lemma OneText(s: string)
    requires s != "" && '\n' !in s
    ensures LineTexts(s) == [s]
  {
    LinesLast(s, 0);
    hide SourceLines;
  }

  lemma Break(s: string) returns (n: nat)
    requires '\n' in s
    ensures n < |s| && s[n] == '\n' && '\n' !in s[..n]
  {
    n := 0;
    while s[n] != '\n'
      invariant n < |s| && '\n' !in s[..n] && '\n' in s[n..]
      decreases |s| - n
    {
      assert s[n..] == [s[n]] + s[n + 1..];
      n := n + 1;
    }
  }

  // Text behind an unfinished line costs a line.
  lemma {:induction false} JoinedTexts(a: string, b: string)
    requires !WholeLines(a) && b != ""
    ensures |LineTexts(a + b)| + 1 == |LineTexts(a)| + |LineTexts(b)|
    decreases |a|
  {
    hide LineTexts;
    if '\n' in a {
      var n := Break(a);
      FirstText(a, n);
      assert (a + b)[..n] == a[..n] && (a + b)[n + 1..] == a[n + 1..] + b;
      FirstText(a + b, n);
      assert a[n + 1..] != "" && a[|a| - 1] == a[n + 1..][|a| - n - 2];
      JoinedTexts(a[n + 1..], b);
    } else {
      OneText(a);
      if '\n' in b {
        var n := Break(b);
        FirstText(b, n);
        assert (a + b)[..|a| + n] == a + b[..n] && (a + b)[|a| + n + 1..] == b[n + 1..];
        FirstText(a + b, |a| + n);
      } else {
        OneText(b);
        OneText(a + b);
      }
    }
  }

  // ----- The lines of a document's user --------------------------------------

  // The lines that the user wrote, part by part.
  function UserLines(ps: seq<Piece>, tail: string): seq<string> {
    if ps == [] then LineTexts(tail) else LineTexts(ps[0].user) + UserLines(ps[1..], tail)
  }

  // No text follows a block behind an unfinished line.
  predicate Separate(ps: seq<Piece>, tail: string) {
    ps == [] || ((WholeLines(ps[0].user) || UserText(ps[1..], tail) == "") && Separate(ps[1..], tail))
  }

  lemma {:induction false} LinesKept(ps: seq<Piece>, tail: string)
    ensures |LineTexts(UserText(ps, tail))| <= |UserLines(ps, tail)|
    ensures |LineTexts(UserText(ps, tail))| == |UserLines(ps, tail)| <==> Separate(ps, tail)
    ensures Separate(ps, tail) ==> LineTexts(UserText(ps, tail)) == UserLines(ps, tail)
  {
    hide LineTexts, WholeLines;
    if ps != [] {
      var user, rest := ps[0].user, UserText(ps[1..], tail);
      LinesKept(ps[1..], tail);
      if WholeLines(user) || rest == "" {
        WholeTexts(user, rest);
      } else {
        JoinedTexts(user, rest);
      }
    }
  }

  // Uninstalling keeps the user's lines exactly when no text follows a block that
  // lent its newline to an unfinished line; otherwise lines are joined.
  lemma LinesKeptIff(decode: Decoder, printable: char -> bool, ps: seq<Piece>, tail: string)
    requires ps != [] && Chained(ps, tail) && DistinctEvents(ps)
    requires UninstallText(decode, Doc(printable, ps, tail)).Ok?
    ensures LineTexts(UninstallText(decode, Doc(printable, ps, tail)).value) == UserLines(ps, tail) <==> Separate(ps, tail)
  {
    hide UninstallText, Chained, DistinctEvents, Doc, UserText, LineTexts, UserLines, Separate;
    UninstallLeavesUser(decode, printable, ps, tail);
    LinesKept(ps, tail);
  }

  // ----- Text written after an installation ----------------------------------

  lemma {:induction false} FreshWithTail(printable: char -> bool, user: string, bs: seq<Block>, tail: string)
    ensures Doc(printable, FreshPieces(user, bs), if bs == [] then user + tail else tail) ==
            user + RenderAll(printable, bs) + tail
    ensures bs != [] ==> UserText(FreshPieces(user, bs), tail) == user + tail
    decreases |bs|
  {
    hide PieceText, Render;
    if bs == [] {
      assert user + "" == user;
    } else {
      FreshWithTail(printable, "", bs[1..], tail);
      assert FreshPieces(user, bs)[1..] == FreshPieces("", bs[1..]);
      PieceIs(printable, Piece(user, bs[0]));
      var r, more := Render(printable, bs[0]), RenderAll(printable, bs[1..]);
      assert "" + tail == tail;
      assert (user + r) + ("" + more + tail) == user + (r + more) + tail;
      if bs[1..] == [] { assert UserText(FreshPieces("", bs[1..]), tail) == tail; }
    }
  }

  // Text that may follow the blocks of an installation.
  ghost predicate Follows(bs: seq<Block>, tail: string) {
    Unmarked(tail) && (bs != [] ==> Detached(TextFacts(tail, 0), bs[|bs| - 1].event))
  }

  lemma {:induction false} LaterChained(bs: seq<Block>, tail: string)
    requires forall i :: 0 <= i < |bs| ==> !bs[i].lent && bs[i].event in MANAGED_EVENTS
    requires Follows(bs, tail)
    ensures Chained(FreshPieces("", bs), tail)
    ensures NextUser(FreshPieces("", bs), tail) == if bs == [] then tail else ""
  {
    hide Unmarked, Detached, TextFacts;
    if bs != [] {
      var rest := bs[1..];
      assert rest != [] ==> rest[|rest| - 1] == bs[|bs| - 1];
      LaterChained(rest, tail);
      NothingUnmarked(bs[0].event);
      assert FreshPieces("", bs)[1..] == FreshPieces("", rest);
      assert Front(Piece("", bs[0])) == "";
    }
  }

  lemma TailChained(text: string, bs: seq<Block>, tail: string)
    requires Unmarked(text) && Appendable(text, bs) && Follows(bs, tail)
    ensures Chained(FreshPieces(text, bs), tail) && DistinctEvents(FreshPieces(text, bs))
  {
    hide Unmarked, Detached, TextFacts, WholeLines, Front;
    var rest := bs[1..];
    assert rest != [] ==> rest[|rest| - 1] == bs[|bs| - 1];
    LaterChained(rest, tail);
    NothingUnmarked(bs[0].event);
    FrontUnmarked(text, bs[0]);
    assert FreshPieces(text, bs)[1..] == FreshPieces("", rest);
  }

  // When the user adds text to an installed config, uninstalling leaves the two
  // texts one behind the other, and so keeps their lines exactly when the first
  // ended its last line or nothing was added.
  lemma LateTextKeptIff(decode: Decoder, printable: char -> bool, text: string, tail: string, command: string,
                        windows: string)
    requires ReadsToml(decode, printable) && Unmanaged(decode, text, command, windows)
    requires Follows(FirstBlocks(text, command, windows), tail)
    requires UninstallText(decode, Installed(printable, text, command, windows) + tail).Ok?
    ensures var left := UninstallText(decode, Installed(printable, text, command, windows) + tail).value;
            && left == text + tail
            && (LineTexts(left) == LineTexts(text) + LineTexts(tail) <==> WholeLines(text) || tail == "")
  {
    hide UninstallText, ReadsToml, Unmanaged, FirstBlocks, Chained, DistinctEvents, RenderAll, LineTexts, Unmarked,
      Appendable, Follows;
    var bs := FirstBlocks(text, command, windows);
    var ps := FreshPieces(text, bs);
    UnmanagedParts(decode, printable, text, command, windows);
    FirstBlocksAre(text, command, windows);
    BlocksNotEmpty(text, bs);
    TailChained(text, bs, tail);
    InstalledIs(printable, text, command, windows);
    FreshWithTail(printable, text, bs, tail);
    UninstallLeavesUser(decode, printable, ps, tail);
    if WholeLines(text) || tail == "" { WholeTexts(text, tail); } else { JoinedTexts(text, tail); }
  }

  // ----- A header that ends up in a comment ----------------------------------

  const NOTE := "# note"
  const TABLE := "[t]"
  const ENTRY := "b = 2"
  const LATE := TABLE + "\n" + (ENTRY + "\n")

  lemma TableParses()
    ensures ParseHeader(TABLE) == Some(Header(false, ["t"])) && ParseHeader(NOTE + TABLE) == None
  {
    NoCommentInPlain(TABLE);
    TrimIdentity(TABLE);
    TrimIdentity("t");
    NameInHeader("t");
    assert TABLE[1..2] == "t";
    CommentWhole(NOTE + TABLE);
    hide Code, TrimSpace, HeaderPath;
  }

  lemma NameInHeader(name: string)
    requires name != "" && '.' !in name && TrimSpace(name) == name
    ensures HeaderPath(name) == Some([name])
  {
    SplitNothing(name, '.');
    TrimmedParts([name]);
  }

  lemma CommentWhole(s: string)
    requires s != "" && s[0] == '#'
    ensures Code(s) == "" && ParseHeader(s) == None
  {
    assert TrimSpace("") == "";
  }

  lemma LateLines()
    ensures var ls := [TABLE, ENTRY]; JoinLines(ls) == LATE && AllSettled(ls)
  {
    var ls := [TABLE, ENTRY];
    assert ls[1..] == [ENTRY] && [ENTRY][1..] == [];
    assert JoinLines([ENTRY]) == ENTRY + "\n" + JoinLines([]) && JoinLines([]) == "";
    PlainLineSettled(TABLE);
    PlainLineSettled(ENTRY);
    hide Settled;
  }

  lemma LateFacts()
    ensures var fs := TextFacts(LATE, 0);
            && |fs| == 2 && LexEnd(Normal, LATE) == Normal
            && Silent(fs[0]) && fs[0].header == Some(Header(false, ["t"]))
            && Silent(fs[1]) && fs[1].header == None
  {
    NoCommentInPlain(ENTRY);
    assert PlainText(TABLE);
    hide TextFacts, Settled, Reading, LexEnd, ParseHeader, FactFrom, CommentOf, Silent, AllSettled, JoinLines;
    LateLines();
    PrintedText([TABLE, ENTRY], 0);
    var fs := TextFacts(LATE, 0);
    TableParses();
    HeaderLineFact(fs[0], TABLE, Header(false, ["t"]));
    CodeFact(fs[1], ENTRY);
  }

  lemma NoInline(a: Fact, b: Fact)
    requires a.header.Some? && a.header.value.path != ["hooks"] && b.header.None?
    ensures !AnyInline([a, b], false)
  {
    assert [a, b][1..] == [b] && [b][1..] == [];
    assert !AnyInline([b], false);
  }

  lemma TableFollows(bs: seq<Block>, tail: string, a: Fact, b: Fact)
    requires TextFacts(tail, 0) == [a, b] && LexEnd(Normal, tail) == Normal
    requires Silent(a) && a.header == Some(Header(false, ["t"])) && Silent(b) && b.header == None
    ensures Follows(bs, tail)
  {
    hide TextFacts, LexEnd, AnyInline;
    NoInline(a, b);
  }

  lemma LateFollows(bs: seq<Block>)
    ensures Follows(bs, LATE)
  {
    hide *;
    LateFacts();
    var fs := TextFacts(LATE, 0);
    assert fs == [fs[0], fs[1]];
    TableFollows(bs, LATE, fs[0], fs[1]);
  }

  lemma LateTexts()
    ensures LineTexts(NOTE + LATE) == [NOTE + TABLE, ENTRY] && LineTexts(NOTE) + LineTexts(LATE) == [NOTE, TABLE, ENTRY]
  {
    hide LineTexts;
    var text, entry := NOTE + LATE, ENTRY + "\n";
    assert text[..9] == NOTE + TABLE && text[10..] == entry;
    FirstText(text, 9);
    assert LATE[..3] == TABLE && LATE[4..] == entry;
    FirstText(LATE, 3);
    assert entry[..5] == ENTRY && entry[6..] == "";
    FirstText(entry, 5);
    NoTexts();
    OneText(NOTE);
  }

  lemma NoTexts()
    ensures LineTexts("") == []
  {
    NoLines(0);
  }

  // A config that ends in a comment without a newline, installed and then
  // continued with a table: uninstalling puts the table's header into the comment,
  // and its entry goes to the top.
  lemma HeaderJoinsComment(decode: Decoder, printable: char -> bool, command: string, windows: string)
    requires ReadsToml(decode, printable) && Unmanaged(decode, NOTE, command, windows)
    requires UninstallText(decode, Installed(printable, NOTE, command, windows) + LATE).Ok?
    ensures var left := UninstallText(decode, Installed(printable, NOTE, command, windows) + LATE).value;
            LineTexts(left) == [NOTE + TABLE, ENTRY] && LineTexts(NOTE) + LineTexts(LATE) == [NOTE, TABLE, ENTRY]
    ensures ParseHeader(TABLE) == Some(Header(false, ["t"])) && ParseHeader(NOTE + TABLE) == None
  {
    hide *;
    LateFollows(FirstBlocks(NOTE, command, windows));
    LateTextKeptIff(decode, printable, NOTE, LATE, command, windows);
    TableParses();
    LateTexts();
  }
}
