// Installing into a config without managed blocks or over drifted ones, and
// uninstalling.
module CodexInstallProofs {
  import opened Common
  import opened Strings
  import opened Json
  import opened TextEdits
  import opened TomlMask
  import opened TomlTokens
  import opened CodexLines
  import opened CodexRegions
  import opened CodexBlocks
  import opened CodexFacts
  import opened CodexScanProofs
  import opened CodexDocument
  import opened CodexRewrite
  import opened CodexConfig
  import opened CodexInstall

  // ----- User text without marks ---------------------------------------------

  lemma {:induction false} NothingCollected(text: string, fs: seq<Fact>, i: nat)
    requires i <= |fs| && Collect(text, fs, i) == Ok([])
    ensures forall k :: i <= k < |fs| ==> !fs[k].marker
    decreases |fs| - i
  {
    hide OwnedRegion;
    if i < |fs| { NothingCollected(text, fs, i + 1); }
  }

  lemma NoRegionsIsUnmarked(text: string)
    requires Closed(LexEnd(Normal, text)) && ScanRegions(text, TextFacts(text, 0)) == Ok([])
    ensures Unmarked(text)
  {
    hide TextFacts, LexEnd, Collect, AnyInline, RegionsOk;
    var fs := TextFacts(text, 0);
    NothingCollected(text, fs, 0);
    forall i | 0 <= i < |fs|
      ensures !fs[i].meta
    {
      assert MetaOwned(fs, i);
    }
  }

  // Facts that differ in where lines end only.
  predicate SameMeaning(a: seq<Fact>, b: seq<Fact>) {
    |a| == |b| && forall i :: 0 <= i < |a| ==> b[i] == a[i].(full := b[i].full)
  }

  // A newline at the end changes no line.
  lemma {:induction false} LinesWithNewline(s: string, at: nat)
    requires NeedsNewline(s)
    ensures var a, b := SourceLines(s, at), SourceLines(s + "\n", at);
            |a| == |b| && forall i :: 0 <= i < |a| ==> b[i] == a[i].(full := b[i].full)
    decreases |s|
  {
    hide SourceLines;
    if '\n' !in s {
      LinesLast(s, at);
      assert (s + "\n")[..|s|] == s && (s + "\n")[|s| + 1..] == "";
      LinesStep(s + "\n", at, |s|, "");
      NoLines(at + |s| + 1);
    } else {
      var n := IndexOf(s, '\n');
      var rest := s[n + 1..];
      assert (s + "\n")[..n] == s[..n] && (s + "\n")[n + 1..] == rest + "\n";
      LinesStep(s, at, n, rest);
      LinesStep(s + "\n", at, n, rest + "\n");
      LinesWithNewline(rest, at + n + 1);
    }
  }

  lemma FactsWithNewline(s: string)
    requires NeedsNewline(s) && Closed(LexEnd(Normal, s))
    ensures SameMeaning(TextFacts(s, 0), TextFacts(s + "\n", 0))
    ensures LexEnd(Normal, s + "\n") == Normal
  {
    hide SourceLines, FactOf, Reading, LexEnd, Slice;
    LinesWithNewline(s, 0);
    LexConcat(Normal, s, "\n");
    NewlineCloses(LexEnd(Normal, s));
    LinesInside(s, 0);
    ReadingLength(s);
    var a, b, x := SourceLines(s, 0), SourceLines(s + "\n", 0), Reading(Normal, s);
    var y := Reading(LexEnd(Normal, s), "\n");
    forall i | 0 <= i < |a|
      ensures TextFacts(s + "\n", 0)[i] == TextFacts(s, 0)[i].(full := b[i].full)
    {
      assert LineInside(a[i], 0, |s|);
      SliceLeft(a[i], x, y, 0);
      SameLine(a[i], b[i], x, x + y);
    }
  }

  lemma NewlineCloses(st: LexState)
    requires Closed(st)
    ensures LexEnd(st, "\n") == Normal
  {
    StepLex(st, "\n", 1, true, Normal, "");
  }

  lemma SameLine(a: Line, b: Line, x: seq<bool>, y: seq<bool>)
    requires b == a.(full := b.full) && Slice(y, a, 0) == Slice(x, a, 0)
    ensures Slice(y, b, 0) == Slice(y, a, 0)
    ensures FactOf(b, Slice(y, b, 0)) == FactOf(a, Slice(x, a, 0)).(full := b.full)
  {
  }

  lemma {:induction false} SameInline(a: seq<Fact>, b: seq<Fact>, inHooks: bool)
    requires SameMeaning(a, b)
    ensures AnyInline(a, inHooks) == AnyInline(b, inHooks)
  {
    if a != [] {
      SameInline(a[1..], b[1..], inHooks);
      if a[0].header.Some? {
        SameInline(a[1..], b[1..], !a[0].header.value.isArray && a[0].header.value.path == ["hooks"]);
      }
    }
  }

  // Unmarked text stays so when a newline is added to its last line.
  lemma UnmarkedWithNewline(s: string)
    requires Unmarked(s) && NeedsNewline(s)
    ensures Unmarked(s + "\n")
    ensures SameMeaning(TextFacts(s, 0), TextFacts(s + "\n", 0))
  {
    hide TextFacts, LexEnd, AnyInline;
    FactsWithNewline(s);
    SameInline(TextFacts(s, 0), TextFacts(s + "\n", 0), false);
  }

  // ----- The document an installation makes ----------------------------------

  // Blocks to be appended to a text: only the first lends a newline, and does
  // so when the text does not end its last line.
  predicate Appendable(text: string, bs: seq<Block>) {
    && bs != [] && bs[0].lent == NeedsNewline(text)
    && (forall i :: 0 < i < |bs| ==> !bs[i].lent)
    && (forall i :: 0 <= i < |bs| ==> bs[i].event in MANAGED_EVENTS)
    && (forall i, j :: 0 <= i < j < |bs| ==> bs[i].event != bs[j].event)
  }

  function FreshPieces(user: string, bs: seq<Block>): (ps: seq<Piece>)
    ensures |ps| == |bs| && forall i :: 0 <= i < |bs| ==> ps[i].block == bs[i]
    decreases |bs|
  {
    if bs == [] then [] else [Piece(user, bs[0])] + FreshPieces("", bs[1..])
  }

  lemma {:induction false} FreshDoc(printable: char -> bool, user: string, bs: seq<Block>)
    ensures Doc(printable, FreshPieces(user, bs), if bs == [] then user else "") == user + RenderAll(printable, bs)
    ensures UserText(FreshPieces(user, bs), if bs == [] then user else "") == user
    decreases |bs|
  {
    hide PieceText, Render;
    if bs == [] {
      assert user + "" == user;
    } else {
      FreshDoc(printable, "", bs[1..]);
      assert FreshPieces(user, bs)[1..] == FreshPieces("", bs[1..]);
      PieceIs(printable, Piece(user, bs[0]));
      var r, more := Render(printable, bs[0]), RenderAll(printable, bs[1..]);
      assert (user + r) + ("" + more) == user + (r + more);
      assert user + "" == user;
    }
  }

  lemma NothingUnmarked(event: string)
    ensures Unmarked("") && Detached(TextFacts("", 0), event) && TextFacts("", 0) == []
  {
    NoLines(0);
  }

  // The pieces after the first have no user text and lend no newline.
  lemma {:induction false} LaterPiecesChained(bs: seq<Block>)
    requires forall i :: 0 <= i < |bs| ==> !bs[i].lent && bs[i].event in MANAGED_EVENTS
    ensures Chained(FreshPieces("", bs), "") && NextUser(FreshPieces("", bs), "") == ""
  {
    hide Unmarked, Detached, TextFacts;
    if bs == [] {
      NothingUnmarked("");
    } else {
      LaterPiecesChained(bs[1..]);
      NothingUnmarked(bs[0].event);
      assert FreshPieces("", bs)[1..] == FreshPieces("", bs[1..]);
      assert Front(Piece("", bs[0])) == "";
    }
  }

  lemma FrontUnmarked(text: string, b: Block)
    requires Unmarked(text) && b.lent == NeedsNewline(text)
    ensures Unmarked(Front(Piece(text, b))) && WholeLines(Front(Piece(text, b)))
    ensures SameMeaning(TextFacts(text, 0), TextFacts(Front(Piece(text, b)), 0))
  {
    hide Unmarked, TextFacts;
    if b.lent {
      UnmarkedWithNewline(text);
    } else {
      assert text + "" == text;
    }
  }

  lemma FreshChained(text: string, bs: seq<Block>)
    requires Unmarked(text) && Appendable(text, bs)
    ensures Chained(FreshPieces(text, bs), "") && DistinctEvents(FreshPieces(text, bs))
  {
    hide Unmarked, Detached, TextFacts, WholeLines, Front;
    LaterPiecesChained(bs[1..]);
    NothingUnmarked(bs[0].event);
    FrontUnmarked(text, bs[0]);
    assert FreshPieces(text, bs)[1..] == FreshPieces("", bs[1..]);
  }

  // ----- Groups of the document ----------------------------------------------

  predicate HasEvent(bs: seq<Block>, event: string) {
    exists i :: 0 <= i < |bs| && bs[i].event == event
  }

  lemma HasEventStep(bs: seq<Block>, event: string)
    requires bs != []
    ensures HasEvent(bs, event) <==> bs[0].event == event || HasEvent(bs[1..], event)
  {
    if HasEvent(bs[1..], event) {
      var i :| 0 <= i < |bs[1..]| && bs[1..][i].event == event;
      assert bs[i + 1].event == event;
    }
    if HasEvent(bs, event) && bs[0].event != event {
      var i :| 0 <= i < |bs| && bs[i].event == event;
      assert bs[1..][i - 1].event == event;
    }
  }

  // Each appended block is one more group of its event.
  lemma {:induction false} FreshGroups(printable: char -> bool, user: string, bs: seq<Block>, at: nat, event: string)
    requires bs != [] && DistinctEvents(FreshPieces(user, bs))
    requires forall i :: 0 <= i < |bs| ==> bs[i].event in MANAGED_EVENTS
    ensures GroupsIn(DocFacts(printable, FreshPieces(user, bs), "", at), event) ==
            GroupsIn(TextFacts(Front(Piece(user, bs[0])), 0), event) + (if HasEvent(bs, event) then 1 else 0)
    decreases |bs|
  {
    hide TextFacts, GroupsIn, Front, BlockText, DistinctEvents, HasEvent;
    var ps := FreshPieces(user, bs);
    var p, rest := ps[0], bs[1..];
    var mid := at + |Front(p)|;
    var end := mid + |BlockText(printable, p.block)|;
    var u, b, d := TextFacts(Front(p), at), TextFacts(BlockText(printable, p.block), mid), DocFacts(printable, ps[1..], "", end);
    assert ps[1..] == FreshPieces("", rest);
    HasEventStep(bs, event);
    DistinctRest(ps);
    GroupsJoin(u + b, d, event);
    GroupsJoin(u, b, event);
    GroupsAnywhere(Front(p), at, event);
    OneBlockGroup(printable, p.block, mid, event);
    if rest == [] {
      NoFacts(end, event);
      NoEvent(event);
    } else {
      FreshGroups(printable, "", rest, end, event);
      NoFrontFacts(rest[0], event);
      if p.block.event == event { OtherEvents(user, bs, event); }
    }
  }

  lemma NoFacts(at: nat, event: string)
    ensures GroupsIn(TextFacts("", at), event) == 0
  {
    NoLines(at);
  }

  lemma NoEvent(event: string)
    ensures !HasEvent([], event)
  {
  }

  lemma NoFrontFacts(b: Block, event: string)
    ensures GroupsIn(TextFacts(Front(Piece("", b)), 0), event) == 0
  {
    if b.lent {
      assert Front(Piece("", b)) == "" + "\n";
      OneLineFacts("", 0);
      var fs := TextFacts("" + "\n", 0);
      BlankLineFact(fs[0]);
      hide TextFacts;
      assert GroupsBefore(fs, 0, event) == 0;
    } else {
      assert Front(Piece("", b)) == "";
      NoFacts(0, event);
    }
  }

  lemma DistinctRest(ps: seq<Piece>)
    requires ps != [] && DistinctEvents(ps)
    ensures DistinctEvents(ps[1..])
  {
  }

  lemma OtherEvents(user: string, bs: seq<Block>, event: string)
    requires bs != [] && DistinctEvents(FreshPieces(user, bs)) && bs[0].event == event
    ensures !HasEvent(bs[1..], event)
  {
    forall i | 0 <= i < |bs[1..]|
      ensures bs[1..][i].event != event
    {
      var ps := FreshPieces(user, bs);
      assert ps[0].block.event != ps[i + 1].block.event;
    }
  }

  lemma OneBlockGroup(printable: char -> bool, b: Block, at: nat, event: string)
    requires b.event in MANAGED_EVENTS
    ensures GroupsIn(TextFacts(BlockText(printable, b), at), event) == if event == b.event then 1 else 0
  {
    hide TextFacts, BlockText;
    EventLetters(b.event);
    BlockFacts(printable, b, at);
    var fs := TextFacts(BlockText(printable, b), at);
    BlockGroups(fs, b, at, at + |BlockText(printable, b)|, |fs|, event);
  }

  // Each region of the document is the group after the user's own.
  lemma {:induction false} FreshIndices(printable: char -> bool, user: string, bs: seq<Block>, at: nat,
                                        earlier: seq<Fact>)
    requires bs != []
    ensures var rs := Ranges(printable, FreshPieces(user, bs), at, earlier);
            |rs| == |bs| && forall i :: 0 <= i < |rs| ==>
              rs[i].event == bs[i].event && rs[i].prefixNewline == bs[i].lent &&
              rs[i].groupIndex ==
              GroupsIn(earlier, bs[i].event) + GroupsIn(TextFacts(Front(Piece(user, bs[0])), 0), bs[i].event)
    decreases |bs|
  {
    hide TextFacts, GroupsIn, PieceText, Front;
    var ps := FreshPieces(user, bs);
    var rest, p := bs[1..], ps[0];
    var end, first := at + |PieceText(printable, p)|, TextFacts(Front(p), 0);
    var seen := earlier + first;
    assert ps[1..] == FreshPieces("", rest);
    GroupsJoin(earlier, first, bs[0].event);
    if rest != [] {
      FreshIndices(printable, "", rest, end, seen);
      var rs, more := Ranges(printable, ps, at, earlier), Ranges(printable, ps[1..], end, seen);
      forall i | 0 < i < |rs|
        ensures rs[i].event == bs[i].event && rs[i].prefixNewline == bs[i].lent
        ensures rs[i].groupIndex == GroupsIn(earlier, bs[i].event) + GroupsIn(first, bs[i].event)
      {
        assert rs[i] == more[i - 1] && bs[i] == rest[i - 1];
        NoFrontFacts(rest[0], bs[i].event);
        GroupsJoin(earlier, first, bs[i].event);
      }
    }
  }

  // ----- The decoder ---------------------------------------------------------

  // The group a block decodes to.
  function GroupTable(b: Block): Table {
    map["matcher" := String(""), "hooks" := Array([Object(HandlerTable(b))])]
  }

  function HandlerTable(b: Block): Table {
    var h := map["type" := String("command"), "command" := String(b.command)];
    if b.windows == "" then h else h["commandWindows" := String(b.windows)]
  }

  function ItemsOf(hooks: Table, event: string): seq<Json> {
    if event in hooks && hooks[event].Array? then hooks[event].items else []
  }

  // The hooks table with one more group for each block.
  function WithGroups(hooks: Table, bs: seq<Block>): Table
    decreases |bs|
  {
    if bs == [] then hooks
    else
      var e := bs[0].event;
      WithGroups(hooks[e := Array(ItemsOf(hooks, e) + [Object(GroupTable(bs[0]))])], bs[1..])
  }

  // What is asked of the TOML decoder: it refuses text that ends inside a
  // string; a group header it accepts gives an entry of the hooks table; and
  // blocks appended to a config, when it accepts the result, each add their
  // group and change nothing else.
  ghost predicate ReadsToml(decode: Decoder, printable: char -> bool) {
    && (forall t :: decode(t).Some? ==> Closed(LexEnd(Normal, t)))
    && (forall t, e :: decode(t).Some? && HooksTable(decode(t).value).Some? && e in MANAGED_EVENTS ==>
          GroupsIn(TextFacts(t, 0), e) > 0 ==> e in HooksTable(decode(t).value).value)
    && (forall t, bs :: decode(t).Some? && HooksTable(decode(t).value).Some? && Appendable(t, bs) ==>
          decode(t + RenderAll(printable, bs)).Some? ==>
          decode(t + RenderAll(printable, bs)) ==
          Some(decode(t).value["hooks" := Object(WithGroups(HooksTable(decode(t).value).value, bs))]))
  }

  lemma {:induction false} WithGroupsKeeps(hooks: Table, bs: seq<Block>, event: string)
    requires !HasEvent(bs, event)
    ensures event in WithGroups(hooks, bs) <==> event in hooks
    ensures event in hooks ==> WithGroups(hooks, bs)[event] == hooks[event]
    decreases |bs|
  {
    hide HasEvent, GroupTable;
    if bs != [] {
      HasEventStep(bs, event);
      var e := bs[0].event;
      WithGroupsKeeps(hooks[e := Array(ItemsOf(hooks, e) + [Object(GroupTable(bs[0]))])], bs[1..], event);
    }
  }

  predicate DistinctBlocks(bs: seq<Block>) {
    forall i, j :: 0 <= i < j < |bs| ==> bs[i].event != bs[j].event
  }

  // A block's event ends up with its groups and the new one after them.
  lemma {:induction false} WithGroupsAdds(hooks: Table, bs: seq<Block>, i: nat)
    requires i < |bs| && DistinctBlocks(bs)
    ensures var e := bs[i].event;
            e in WithGroups(hooks, bs) &&
            WithGroups(hooks, bs)[e] == Array(ItemsOf(hooks, e) + [Object(GroupTable(bs[i]))])
    decreases |bs|
  {
    hide GroupTable;
    var e, first := bs[i].event, bs[0].event;
    var next := hooks[first := Array(ItemsOf(hooks, first) + [Object(GroupTable(bs[0]))])];
    if i == 0 {
      assert !HasEvent(bs[1..], e) by {
        forall k | 0 <= k < |bs[1..]|
          ensures bs[1..][k].event != e
        {
          assert bs[0].event != bs[k + 1].event;
        }
      }
      WithGroupsKeeps(next, bs[1..], e);
    } else {
      assert bs[0].event != bs[i].event;
      WithGroupsAdds(next, bs[1..], i - 1);
      assert ItemsOf(next, e) == ItemsOf(hooks, e);
    }
  }

  lemma MapSliceAppend(items: seq<Json>, g: Table)
    requires MapSlice(Array(items)).Some?
    ensures MapSlice(Array(items + [Object(g)])) == Some(MapSlice(Array(items)).value + [g])
  {
    assert AllTables(items + [Object(g)]);
    assert Tables(items + [Object(g)]) == Tables(items) + [g];
  }

  // The groups of an event afterwards.
  lemma GroupsAfterInstall(hooks: Table, fs: seq<Fact>, bs: seq<Block>, event: string)
    requires DistinctBlocks(bs) && EventMapped(hooks, fs, event)
    ensures !HasEvent(bs, event) ==> GroupsOf(WithGroups(hooks, bs), event) == GroupsOf(hooks, event)
    ensures forall i :: 0 <= i < |bs| && bs[i].event == event ==>
              GroupsOf(WithGroups(hooks, bs), event) == GroupsOf(hooks, event) + [GroupTable(bs[i])]
  {
    hide MapSlice, WithGroups, GroupTable, GroupsIn;
    if !HasEvent(bs, event) { WithGroupsKeeps(hooks, bs, event); }
    forall i | 0 <= i < |bs| && bs[i].event == event
      ensures GroupsOf(WithGroups(hooks, bs), event) == GroupsOf(hooks, event) + [GroupTable(bs[i])]
    {
      WithGroupsAdds(hooks, bs, i);
      NoItems();
      MapSliceAppend(ItemsOf(hooks, event), GroupTable(bs[i]));
      if event in hooks { MappedIsArray(hooks[event]); }
    }
  }

  lemma NoItems()
    ensures MapSlice(Array([])) == Some([])
  {
    assert Tables([]) == [];
  }

  lemma MappedIsArray(v: Json)
    ensures MapSlice(v).Some? ==> v.Array?
  {
  }

  lemma HandlerReads(b: Block)
    ensures var h := HandlerTable(b);
            && (|h| == 2 || |h| == 3) && h.Keys <= HANDLER_KEYS
            && StringField(h, "type") == Some("command") && StringField(h, "command") == Some(b.command)
            && WindowsCommand(h) == if b.windows == "" then Absent else Present(b.windows)
  {
    var h := HandlerTable(b);
    assert h.Keys == {"type", "command"} + (if b.windows == "" then {} else {"commandWindows"});
    assert |h| == |h.Keys|;
  }

  // The new groups hold the commands of their blocks.
  lemma BlockCommands(b: Block)
    ensures CanonicalCommands(GroupTable(b)) == Some((b.command, b.windows))
    ensures Handlers(GroupTable(b)) == [HandlerTable(b)]
  {
    hide HandlerTable, WindowsCommand;
    var g, h := GroupTable(b), HandlerTable(b);
    HandlerReads(b);
    assert Tables([Object(h)]) == [h];
    assert g.Keys == {"matcher", "hooks"};
    assert |g| == |g.Keys|;
  }

  // ----- Installing into unmanaged text --------------------------------------

  lemma ManagedDistinct(i: nat, j: nat)
    requires i < j < |MANAGED_EVENTS|
    ensures MANAGED_EVENTS[i] != MANAGED_EVENTS[j]
  {
  }

  lemma {:induction false} AllNew(events: seq<string>, command: string, windows: string, lent: bool)
    ensures var bs := NewBlocks([], events, command, windows, lent);
            |bs| == |events| &&
            forall i :: 0 <= i < |bs| ==> bs[i] == Block(events[i], command, windows, lent && i == 0)
  {
    if events != [] { AllNew(events[1..], command, windows, false); }
  }

  // The blocks a first installation adds.
  function FirstBlocks(text: string, command: string, windows: string): seq<Block> {
    NewBlocks([], MANAGED_EVENTS, command, windows, NeedsNewline(text))
  }

  lemma FirstBlocksAre(text: string, command: string, windows: string)
    ensures var bs := FirstBlocks(text, command, windows);
            && Appendable(text, bs) && DistinctBlocks(bs)
            && (forall e :: e in MANAGED_EVENTS ==> HasEvent(bs, e))
            && (forall i :: 0 <= i < |bs| ==> bs[i].command == command && bs[i].windows == windows)
  {
    var bs := FirstBlocks(text, command, windows);
    AllNew(MANAGED_EVENTS, command, windows, NeedsNewline(text));
    hide NeedsNewline;
    forall i, j | 0 <= i < j < |bs|
      ensures bs[i].event != bs[j].event
    {
      ManagedDistinct(i, j);
    }
    forall e | e in MANAGED_EVENTS
      ensures HasEvent(bs, e)
    {
      var i :| 0 <= i < |MANAGED_EVENTS| && MANAGED_EVENTS[i] == e;
      assert bs[i].event == e;
    }
  }

  // The text a first installation makes.
  function Installed(printable: char -> bool, text: string, command: string, windows: string): string {
    text + RenderAll(printable, FirstBlocks(text, command, windows))
  }

  // A config the installer finds nothing of its own in.
  ghost predicate Unmanaged(decode: Decoder, text: string, command: string, windows: string) {
    Analyze(decode, text, command, windows, true) == Ok([])
  }

  lemma UnmanagedParts(decode: Decoder, printable: char -> bool, text: string, command: string, windows: string)
    requires ReadsToml(decode, printable) && Unmanaged(decode, text, command, windows)
    ensures decode(text).Some? && HooksTable(decode(text).value).Some? && Unmarked(text)
    ensures var hooks := HooksTable(decode(text).value).value;
            && !Clashes(hooks, [], command, windows)
            && forall e :: e in MANAGED_EVENTS ==>
                 EventMapped(hooks, TextFacts(text, 0), e) && |GroupsOf(hooks, e)| == GroupsIn(TextFacts(text, 0), e)
  {
    hide TextFacts, AnyInline, Clashes, LexEnd, Collect, GroupsIn, Unmarked, ScanRegions;
    var hooks := HooksTable(decode(text).value).value;
    assert decode(text).Some? && Closed(LexEnd(Normal, text));
    var rs := ScanRegions(text, TextFacts(text, 0));
    assert rs.Ok? && OwnedGroups(hooks, rs.value) == Ok([]);
    OwnedRegions(hooks, rs.value);
    NoRegionsIsUnmarked(text);
    forall e | e in MANAGED_EVENTS
      ensures EventMapped(hooks, TextFacts(text, 0), e) && |GroupsOf(hooks, e)| == GroupsIn(TextFacts(text, 0), e)
    {
      assert EventMapped(hooks, TextFacts(text, 0), e);
    }
  }

  lemma FrontGroups(text: string, b: Block, event: string)
    requires Unmarked(text) && b.lent == NeedsNewline(text)
    ensures GroupsIn(TextFacts(Front(Piece(text, b)), 0), event) == GroupsIn(TextFacts(text, 0), event)
  {
    hide TextFacts, Unmarked, Front;
    FrontUnmarked(text, b);
    var a, c := TextFacts(text, 0), TextFacts(Front(Piece(text, b)), 0);
    GroupsAlike(a, c, |a|, event);
  }

  // Every event is mapped afterwards.
  lemma MappedAfterInstall(hooks: Table, fs: seq<Fact>, after: seq<Fact>, bs: seq<Block>, event: string)
    requires DistinctBlocks(bs) && HasEvent(bs, event)
    requires EventMapped(hooks, fs, event) && |GroupsOf(hooks, event)| == GroupsIn(fs, event)
    requires GroupsIn(after, event) == GroupsIn(fs, event) + 1
    ensures EventMapped(WithGroups(hooks, bs), after, event)
  {
    hide GroupsIn, WithGroups, GroupTable, MapSlice;
    var i :| 0 <= i < |bs| && bs[i].event == event;
    GroupsAfterInstall(hooks, fs, bs, event);
    WithGroupsAdds(hooks, bs, i);
    NoItems();
    MapSliceAppend(ItemsOf(hooks, event), GroupTable(bs[i]));
    if event in hooks { MappedIsArray(hooks[event]); }
  }

  // The regions of the document, each with the commands its group decodes to.
  lemma {:induction false} OwnedAfterInstall(hooks: Table, ps: seq<Piece>, rs: seq<Region>)
    requires |rs| == |ps|
    requires forall i :: 0 <= i < |ps| ==>
               var groups := GroupsOf(hooks, rs[i].event);
               rs[i].groupIndex < |groups| && groups[rs[i].groupIndex] == GroupTable(ps[i].block)
    ensures OwnedGroups(hooks, rs) == Ok(OwnedBy(ps, rs))
  {
    hide GroupsOf, GroupTable, CanonicalCommands;
    if rs != [] {
      BlockCommands(ps[0].block);
      var more, rest := ps[1..], rs[1..];
      assert forall i :: 0 <= i < |rest| ==> rest[i] == rs[i + 1] && more[i] == ps[i + 1];
      OwnedAfterInstall(hooks, more, rest);
    }
  }

  lemma {:induction false} ManagedIndexAt(os: seq<Owned>, i: nat)
    requires i < |os|
    requires forall j, k :: 0 <= j < k < |os| ==> os[j].region.event != os[k].region.event
    ensures ManagedIndex(os, os[i].region.event) == Some(os[i].region.groupIndex)
  {
    if i > 0 { ManagedIndexAt(os[1..], i - 1); }
  }

  // The new groups clash with nothing, and the user's clash as little as before.
  lemma NoClashAfterInstall(hooks: Table, fs: seq<Fact>, bs: seq<Block>, os: seq<Owned>, event: string, i: nat,
                            command: string, windows: string)
    requires DistinctBlocks(bs) && EventMapped(hooks, fs, event) && i < |bs| && bs[i].event == event
    requires ManagedIndex(os, event) == Some(|GroupsOf(hooks, event)|)
    requires !EventClashes(hooks, [], event, command, windows)
    ensures !EventClashes(WithGroups(hooks, bs), os, event, command, windows)
  {
    hide GroupsIn, WithGroups, GroupTable, GroupsOf, HandlerClashes, EventMapped;
    GroupsAfterInstall(hooks, fs, bs, event);
    var before, groups := GroupsOf(hooks, event), GroupsOf(WithGroups(hooks, bs), event);
    forall g | 0 <= g < |groups|
      ensures !GroupClashes(groups[g], ManagedIndex(os, event) != Some(g), command, windows)
    {
      if g < |before| {
        assert !GroupClashes(before[g], ManagedIndex([], event) != Some(g), command, windows);
      } else {
        NewGroupClashes(bs[i], command, windows);
      }
    }
  }

  lemma NewGroupClashes(b: Block, command: string, windows: string)
    ensures !GroupClashes(GroupTable(b), false, command, windows)
  {
    hide GroupTable, HandlerTable, WindowsCommand;
    BlockCommands(b);
    HandlerReads(b);
  }

  // The pieces of the installed text.
  function InstalledPieces(text: string, command: string, windows: string): seq<Piece> {
    FreshPieces(text, FirstBlocks(text, command, windows))
  }

  // What scanning the installed text gives: the ranges of exactly the new blocks.
  lemma InstalledScan(decode: Decoder, printable: char -> bool, text: string, command: string, windows: string)
    requires ReadsToml(decode, printable) && Unmanaged(decode, text, command, windows)
    ensures var ps, out := InstalledPieces(text, command, windows), Installed(printable, text, command, windows);
            && Chained(ps, "") && DistinctEvents(ps) && Doc(printable, ps, "") == out && UserText(ps, "") == text
            && ScanRegions(out, TextFacts(out, 0)) == Ok(Ranges(printable, ps, 0, []))
            && !AnyInline(TextFacts(out, 0), false) && TextFacts(out, 0) == DocFacts(printable, ps, "", 0)
  {
    hide *;
    var bs := FirstBlocks(text, command, windows);
    UnmanagedParts(decode, printable, text, command, windows);
    FirstBlocksAre(text, command, windows);
    FreshChained(text, bs);
    FreshDoc(printable, text, bs);
    BlocksNotEmpty(text, bs);
    InstalledIs(printable, text, command, windows);
    var ps := FreshPieces(text, bs);
    ScanFindsBlocks(printable, ps, "");
    DocFactsAre(printable, ps, "", 0);
    DocInline(printable, ps, "", 0);
  }

  lemma BlocksNotEmpty(text: string, bs: seq<Block>)
    requires Appendable(text, bs)
    ensures bs != []
  {
  }

  lemma InstalledIs(printable: char -> bool, text: string, command: string, windows: string)
    ensures InstalledPieces(text, command, windows) == FreshPieces(text, FirstBlocks(text, command, windows))
    ensures Installed(printable, text, command, windows) == text + RenderAll(printable, FirstBlocks(text, command, windows))
  {
  }

  // The decoder's view of the installed text.
  lemma InstalledTable(decode: Decoder, printable: char -> bool, text: string, command: string, windows: string)
    requires ReadsToml(decode, printable) && Unmanaged(decode, text, command, windows)
    requires decode(Installed(printable, text, command, windows)).Some?
    ensures decode(text).Some? && HooksTable(decode(text).value).Some?
    ensures HooksTable(decode(Installed(printable, text, command, windows)).value) ==
            Some(WithGroups(HooksTable(decode(text).value).value, FirstBlocks(text, command, windows)))
  {
    hide TextFacts, FirstBlocks, WithGroups, RenderAll, Appendable, Unmanaged, GroupsIn;
    UnmanagedParts(decode, printable, text, command, windows);
    FirstBlocksAre(text, command, windows);
  }

  // Every event of the installed text is mapped to its headers.
  lemma InstalledMapped(decode: Decoder, printable: char -> bool, text: string, command: string, windows: string,
                        event: string)
    requires ReadsToml(decode, printable) && Unmanaged(decode, text, command, windows)
    requires decode(Installed(printable, text, command, windows)).Some? && event in MANAGED_EVENTS
    requires decode(text).Some? && HooksTable(decode(text).value).Some?
    ensures EventMapped(WithGroups(HooksTable(decode(text).value).value, FirstBlocks(text, command, windows)),
                        TextFacts(Installed(printable, text, command, windows), 0), event)
  {
    hide TextFacts, FirstBlocks, WithGroups, Unmanaged, GroupsIn, Chained, DistinctEvents, ScanRegions, AnyInline,
      Ranges, Unmarked, MANAGED_EVENTS, HasEvent, EventMapped, Clashes, Installed;
    var bs := FirstBlocks(text, command, windows);
    var hooks := HooksTable(decode(text).value).value;
    UnmanagedParts(decode, printable, text, command, windows);
    FirstBlocksAre(text, command, windows);
    InstalledScan(decode, printable, text, command, windows);
    FreshGroups(printable, text, bs, 0, event);
    FrontGroups(text, bs[0], event);
    assert EventMapped(hooks, TextFacts(text, 0), event);
    MappedAfterInstall(hooks, TextFacts(text, 0), TextFacts(Installed(printable, text, command, windows), 0), bs, event);
  }

  // The regions of the installed text and the commands they hold.
  function InstalledOwned(printable: char -> bool, text: string, command: string, windows: string): seq<Owned> {
    var ps := InstalledPieces(text, command, windows);
    RangesEvents(printable, ps, 0, []);
    OwnedBy(ps, Ranges(printable, ps, 0, []))
  }

  lemma InstalledGroups(decode: Decoder, printable: char -> bool, text: string, command: string, windows: string,
                        i: nat)
    requires ReadsToml(decode, printable) && Unmanaged(decode, text, command, windows)
    requires decode(text).Some? && HooksTable(decode(text).value).Some?
    requires i < |FirstBlocks(text, command, windows)|
    ensures var hooks, bs := HooksTable(decode(text).value).value, FirstBlocks(text, command, windows);
            var rs := Ranges(printable, InstalledPieces(text, command, windows), 0, []);
            var groups := GroupsOf(WithGroups(hooks, bs), bs[i].event);
            && |rs| == |bs| && rs[i].event == bs[i].event && rs[i].prefixNewline == bs[i].lent
            && rs[i].groupIndex == |GroupsOf(hooks, bs[i].event)|
            && groups == GroupsOf(hooks, bs[i].event) + [GroupTable(bs[i])]
  {
    hide TextFacts, FirstBlocks, WithGroups, Unmanaged, GroupsIn, Unmarked, MANAGED_EVENTS, HasEvent, EventMapped,
      Clashes, Ranges, GroupTable, GroupsOf, HooksTable;
    var bs := FirstBlocks(text, command, windows);
    var hooks := HooksTable(decode(text).value).value;
    UnmanagedParts(decode, printable, text, command, windows);
    FirstBlocksAre(text, command, windows);
    FreshIndices(printable, text, bs, 0, []);
    FrontGroups(text, bs[0], bs[i].event);
    NoGroups(bs[i].event);
    assert EventMapped(hooks, TextFacts(text, 0), bs[i].event);
    GroupsAfterInstall(hooks, TextFacts(text, 0), bs, bs[i].event);
  }

  lemma NoGroups(event: string)
    ensures GroupsIn([], event) == 0
  {
  }

  lemma {:induction false} OwnedByAt(ps: seq<Piece>, rs: seq<Region>)
    requires |ps| == |rs|
    ensures |OwnedBy(ps, rs)| == |rs|
    ensures forall i :: 0 <= i < |rs| ==>
              OwnedBy(ps, rs)[i] == Owned(rs[i], ps[i].block.command, ps[i].block.windows)
  {
    if ps != [] { OwnedByAt(ps[1..], rs[1..]); }
  }

  lemma InstalledOwnedAt(printable: char -> bool, text: string, command: string, windows: string)
    ensures var os, bs := InstalledOwned(printable, text, command, windows), FirstBlocks(text, command, windows);
            var rs := Ranges(printable, InstalledPieces(text, command, windows), 0, []);
            && |os| == |bs| == |rs|
            && forall i :: 0 <= i < |bs| ==> os[i] == Owned(rs[i], bs[i].command, bs[i].windows) && rs[i].event == bs[i].event
  {
    hide Ranges, FirstBlocks;
    var ps := InstalledPieces(text, command, windows);
    RangesEvents(printable, ps, 0, []);
    OwnedByAt(ps, Ranges(printable, ps, 0, []));
  }

  lemma InstalledOwnership(decode: Decoder, printable: char -> bool, text: string, command: string, windows: string)
    requires ReadsToml(decode, printable) && Unmanaged(decode, text, command, windows)
    requires decode(text).Some? && HooksTable(decode(text).value).Some?
    ensures OwnedGroups(WithGroups(HooksTable(decode(text).value).value, FirstBlocks(text, command, windows)),
                        Ranges(printable, InstalledPieces(text, command, windows), 0, [])) ==
            Ok(InstalledOwned(printable, text, command, windows))
  {
    hide FirstBlocks, WithGroups, Unmanaged, Ranges, GroupTable, GroupsOf, HooksTable, ReadsToml;
    var ps := InstalledPieces(text, command, windows);
    var rs := Ranges(printable, ps, 0, []);
    var hooks, bs := HooksTable(decode(text).value).value, FirstBlocks(text, command, windows);
    RangesEvents(printable, ps, 0, []);
    forall i | 0 <= i < |ps|
      ensures var groups := GroupsOf(WithGroups(hooks, bs), rs[i].event);
              rs[i].groupIndex < |groups| && groups[rs[i].groupIndex] == GroupTable(ps[i].block)
    {
      InstalledGroups(decode, printable, text, command, windows, i);
    }
    OwnedAfterInstall(WithGroups(hooks, bs), ps, rs);
  }

  lemma InstalledNoClash(decode: Decoder, printable: char -> bool, text: string, command: string, windows: string)
    requires ReadsToml(decode, printable) && Unmanaged(decode, text, command, windows)
    requires decode(text).Some? && HooksTable(decode(text).value).Some?
    ensures !Clashes(WithGroups(HooksTable(decode(text).value).value, FirstBlocks(text, command, windows)),
                     InstalledOwned(printable, text, command, windows), command, windows)
  {
    hide TextFacts, FirstBlocks, WithGroups, Unmanaged, Ranges, GroupTable, GroupsOf, HooksTable, ReadsToml,
      InstalledOwned, EventClashes, EventMapped, MANAGED_EVENTS, Unmarked, GroupsIn;
    var hooks, bs := HooksTable(decode(text).value).value, FirstBlocks(text, command, windows);
    var os := InstalledOwned(printable, text, command, windows);
    UnmanagedParts(decode, printable, text, command, windows);
    FirstBlocksAre(text, command, windows);
    InstalledOwnedAt(printable, text, command, windows);
    forall e | e in MANAGED_EVENTS
      ensures !EventClashes(WithGroups(hooks, bs), os, e, command, windows)
    {
      assert HasEvent(bs, e);
      var i :| 0 <= i < |bs| && bs[i].event == e;
      InstalledGroups(decode, printable, text, command, windows, i);
      forall j, k | 0 <= j < k < |os|
        ensures os[j].region.event != os[k].region.event
      {
        assert bs[j].event != bs[k].event;
      }
      ManagedIndexAt(os, i);
      assert EventMapped(hooks, TextFacts(text, 0), e);
      assert !EventClashes(hooks, [], e, command, windows);
      NoClashAfterInstall(hooks, TextFacts(text, 0), bs, os, e, i, command, windows);
    }
  }

  // The installer's own analysis of the installed text.
  lemma InstalledAnalysis(decode: Decoder, printable: char -> bool, text: string, command: string, windows: string)
    requires ReadsToml(decode, printable) && Unmanaged(decode, text, command, windows)
    requires decode(Installed(printable, text, command, windows)).Some?
    ensures var out, os := Installed(printable, text, command, windows), InstalledOwned(printable, text, command, windows);
            && Analyze(decode, out, command, windows, true) == Ok(os)
            && Analyze(decode, out, "", "", false) == Ok(os)
  {
    hide TextFacts, WithGroups, Unmanaged, Ranges, HooksTable, ReadsToml, InstalledOwned, Clashes, EventMapped,
      MANAGED_EVENTS, Installed, FirstBlocks, AnyInline, ScanRegions, OwnedGroups, InstalledPieces, DocFacts, Chained,
      DistinctEvents, Doc, UserText;
    var out := Installed(printable, text, command, windows);
    InstalledTable(decode, printable, text, command, windows);
    InstalledScan(decode, printable, text, command, windows);
    InstalledOwnership(decode, printable, text, command, windows);
    InstalledNoClash(decode, printable, text, command, windows);
    var hooks := HooksTable(decode(out).value).value;
    forall e | e in MANAGED_EVENTS
      ensures EventMapped(hooks, TextFacts(out, 0), e)
    {
      InstalledMapped(decode, printable, text, command, windows, e);
    }
  }

  lemma {:induction false} RegionsOf(ps: seq<Piece>, rs: seq<Region>)
    requires |ps| == |rs|
    ensures Regions(OwnedBy(ps, rs)) == rs
  {
    if ps != [] { RegionsOf(ps[1..], rs[1..]); }
  }

  lemma {:induction false} HasAt(os: seq<Owned>, i: nat)
    requires i < |os|
    ensures Has(os, os[i].region.event)
  {
    if i > 0 { HasAt(os[1..], i - 1); }
  }

  lemma {:induction false} NothingNew(os: seq<Owned>, events: seq<string>, command: string, windows: string, lent: bool)
    requires forall i :: 0 <= i < |events| ==> Has(os, events[i])
    ensures NewBlocks(os, events, command, windows, lent) == []
  {
    if events != [] {
      assert Has(os, events[0]);
      NothingNew(os, events[1..], command, windows, lent);
    }
  }

  lemma {:induction false} NothingToReassert(printable: char -> bool, os: seq<Owned>, command: string, windows: string)
    requires forall i :: 0 <= i < |os| ==> UpToDate(os[i], command, windows)
    ensures Reasserts(printable, os, command, windows) == []
  {
    if os != [] { NothingToReassert(printable, os[1..], command, windows); }
  }

  // The installed regions hold the commands, one for each event.
  lemma InstalledIsComplete(printable: char -> bool, text: string, command: string, windows: string)
    ensures var os := InstalledOwned(printable, text, command, windows);
            && os != [] && Complete(os, command, windows)
            && (forall i :: 0 <= i < |os| ==> UpToDate(os[i], command, windows))
            && (forall e :: e in MANAGED_EVENTS ==> Has(os, e))
  {
    hide InstalledOwned, FirstBlocks, Ranges, MANAGED_EVENTS, Has;
    var os, bs := InstalledOwned(printable, text, command, windows), FirstBlocks(text, command, windows);
    FirstBlocksAre(text, command, windows);
    InstalledOwnedAt(printable, text, command, windows);
    forall e | e in MANAGED_EVENTS
      ensures Has(os, e)
      ensures exists i :: 0 <= i < |os| && os[i].region.event == e && os[i].command == command &&
                          (windows != "" ==> os[i].windows == windows)
    {
      assert HasEvent(bs, e);
      var i :| 0 <= i < |bs| && bs[i].event == e;
      HasAt(os, i);
      assert os[i].region.event == e;
    }
  }

  // Stripping the installed text gives the original back.
  lemma InstalledStrips(decode: Decoder, printable: char -> bool, text: string, command: string, windows: string)
    requires ReadsToml(decode, printable) && Unmanaged(decode, text, command, windows)
    ensures var out, os := Installed(printable, text, command, windows), InstalledOwned(printable, text, command, windows);
            Placed(os, out) && Strip(out, os) == text
  {
    hide FirstBlocks, Ranges, TextFacts, AnyInline, Chained, DistinctEvents, DocFacts, ScanRegions, Installed,
      RemovalsOf,
      InOrder, ReadsToml, Unmanaged;
    var ps := InstalledPieces(text, command, windows);
    var out := Installed(printable, text, command, windows);
    var rs := Ranges(printable, ps, 0, []);
    InstalledScan(decode, printable, text, command, windows);
    RangesEvents(printable, ps, 0, []);
    RegionsOf(ps, rs);
    RangesInOrder(printable, ps, "", 0, []);
    assert out[0..] == out;
    StripLeavesUser(printable, ps, "", out, 0, []);
  }

  lemma NothingStripped(text: string)
    ensures Placed([], text) && Strip(text, []) == text
  {
    assert text[0..] == text;
  }

  lemma NothingReasserted(printable: char -> bool, text: string, os: seq<Owned>, command: string, windows: string)
    requires Placed(os, text) && forall i :: 0 <= i < |os| ==> UpToDate(os[i], command, windows)
    ensures Reasserted(printable, text, os, command, windows) == text
  {
    hide UpToDate;
    NothingToReassert(printable, os, command, windows);
    assert text[0..] == text;
  }

  // Installing into a config without managed blocks appends the blocks, when
  // the decoder accepts the result, and otherwise refuses.
  lemma InstallAppends(decode: Decoder, printable: char -> bool, text: string, command: string, windows: string)
    requires ReadsToml(decode, printable) && Unmanaged(decode, text, command, windows)
    ensures var out := Installed(printable, text, command, windows);
            InstallText(decode, printable, text, command, windows) == if decode(out).Some? then Ok(out) else Err(Invalid)
  {
    hide Analyze, RenderAll, InstalledOwned, Complete, UpToDate, Has, Placed, Strip, Reasserted, MANAGED_EVENTS,
      NewBlocks,
      ReadsToml;
    var out := Installed(printable, text, command, windows);
    AnalyzedIsPlaced(decode, text, command, windows, true);
    NothingReasserted(printable, text, [], command, windows);
    NothingStripped(text);
    if decode(out).Some? {
      InstalledAnalysis(decode, printable, text, command, windows);
      InstalledIsComplete(printable, text, command, windows);
      InstalledStrips(decode, printable, text, command, windows);
    } else {
      UndecodedIsRefused(decode, out, command, windows);
    }
  }

  lemma UndecodedIsRefused(decode: Decoder, text: string, command: string, windows: string)
    requires decode(text).None?
    ensures Analyze(decode, text, command, windows, true) == Err(Unparseable)
  {
  }

  // Without looking for clashes less is refused.
  lemma UncheckedAnalysis(decode: Decoder, text: string, command: string, windows: string)
    requires Analyze(decode, text, command, windows, true).Ok?
    ensures Analyze(decode, text, "", "", false) == Analyze(decode, text, command, windows, true)
  {
    hide TextFacts, AnyInline, EventMapped, ScanRegions, OwnedGroups, Clashes;
  }

  // Whatever the user wrote between and after the blocks, uninstalling leaves
  // exactly that, and refuses exactly when it does not recognize the config or
  // the user's text by itself.
  lemma UninstallLeavesUser(decode: Decoder, printable: char -> bool, ps: seq<Piece>, tail: string)
    requires ps != [] && Chained(ps, tail) && DistinctEvents(ps)
    ensures var found := Analyze(decode, Doc(printable, ps, tail), "", "", false);
            var left := Analyze(decode, UserText(ps, tail), "", "", false);
            UninstallText(decode, Doc(printable, ps, tail)) ==
            if found.Err? then Err(found.error) else if left.Err? then Err(Invalid) else Ok(UserText(ps, tail))
  {
    hide Chained, DistinctEvents, Doc, UserText, Analyze, Ranges, InOrder, RemovalsOf;
    var text := Doc(printable, ps, tail);
    var found := Analyze(decode, text, "", "", false);
    if found.Ok? {
      ScanFindsBlocks(printable, ps, tail);
      AnalyzedRegions(decode, text, "", "", false);
      RangesEvents(printable, ps, 0, []);
      assert text[0..] == text;
      StripLeavesUser(printable, ps, tail, text, 0, []);
      AnalyzedIsPlaced(decode, text, "", "", false);
    }
  }

  lemma AnalyzedRegions(decode: Decoder, text: string, command: string, windows: string, check: bool)
    requires Analyze(decode, text, command, windows, check).Ok?
    ensures ScanRegions(text, TextFacts(text, 0)) == Ok(Regions(Analyze(decode, text, command, windows, check).value))
  {
    hide TextFacts, AnyInline, EventMapped, ScanRegions, Clashes;
    OwnedRegions(HooksTable(decode(text).value).value, ScanRegions(text, TextFacts(text, 0)).value);
  }

  // ----- Installing over drifted blocks --------------------------------------

  // The installer's analysis finds the blocks of a document with their commands.
  ghost predicate ReadsAs(decode: Decoder, printable: char -> bool, ps: seq<Piece>, tail: string,
                          command: string, windows: string)
  {
    RangesEvents(printable, ps, 0, []);
    Analyze(decode, Doc(printable, ps, tail), command, windows, true) == Ok(OwnedBy(ps, Ranges(printable, ps, 0, [])))
  }

  lemma {:induction false} UpdatedAt(ps: seq<Piece>, command: string, windows: string)
    ensures |Updated(ps, command, windows)| == |ps|
    ensures forall i :: 0 <= i < |ps| ==>
              var q := Updated(ps, command, windows)[i];
              && q.user == ps[i].user && q.block.event == ps[i].block.event && q.block.lent == ps[i].block.lent
              && q.block.command == command
              && q.block.windows == if windows != "" then windows else ps[i].block.windows
  {
    if ps != [] { UpdatedAt(ps[1..], command, windows); }
  }

  lemma {:induction false} UserTextKept(ps: seq<Piece>, tail: string, command: string, windows: string)
    ensures UserText(Updated(ps, command, windows), tail) == UserText(ps, tail)
  {
    if ps != [] {
      UserTextKept(ps[1..], tail, command, windows);
      assert Updated(ps, command, windows)[1..] == Updated(ps[1..], command, windows);
    }
  }

  // Stripping a document's blocks leaves the user's text.
  lemma DocStrips(printable: char -> bool, ps: seq<Piece>, tail: string, os: seq<Owned>)
    requires |Ranges(printable, ps, 0, [])| == |ps| && os == OwnedBy(ps, Ranges(printable, ps, 0, []))
    ensures var text := Doc(printable, ps, tail); Placed(os, text) && Strip(text, os) == UserText(ps, tail)
  {
    hide Ranges, RemovalsOf, InOrder, Doc, UserText, Rewritten;
    var text := Doc(printable, ps, tail);
    RegionsOf(ps, Ranges(printable, ps, 0, []));
    RangesInOrder(printable, ps, tail, 0, []);
    assert text[0..] == text;
    StripLeavesUser(printable, ps, tail, text, 0, []);
  }

  lemma DocReasserts(printable: char -> bool, ps: seq<Piece>, tail: string, os: seq<Owned>, command: string,
                     windows: string)
    requires |Ranges(printable, ps, 0, [])| == |ps| && os == OwnedBy(ps, Ranges(printable, ps, 0, []))
    requires Placed(os, Doc(printable, ps, tail))
    ensures Reasserted(printable, Doc(printable, ps, tail), os, command, windows) ==
            Doc(printable, Updated(ps, command, windows), tail)
  {
    hide Ranges, Doc, Updated, Reasserts, Rewritten, OwnedBy;
    var text := Doc(printable, ps, tail);
    assert text[0..] == text;
    ReassertUpdates(printable, ps, tail, text, 0, [], command, windows);
  }

  // An owned region for every event, with its commands.
  lemma UpdatedIsComplete(printable: char -> bool, ps: seq<Piece>, os: seq<Owned>, command: string, windows: string)
    requires var qs := Updated(ps, command, windows);
             |Ranges(printable, qs, 0, [])| == |qs| && os == OwnedBy(qs, Ranges(printable, qs, 0, []))
    requires forall e :: e in MANAGED_EVENTS ==> exists i :: 0 <= i < |ps| && ps[i].block.event == e
    ensures Complete(os, command, windows) && forall e :: e in MANAGED_EVENTS ==> Has(os, e)
  {
    hide Ranges, Updated, OwnedBy, MANAGED_EVENTS, Has;
    var qs := Updated(ps, command, windows);
    var rs := Ranges(printable, qs, 0, []);
    UpdatedAt(ps, command, windows);
    OwnedByAt(qs, rs);
    RangesEvents(printable, qs, 0, []);
    forall e | e in MANAGED_EVENTS
      ensures Has(os, e)
      ensures exists i :: 0 <= i < |os| && os[i].region.event == e && os[i].command == command &&
                          (windows != "" ==> os[i].windows == windows)
    {
      var i :| 0 <= i < |ps| && ps[i].block.event == e;
      assert os[i] == Owned(rs[i], qs[i].block.command, qs[i].block.windows);
      HasAt(os, i);
    }
  }

  // Installing over a full set of blocks, whatever commands they hold and
  // whatever the user wrote around them, changes the commands in place and no
  // other byte, when the installer recognizes the blocks before and after.
  lemma InstallReasserts(decode: Decoder, printable: char -> bool, ps: seq<Piece>, tail: string,
                         command: string, windows: string)
    requires forall e :: e in MANAGED_EVENTS ==> exists i :: 0 <= i < |ps| && ps[i].block.event == e
    requires ReadsAs(decode, printable, ps, tail, command, windows)
    requires ReadsAs(decode, printable, Updated(ps, command, windows), tail, command, windows)
    ensures InstallText(decode, printable, Doc(printable, ps, tail), command, windows) ==
            Ok(Doc(printable, Updated(ps, command, windows), tail))
    ensures UserText(Updated(ps, command, windows), tail) == UserText(ps, tail)
  {
    hide Analyze, Doc, Updated, UserText, Ranges, OwnedBy, Strip, Placed, Reasserted, Complete, Has, MANAGED_EVENTS,
      NewBlocks, NeedsNewline;
    var qs := Updated(ps, command, windows);
    RangesEvents(printable, ps, 0, []);
    RangesEvents(printable, qs, 0, []);
    var before, after := OwnedBy(ps, Ranges(printable, ps, 0, [])), OwnedBy(qs, Ranges(printable, qs, 0, []));
    var out := Doc(printable, qs, tail);
    DocStrips(printable, ps, tail, before);
    DocStrips(printable, qs, tail, after);
    DocReasserts(printable, ps, tail, before, command, windows);
    UserTextKept(ps, tail, command, windows);
    UpdatedIsComplete(printable, ps, after, command, windows);
    NothingNew(after, MANAGED_EVENTS, command, windows, NeedsNewline(out));
    assert out + "" == out;
  }
}
