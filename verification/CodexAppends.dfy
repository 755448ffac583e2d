// Appending blocks to a config that holds some: what the installer finds in the
// text afterwards, from what it found before.
module CodexAppends {
  import opened Common
  import opened Json
  import opened TomlMask
  import opened CodexLines
  import opened CodexFacts
  import opened CodexRegions
  import opened CodexBlocks
  import opened CodexScanProofs
  import opened CodexDocument
  import opened CodexRewrite
  import opened CodexConfig
  import opened CodexInstall
  import opened CodexInstallProofs
  import opened CodexUpdates

  // The pieces of a document with blocks appended.
  function All(ps: seq<Piece>, tail: string, bs: seq<Block>): seq<Piece> {
    ps + FreshPieces(tail, bs)
  }

  lemma AllRest(ps: seq<Piece>, tail: string, bs: seq<Block>)
    requires ps != []
    ensures All(ps, tail, bs) != [] && All(ps, tail, bs)[0] == ps[0] && All(ps, tail, bs)[1..] == All(ps[1..], tail, bs)
  {
  }

  predicate HasPiece(ps: seq<Piece>, event: string) {
    exists i :: 0 <= i < |ps| && ps[i].block.event == event
  }

  lemma PieceStep(ps: seq<Piece>, event: string)
    requires ps != []
    ensures HasPiece(ps, event) <==> ps[0].block.event == event || HasPiece(ps[1..], event)
  {
    if i :| 0 <= i < |ps[1..]| && ps[1..][i].block.event == event { assert ps[i + 1].block.event == event; }
    if i :| 0 <= i < |ps| && ps[i].block.event == event {
      if i > 0 { assert ps[1..][i - 1].block.event == event; }
    }
  }

  // Blocks of events that a document has none of.
  ghost predicate Lacking(ps: seq<Piece>, bs: seq<Block>) {
    forall b :: b in bs ==> !HasPiece(ps, b.event)
  }

  // ----- The text ------------------------------------------------------------

  lemma {:induction false} AllText(printable: char -> bool, ps: seq<Piece>, tail: string, bs: seq<Block>)
    requires bs != []
    ensures Doc(printable, All(ps, tail, bs), "") == Doc(printable, ps, tail) + RenderAll(printable, bs)
    ensures UserText(All(ps, tail, bs), "") == UserText(ps, tail)
  {
    hide PieceText, RenderAll;
    if ps == [] {
      FreshDoc(printable, tail, bs);
      assert All(ps, tail, bs) == FreshPieces(tail, bs);
    } else {
      AllRest(ps, tail, bs);
      AllText(printable, ps[1..], tail, bs);
      var p, d, r := PieceText(printable, ps[0]), Doc(printable, ps[1..], tail), RenderAll(printable, bs);
      assert p + (d + r) == (p + d) + r;
    }
  }

  // A document ends its last line exactly when its tail does.
  lemma {:induction false} SameEnd(printable: char -> bool, ps: seq<Piece>, tail: string)
    requires Chained(ps, tail)
    ensures NeedsNewline(Doc(printable, ps, tail)) == NeedsNewline(tail)
  {
    hide PieceOk, Detached, TextFacts, PieceText, Unmarked;
    if ps != [] {
      SameEnd(printable, ps[1..], tail);
      EndOfPiece(printable, ps[0]);
      var text, rest := PieceText(printable, ps[0]), Doc(printable, ps[1..], tail);
      if rest == "" {
        EmptyTail(printable, ps[1..], tail);
        assert text + rest == text;
      } else {
        assert (text + rest)[|text + rest| - 1] == rest[|rest| - 1];
      }
    }
  }

  lemma EndOfPiece(printable: char -> bool, p: Piece)
    requires PieceOk(p)
    ensures PieceText(printable, p) != "" && !NeedsNewline(PieceText(printable, p))
  {
    hide BlockText, Front, PieceOk, Name, BlockShape, TextFacts, LexEnd;
    PieceFacts(p);
    BlockFacts(printable, p.block, 0);
    BlockNotEmpty(printable, p.block);
  }

  lemma EmptyTail(printable: char -> bool, ps: seq<Piece>, tail: string)
    requires Doc(printable, ps, tail) == ""
    ensures tail == ""
  {
    hide PieceText;
    if ps != [] {
      BlockNotEmpty(printable, ps[0].block);
    }
  }

  // ----- Its pieces ----------------------------------------------------------

  lemma {:induction false} DetachedAlike(a: seq<Fact>, b: seq<Fact>, event: string)
    requires SameMeaning(a, b)
    ensures Detached(a, event) == Detached(b, event)
  {
    if a != [] {
      assert SameMeaning(a[1..], b[1..]);
      DetachedAlike(a[1..], b[1..], event);
    }
  }

  lemma {:induction false} AllChained(ps: seq<Piece>, tail: string, bs: seq<Block>)
    requires Chained(ps, tail) && Appendable(tail, bs)
    ensures Chained(All(ps, tail, bs), "")
    ensures ps != [] ==> NextUser(All(ps, tail, bs), "") == NextUser(ps, tail)
  {
    hide PieceOk, Unmarked, Detached, TextFacts, Appendable, Front, SameMeaning;
    if ps == [] {
      FreshChained(tail, bs);
      assert All(ps, tail, bs) == FreshPieces(tail, bs);
    } else {
      AllRest(ps, tail, bs);
      AllChained(ps[1..], tail, bs);
      if ps[1..] == [] {
        FreshFront(tail, bs);
        FrontUnmarked(tail, bs[0]);
        DetachedAlike(TextFacts(tail, 0), TextFacts(Front(Piece(tail, bs[0])), 0), ps[0].block.event);
      }
    }
  }

  lemma FreshFront(tail: string, bs: seq<Block>)
    requires Appendable(tail, bs)
    ensures bs != [] && bs[0].lent == NeedsNewline(tail)
    ensures NextUser(All([], tail, bs), "") == Front(Piece(tail, bs[0]))
  {
    assert All([], tail, bs) == FreshPieces(tail, bs);
  }

  lemma AllDistinct(ps: seq<Piece>, tail: string, bs: seq<Block>)
    requires DistinctEvents(ps) && DistinctBlocks(bs) && Lacking(ps, bs)
    ensures DistinctEvents(All(ps, tail, bs))
  {
    var qs := FreshPieces(tail, bs);
    forall i, j | 0 <= i < j < |ps + qs|
      ensures (ps + qs)[i].block.event != (ps + qs)[j].block.event
    {
      if j >= |ps| {
        var b := bs[j - |ps|];
        assert (ps + qs)[j].block == b && b in bs;
        if i < |ps| { assert (ps + qs)[i] == ps[i]; } else { assert (ps + qs)[i].block == bs[i - |ps|]; }
      }
    }
  }

  // ----- Its groups ----------------------------------------------------------

  // The groups of a document, piece by piece.
  lemma DocGroupsStep(printable: char -> bool, ps: seq<Piece>, tail: string, at: nat, event: string)
    requires ps != [] && ps[0].block.event in MANAGED_EVENTS
    ensures GroupsIn(DocFacts(printable, ps, tail, at), event) ==
            GroupsIn(TextFacts(Front(ps[0]), 0), event) + (if event == ps[0].block.event then 1 else 0) +
            GroupsIn(DocFacts(printable, ps[1..], tail, at + |PieceText(printable, ps[0])|), event)
  {
    hide TextFacts, GroupsIn, BlockText, Front;
    PieceGroups(printable, ps[0], DocFacts(printable, ps[1..], tail, at + |PieceText(printable, ps[0])|), at, event);
  }

  lemma FirstGroups(printable: char -> bool, tail: string, bs: seq<Block>, at: nat, there: nat, event: string)
    requires Unmarked(tail) && Appendable(tail, bs) && DistinctBlocks(bs)
    ensures GroupsIn(DocFacts(printable, All([], tail, bs), "", at), event) ==
            GroupsIn(DocFacts(printable, [], tail, there), event) + (if HasEvent(bs, event) then 1 else 0)
  {
    hide TextFacts, Unmarked, GroupsIn, Front, HasEvent, DistinctBlocks, FreshPieces;
    assert All([], tail, bs) == FreshPieces(tail, bs);
    FreshDistinct(tail, bs);
    FreshGroups(printable, tail, bs, at, event);
    FrontGroups(tail, bs[0], event);
    GroupsAnywhere(tail, there, event);
  }

  lemma {:induction false} AllGroups(printable: char -> bool, ps: seq<Piece>, tail: string, bs: seq<Block>,
                                     at: nat, there: nat, event: string)
    requires Chained(ps, tail) && Appendable(tail, bs) && DistinctBlocks(bs)
    ensures GroupsIn(DocFacts(printable, All(ps, tail, bs), "", at), event) ==
            GroupsIn(DocFacts(printable, ps, tail, there), event) + (if HasEvent(bs, event) then 1 else 0)
  {
    hide PieceOk, Detached, TextFacts, Unmarked, GroupsIn, Front, HasEvent, DistinctBlocks, PieceText, DocFacts,
      Appendable, All;
    if ps == [] {
      FirstGroups(printable, tail, bs, at, there, event);
    } else {
      AllRest(ps, tail, bs);
      PieceFacts(ps[0]);
      var n := |PieceText(printable, ps[0])|;
      DocGroupsStep(printable, ps, tail, there, event);
      DocGroupsStep(printable, All(ps, tail, bs), "", at, event);
      AllGroups(printable, ps[1..], tail, bs, at + n, there + n, event);
    }
  }

  lemma FreshDistinct(tail: string, bs: seq<Block>)
    requires DistinctBlocks(bs)
    ensures DistinctEvents(FreshPieces(tail, bs))
  {
  }

  // ----- Its ranges ----------------------------------------------------------

  function EndOf(printable: char -> bool, ps: seq<Piece>, at: nat): nat {
    if ps == [] then at else EndOf(printable, ps[1..], at + |PieceText(printable, ps[0])|)
  }

  // The facts of the user's text before the end of some pieces.
  function Seen(ps: seq<Piece>, earlier: seq<Fact>): seq<Fact> {
    if ps == [] then earlier else Seen(ps[1..], earlier + TextFacts(Front(ps[0]), 0))
  }

  lemma {:induction false} RangesJoin(printable: char -> bool, ps: seq<Piece>, qs: seq<Piece>, at: nat,
                                      earlier: seq<Fact>)
    ensures Ranges(printable, ps + qs, at, earlier) ==
            Ranges(printable, ps, at, earlier) + Ranges(printable, qs, EndOf(printable, ps, at), Seen(ps, earlier))
  {
    hide TextFacts, GroupsIn, PieceText, Front;
    if ps == [] {
      assert ps + qs == qs;
    } else {
      assert (ps + qs)[1..] == ps[1..] + qs;
      RangesJoin(printable, ps[1..], qs, at + |PieceText(printable, ps[0])|, earlier + TextFacts(Front(ps[0]), 0));
    }
  }

  // Of an event without a block, all the groups are the user's.
  lemma {:induction false} SeenGroups(printable: char -> bool, ps: seq<Piece>, tail: string, at: nat,
                                      earlier: seq<Fact>, event: string)
    requires Chained(ps, tail) && !HasPiece(ps, event)
    ensures GroupsIn(earlier, event) + GroupsIn(DocFacts(printable, ps, tail, at), event) ==
            GroupsIn(Seen(ps, earlier), event) + GroupsIn(TextFacts(tail, 0), event)
  {
    hide PieceOk, Detached, TextFacts, Unmarked, GroupsIn, BlockText, Front, HasPiece;
    if ps == [] {
      GroupsAnywhere(tail, at, event);
    } else {
      PieceStep(ps, event);
      PieceFacts(ps[0]);
      hide DocFacts, PieceText;
      var n := |PieceText(printable, ps[0])|;
      DocGroupsStep(printable, ps, tail, at, event);
      GroupsJoin(earlier, TextFacts(Front(ps[0]), 0), event);
      SeenGroups(printable, ps[1..], tail, at + n, earlier + TextFacts(Front(ps[0]), 0), event);
    }
  }

  // The regions of the old blocks are where they were, and each new one is the
  // group behind all others of its event.
  lemma AllRanges(printable: char -> bool, ps: seq<Piece>, tail: string, bs: seq<Block>)
    requires Chained(ps, tail) && Appendable(tail, bs) && Lacking(ps, bs)
    ensures var rs := Ranges(printable, ps, 0, []);
            var more := Ranges(printable, FreshPieces(tail, bs), EndOf(printable, ps, 0), Seen(ps, []));
            && Ranges(printable, All(ps, tail, bs), 0, []) == rs + more && |rs| == |ps| && |more| == |bs|
            && (forall i :: 0 <= i < |bs| ==> more[i].event == bs[i].event)
            && forall i :: 0 <= i < |bs| ==>
                 more[i].groupIndex == GroupsIn(TextFacts(Doc(printable, ps, tail), 0), bs[i].event)
  {
    hide PieceOk, Detached, TextFacts, Unmarked, GroupsIn, BlockText, Front, HasPiece, Doc, DocFacts, Ranges, Chained;
    RangesJoin(printable, ps, FreshPieces(tail, bs), 0, []);
    RangesEvents(printable, ps, 0, []);
    FreshIndices(printable, tail, bs, EndOf(printable, ps, 0), Seen(ps, []));
    DocFactsAre(printable, ps, tail, 0);
    forall i | 0 <= i < |bs|
      ensures Ranges(printable, FreshPieces(tail, bs), EndOf(printable, ps, 0), Seen(ps, []))[i].groupIndex ==
              GroupsIn(TextFacts(Doc(printable, ps, tail), 0), bs[i].event)
    {
      assert bs[i] in bs;
      SeenGroups(printable, ps, tail, 0, [], bs[i].event);
      NoGroups(bs[i].event);
      TailUnmarked(ps, tail);
      FrontGroups(tail, bs[0], bs[i].event);
    }
  }

  lemma {:induction false} TailUnmarked(ps: seq<Piece>, tail: string)
    requires Chained(ps, tail)
    ensures Unmarked(tail)
  {
    hide Unmarked, PieceOk, Detached;
    if ps != [] { TailUnmarked(ps[1..], tail); }
  }

  // ----- Its commands --------------------------------------------------------

  lemma {:induction false} OwnedJoin(hooks: Table, rs: seq<Region>, ss: seq<Region>)
    requires OwnedGroups(hooks, rs).Ok? && OwnedGroups(hooks, ss).Ok?
    ensures OwnedGroups(hooks, rs + ss) == Ok(OwnedGroups(hooks, rs).value + OwnedGroups(hooks, ss).value)
    decreases |rs|
  {
    hide OwnedGroup;
    if rs == [] {
      assert rs + ss == ss && OwnedGroups(hooks, rs).value + OwnedGroups(hooks, ss).value == OwnedGroups(hooks, ss).value;
    } else {
      assert (rs + ss)[1..] == rs[1..] + ss;
      OwnedJoin(hooks, rs[1..], ss);
      var first, rest, more := OwnedGroup(hooks, rs[0]).value, OwnedGroups(hooks, rs[1..]).value, OwnedGroups(hooks, ss).value;
      assert [first] + (rest + more) == ([first] + rest) + more;
    }
  }

  lemma {:induction false} OwnedKept(hooks: Table, after: Table, rs: seq<Region>)
    requires forall i :: 0 <= i < |rs| ==> GroupsOf(after, rs[i].event) == GroupsOf(hooks, rs[i].event)
    ensures OwnedGroups(after, rs) == OwnedGroups(hooks, rs)
    decreases |rs|
  {
    hide GroupsOf, CanonicalCommands;
    if rs != [] {
      forall i | 0 <= i < |rs[1..]|
        ensures GroupsOf(after, rs[1..][i].event) == GroupsOf(hooks, rs[1..][i].event)
      {
        assert rs[1..][i] == rs[i + 1];
      }
      OwnedKept(hooks, after, rs[1..]);
    }
  }

  lemma {:induction false} OwnedByJoin(ps: seq<Piece>, qs: seq<Piece>, rs: seq<Region>, ss: seq<Region>)
    requires |ps| == |rs| && |qs| == |ss|
    ensures OwnedBy(ps + qs, rs + ss) == OwnedBy(ps, rs) + OwnedBy(qs, ss)
    decreases |ps|
  {
    if ps == [] {
      assert ps + qs == qs && rs + ss == ss;
    } else {
      assert (ps + qs)[1..] == ps[1..] + qs && (rs + ss)[1..] == rs[1..] + ss;
      OwnedByJoin(ps[1..], qs, rs[1..], ss);
    }
  }

  lemma {:induction false} IndexJoin(os: seq<Owned>, more: seq<Owned>, event: string)
    ensures ManagedIndex(os + more, event) ==
            if ManagedIndex(os, event).Some? then ManagedIndex(os, event) else ManagedIndex(more, event)
    decreases |os|
  {
    if os == [] {
      assert os + more == more;
    } else {
      assert (os + more)[1..] == os[1..] + more;
      IndexJoin(os[1..], more, event);
    }
  }

  lemma {:induction false} NoIndex(os: seq<Owned>, event: string)
    requires forall i :: 0 <= i < |os| ==> os[i].region.event != event
    ensures ManagedIndex(os, event) == None
    decreases |os|
  {
    if os != [] {
      assert forall i :: 0 <= i < |os[1..]| ==> os[1..][i] == os[i + 1];
      NoIndex(os[1..], event);
    }
  }

  // ----- The analysis afterwards ---------------------------------------------

  lemma AppendableTail(printable: char -> bool, ps: seq<Piece>, tail: string, bs: seq<Block>)
    requires Chained(ps, tail) && Appendable(Doc(printable, ps, tail), bs)
    ensures Appendable(tail, bs) && DistinctBlocks(bs)
  {
    hide Chained, Doc;
    SameEnd(printable, ps, tail);
  }

  lemma MappedAppend(hooks: Table, fs: seq<Fact>, after: seq<Fact>, bs: seq<Block>, event: string)
    requires DistinctBlocks(bs) && EventMapped(hooks, fs, event) && (GroupsIn(fs, event) > 0 ==> event in hooks)
    requires GroupsIn(after, event) == GroupsIn(fs, event) + (if HasEvent(bs, event) then 1 else 0)
    ensures |GroupsOf(hooks, event)| == GroupsIn(fs, event)
    ensures EventMapped(WithGroups(hooks, bs), after, event)
  {
    hide GroupsIn, WithGroups, HasEvent, MapSlice;
    if HasEvent(bs, event) {
      MappedAfterInstall(hooks, fs, after, bs, event);
    } else {
      WithGroupsKeeps(hooks, bs, event);
    }
  }

  lemma NewIndex(os: seq<Owned>, ps: seq<Piece>, rs: seq<Region>, i: nat)
    requires |ps| == |rs| && i < |rs| && forall j, k :: 0 <= j < k < |rs| ==> rs[j].event != rs[k].event
    requires ManagedIndex(os, rs[i].event) == None
    ensures ManagedIndex(os + OwnedBy(ps, rs), rs[i].event) == Some(rs[i].groupIndex)
  {
    hide OwnedBy, ManagedIndex;
    OwnedByAt(ps, rs);
    ManagedIndexAt(OwnedBy(ps, rs), i);
    IndexJoin(os, OwnedBy(ps, rs), rs[i].event);
  }

  // One event of the appended document clashes no more than before.
  lemma NoClashAppended(hooks: Table, fs: seq<Fact>, bs: seq<Block>, os: seq<Owned>, all: seq<Owned>, event: string,
                        command: string, windows: string)
    requires DistinctBlocks(bs) && EventMapped(hooks, fs, event)
    requires !EventClashes(hooks, os, event, command, windows)
    requires if HasEvent(bs, event)
             then ManagedIndex(os, event) == None && ManagedIndex(all, event) == Some(|GroupsOf(hooks, event)|)
             else ManagedIndex(all, event) == ManagedIndex(os, event)
    ensures !EventClashes(WithGroups(hooks, bs), all, event, command, windows)
  {
    hide GroupsIn, WithGroups, GroupTable, GroupsOf, GroupClashes, EventMapped;
    if HasEvent(bs, event) {
      var i :| 0 <= i < |bs| && bs[i].event == event;
      assert ManagedIndex([], event) == None;
      NoClashAfterInstall(hooks, fs, bs, all, event, i, command, windows);
    } else {
      GroupsAfterInstall(hooks, fs, bs, event);
    }
  }

  // The commands of all regions, old and new.
  lemma AllOwned(hooks: Table, fs: seq<Fact>, ps: seq<Piece>, qs: seq<Piece>, rs: seq<Region>, more: seq<Region>,
                 bs: seq<Block>)
    requires |rs| == |ps| && |more| == |qs| == |bs| && DistinctBlocks(bs)
    requires forall i :: 0 <= i < |qs| ==> qs[i].block == bs[i] && more[i].event == bs[i].event
    requires forall i :: 0 <= i < |bs| ==>
               EventMapped(hooks, fs, bs[i].event) && more[i].groupIndex == |GroupsOf(hooks, bs[i].event)|
    requires forall i :: 0 <= i < |rs| ==> !HasEvent(bs, rs[i].event) && EventMapped(hooks, fs, rs[i].event)
    requires OwnedGroups(hooks, rs) == Ok(OwnedBy(ps, rs))
    ensures OwnedGroups(WithGroups(hooks, bs), rs + more) == Ok(OwnedBy(ps + qs, rs + more))
  {
    hide GroupsIn, WithGroups, GroupTable, GroupsOf, OwnedGroups, OwnedBy, HasEvent, EventMapped;
    var after := WithGroups(hooks, bs);
    forall i | 0 <= i < |rs|
      ensures GroupsOf(after, rs[i].event) == GroupsOf(hooks, rs[i].event)
    {
      GroupsAfterInstall(hooks, fs, bs, rs[i].event);
    }
    OwnedKept(hooks, after, rs);
    forall i | 0 <= i < |qs|
      ensures more[i].groupIndex < |GroupsOf(after, more[i].event)|
      ensures GroupsOf(after, more[i].event)[more[i].groupIndex] == GroupTable(qs[i].block)
    {
      GroupsAfterInstall(hooks, fs, bs, bs[i].event);
    }
    OwnedAfterInstall(after, qs, more);
    OwnedJoin(after, rs, more);
    OwnedByJoin(ps, qs, rs, more);
  }

  lemma LackingEvents(ps: seq<Piece>, rs: seq<Region>, bs: seq<Block>, i: nat)
    requires |rs| == |ps| && Lacking(ps, bs) && i < |rs| && rs[i].event == ps[i].block.event
    ensures !HasEvent(bs, rs[i].event)
  {
    assert HasPiece(ps, rs[i].event);
    forall k | 0 <= k < |bs|
      ensures bs[k].event != rs[i].event
    {
      assert bs[k] in bs;
    }
  }

  // Appended to a config that the installer recognizes, blocks of other events
  // are recognized with the rest, when the decoder accepts the text.
  lemma AppendIsRead(decode: Decoder, printable: char -> bool, ps: seq<Piece>, tail: string, bs: seq<Block>,
                     command: string, windows: string)
    requires ReadsToml(decode, printable) && Chained(ps, tail) && DistinctEvents(ps) && Lacking(ps, bs)
    requires ReadsAs(decode, printable, ps, tail, command, windows) && Appendable(Doc(printable, ps, tail), bs)
    requires decode(Doc(printable, ps, tail) + RenderAll(printable, bs)).Some?
    ensures ReadsAs(decode, printable, All(ps, tail, bs), "", command, windows)
  {
    hide Doc, Ranges, TextFacts, EventMapped, OwnedGroups, OwnedBy, EventClashes, Chained, DistinctEvents, Lacking,
      MANAGED_EVENTS, WithGroups, GroupsIn, ReadsAs, ManagedIndex, RenderAll, HasEvent, GroupsOf, FreshPieces;
    var text, qs := Doc(printable, ps, tail), FreshPieces(tail, bs);
    var out := text + RenderAll(printable, bs);
    AppendableTail(printable, ps, tail, bs);
    AllText(printable, ps, tail, bs);
    AllChained(ps, tail, bs);
    AllDistinct(ps, tail, bs);
    AllRanges(printable, ps, tail, bs);
    AnalysisParts(decode, printable, ps, tail, command, windows);
    var rs, more := Ranges(printable, ps, 0, []), Ranges(printable, qs, EndOf(printable, ps, 0), Seen(ps, []));
    var hooks := HooksTable(decode(text).value).value;
    var after := WithGroups(hooks, bs);
    assert HooksTable(decode(out).value) == Some(after);
    var os, all := OwnedBy(ps, rs), OwnedBy(All(ps, tail, bs), rs + more);
    OwnedByJoin(ps, qs, rs, more);
    RangesEvents(printable, ps, 0, []);
    AllFacts(printable, ps, tail, bs);
    forall e | e in MANAGED_EVENTS
      ensures EventMapped(after, TextFacts(out, 0), e) && |GroupsOf(hooks, e)| == GroupsIn(TextFacts(text, 0), e)
    {
      MappedAppend(hooks, TextFacts(text, 0), TextFacts(out, 0), bs, e);
    }
    forall e | e in MANAGED_EVENTS
      ensures !EventClashes(after, all, e, command, windows)
    {
      AllIndices(ps, qs, rs, more, bs, hooks, e);
      NoClashAppended(hooks, TextFacts(text, 0), bs, os, all, e, command, windows);
    }
    forall i | 0 <= i < |rs|
      ensures !HasEvent(bs, rs[i].event) && EventMapped(hooks, TextFacts(text, 0), rs[i].event)
    {
      LackingEvents(ps, rs, bs, i);
      PieceManaged(ps, tail, i);
    }
    AllOwned(hooks, TextFacts(text, 0), ps, qs, rs, more, bs);
    AnalysisFrom(decode, printable, All(ps, tail, bs), "", command, windows);
  }

  lemma AllFacts(printable: char -> bool, ps: seq<Piece>, tail: string, bs: seq<Block>)
    requires Chained(ps, tail) && Appendable(tail, bs) && DistinctBlocks(bs)
    ensures forall e :: GroupsIn(TextFacts(Doc(printable, ps, tail) + RenderAll(printable, bs), 0), e) ==
                        GroupsIn(TextFacts(Doc(printable, ps, tail), 0), e) + (if HasEvent(bs, e) then 1 else 0)
  {
    hide TextFacts, Doc, RenderAll, HasEvent, GroupsIn, DocFacts, Chained, All;
    AllText(printable, ps, tail, bs);
    AllChained(ps, tail, bs);
    DocFactsAre(printable, ps, tail, 0);
    DocFactsAre(printable, All(ps, tail, bs), "", 0);
    forall e
      ensures GroupsIn(TextFacts(Doc(printable, ps, tail) + RenderAll(printable, bs), 0), e) ==
              GroupsIn(TextFacts(Doc(printable, ps, tail), 0), e) + (if HasEvent(bs, e) then 1 else 0)
    {
      AllGroups(printable, ps, tail, bs, 0, 0, e);
    }
  }

  // Where the managed group of an event is, before and after.
  lemma AllIndices(ps: seq<Piece>, qs: seq<Piece>, rs: seq<Region>, more: seq<Region>, bs: seq<Block>, hooks: Table,
                   event: string)
    requires |rs| == |ps| && |more| == |qs| == |bs| && DistinctBlocks(bs) && Lacking(ps, bs)
    requires forall i :: 0 <= i < |rs| ==> rs[i].event == ps[i].block.event
    requires forall i :: 0 <= i < |bs| ==> more[i].event == bs[i].event
    requires forall i :: 0 <= i < |bs| && bs[i].event == event ==> more[i].groupIndex == |GroupsOf(hooks, event)|
    ensures var os, all := OwnedBy(ps, rs), OwnedBy(ps, rs) + OwnedBy(qs, more);
            if HasEvent(bs, event)
            then ManagedIndex(os, event) == None && ManagedIndex(all, event) == Some(|GroupsOf(hooks, event)|)
            else ManagedIndex(all, event) == ManagedIndex(os, event)
  {
    hide OwnedBy, ManagedIndex, GroupsOf;
    var os := OwnedBy(ps, rs);
    OwnedByAt(ps, rs);
    OwnedByAt(qs, more);
    if HasEvent(bs, event) {
      var i :| 0 <= i < |bs| && bs[i].event == event;
      assert bs[i] in bs && !HasPiece(ps, event);
      NoIndex(os, event);
      NewIndex(os, qs, more, i);
    } else {
      NoIndex(OwnedBy(qs, more), event);
      IndexJoin(os, OwnedBy(qs, more), event);
    }
  }
}
