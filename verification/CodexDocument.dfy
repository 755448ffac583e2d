// Configs made of user text and printed hook blocks: what the scanner finds in
// them and what stripping the found regions leaves.
module CodexDocument {
  import opened Common
  import opened TomlMask
  import opened TomlTokens
  import opened CodexLines
  import opened CodexRegions
  import opened CodexBlocks
  import opened CodexFacts
  import opened CodexScanProofs

  // User text, then a block. A lent newline belongs to the block.
  datatype Piece = Piece(user: string, block: Block)

  // The user's text and the newline the block brought.
  function Front(p: Piece): string {
    p.user + (if p.block.lent then "\n" else "")
  }

  function PieceText(printable: char -> bool, p: Piece): string {
    Front(p) + BlockText(printable, p.block)
  }

  function Doc(printable: char -> bool, ps: seq<Piece>, tail: string): string {
    if ps == [] then tail else PieceText(printable, ps[0]) + Doc(printable, ps[1..], tail)
  }

  // What is the user's.
  function UserText(ps: seq<Piece>, tail: string): string {
    if ps == [] then tail else ps[0].user + UserText(ps[1..], tail)
  }

  // ----- Conditions on the user's text ---------------------------------------

  // Text that ends outside strings and carries no ownership marks and no inline
  // array of a managed event.
  ghost predicate Unmarked(text: string) {
    && Closed(LexEnd(Normal, text))
    && AllSilent(TextFacts(text, 0))
    && !AnyInline(TextFacts(text, 0), false)
  }

  ghost predicate PieceOk(p: Piece) {
    p.block.event in MANAGED_EVENTS && WholeLines(Front(p)) && Unmarked(Front(p))
  }

  // The user text after a piece.
  function NextUser(ps: seq<Piece>, tail: string): string {
    if ps == [] then tail else Front(ps[0])
  }

  // Every piece is well formed, and the text after a block leaves its group alone.
  ghost predicate Chained(ps: seq<Piece>, tail: string) {
    if ps == [] then Unmarked(tail)
    else
      PieceOk(ps[0]) && Detached(TextFacts(NextUser(ps[1..], tail), 0), ps[0].block.event) && Chained(ps[1..], tail)
  }

  predicate DistinctEvents(ps: seq<Piece>) {
    forall i, j :: 0 <= i < j < |ps| ==> ps[i].block.event != ps[j].block.event
  }

  // ----- The facts of a document ---------------------------------------------

  function DocFacts(printable: char -> bool, ps: seq<Piece>, tail: string, at: nat): seq<Fact> {
    if ps == [] then TextFacts(tail, at)
    else
      var front, block := Front(ps[0]), BlockText(printable, ps[0].block);
      (TextFacts(front, at) + TextFacts(block, at + |front|)) +
      DocFacts(printable, ps[1..], tail, at + |front| + |block|)
  }

  lemma {:induction false} DocFactsAre(printable: char -> bool, ps: seq<Piece>, tail: string, at: nat)
    requires Chained(ps, tail)
    ensures TextFacts(Doc(printable, ps, tail), at) == DocFacts(printable, ps, tail, at)
    ensures LexEnd(Normal, Doc(printable, ps, tail)) == LexEnd(Normal, tail)
  {
    hide PieceOk, Unmarked, Detached, TextFacts, LexEnd, PieceText, Front, BlockText;
    if ps != [] {
      var rest := ps[1..];
      DocFactsAre(printable, rest, tail, at + |Front(ps[0])| + |BlockText(printable, ps[0].block)|);
      PieceFacts(ps[0]);
      DocFactsStep(printable, ps[0], Doc(printable, rest, tail), at);
    }
  }

  lemma PieceFacts(p: Piece)
    requires PieceOk(p)
    ensures Name(p.block.event) && WholeLines(Front(p)) && Closed(LexEnd(Normal, Front(p))) && Unmarked(Front(p))
    ensures p.block.event in MANAGED_EVENTS
  {
    EventLetters(p.block.event);
  }

  lemma DocFactsStep(printable: char -> bool, p: Piece, rest: string, at: nat)
    requires Name(p.block.event) && WholeLines(Front(p)) && Closed(LexEnd(Normal, Front(p)))
    ensures var front, block := Front(p), BlockText(printable, p.block);
            && TextFacts(PieceText(printable, p) + rest, at) ==
               (TextFacts(front, at) + TextFacts(block, at + |front|)) + TextFacts(rest, at + |front| + |block|)
            && LexEnd(Normal, PieceText(printable, p) + rest) == LexEnd(Normal, rest)
  {
    hide TextFacts, LexEnd, BlockText, Name, Front;
    var front, block := Front(p), BlockText(printable, p.block);
    BlockFacts(printable, p.block, at + |front|);
    FactsConcat(front, block + rest, at);
    FactsConcat(block, rest, at + |front|);
    assert (front + block) + rest == front + (block + rest);
    RegroupFacts(TextFacts(front, at), TextFacts(block, at + |front|), TextFacts(rest, at + |front| + |block|));
  }

  lemma RegroupFacts(a: seq<Fact>, b: seq<Fact>, c: seq<Fact>)
    ensures a + (b + c) == (a + b) + c
  {
  }

  // ----- The same text elsewhere ---------------------------------------------

  lemma {:induction false} DetachedMoved(fs: seq<Fact>, offset: nat, event: string)
    ensures Detached(MovedFacts(fs, offset), event) == Detached(fs, event)
  {
    if fs != [] {
      assert MovedFacts(fs, offset)[1..] == MovedFacts(fs[1..], offset);
      DetachedMoved(fs[1..], offset, event);
    }
  }

  lemma {:induction false} InlineMoved(fs: seq<Fact>, offset: nat, inHooks: bool)
    ensures AnyInline(MovedFacts(fs, offset), inHooks) == AnyInline(fs, inHooks)
  {
    if fs != [] {
      assert MovedFacts(fs, offset)[1..] == MovedFacts(fs[1..], offset);
      InlineMoved(fs[1..], offset, inHooks);
      if fs[0].header.Some? {
        InlineMoved(fs[1..], offset, !fs[0].header.value.isArray && fs[0].header.value.path == ["hooks"]);
      }
    }
  }

  // What is asked of user text holds of it anywhere.
  lemma UnmarkedAnywhere(text: string, at: nat)
    requires Unmarked(text)
    ensures AllSilent(TextFacts(text, at)) && !AnyInline(TextFacts(text, at), false)
  {
    FactsMoved(text, at);
    InlineMoved(TextFacts(text, 0), at, false);
    hide TextFacts, AnyInline;
  }

  lemma DetachedAnywhere(text: string, at: nat, event: string)
    requires Detached(TextFacts(text, 0), event)
    ensures Detached(TextFacts(text, at), event)
  {
    FactsMoved(text, at);
    hide TextFacts;
    DetachedMoved(TextFacts(text, 0), at, event);
  }

  lemma GroupsAnywhere(text: string, at: nat, event: string)
    ensures GroupsIn(TextFacts(text, at), event) == GroupsIn(TextFacts(text, 0), event)
  {
    FactsMoved(text, at);
    hide TextFacts;
    var here := TextFacts(text, 0);
    GroupsAlike(MovedFacts(here, at), here, |here|, event);
  }

  // ----- What scanning finds -------------------------------------------------

  // The regions of the blocks, each with its place among the user's groups of
  // its event.
  function Ranges(printable: char -> bool, ps: seq<Piece>, at: nat, earlier: seq<Fact>): seq<Region> {
    if ps == [] then []
    else
      var p := ps[0];
      var end := at + |PieceText(printable, p)|;
      var seen := earlier + TextFacts(Front(p), 0);
      [BlockRegion(p.block, at + |p.user|, end, GroupsIn(seen, p.block.event))] + Ranges(printable, ps[1..], end, seen)
  }

  // The facts after a piece: the next user text's, then a block's if any.
  lemma NextParts(printable: char -> bool, ps: seq<Piece>, tail: string, at: nat) returns (next: seq<Fact>)
    requires Chained(ps, tail)
    ensures DocFacts(printable, ps, tail, at) == TextFacts(NextUser(ps, tail), at) + next && StartsBlock(next)
    ensures AllSilent(TextFacts(NextUser(ps, tail), at)) && !AnyInline(TextFacts(NextUser(ps, tail), at), false)
  {
    hide *;
    if ps == [] {
      LastUser(printable, ps, tail, at);
      UnmarkedAnywhere(tail, at);
      next := [];
    } else {
      var mid := at + |Front(ps[0])|;
      var rest := DocFacts(printable, ps[1..], tail, mid + |BlockText(printable, ps[0].block)|);
      next := TextFacts(BlockText(printable, ps[0].block), mid) + rest;
      FirstPiece(printable, ps, tail, at);
      NextBlock(printable, ps[0], at, rest);
      RegroupFacts(TextFacts(Front(ps[0]), at), TextFacts(BlockText(printable, ps[0].block), mid), rest);
    }
  }

  lemma LastUser(printable: char -> bool, ps: seq<Piece>, tail: string, at: nat)
    requires ps == [] && Chained(ps, tail)
    ensures Unmarked(tail) && NextUser(ps, tail) == tail && StartsBlock([])
    ensures DocFacts(printable, ps, tail, at) == TextFacts(tail, at) + []
  {
    hide TextFacts, Unmarked;
  }

  lemma FirstPiece(printable: char -> bool, ps: seq<Piece>, tail: string, at: nat)
    requires ps != [] && Chained(ps, tail)
    ensures var mid := at + |Front(ps[0])|;
            && PieceOk(ps[0]) && NextUser(ps, tail) == Front(ps[0])
            && DocFacts(printable, ps, tail, at) ==
               (TextFacts(Front(ps[0]), at) + TextFacts(BlockText(printable, ps[0].block), mid)) +
               DocFacts(printable, ps[1..], tail, mid + |BlockText(printable, ps[0].block)|)
  {
    hide PieceOk, Unmarked, Detached, TextFacts, BlockText, Front;
  }

  lemma NextBlock(printable: char -> bool, p: Piece, at: nat, rest: seq<Fact>)
    requires PieceOk(p)
    ensures AllSilent(TextFacts(Front(p), at)) && !AnyInline(TextFacts(Front(p), at), false)
    ensures StartsBlock(TextFacts(BlockText(printable, p.block), at + |Front(p)|) + rest)
  {
    hide TextFacts, Front, BlockText, AllSilent, AnyInline, Unmarked;
    PieceFacts(p);
    UnmarkedAnywhere(Front(p), at);
    BlockFacts(printable, p.block, at + |Front(p)|);
  }

  // Two runs of facts agree on how many groups the remaining events have.
  predicate SameGroups(pre: seq<Fact>, earlier: seq<Fact>, ps: seq<Piece>) {
    forall i :: 0 <= i < |ps| ==> GroupsIn(pre, ps[i].block.event) == GroupsIn(earlier, ps[i].block.event)
  }

  lemma GroupsSoFar(pre: seq<Fact>, earlier: seq<Fact>, front: string, at: nat, event: string)
    requires GroupsIn(pre, event) == GroupsIn(earlier, event)
    ensures GroupsIn(pre + TextFacts(front, at), event) == GroupsIn(earlier + TextFacts(front, 0), event)
  {
    hide TextFacts, GroupsIn;
    GroupsJoin(pre, TextFacts(front, at), event);
    GroupsJoin(earlier, TextFacts(front, 0), event);
    GroupsAnywhere(front, at, event);
  }

  lemma SameGroupsStep(pre: seq<Fact>, earlier: seq<Fact>, ps: seq<Piece>, at: nat, b: seq<Fact>, mid: nat, end: nat)
    requires ps != [] && DistinctEvents(ps) && SameGroups(pre, earlier, ps)
    requires BlockShape(b, ps[0].block, mid, end) && ps[0].block.event in MANAGED_EVENTS
    ensures var u := TextFacts(Front(ps[0]), at);
            SameGroups((pre + u) + b, earlier + TextFacts(Front(ps[0]), 0), ps[1..])
  {
    hide TextFacts, GroupsIn, Front, BlockShape;
    var u, rest := TextFacts(Front(ps[0]), at), ps[1..];
    forall i | 0 <= i < |rest|
      ensures GroupsIn((pre + u) + b, rest[i].block.event) ==
              GroupsIn(earlier + TextFacts(Front(ps[0]), 0), rest[i].block.event)
    {
      var e := rest[i].block.event;
      assert rest[i] == ps[i + 1];
      GroupsSoFar(pre, earlier, Front(ps[0]), at, e);
      GroupsJoin(pre + u, b, e);
      OtherGroups(b, ps[0].block, mid, end, e);
    }
  }

  lemma OtherGroups(b: seq<Fact>, block: Block, at: nat, end: nat, event: string)
    requires BlockShape(b, block, at, end) && block.event in MANAGED_EVENTS && event != block.event
    ensures GroupsIn(b, event) == 0
  {
    BlockGroups(b, block, at, end, |b|, event);
  }

  // Scanning from a piece on finds the blocks from there on.
  lemma {:induction false} DocCollect(printable: char -> bool, ps: seq<Piece>, tail: string, text: string,
                                      pre: seq<Fact>, at: nat, earlier: seq<Fact>)
    requires Chained(ps, tail) && DistinctEvents(ps) && SameGroups(pre, earlier, ps)
    requires at <= |text| && text[at..] == Doc(printable, ps, tail)
    ensures Collect(text, pre + DocFacts(printable, ps, tail, at), |pre|) == Ok(Ranges(printable, ps, at, earlier))
    decreases |ps|
  {
    if ps == [] {
      CollectTail(text, pre, tail, at);
    } else {
      hide *;
      DocCollectStep(printable, ps, tail, text, pre, at, earlier);
    }
  }

  lemma CollectTail(text: string, pre: seq<Fact>, tail: string, at: nat)
    requires Unmarked(tail)
    ensures Collect(text, pre + TextFacts(tail, at), |pre|) == Ok([])
  {
    UnmarkedAnywhere(tail, at);
    hide TextFacts, Unmarked;
    var fs := pre + TextFacts(tail, at);
    assert forall k :: |pre| <= k < |fs| ==> fs[k] == TextFacts(tail, at)[k - |pre|];
    CollectSkips(text, fs, |pre|, |fs|);
  }

  lemma PieceInText(printable: char -> bool, p: Piece, rest: string, text: string, at: nat)
    requires at <= |text| && text[at..] == PieceText(printable, p) + rest
    ensures var mid, end := at + |Front(p)|, at + |PieceText(printable, p)|;
            && end <= |text| && text[end..] == rest
            && end == mid + |BlockText(printable, p.block)|
            && (p.block.lent ==> mid == at + |p.user| + 1 && text[mid - 1] == '\n')
            && (!p.block.lent ==> mid == at + |p.user|)
  {
    hide BlockText;
    var t := PieceText(printable, p);
    assert text[at + |t|..] == text[at..][|t|..] == rest;
    if p.block.lent {
      assert text[at + |p.user|] == text[at..][|p.user|] == t[|p.user|];
    }
  }

  lemma Unfolded(printable: char -> bool, ps: seq<Piece>, tail: string, at: nat, earlier: seq<Fact>)
    requires ps != [] && Chained(ps, tail) && DistinctEvents(ps)
    ensures var p, rest := ps[0], ps[1..];
            var mid, end := at + |Front(p)|, at + |PieceText(printable, p)|;
            && PieceOk(p) && Detached(TextFacts(NextUser(rest, tail), 0), p.block.event)
            && Chained(rest, tail) && DistinctEvents(rest)
            && Doc(printable, ps, tail) == PieceText(printable, p) + Doc(printable, rest, tail)
            && end == mid + |BlockText(printable, p.block)|
            && DocFacts(printable, ps, tail, at) ==
               (TextFacts(Front(p), at) + TextFacts(BlockText(printable, p.block), mid)) +
               DocFacts(printable, rest, tail, end)
            && Ranges(printable, ps, at, earlier) ==
               [BlockRegion(p.block, at + |p.user|, end, GroupsIn(earlier + TextFacts(Front(p), 0), p.block.event))] +
               Ranges(printable, rest, end, earlier + TextFacts(Front(p), 0))
  {
    hide PieceOk, Unmarked, Detached, TextFacts, BlockText, Front, GroupsIn;
  }

  lemma AssociateFacts(pre: seq<Fact>, u: seq<Fact>, b: seq<Fact>, d: seq<Fact>)
    ensures pre + ((u + b) + d) == ((pre + u) + b) + d
    ensures ((pre + u) + b) + d == (pre + u) + (b + d)
    ensures |(pre + u) + b| == |pre| + |u| + |b|
  {
  }

  lemma FirstSame(pre: seq<Fact>, earlier: seq<Fact>, ps: seq<Piece>)
    requires ps != [] && SameGroups(pre, earlier, ps)
    ensures GroupsIn(pre, ps[0].block.event) == GroupsIn(earlier, ps[0].block.event)
  {
  }

  lemma DocCollectStep(printable: char -> bool, ps: seq<Piece>, tail: string, text: string,
                       pre: seq<Fact>, at: nat, earlier: seq<Fact>)
    requires ps != [] && Chained(ps, tail) && DistinctEvents(ps) && SameGroups(pre, earlier, ps)
    requires at <= |text| && text[at..] == Doc(printable, ps, tail)
    ensures Collect(text, pre + DocFacts(printable, ps, tail, at), |pre|) == Ok(Ranges(printable, ps, at, earlier))
    decreases |ps|, 0
  {
    hide *;
    var p, rest := ps[0], ps[1..];
    var front, block := Front(p), BlockText(printable, p.block);
    var mid, end := at + |front|, at + |PieceText(printable, p)|;
    var u, b, d := TextFacts(front, at), TextFacts(block, mid), DocFacts(printable, rest, tail, end);
    var fs := ((pre + u) + b) + d;
    Unfolded(printable, ps, tail, at, earlier);
    PieceInText(printable, p, Doc(printable, rest, tail), text, at);
    PieceFacts(p);
    BlockFacts(printable, p.block, mid);
    SameGroupsStep(pre, earlier, ps, at, b, mid, end);
    DocCollect(printable, rest, tail, text, (pre + u) + b, end, earlier + TextFacts(front, 0));
    AssociateFacts(pre, u, b, d);
    UnmarkedAnywhere(front, at);
    var next := NextParts(printable, rest, tail, end);
    DetachedAnywhere(NextUser(rest, tail), end, p.block.event);
    FirstSame(pre, earlier, ps);
    GroupsSoFar(pre, earlier, front, at, p.block.event);
    CollectBlock(text, fs, pre, u, b, p.block, mid, end, TextFacts(NextUser(rest, tail), end), next,
                 Ranges(printable, rest, end, earlier + TextFacts(front, 0)));
  }

  // ----- The whole scan ------------------------------------------------------

  lemma {:induction false} DocInline(printable: char -> bool, ps: seq<Piece>, tail: string, at: nat)
    requires Chained(ps, tail)
    ensures !AnyInline(DocFacts(printable, ps, tail, at), false)
    ensures MetaFine(DocFacts(printable, ps, tail, at)) && NoTrailing(DocFacts(printable, ps, tail, at))
    decreases |ps|
  {
    hide AllSilent, AnyInline, TextFacts, MetaFine, NoTrailing, PieceOk, Detached, Front, BlockText, Unmarked;
    if ps == [] {
      UnmarkedAnywhere(tail, at);
      SilentIsFine(TextFacts(tail, at));
    } else {
      var mid := at + |Front(ps[0])|;
      var end := mid + |BlockText(printable, ps[0].block)|;
      DocInline(printable, ps[1..], tail, end);
      PieceInline(printable, ps[0], at, DocFacts(printable, ps[1..], tail, end));
    }
  }

  lemma PieceInline(printable: char -> bool, p: Piece, at: nat, rest: seq<Fact>)
    requires PieceOk(p) && !AnyInline(rest, false) && MetaFine(rest) && NoTrailing(rest)
    ensures var u, b := TextFacts(Front(p), at), TextFacts(BlockText(printable, p.block), at + |Front(p)|);
            !AnyInline((u + b) + rest, false) && MetaFine((u + b) + rest) && NoTrailing((u + b) + rest)
  {
    hide *;
    var mid := at + |Front(p)|;
    PieceFacts(p);
    UnmarkedAnywhere(Front(p), at);
    BlockFacts(printable, p.block, mid);
    FinePiece(TextFacts(Front(p), at), TextFacts(BlockText(printable, p.block), mid), p.block,
              mid, mid + |BlockText(printable, p.block)|, rest);
  }

  lemma FinePiece(u: seq<Fact>, b: seq<Fact>, block: Block, at: nat, end: nat, rest: seq<Fact>)
    requires AllSilent(u) && !AnyInline(u, false) && BlockShape(b, block, at, end)
    requires !AnyInline(rest, false) && MetaFine(rest) && NoTrailing(rest)
    ensures !AnyInline((u + b) + rest, false) && MetaFine((u + b) + rest) && NoTrailing((u + b) + rest)
  {
    hide *;
    forall h
      ensures !AnyInline(b + rest, h)
    {
      BlockLeavesHooks(b, block, at, end, rest, h);
    }
    HooksTableAfter(u, b + rest, false);
    RegroupFacts(u, b, rest);
    SilentIsFine(u);
    BlockIsFine(b, block, at, end);
    FineJoin(u, b);
    FineJoin(u + b, rest);
  }

  // Ranges one after the other between two offsets.
  predicate InOrder(rs: seq<Region>, lo: nat, hi: nat) {
    if rs == [] then lo <= hi
    else lo <= rs[0].start < rs[0].end && InOrder(rs[1..], rs[0].end, hi)
  }

  lemma {:induction false} InOrderBounds(rs: seq<Region>, lo: nat, hi: nat)
    requires InOrder(rs, lo, hi)
    ensures lo <= hi
    ensures forall i :: 0 <= i < |rs| ==> lo <= rs[i].start < rs[i].end <= hi
    ensures forall i :: 0 < i < |rs| ==> rs[i - 1].end <= rs[i].start
  {
    if rs != [] {
      InOrderBounds(rs[1..], rs[0].end, hi);
      assert forall i :: 0 < i < |rs| ==> rs[i] == rs[1..][i - 1];
    }
  }

  lemma RangesStep(printable: char -> bool, ps: seq<Piece>, tail: string, at: nat, earlier: seq<Fact>)
    requires ps != []
    ensures var p, end, seen := ps[0], at + |PieceText(printable, ps[0])|, earlier + TextFacts(Front(ps[0]), 0);
            && Ranges(printable, ps, at, earlier) ==
               [BlockRegion(p.block, at + |p.user|, end, GroupsIn(seen, p.block.event))] +
               Ranges(printable, ps[1..], end, seen)
            && at + |Doc(printable, ps, tail)| == end + |Doc(printable, ps[1..], tail)|
            && at + |p.user| < end
  {
    hide TextFacts, GroupsIn, BlockText;
    BlockNotEmpty(printable, ps[0].block);
  }

  lemma NoRanges(printable: char -> bool, at: nat, earlier: seq<Fact>)
    ensures Ranges(printable, [], at, earlier) == []
  {
  }

  lemma {:induction false} RangesInOrder(printable: char -> bool, ps: seq<Piece>, tail: string, at: nat,
                                         earlier: seq<Fact>)
    ensures InOrder(Ranges(printable, ps, at, earlier), at, at + |Doc(printable, ps, tail)|)
    decreases |ps|
  {
    hide Ranges, TextFacts, PieceText, Front, GroupsIn, Doc;
    if ps == [] {
      NoRanges(printable, at, earlier);
    } else {
      var p, end, seen := ps[0], at + |PieceText(printable, ps[0])|, earlier + TextFacts(Front(ps[0]), 0);
      RangesStep(printable, ps, tail, at, earlier);
      RangesInOrder(printable, ps[1..], tail, end, seen);
    }
  }

  lemma {:induction false} RangesEvents(printable: char -> bool, ps: seq<Piece>, at: nat, earlier: seq<Fact>)
    ensures var rs := Ranges(printable, ps, at, earlier);
            |rs| == |ps| && forall i :: 0 <= i < |rs| ==> rs[i].event == ps[i].block.event
    decreases |ps|
  {
    hide Ranges, TextFacts, PieceText, Front, GroupsIn, Doc;
    if ps == [] {
      NoRanges(printable, at, earlier);
    } else {
      var end, seen := at + |PieceText(printable, ps[0])|, earlier + TextFacts(Front(ps[0]), 0);
      RangesStep(printable, ps, "", at, earlier);
      RangesEvents(printable, ps[1..], end, seen);
    }
  }

  lemma BlockNotEmpty(printable: char -> bool, b: Block)
    ensures BlockText(printable, b) != ""
  {
    hide BlockLines;
    assert |BlockLines(printable, b)| >= 8 by { ManyLines(printable, b); }
  }

  lemma ManyLines(printable: char -> bool, b: Block)
    ensures |BlockLines(printable, b)| >= 8
  {
  }

  // Scanning a document finds exactly the ranges of its blocks.
  lemma ScanFindsBlocks(printable: char -> bool, ps: seq<Piece>, tail: string)
    requires Chained(ps, tail) && DistinctEvents(ps)
    ensures var text := Doc(printable, ps, tail);
            ScanRegions(text, TextFacts(text, 0)) == Ok(Ranges(printable, ps, 0, []))
  {
    hide *;
    var text := Doc(printable, ps, tail);
    var rs := Ranges(printable, ps, 0, []);
    StartOfDoc(text, DocFacts(printable, ps, tail, 0), ps);
    DocFactsAre(printable, ps, tail, 0);
    DocInline(printable, ps, tail, 0);
    RangesInOrder(printable, ps, tail, 0, []);
    RangesEvents(printable, ps, 0, []);
    RangesOk(text, ps, rs);
    DocCollect(printable, ps, tail, text, [], 0, []);
    ScanAccepts(text, TextFacts(text, 0), rs);
  }

  lemma StartOfDoc(text: string, fs: seq<Fact>, ps: seq<Piece>)
    ensures text[0..] == text && [] + fs == fs && SameGroups([], [], ps)
  {
  }

  lemma RangesOk(text: string, ps: seq<Piece>, rs: seq<Region>)
    requires InOrder(rs, 0, |text|) && DistinctEvents(ps)
    requires |rs| == |ps| && forall i :: 0 <= i < |rs| ==> rs[i].event == ps[i].block.event
    ensures RegionsOk(text, rs)
  {
    InOrderBounds(rs, 0, |text|);
  }

  lemma ScanAccepts(text: string, fs: seq<Fact>, rs: seq<Region>)
    requires !AnyInline(fs, false) && MetaFine(fs) && NoTrailing(fs)
    requires Collect(text, fs, 0) == Ok(rs) && RegionsOk(text, rs)
    ensures ScanRegions(text, fs) == Ok(rs)
  {
    hide AnyInline, Collect, RegionsOk, MetaOwned;
  }
}