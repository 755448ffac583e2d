// Stripping the blocks of a document, and printing them anew in their places.
module CodexRewrite {
  import opened TextEdits
  import opened CodexLines
  import opened CodexRegions
  import opened CodexBlocks
  import opened CodexFacts
  import opened CodexScanProofs
  import opened CodexDocument

  // A region and the commands its group holds.
  datatype Owned = Owned(region: Region, command: string, windows: string)

  function RemovalsOf(rs: seq<Region>): seq<Edit> {
    if rs == [] then [] else [Edit(rs[0].start, rs[0].end, "")] + RemovalsOf(rs[1..])
  }

  // The Windows command a group is to have: the new one, or its own when none
  // is asked for.
  function WantedWindows(o: Owned, windows: string): string {
    if windows == "" then o.windows else windows
  }

  predicate UpToDate(o: Owned, command: string, windows: string) {
    o.command == command && o.windows == WantedWindows(o, windows)
  }

  // The block that a region is to hold.
  function WantedBlock(o: Owned, command: string, windows: string): Block {
    Block(o.region.event, command, WantedWindows(o, windows), o.region.prefixNewline)
  }

  function Render(printable: char -> bool, b: Block): string {
    (if b.lent then "\n" else "") + BlockText(printable, b)
  }

  // The edits that print the groups anew whose commands differ.
  function Reasserts(printable: char -> bool, os: seq<Owned>, command: string, windows: string): seq<Edit> {
    if os == [] then []
    else
      (if UpToDate(os[0], command, windows) then []
       else [Edit(os[0].region.start, os[0].region.end, Render(printable, WantedBlock(os[0], command, windows)))]) +
      Reasserts(printable, os[1..], command, windows)
  }

  // ----- Stripping a document ------------------------------------------------

  lemma {:induction false} RemovalsAscend(rs: seq<Region>, lo: nat, hi: nat)
    requires InOrder(rs, lo, hi)
    ensures Ascending(RemovalsOf(rs), lo, hi)
  {
    if rs != [] {
      RemovalsAscend(rs[1..], rs[0].end, hi);
      assert RemovalsOf(rs)[1..] == RemovalsOf(rs[1..]);
    }
  }

  lemma UserInText(printable: char -> bool, p: Piece, rest: string, text: string, at: nat)
    requires at <= |text| && text[at..] == PieceText(printable, p) + rest
    ensures at + |PieceText(printable, p)| <= |text| && text[at..at + |PieceText(printable, p)|] == PieceText(printable, p)
    ensures |p.user| <= |PieceText(printable, p)| && text[at..at + |p.user|] == p.user
    ensures PieceText(printable, p) == p.user + Render(printable, p.block)
  {
    hide BlockText;
    var t := PieceText(printable, p);
    assert text[at..at + |t|] == text[at..][..|t|] == t;
    assert text[at..at + |p.user|] == text[at..][..|p.user|] == p.user;
    if p.block.lent {
      assert (p.user + "\n") + BlockText(printable, p.block) == p.user + ("\n" + BlockText(printable, p.block));
    } else {
      assert p.user + "" == p.user && "" + BlockText(printable, p.block) == BlockText(printable, p.block);
    }
  }

  lemma FirstRemoval(r: Region, rest: seq<Region>, text: string, at: nat)
    requires at <= r.start < r.end <= |text| && Ascending(RemovalsOf(rest), r.end, |text|)
    ensures Ascending(RemovalsOf([r] + rest), at, |text|)
    ensures Rewritten(text, at, RemovalsOf([r] + rest)) == text[at..r.start] + Rewritten(text, r.end, RemovalsOf(rest))
  {
    assert ([r] + rest)[1..] == rest;
    var es := RemovalsOf([r] + rest);
    assert es == [Edit(r.start, r.end, "")] + RemovalsOf(rest);
    assert es[1..] == RemovalsOf(rest);
    assert "" + Rewritten(text, r.end, RemovalsOf(rest)) == Rewritten(text, r.end, RemovalsOf(rest));
  }

  // Removing the ranges of the blocks leaves every byte of the user's.
  lemma {:induction false} StripLeavesUser(printable: char -> bool, ps: seq<Piece>, tail: string, text: string,
                                           at: nat, earlier: seq<Fact>)
    requires at <= |text| && text[at..] == Doc(printable, ps, tail)
    ensures Ascending(RemovalsOf(Ranges(printable, ps, at, earlier)), at, |text|)
    ensures Rewritten(text, at, RemovalsOf(Ranges(printable, ps, at, earlier))) == UserText(ps, tail)
    decreases |ps|
  {
    hide Ranges, RemovalsOf, PieceText, Front, GroupsIn, TextFacts, Doc, Rewritten, Ascending;
    if ps == [] {
      NothingToStrip(printable, tail, text, at, earlier);
    } else {
      var p, end, seen := ps[0], at + |PieceText(printable, ps[0])|, earlier + TextFacts(Front(ps[0]), 0);
      RangesStep(printable, ps, tail, at, earlier);
      DocStep(printable, ps, tail);
      UserInText(printable, p, Doc(printable, ps[1..], tail), text, at);
      RestOfText(text, at, PieceText(printable, p), Doc(printable, ps[1..], tail));
      StripLeavesUser(printable, ps[1..], tail, text, end, seen);
      FirstRemoval(BlockRegion(p.block, at + |p.user|, end, GroupsIn(seen, p.block.event)),
                   Ranges(printable, ps[1..], end, seen), text, at);
    }
  }

  lemma NothingToStrip(printable: char -> bool, tail: string, text: string, at: nat, earlier: seq<Fact>)
    requires at <= |text| && text[at..] == Doc(printable, [], tail)
    ensures Ascending(RemovalsOf(Ranges(printable, [], at, earlier)), at, |text|)
    ensures Rewritten(text, at, RemovalsOf(Ranges(printable, [], at, earlier))) == tail
  {
  }

  lemma DocStep(printable: char -> bool, ps: seq<Piece>, tail: string)
    requires ps != []
    ensures Doc(printable, ps, tail) == PieceText(printable, ps[0]) + Doc(printable, ps[1..], tail)
  {
  }

  lemma RestOfText(text: string, at: nat, piece: string, rest: string)
    requires at <= |text| && text[at..] == piece + rest
    ensures at + |piece| <= |text| && text[at + |piece|..] == rest
  {
    assert text[at + |piece|..] == text[at..][|piece|..];
  }

  // ----- Printing groups anew ------------------------------------------------

  // The pieces with the commands asked for.
  function Updated(ps: seq<Piece>, command: string, windows: string): seq<Piece> {
    if ps == [] then []
    else
      var b := ps[0].block;
      [ps[0].(block := b.(command := command, windows := if windows == "" then b.windows else windows))] +
      Updated(ps[1..], command, windows)
  }

  // The regions of the blocks with their commands.
  function OwnedBy(ps: seq<Piece>, rs: seq<Region>): seq<Owned>
    requires |ps| == |rs|
  {
    if ps == [] then []
    else [Owned(rs[0], ps[0].block.command, ps[0].block.windows)] + OwnedBy(ps[1..], rs[1..])
  }

  // Text before the first edit is kept.
  lemma RewrittenSkip(text: string, at: nat, mid: nat, edits: seq<Edit>)
    requires at <= mid <= |text| && Ascending(edits, mid, |text|)
    ensures Ascending(edits, at, |text|)
    ensures Rewritten(text, at, edits) == text[at..mid] + Rewritten(text, mid, edits)
  {
    AscendingFits(edits, mid, |text|);
    assert Ascending(edits, at, |text|);
    if edits == [] {
      assert text[at..] == text[at..mid] + text[mid..];
    } else {
      var e := edits[0];
      assert text[at..e.start] == text[at..mid] + text[mid..e.start];
      hide Ascending, Rewritten;
      RewrittenFirst(text, at, edits);
      RewrittenFirst(text, mid, edits);
      Associate(text[at..mid], text[mid..e.start], e.replacement + RestRewritten(text, edits));
    }
  }

  // The text behind the first edit, rewritten.
  ghost function RestRewritten(text: string, edits: seq<Edit>): string
    requires edits != [] && edits[0].end >= 0 && Ascending(edits[1..], edits[0].end, |text|)
  {
    Rewritten(text, edits[0].end, edits[1..])
  }

  lemma RewrittenFirst(text: string, at: nat, edits: seq<Edit>)
    requires edits != [] && Ascending(edits, at, |text|)
    ensures 0 <= at <= edits[0].start < edits[0].end <= |text| && Ascending(edits[1..], edits[0].end, |text|)
    ensures Rewritten(text, at, edits) == text[at..edits[0].start] + (edits[0].replacement + RestRewritten(text, edits))
  {
    AscendingFits(edits, at, |text|);
  }

  lemma FirstReassert(e: Edit, rest: seq<Edit>, text: string, at: nat)
    requires at <= e.start < e.end <= |text| && Ascending(rest, e.end, |text|)
    ensures Ascending([e] + rest, at, |text|)
    ensures Rewritten(text, at, [e] + rest) == text[at..e.start] + (e.replacement + Rewritten(text, e.end, rest))
  {
    assert ([e] + rest)[1..] == rest;
  }

  // The first group's edit, if it needs one, and what it makes of its piece.
  lemma ReassertPiece(printable: char -> bool, p: Piece, text: string, at: nat, index: nat, rest: seq<Edit>,
                      after: string,
                      command: string, windows: string)
    requires at <= |text| && text[at..] == PieceText(printable, p) + after
    requires var end := at + |PieceText(printable, p)|; Ascending(rest, end, |text|) && at + |p.user| < end
    ensures var end := at + |PieceText(printable, p)|;
            var o := Owned(BlockRegion(p.block, at + |p.user|, end, index), p.block.command, p.block.windows);
            var edits := (if UpToDate(o, command, windows) then []
                          else [Edit(o.region.start, o.region.end, Render(printable, WantedBlock(o, command, windows)))]) + rest;
            && Ascending(edits, at, |text|)
            && Rewritten(text, at, edits) == PieceText(printable, Updated([p], command, windows)[0]) + Rewritten(text, end, rest)
  {
    hide Rewritten, Ascending, PieceText, Render;
    var end := at + |PieceText(printable, p)|;
    var o := Owned(BlockRegion(p.block, at + |p.user|, end, index), p.block.command, p.block.windows);
    UserInText(printable, p, after, text, at);
    var q := Updated([p], command, windows)[0];
    assert q.block == WantedBlock(o, command, windows) && q.user == p.user;
    if UpToDate(o, command, windows) {
      assert q == p && [] + rest == rest;
      RewrittenSkip(text, at, end, rest);
    } else {
      var e := Edit(o.region.start, o.region.end, Render(printable, q.block));
      FirstReassert(e, rest, text, at);
      PieceIs(printable, q);
      Associate(p.user, Render(printable, q.block), Rewritten(text, end, rest));
    }
  }

  lemma PieceIs(printable: char -> bool, p: Piece)
    ensures PieceText(printable, p) == p.user + Render(printable, p.block)
  {
    var t := PieceText(printable, p);
    assert t[0..] == t && t + "" == t;
    UserInText(printable, p, "", t, 0);
  }

  lemma Associate(a: string, b: string, c: string)
    ensures a + (b + c) == (a + b) + c
  {
  }

  lemma FirstOwned(printable: char -> bool, p: Piece, ps: seq<Piece>, r: Region, rs: seq<Region>, command: string,
                   windows: string)
    requires |ps| == |rs|
    ensures OwnedBy([p] + ps, [r] + rs) == [Owned(r, p.block.command, p.block.windows)] + OwnedBy(ps, rs)
    ensures Updated([p] + ps, command, windows) == Updated([p], command, windows) + Updated(ps, command, windows)
    ensures |Updated([p], command, windows)| == 1
  {
    assert ([p] + ps)[1..] == ps && ([r] + rs)[1..] == rs;
  }

  lemma FirstEdits(printable: char -> bool, o: Owned, os: seq<Owned>, command: string, windows: string)
    ensures Reasserts(printable, [o] + os, command, windows) ==
            (if UpToDate(o, command, windows) then []
             else [Edit(o.region.start, o.region.end, Render(printable, WantedBlock(o, command, windows)))]) +
            Reasserts(printable, os, command, windows)
  {
    assert ([o] + os)[1..] == os;
  }

  // Printing the groups anew changes their commands and nothing else.
  lemma {:induction false} ReassertUpdates(printable: char -> bool, ps: seq<Piece>, tail: string, text: string,
                                           at: nat, earlier: seq<Fact>, command: string, windows: string)
    requires at <= |text| && text[at..] == Doc(printable, ps, tail)
    ensures |Ranges(printable, ps, at, earlier)| == |ps|
    ensures var edits := Reasserts(printable, OwnedBy(ps, Ranges(printable, ps, at, earlier)), command, windows);
            && Ascending(edits, at, |text|)
            && Rewritten(text, at, edits) == Doc(printable, Updated(ps, command, windows), tail)
    decreases |ps|
  {
    hide *;
    RangesEvents(printable, ps, at, earlier);
    if ps == [] {
      NothingToReassert(printable, ps, tail, text, at, earlier, command, windows);
    } else {
      var p, rest, end, seen := ps[0], ps[1..], at + |PieceText(printable, ps[0])|, earlier + TextFacts(Front(ps[0]), 0);
      var r, rs := BlockRegion(p.block, at + |p.user|, end, GroupsIn(seen, p.block.event)), Ranges(printable, rest, end, seen);
      RangesStep(printable, ps, tail, at, earlier);
      DocStep(printable, ps, tail);
      RestOfText(text, at, PieceText(printable, p), Doc(printable, rest, tail));
      ReassertUpdates(printable, rest, tail, text, end, seen, command, windows);
      assert ps == [p] + rest;
      FirstOwned(printable, p, rest, r, rs, command, windows);
      FirstEdits(printable, Owned(r, p.block.command, p.block.windows), OwnedBy(rest, rs), command, windows);
      ReassertPiece(printable, p, text, at, GroupsIn(seen, p.block.event),
                    Reasserts(printable, OwnedBy(rest, rs), command, windows), Doc(printable, rest, tail), command, windows);
      DocOfTwo(printable, Updated([p], command, windows), Updated(rest, command, windows), tail);
    }
  }

  lemma DocOfTwo(printable: char -> bool, one: seq<Piece>, rest: seq<Piece>, tail: string)
    requires |one| == 1
    ensures Doc(printable, one + rest, tail) == PieceText(printable, one[0]) + Doc(printable, rest, tail)
  {
    assert (one + rest)[1..] == rest;
  }

  lemma NothingToReassert(printable: char -> bool, ps: seq<Piece>, tail: string, text: string,
                          at: nat, earlier: seq<Fact>, command: string, windows: string)
    requires ps == [] && at <= |text| && text[at..] == Doc(printable, ps, tail)
    ensures |Ranges(printable, ps, at, earlier)| == 0
    ensures var edits := Reasserts(printable, OwnedBy(ps, Ranges(printable, ps, at, earlier)), command, windows);
            && Ascending(edits, at, |text|)
            && Rewritten(text, at, edits) == Doc(printable, Updated(ps, command, windows), tail)
  {
  }
}
