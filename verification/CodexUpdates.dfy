// Printing the blocks of a config anew with other commands: what the installer
// finds in the text afterwards, from what it found before.
module CodexUpdates {
  import opened Common
  import opened Json
  import opened CodexLines
  import opened CodexFacts
  import opened CodexRegions
  import opened CodexBlocks
  import opened CodexScanProofs
  import opened CodexDocument
  import opened CodexRewrite
  import opened CodexConfig
  import opened CodexInstall
  import opened CodexInstallProofs

  // The same user text and the same blocks but for their commands.
  predicate Alike(ps: seq<Piece>, qs: seq<Piece>) {
    |ps| == |qs| &&
    forall i :: 0 <= i < |ps| ==>
      ps[i].user == qs[i].user && ps[i].block.event == qs[i].block.event && ps[i].block.lent == qs[i].block.lent
  }

  lemma AlikeRest(ps: seq<Piece>, qs: seq<Piece>)
    requires ps != [] && Alike(ps, qs)
    ensures Alike(ps[1..], qs[1..]) && Front(ps[0]) == Front(qs[0]) && ps[0].block.event == qs[0].block.event
    ensures ps[0].user == qs[0].user && ps[0].block.lent == qs[0].block.lent
  {
  }

  lemma {:induction false} AlikeChained(ps: seq<Piece>, qs: seq<Piece>, tail: string)
    requires Alike(ps, qs) && Chained(ps, tail) && DistinctEvents(ps)
    ensures Chained(qs, tail) && DistinctEvents(qs) && NextUser(ps, tail) == NextUser(qs, tail)
  {
    hide PieceOk, Detached, TextFacts, Unmarked;
    if ps != [] {
      AlikeRest(ps, qs);
      AlikeChained(ps[1..], qs[1..], tail);
      assert PieceOk(qs[0]) by { SamePieceOk(ps[0], qs[0]); }
    }
  }

  lemma SamePieceOk(p: Piece, q: Piece)
    requires PieceOk(p) && Front(p) == Front(q) && p.block.event == q.block.event
    ensures PieceOk(q)
  {
  }

  // The groups that the facts of a document count.
  lemma {:induction false} AlikeGroups(printable: char -> bool, ps: seq<Piece>, qs: seq<Piece>, tail: string,
                                       at: nat, there: nat, event: string)
    requires Alike(ps, qs) && Chained(ps, tail)
    ensures GroupsIn(DocFacts(printable, ps, tail, at), event) == GroupsIn(DocFacts(printable, qs, tail, there), event)
  {
    hide PieceOk, Detached, TextFacts, Unmarked, GroupsIn, BlockText, Front;
    if ps == [] {
      GroupsAnywhere(tail, at, event);
      GroupsAnywhere(tail, there, event);
    } else {
      AlikeRest(ps, qs);
      PieceFacts(ps[0]);
      PieceGroups(printable, ps[0], DocFacts(printable, ps[1..], tail, at + |PieceText(printable, ps[0])|), at, event);
      PieceGroups(printable, qs[0], DocFacts(printable, qs[1..], tail, there + |PieceText(printable, qs[0])|), there, event);
      AlikeGroups(printable, ps[1..], qs[1..], tail, at + |PieceText(printable, ps[0])|,
                  there + |PieceText(printable, qs[0])|, event);
    }
  }

  lemma PieceGroups(printable: char -> bool, p: Piece, rest: seq<Fact>, at: nat, event: string)
    requires p.block.event in MANAGED_EVENTS
    ensures GroupsIn((TextFacts(Front(p), at) + TextFacts(BlockText(printable, p.block), at + |Front(p)|)) + rest, event) ==
            GroupsIn(TextFacts(Front(p), 0), event) + (if event == p.block.event then 1 else 0) + GroupsIn(rest, event)
  {
    hide TextFacts, GroupsIn, BlockText, Front;
    var u, b := TextFacts(Front(p), at), TextFacts(BlockText(printable, p.block), at + |Front(p)|);
    GroupsJoin(u + b, rest, event);
    GroupsJoin(u, b, event);
    GroupsAnywhere(Front(p), at, event);
    OneBlockGroup(printable, p.block, at + |Front(p)|, event);
  }

  // The places of the blocks among the groups of their events.
  lemma {:induction false} AlikeRanges(printable: char -> bool, ps: seq<Piece>, qs: seq<Piece>, at: nat, there: nat,
                                       earlier: seq<Fact>)
    requires Alike(ps, qs)
    ensures var rs, ss := Ranges(printable, ps, at, earlier), Ranges(printable, qs, there, earlier);
            |rs| == |ss| == |ps| == |qs| &&
            forall i :: 0 <= i < |rs| ==> rs[i].event == ss[i].event == ps[i].block.event && rs[i].groupIndex == ss[i].groupIndex
  {
    hide TextFacts, GroupsIn, PieceText, Front;
    if ps != [] {
      AlikeRest(ps, qs);
      var seen := earlier + TextFacts(Front(ps[0]), 0);
      AlikeRanges(printable, ps[1..], qs[1..], at + |PieceText(printable, ps[0])|, there + |PieceText(printable, qs[0])|, seen);
    }
  }

  // ----- The decoded tables --------------------------------------------------

  // The hooks table with the groups of some regions replaced.
  function Recommanded(hooks: Table, rs: seq<Region>, qs: seq<Piece>): Table
    requires |rs| == |qs|
    decreases |rs|
  {
    if rs == [] then hooks
    else
      var e, i := rs[0].event, rs[0].groupIndex;
      var items := ItemsOf(hooks, e);
      Recommanded(if i < |items| then hooks[e := Array(items[i := Object(GroupTable(qs[0].block))])] else hooks,
                  rs[1..], qs[1..])
  }

  lemma ReplacedGroup(items: seq<Json>, i: nat, t: Table)
    requires MapSlice(Array(items)).Some? && i < |items|
    ensures MapSlice(Array(items[i := Object(t)])) == Some(MapSlice(Array(items)).value[i := t])
  {
    var more := items[i := Object(t)];
    forall k | 0 <= k < |more|
      ensures more[k].Object? && more[k].fields == Tables(items)[i := t][k]
    {
      assert items[k].Object?;
    }
    assert Tables(more) == Tables(items)[i := t];
  }

  predicate HasRegion(rs: seq<Region>, event: string) {
    exists i :: 0 <= i < |rs| && rs[i].event == event
  }

  predicate DistinctRegions(rs: seq<Region>) {
    forall i, j :: 0 <= i < j < |rs| ==> rs[i].event != rs[j].event
  }

  lemma FirstRegion(rs: seq<Region>, event: string)
    requires rs != []
    ensures HasRegion(rs, event) <==> rs[0].event == event || HasRegion(rs[1..], event)
  {
    if i :| 0 <= i < |rs[1..]| && rs[1..][i].event == event { assert rs[i + 1].event == event; }
    if i :| 0 <= i < |rs| && rs[i].event == event {
      if i > 0 { assert rs[1..][i - 1].event == event; }
    }
  }

  lemma DistinctFirst(rs: seq<Region>)
    requires rs != [] && DistinctRegions(rs)
    ensures !HasRegion(rs[1..], rs[0].event)
  {
    forall i | 0 <= i < |rs[1..]|
      ensures rs[1..][i].event != rs[0].event
    {
      assert rs[0].event != rs[i + 1].event;
    }
  }

  lemma {:induction false} OthersKept(hooks: Table, rs: seq<Region>, qs: seq<Piece>, event: string)
    requires |rs| == |qs| && !HasRegion(rs, event)
    ensures event in Recommanded(hooks, rs, qs) <==> event in hooks
    ensures event in hooks ==> Recommanded(hooks, rs, qs)[event] == hooks[event]
    decreases |rs|
  {
    hide GroupTable;
    if rs != [] {
      FirstRegion(rs, event);
      var e, i := rs[0].event, rs[0].groupIndex;
      var items := ItemsOf(hooks, e);
      OthersKept(if i < |items| then hooks[e := Array(items[i := Object(GroupTable(qs[0].block))])] else hooks,
                 rs[1..], qs[1..], event);
    }
  }

  // Each replaced group stands where the old one stood.
  lemma {:induction false} GroupReplaced(hooks: Table, rs: seq<Region>, qs: seq<Piece>, k: nat)
    requires |rs| == |qs| && DistinctRegions(rs) && k < |rs|
    requires rs[k].event in hooks && MapSlice(hooks[rs[k].event]).Some?
    requires rs[k].groupIndex < |GroupsOf(hooks, rs[k].event)|
    ensures var e, after := rs[k].event, Recommanded(hooks, rs, qs);
            && e in after && MapSlice(after[e]).Some?
            && GroupsOf(after, e) == GroupsOf(hooks, e)[rs[k].groupIndex := GroupTable(qs[k].block)]
    decreases |rs|
  {
    hide GroupTable, MapSlice;
    var e, i := rs[0].event, rs[0].groupIndex;
    var items := ItemsOf(hooks, e);
    var next := if i < |items| then hooks[e := Array(items[i := Object(GroupTable(qs[0].block))])] else hooks;
    if k == 0 {
      MappedIsArray(hooks[e]);
      SliceLength(hooks[e]);
      ReplacedGroup(items, i, GroupTable(qs[0].block));
      DistinctFirst(rs);
      OthersKept(next, rs[1..], qs[1..], e);
    } else {
      assert rs[k].event != e;
      assert rs[1..][k - 1] == rs[k] && qs[1..][k - 1] == qs[k];
      GroupReplaced(next, rs[1..], qs[1..], k - 1);
    }
  }

  lemma SliceLength(v: Json)
    requires MapSlice(v).Some?
    ensures v.Array? && |MapSlice(v).value| == |v.items|
  {
  }

  lemma {:induction false} OwnedIndices(hooks: Table, rs: seq<Region>, i: nat)
    requires OwnedGroups(hooks, rs).Ok? && i < |rs|
    ensures rs[i].groupIndex < |GroupsOf(hooks, rs[i].event)|
  {
    hide GroupsOf, CanonicalCommands;
    if i > 0 {
      assert rs[1..][i - 1] == rs[i];
      OwnedIndices(hooks, rs[1..], i - 1);
    }
  }

  lemma {:induction false} SameIndex(ps: seq<Piece>, qs: seq<Piece>, rs: seq<Region>, ss: seq<Region>, event: string)
    requires |ps| == |qs| == |rs| == |ss|
    requires forall i :: 0 <= i < |rs| ==> rs[i].event == ss[i].event && rs[i].groupIndex == ss[i].groupIndex
    ensures ManagedIndex(OwnedBy(ps, rs), event) == ManagedIndex(OwnedBy(qs, ss), event)
    decreases |ps|
  {
    if ps != [] {
      SameIndex(ps[1..], qs[1..], rs[1..], ss[1..], event);
    }
  }

  // ----- The analysis afterwards ---------------------------------------------

  // What is asked of the TOML decoder: where its groups are those of the counted
  // headers and it reads every block as its commands, it reads other commands in
  // their place as theirs, if at all, and everything else as before.
  ghost predicate ReadsUpdates(decode: Decoder, printable: char -> bool) {
    forall ps: seq<Piece>, qs: seq<Piece>, tail: string ::
      Alike(ps, qs) && ps != [] && Chained(ps, tail) && DistinctEvents(ps) && ReadsBlocks(decode, printable, ps, tail) ==>
        var rs := Ranges(printable, ps, 0, []);
        decode(Doc(printable, qs, tail)).Some? && |rs| == |qs| ==>
          var d := decode(Doc(printable, ps, tail)).value;
          decode(Doc(printable, qs, tail)) == Some(d["hooks" := Object(Recommanded(HooksTable(d).value, rs, qs))])
  }

  ghost predicate ReadsBlocks(decode: Decoder, printable: char -> bool, ps: seq<Piece>, tail: string) {
    var rs := Ranges(printable, ps, 0, []);
    && |rs| == |ps| && Mapped(decode, Doc(printable, ps, tail))
    && OwnedGroups(HooksTable(decode(Doc(printable, ps, tail)).value).value, rs) == Ok(OwnedBy(ps, rs))
  }

  // The groups that the decoder reads of every managed event are as many as the
  // headers that the scanner counts, so that each group is that of its header.
  ghost predicate Mapped(decode: Decoder, text: string) {
    && decode(text).Some? && HooksTable(decode(text).value).Some?
    && forall e :: e in MANAGED_EVENTS ==> EventMapped(HooksTable(decode(text).value).value, TextFacts(text, 0), e)
  }

  // What an analysis that finds the blocks has looked at.
  lemma AnalysisParts(decode: Decoder, printable: char -> bool, ps: seq<Piece>, tail: string,
                      command: string, windows: string)
    requires Chained(ps, tail) && DistinctEvents(ps) && ReadsAs(decode, printable, ps, tail, command, windows)
    ensures ReadsBlocks(decode, printable, ps, tail)
    ensures var text := Doc(printable, ps, tail);
            var hooks := HooksTable(decode(text).value).value;
            && (forall e :: e in MANAGED_EVENTS ==> EventMapped(hooks, TextFacts(text, 0), e))
            && !Clashes(hooks, OwnedBy(ps, Ranges(printable, ps, 0, [])), command, windows)
  {
    hide Doc, Ranges, TextFacts, AnyInline, EventMapped, ScanRegions, OwnedGroups, OwnedBy, Clashes, Chained,
      DistinctEvents, MANAGED_EVENTS;
    RangesEvents(printable, ps, 0, []);
    ScanFindsBlocks(printable, ps, tail);
  }

  lemma DocHasNoInline(printable: char -> bool, ps: seq<Piece>, tail: string)
    requires Chained(ps, tail)
    ensures !AnyInline(TextFacts(Doc(printable, ps, tail), 0), false)
  {
    hide TextFacts, AnyInline, Doc, DocFacts, Chained;
    DocFactsAre(printable, ps, tail, 0);
    DocInline(printable, ps, tail, 0);
  }

  lemma AnalysisFrom(decode: Decoder, printable: char -> bool, ps: seq<Piece>, tail: string,
                     command: string, windows: string)
    requires Chained(ps, tail) && DistinctEvents(ps) && ReadsBlocks(decode, printable, ps, tail)
    requires var text := Doc(printable, ps, tail);
             var hooks := HooksTable(decode(text).value).value;
             && (forall e :: e in MANAGED_EVENTS ==> EventMapped(hooks, TextFacts(text, 0), e))
             && !Clashes(hooks, OwnedBy(ps, Ranges(printable, ps, 0, [])), command, windows)
    ensures ReadsAs(decode, printable, ps, tail, command, windows)
  {
    hide Doc, Ranges, TextFacts, AnyInline, EventMapped, ScanRegions, OwnedGroups, OwnedBy, Clashes, Chained,
      DistinctEvents, MANAGED_EVENTS;
    RangesEvents(printable, ps, 0, []);
    ScanFindsBlocks(printable, ps, tail);
    DocHasNoInline(printable, ps, tail);
  }

  // A region of each event, if it has one, and where its group is.
  ghost predicate Placing(hooks: Table, rs: seq<Region>) {
    && DistinctRegions(rs)
    && forall i :: 0 <= i < |rs| ==> rs[i].groupIndex < |GroupsOf(hooks, rs[i].event)|
  }

  // One event of the hooks table afterwards: its groups, but for the block's.
  lemma EventAfter(hooks: Table, rs: seq<Region>, qs: seq<Piece>, event: string)
    requires |rs| == |qs| && Placing(hooks, rs) && (event in hooks ==> MapSlice(hooks[event]).Some?)
    ensures var after := Recommanded(hooks, rs, qs);
            && (event in after <==> event in hooks) && (event in after ==> MapSlice(after[event]).Some?)
            && (!HasRegion(rs, event) ==> GroupsOf(after, event) == GroupsOf(hooks, event))
            && forall k :: 0 <= k < |rs| && rs[k].event == event ==>
                 GroupsOf(after, event) == GroupsOf(hooks, event)[rs[k].groupIndex := GroupTable(qs[k].block)]
  {
    hide Recommanded, GroupTable, MapSlice;
    if !HasRegion(rs, event) {
      OthersKept(hooks, rs, qs, event);
    } else {
      forall k | 0 <= k < |rs| && rs[k].event == event
        ensures var after := Recommanded(hooks, rs, qs);
                && event in after && MapSlice(after[event]).Some? && event in hooks
                && GroupsOf(after, event) == GroupsOf(hooks, event)[rs[k].groupIndex := GroupTable(qs[k].block)]
      {
        GroupReplaced(hooks, rs, qs, k);
      }
      var k :| 0 <= k < |rs| && rs[k].event == event;
    }
  }

  lemma MappedAfter(hooks: Table, rs: seq<Region>, qs: seq<Piece>, fs: seq<Fact>, after: seq<Fact>, event: string)
    requires |rs| == |qs| && Placing(hooks, rs) && EventMapped(hooks, fs, event)
    requires GroupsIn(fs, event) == GroupsIn(after, event)
    ensures EventMapped(Recommanded(hooks, rs, qs), after, event)
  {
    hide Recommanded, GroupsIn, Placing, MapSlice, GroupTable;
    EventAfter(hooks, rs, qs, event);
    if event in hooks && HasRegion(rs, event) {
      var k :| 0 <= k < |rs| && rs[k].event == event;
      RegionInside(hooks, rs, k);
      assert |GroupsOf(Recommanded(hooks, rs, qs), event)| == |GroupsOf(hooks, event)|;
    }
  }

  lemma NoClashAfter(hooks: Table, rs: seq<Region>, qs: seq<Piece>, os: seq<Owned>, after: seq<Owned>, event: string,
                     command: string, windows: string)
    requires |rs| == |qs| && Placing(hooks, rs) && (event in hooks ==> MapSlice(hooks[event]).Some?)
    requires ManagedIndex(os, event) == ManagedIndex(after, event)
    requires forall k :: 0 <= k < |rs| && rs[k].event == event ==> ManagedIndex(os, event) == Some(rs[k].groupIndex)
    requires !EventClashes(hooks, os, event, command, windows)
    ensures !EventClashes(Recommanded(hooks, rs, qs), after, event, command, windows)
  {
    hide Recommanded, Placing, MapSlice, GroupTable, GroupsOf, HandlerClashes, ManagedIndex, GroupClashes;
    EventAfter(hooks, rs, qs, event);
    var before, groups := GroupsOf(hooks, event), GroupsOf(Recommanded(hooks, rs, qs), event);
    forall g | 0 <= g < |groups|
      ensures !GroupClashes(groups[g], ManagedIndex(after, event) != Some(g), command, windows)
    {
      if HasRegion(rs, event) {
        var k :| 0 <= k < |rs| && rs[k].event == event;
        assert Placing(hooks, rs);
        RegionInside(hooks, rs, k);
        if g == rs[k].groupIndex {
          NewGroupClashes(qs[k].block, command, windows);
        } else {
          assert groups[g] == before[g];
        }
      }
    }
  }

  lemma RegionInside(hooks: Table, rs: seq<Region>, k: nat)
    requires Placing(hooks, rs) && k < |rs|
    ensures rs[k].groupIndex < |GroupsOf(hooks, rs[k].event)|
  {
  }

  // What the blocks' regions have in common, before and after.
  lemma RegionsPlaced(printable: char -> bool, ps: seq<Piece>, hooks: Table)
    requires DistinctEvents(ps)
    requires OwnedGroups(hooks, Ranges(printable, ps, 0, [])).Ok?
    ensures Placing(hooks, Ranges(printable, ps, 0, []))
  {
    hide Ranges, GroupsOf, OwnedGroups;
    var rs := Ranges(printable, ps, 0, []);
    RangesEvents(printable, ps, 0, []);
    forall i | 0 <= i < |rs|
      ensures rs[i].groupIndex < |GroupsOf(hooks, rs[i].event)|
    {
      OwnedIndices(hooks, rs, i);
    }
  }

  lemma PlacedIndex(ps: seq<Piece>, rs: seq<Region>, event: string)
    requires |ps| == |rs| && DistinctRegions(rs)
    ensures forall k :: 0 <= k < |rs| && rs[k].event == event ==> ManagedIndex(OwnedBy(ps, rs), event) == Some(rs[k].groupIndex)
  {
    hide OwnedBy, ManagedIndex;
    OwnedByAt(ps, rs);
    forall k | 0 <= k < |rs| && rs[k].event == event
      ensures ManagedIndex(OwnedBy(ps, rs), event) == Some(rs[k].groupIndex)
    {
      ManagedIndexAt(OwnedBy(ps, rs), k);
    }
  }

  // The groups afterwards hold the new blocks.
  lemma OwnedAfter(hooks: Table, rs: seq<Region>, ss: seq<Region>, qs: seq<Piece>)
    requires |rs| == |ss| == |qs| && Placing(hooks, rs)
    requires forall i :: 0 <= i < |rs| ==> rs[i].event == ss[i].event && rs[i].groupIndex == ss[i].groupIndex
    requires forall i :: 0 <= i < |rs| ==> rs[i].event in hooks ==> MapSlice(hooks[rs[i].event]).Some?
    ensures OwnedGroups(Recommanded(hooks, rs, qs), ss) == Ok(OwnedBy(qs, ss))
  {
    hide Recommanded, Placing, MapSlice, GroupTable, GroupsOf, OwnedGroups, OwnedBy;
    var after := Recommanded(hooks, rs, qs);
    forall i | 0 <= i < |qs|
      ensures ss[i].groupIndex < |GroupsOf(after, ss[i].event)|
      ensures GroupsOf(after, ss[i].event)[ss[i].groupIndex] == GroupTable(qs[i].block)
    {
      RegionInside(hooks, rs, i);
      EventAfter(hooks, rs, qs, rs[i].event);
    }
    OwnedAfterInstall(after, qs, ss);
  }

  // Other commands in place of those the installer found are what it finds
  // afterwards, when the decoder accepts the text.
  lemma UpdateIsRead(decode: Decoder, printable: char -> bool, ps: seq<Piece>, qs: seq<Piece>, tail: string,
                     command: string, windows: string)
    requires ReadsUpdates(decode, printable) && Alike(ps, qs) && ps != []
    requires Chained(ps, tail) && DistinctEvents(ps) && ReadsAs(decode, printable, ps, tail, command, windows)
    requires decode(Doc(printable, qs, tail)).Some?
    ensures ReadsAs(decode, printable, qs, tail, command, windows)
  {
    hide Doc, Ranges, TextFacts, EventMapped, OwnedGroups, OwnedBy, EventClashes, Chained, DistinctEvents,
      MANAGED_EVENTS, Recommanded, Placing, GroupsIn, ReadsAs, Alike, ManagedIndex, DistinctRegions, MapSlice;
    var text, out := Doc(printable, ps, tail), Doc(printable, qs, tail);
    var rs, ss := Ranges(printable, ps, 0, []), Ranges(printable, qs, 0, []);
    AlikeChained(ps, qs, tail);
    AlikeRanges(printable, ps, qs, 0, 0, []);
    AnalysisParts(decode, printable, ps, tail, command, windows);
    var d := decode(text).value;
    var hooks := HooksTable(d).value;
    var after := Recommanded(hooks, rs, qs);
    assert decode(out) == Some(d["hooks" := Object(after)]);
    assert HooksTable(decode(out).value) == Some(after);
    RegionsPlaced(printable, ps, hooks);
    PlacingIsDistinct(hooks, rs);
    forall e | e in MANAGED_EVENTS
      ensures EventMapped(after, TextFacts(out, 0), e) &&
              !EventClashes(after, OwnedBy(qs, ss), e, command, windows)
    {
      DocGroups(printable, ps, qs, tail, e);
      MappedAfter(hooks, rs, qs, TextFacts(text, 0), TextFacts(out, 0), e);
      SameIndex(ps, qs, rs, ss, e);
      PlacedIndex(ps, rs, e);
      MappedSlice(hooks, TextFacts(text, 0), e);
      NoClashAfter(hooks, rs, qs, OwnedBy(ps, rs), OwnedBy(qs, ss), e, command, windows);
    }
    forall i | 0 <= i < |rs|
      ensures rs[i].event in hooks ==> MapSlice(hooks[rs[i].event]).Some?
    {
      PieceManaged(ps, tail, i);
      MappedSlice(hooks, TextFacts(text, 0), rs[i].event);
    }
    OwnedAfter(hooks, rs, ss, qs);
    AnalysisFrom(decode, printable, qs, tail, command, windows);
  }

  lemma PlacingIsDistinct(hooks: Table, rs: seq<Region>)
    requires Placing(hooks, rs)
    ensures DistinctRegions(rs)
  {
  }

  lemma MappedSlice(hooks: Table, fs: seq<Fact>, event: string)
    requires EventMapped(hooks, fs, event)
    ensures event in hooks ==> MapSlice(hooks[event]).Some?
  {
  }

  lemma {:induction false} PieceManaged(ps: seq<Piece>, tail: string, i: nat)
    requires Chained(ps, tail) && i < |ps|
    ensures ps[i].block.event in MANAGED_EVENTS
  {
    hide MANAGED_EVENTS, Detached, TextFacts, Unmarked;
    if i > 0 { PieceManaged(ps[1..], tail, i - 1); }
  }

  lemma DocGroups(printable: char -> bool, ps: seq<Piece>, qs: seq<Piece>, tail: string, event: string)
    requires Alike(ps, qs) && Chained(ps, tail) && Chained(qs, tail)
    ensures GroupsIn(TextFacts(Doc(printable, ps, tail), 0), event) == GroupsIn(TextFacts(Doc(printable, qs, tail), 0), event)
  {
    hide TextFacts, GroupsIn, Doc, DocFacts, Chained, Alike;
    DocFactsAre(printable, ps, tail, 0);
    DocFactsAre(printable, qs, tail, 0);
    AlikeGroups(printable, ps, qs, tail, 0, 0, event);
  }

  // ----- Installing over drifted blocks --------------------------------------

  lemma {:induction false} UpdatedAlike(ps: seq<Piece>, command: string, windows: string)
    ensures Alike(ps, Updated(ps, command, windows))
  {
    UpdatedAt(ps, command, windows);
  }

  // What is asked of the TOML decoder: where its groups are those of the counted
  // headers, a group of the shape the installer writes, with a block printed for
  // it, holds the commands printed.
  ghost predicate ReadsPrinted(decode: Decoder, printable: char -> bool) {
    forall ps: seq<Piece>, tail: string ::
      Chained(ps, tail) && DistinctEvents(ps) && Mapped(decode, Doc(printable, ps, tail)) ==>
        var hooks := HooksTable(decode(Doc(printable, ps, tail)).value).value;
        var rs := Ranges(printable, ps, 0, []);
        |rs| == |ps| && OwnedGroups(hooks, rs).Ok? ==> OwnedGroups(hooks, rs) == Ok(OwnedBy(ps, rs))
  }

  // A config that the installer accepts is read as it is printed.
  lemma FoundAsPrinted(decode: Decoder, printable: char -> bool, ps: seq<Piece>, tail: string,
                       command: string, windows: string)
    requires ReadsPrinted(decode, printable) && Chained(ps, tail) && DistinctEvents(ps)
    requires Analyze(decode, Doc(printable, ps, tail), command, windows, true).Ok?
    ensures ReadsAs(decode, printable, ps, tail, command, windows)
  {
    hide Doc, Ranges, TextFacts, AnyInline, EventMapped, ScanRegions, OwnedGroups, OwnedBy, Clashes, Chained,
      DistinctEvents, MANAGED_EVENTS;
    RangesEvents(printable, ps, 0, []);
    ScanFindsBlocks(printable, ps, tail);
  }

  lemma NotFound(decode: Decoder, printable: char -> bool, text: string, command: string, windows: string)
    requires Analyze(decode, text, command, windows, true).Err?
    ensures InstallText(decode, printable, text, command, windows) ==
            Err(Analyze(decode, text, command, windows, true).error)
  {
    hide Analyze;
  }

  // Installing over a full set of blocks changes the commands in place and no
  // other byte, and refuses exactly when it does not recognize the config or the
  // decoder refuses the result.
  lemma InstallReassertsDrift(decode: Decoder, printable: char -> bool, ps: seq<Piece>, tail: string,
                              command: string, windows: string)
    requires ReadsPrinted(decode, printable) && ReadsUpdates(decode, printable)
    requires Chained(ps, tail) && DistinctEvents(ps)
    requires forall e :: e in MANAGED_EVENTS ==> exists i :: 0 <= i < |ps| && ps[i].block.event == e
    ensures var found := Analyze(decode, Doc(printable, ps, tail), command, windows, true);
            var out := Doc(printable, Updated(ps, command, windows), tail);
            InstallText(decode, printable, Doc(printable, ps, tail), command, windows) ==
            if found.Err? then Err(found.error) else if decode(out).Some? then Ok(out) else Err(Unparseable)
    ensures UserText(Updated(ps, command, windows), tail) == UserText(ps, tail)
  {
    assert MANAGED_EVENTS[0] in MANAGED_EVENTS;
    hide Doc, Updated, UserText, ReadsUpdates, ReadsPrinted, ReadsAs, MANAGED_EVENTS, Chained, DistinctEvents,
      InstallText, Analyze;
    UpdatedAlike(ps, command, windows);
    UserTextKept(ps, tail, command, windows);
    if Analyze(decode, Doc(printable, ps, tail), command, windows, true).Err? {
      NotFound(decode, printable, Doc(printable, ps, tail), command, windows);
    } else {
      FoundAsPrinted(decode, printable, ps, tail, command, windows);
      if decode(Doc(printable, Updated(ps, command, windows), tail)).Some? {
        UpdateIsRead(decode, printable, ps, Updated(ps, command, windows), tail, command, windows);
        InstallReasserts(decode, printable, ps, tail, command, windows);
      } else {
        RefusedUpdate(decode, printable, ps, tail, command, windows);
      }
    }
  }

  lemma RefusedUpdate(decode: Decoder, printable: char -> bool, ps: seq<Piece>, tail: string,
                      command: string, windows: string)
    requires ReadsAs(decode, printable, ps, tail, command, windows)
    requires decode(Doc(printable, Updated(ps, command, windows), tail)).None?
    ensures InstallText(decode, printable, Doc(printable, ps, tail), command, windows) == Err(Unparseable)
  {
    RangesEvents(printable, ps, 0, []);
    var os := OwnedBy(ps, Ranges(printable, ps, 0, []));
    DocStrips(printable, ps, tail, os);
    hide Doc, Updated, Ranges, OwnedBy, Analyze, Reasserted, Placed, Strip;
    DocReasserts(printable, ps, tail, os, command, windows);
    UndecodedIsRefused(decode, Doc(printable, Updated(ps, command, windows), tail), command, windows);
  }
}
