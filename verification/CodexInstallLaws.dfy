// Laws of the Codex hook installer for every text and every TOML decoder: an
// install is repeatable, an uninstall forgets it, and an install over any mixture
// of blocks and user text touches nothing else.
module CodexInstallLaws {
  import opened Common
  import opened CodexLines
  import opened CodexBlocks
  import opened CodexQuote
  import opened TomlTokens
  import opened CodexFacts
  import opened CodexRegions
  import opened CodexDocument
  import opened CodexRewrite
  import opened CodexConfig
  import opened CodexInstall
  import opened CodexInstallProofs
  import opened CodexUpdates
  import opened CodexAppends

  lemma {:induction false} CollectedEvents(text: string, fs: seq<Fact>, i: nat)
    requires i <= |fs| && Collect(text, fs, i).Ok?
    ensures forall r :: r in Collect(text, fs, i).value ==> r.event in MANAGED_EVENTS
    decreases |fs| - i
  {
    if i < |fs| { CollectedEvents(text, fs, i + 1); }
  }

  lemma {:induction false} RegionAt(os: seq<Owned>)
    ensures |Regions(os)| == |os| && forall i :: 0 <= i < |os| ==> Regions(os)[i] == os[i].region
  {
    if os != [] { RegionAt(os[1..]); }
  }

  // One region at most for an event, and none for other events.
  ghost predicate OnePerEvent(os: seq<Owned>) {
    && (forall i :: 0 <= i < |os| ==> os[i].region.event in MANAGED_EVENTS)
    && (forall i, j :: 0 <= i < j < |os| ==> os[i].region.event != os[j].region.event)
  }

  lemma ScannedEvents(text: string, fs: seq<Fact>)
    requires ScanRegions(text, fs).Ok?
    ensures var rs := ScanRegions(text, fs).value;
            && (forall i :: 0 <= i < |rs| ==> rs[i].event in MANAGED_EVENTS)
            && (forall i, j :: 0 <= i < j < |rs| ==> rs[i].event != rs[j].event)
  {
    hide AnyInline, MetaOwned, MANAGED_EVENTS, Collect;
    CollectedEvents(text, fs, 0);
  }

  lemma AnalyzedEvents(decode: Decoder, text: string, command: string, windows: string)
    requires Analyze(decode, text, command, windows, true).Ok?
    ensures OnePerEvent(Analyze(decode, text, command, windows, true).value)
  {
    hide Analyze, ScanRegions, Regions, MANAGED_EVENTS;
    AnalyzedRegions(decode, text, command, windows, true);
    ScannedEvents(text, TextFacts(text, 0));
    RegionAt(Analyze(decode, text, command, windows, true).value);
  }

  // A complete set of regions has nothing to be printed anew, and lacks nothing.
  lemma CompleteIsUpToDate(os: seq<Owned>, command: string, windows: string)
    requires OnePerEvent(os) && Complete(os, command, windows)
    ensures os != []
    ensures forall i :: 0 <= i < |os| ==> UpToDate(os[i], command, windows)
    ensures forall e :: e in MANAGED_EVENTS ==> Has(os, e)
  {
    assert MANAGED_EVENTS[0] in MANAGED_EVENTS;
    hide MANAGED_EVENTS, Has;
    forall i | 0 <= i < |os|
      ensures UpToDate(os[i], command, windows)
    {
      var e := os[i].region.event;
      var j :| 0 <= j < |os| && os[j].region.event == e && os[j].command == command &&
               (windows != "" ==> os[j].windows == windows);
      assert j == i;
    }
    forall e | e in MANAGED_EVENTS
      ensures Has(os, e)
    {
      var j :| 0 <= j < |os| && os[j].region.event == e && os[j].command == command &&
               (windows != "" ==> os[j].windows == windows);
      HasAt(os, j);
    }
  }

  // What a successful install leaves: text whose analysis is complete, and
  // whose stripped form is that of the text before.
  lemma InstallLeaves(decode: Decoder, printable: char -> bool, text: string, command: string, windows: string)
    requires InstallText(decode, printable, text, command, windows).Ok?
    ensures var out := InstallText(decode, printable, text, command, windows).value;
            var before := Analyze(decode, text, command, windows, true);
            var after := Analyze(decode, out, command, windows, true);
            && before.Ok? && after.Ok? && Complete(after.value, command, windows)
            && Placed(before.value, text) && Placed(after.value, out)
            && Strip(out, after.value) == Strip(text, before.value)
  {
    hide Analyze, Complete, Placed, Strip, Reasserted, NewBlocks, NeedsNewline, RenderAll;
    AnalyzedIsPlaced(decode, text, command, windows, true);
    AnalyzedIsPlaced(decode, InstallText(decode, printable, text, command, windows).value, command, windows, true);
  }

  // Installing a second time changes nothing, whatever the text held before.
  lemma ReinstallIsNoChange(decode: Decoder, printable: char -> bool, text: string, command: string, windows: string)
    requires InstallText(decode, printable, text, command, windows).Ok?
    ensures var out := InstallText(decode, printable, text, command, windows).value;
            InstallText(decode, printable, out, command, windows) == Ok(out)
  {
    InstallLeaves(decode, printable, text, command, windows);
    var out := InstallText(decode, printable, text, command, windows).value;
    InstallSettles(decode, printable, out, command, windows);
  }

  lemma InstallSettles(decode: Decoder, printable: char -> bool, out: string, command: string, windows: string)
    requires Analyze(decode, out, command, windows, true).Ok?
    requires Complete(Analyze(decode, out, command, windows, true).value, command, windows)
    ensures InstallText(decode, printable, out, command, windows) == Ok(out)
  {
    hide Analyze, Complete, Placed, Strip, Reasserted, NewBlocks, NeedsNewline, Has, UpToDate, MANAGED_EVENTS,
      OnePerEvent;
    var os := Analyze(decode, out, command, windows, true).value;
    AnalyzedIsPlaced(decode, out, command, windows, true);
    AnalyzedEvents(decode, out, command, windows);
    CompleteIsUpToDate(os, command, windows);
    NothingReasserted(printable, out, os, command, windows);
    NothingNew(os, MANAGED_EVENTS, command, windows, NeedsNewline(out));
    assert out + "" == out;
  }

  // An uninstall after an install answers what an uninstall before it would
  // have: the same text, or the same refusal.
  lemma UninstallForgetsInstall(decode: Decoder, printable: char -> bool, text: string, command: string,
                                windows: string)
    requires InstallText(decode, printable, text, command, windows).Ok?
    ensures UninstallText(decode, InstallText(decode, printable, text, command, windows).value) ==
            UninstallText(decode, text)
  {
    hide InstallText, Analyze, Complete, Placed, Strip, OnePerEvent, UpToDate, Has, MANAGED_EVENTS;
    var out := InstallText(decode, printable, text, command, windows).value;
    InstallLeaves(decode, printable, text, command, windows);
    UncheckedAnalysis(decode, text, command, windows);
    UncheckedAnalysis(decode, out, command, windows);
    AnalyzedEvents(decode, out, command, windows);
    CompleteIsUpToDate(Analyze(decode, out, command, windows, true).value, command, windows);
    NothingStripped(text);
  }

  // Uninstalling gives every original byte back.
  lemma UninstallRestores(decode: Decoder, printable: char -> bool, text: string, command: string, windows: string)
    requires Unmanaged(decode, text, command, windows)
    requires InstallText(decode, printable, text, command, windows).Ok?
    ensures UninstallText(decode, InstallText(decode, printable, text, command, windows).value) == Ok(text)
  {
    hide InstallText, Analyze;
    UninstallForgetsInstall(decode, printable, text, command, windows);
    UncheckedAnalysis(decode, text, command, windows);
  }

  // ----- Some blocks drifted, some missing -----------------------------------

  lemma {:induction false} HasMeans(os: seq<Owned>, event: string)
    ensures Has(os, event) <==> exists i :: 0 <= i < |os| && os[i].region.event == event
  {
    if os != [] {
      HasMeans(os[1..], event);
      if i :| 0 <= i < |os| && os[i].region.event == event {
        assert i == 0 || os[1..][i - 1] == os[i];
      }
    }
  }

  // The new blocks are one for each listed event without a region.
  ghost predicate Supply(bs: seq<Block>, os: seq<Owned>, events: seq<string>, command: string, windows: string) {
    && (forall b :: b in bs ==> b.command == command && b.windows == windows && b.event in events)
    && (forall i, j :: 0 <= i < j < |bs| ==> bs[i].event != bs[j].event)
    && (forall i :: 0 < i < |bs| ==> !bs[i].lent)
    && (forall e :: e in events ==> (HasEvent(bs, e) <==> !Has(os, e)))
  }

  lemma SkipSupply(bs: seq<Block>, os: seq<Owned>, first: string, rest: seq<string>, command: string, windows: string)
    requires Supply(bs, os, rest, command, windows) && Has(os, first) && first !in rest
    ensures Supply(bs, os, [first] + rest, command, windows)
  {
    hide Has;
    assert !HasEvent(bs, first);
  }

  lemma FirstSupply(b: Block, more: seq<Block>, os: seq<Owned>, rest: seq<string>)
    requires Supply(more, os, rest, b.command, b.windows) && !Has(os, b.event) && b.event !in rest
    requires forall m :: m in more ==> !m.lent
    ensures Supply([b] + more, os, [b.event] + rest, b.command, b.windows)
  {
    var bs := [b] + more;
    forall e
      ensures HasEvent(bs, e) <==> e == b.event || HasEvent(more, e)
    {
      HasEventStep(bs, e);
    }
    hide Has, HasEvent;
  }

  lemma {:induction false} NewBlocksSupply(os: seq<Owned>, events: seq<string>, command: string, windows: string,
                                           lent: bool)
    requires Distinct(events)
    ensures Supply(NewBlocks(os, events, command, windows, lent), os, events, command, windows)
    ensures !lent ==> forall b :: b in NewBlocks(os, events, command, windows, lent) ==> !b.lent
    decreases |events|
  {
    if events == [] {
      hide Has;
    } else {
      var first, rest := events[0], events[1..];
      assert events == [first] + rest && first !in rest && Distinct(rest);
      hide Has, HasEvent, Supply, Distinct;
      NewBlocksSupply(os, rest, command, windows, lent && Has(os, first));
      var more := NewBlocks(os, rest, command, windows, lent && Has(os, first));
      if Has(os, first) {
        SkipSupply(more, os, first, rest, command, windows);
      } else {
        FirstSupply(Block(first, command, windows, lent), more, os, rest);
      }
    }
  }

  lemma EventsDistinct()
    ensures Distinct(MANAGED_EVENTS)
  {
    forall i, j | 0 <= i < j < |MANAGED_EVENTS|
      ensures MANAGED_EVENTS[i] != MANAGED_EVENTS[j]
    {
      ManagedDistinct(i, j);
    }
  }

  // The regions of a document cover the events of its blocks.
  lemma HasIsPiece(printable: char -> bool, ps: seq<Piece>, event: string)
    requires |Ranges(printable, ps, 0, [])| == |ps|
    ensures Has(OwnedBy(ps, Ranges(printable, ps, 0, [])), event) <==> HasPiece(ps, event)
  {
    hide Ranges, OwnedBy, Has;
    var rs := Ranges(printable, ps, 0, []);
    var os := OwnedBy(ps, rs);
    RangesEvents(printable, ps, 0, []);
    OwnedByAt(ps, rs);
    HasMeans(os, event);
  }

  lemma {:induction false} FirstLends(os: seq<Owned>, events: seq<string>, command: string, windows: string, lent: bool)
    ensures var bs := NewBlocks(os, events, command, windows, lent); bs != [] ==> bs[0].lent == lent
    decreases |events|
  {
    hide Has;
    if events != [] { FirstLends(os, events[1..], command, windows, lent); }
  }

  // The blocks that an install appends: one for every event without one.
  ghost predicate Fills(bs: seq<Block>, ps: seq<Piece>, command: string, windows: string) {
    && (forall b :: b in bs ==> b.command == command && b.windows == windows && b.event in MANAGED_EVENTS)
    && (forall i, j :: 0 <= i < j < |bs| ==> bs[i].event != bs[j].event)
    && (forall e :: e in MANAGED_EVENTS ==> (HasEvent(bs, e) <==> !HasPiece(ps, e)))
  }

  // The blocks for the events that a document has none of.
  function Missing(printable: char -> bool, ps: seq<Piece>, tail: string, command: string,
                   windows: string): seq<Block> {
    RangesEvents(printable, ps, 0, []);
    NewBlocks(OwnedBy(ps, Ranges(printable, ps, 0, [])), MANAGED_EVENTS, command, windows,
              NeedsNewline(Doc(printable, ps, tail)))
  }

  lemma MissingFills(printable: char -> bool, ps: seq<Piece>, tail: string, command: string, windows: string)
    ensures var bs := Missing(printable, ps, tail, command, windows);
            && Fills(bs, ps, command, windows) && Lacking(ps, bs)
            && (bs != [] ==> Appendable(Doc(printable, ps, tail), bs))
  {
    hide Ranges, OwnedBy, Has, MANAGED_EVENTS, NewBlocks, NeedsNewline, HasPiece, Doc;
    RangesEvents(printable, ps, 0, []);
    var os, lent := OwnedBy(ps, Ranges(printable, ps, 0, [])), NeedsNewline(Doc(printable, ps, tail));
    var bs := Missing(printable, ps, tail, command, windows);
    EventsDistinct();
    NewBlocksSupply(os, MANAGED_EVENTS, command, windows, lent);
    FirstLends(os, MANAGED_EVENTS, command, windows, lent);
    forall e | e in MANAGED_EVENTS
      ensures HasEvent(bs, e) <==> !HasPiece(ps, e)
    {
      HasIsPiece(printable, ps, e);
    }
    forall b | b in bs
      ensures !HasPiece(ps, b.event)
    {
      var i :| 0 <= i < |bs| && bs[i] == b;
      assert HasEvent(bs, b.event);
    }
    assert forall i :: 0 <= i < |bs| ==> bs[i] in bs;
  }

  // Blocks that all hold the commands, one for every event, are complete.
  lemma PiecesComplete(printable: char -> bool, ps: seq<Piece>, command: string, windows: string)
    requires forall i :: 0 <= i < |ps| ==>
               ps[i].block.command == command && (windows != "" ==> ps[i].block.windows == windows)
    requires forall e :: e in MANAGED_EVENTS ==> HasPiece(ps, e)
    requires |Ranges(printable, ps, 0, [])| == |ps|
    ensures Complete(OwnedBy(ps, Ranges(printable, ps, 0, [])), command, windows)
  {
    hide Ranges, OwnedBy, MANAGED_EVENTS;
    var rs := Ranges(printable, ps, 0, []);
    var os := OwnedBy(ps, rs);
    RangesEvents(printable, ps, 0, []);
    OwnedByAt(ps, rs);
    forall e | e in MANAGED_EVENTS
      ensures exists i :: 0 <= i < |os| && os[i].region.event == e && os[i].command == command &&
                          (windows != "" ==> os[i].windows == windows)
    {
      assert HasPiece(ps, e);
      var i :| 0 <= i < |ps| && ps[i].block.event == e;
      assert os[i] == Owned(rs[i], ps[i].block.command, ps[i].block.windows);
    }
  }

  // The pieces with what is missing.
  function Filled(printable: char -> bool, ps: seq<Piece>, tail: string, command: string, windows: string): seq<Piece> {
    All(ps, tail, Missing(printable, ps, tail, command, windows))
  }

  lemma FilledComplete(printable: char -> bool, ps: seq<Piece>, tail: string, command: string, windows: string)
    requires forall i :: 0 <= i < |ps| ==>
               ps[i].block.command == command && (windows != "" ==> ps[i].block.windows == windows)
    ensures var all := Filled(printable, ps, tail, command, windows);
            |Ranges(printable, all, 0, [])| == |all| && Complete(OwnedBy(all, Ranges(printable, all, 0, [])), command, windows)
  {
    hide Ranges, OwnedBy, MANAGED_EVENTS, Complete, Missing;
    var bs := Missing(printable, ps, tail, command, windows);
    var all := Filled(printable, ps, tail, command, windows);
    var more := FreshPieces(tail, bs);
    MissingFills(printable, ps, tail, command, windows);
    RangesEvents(printable, all, 0, []);
    forall i | 0 <= i < |all|
      ensures all[i].block.command == command && (windows != "" ==> all[i].block.windows == windows)
    {
      if i >= |ps| { assert all[i].block == bs[i - |ps|] && bs[i - |ps|] in bs; }
    }
    forall e | e in MANAGED_EVENTS
      ensures HasPiece(all, e)
    {
      if HasPiece(ps, e) {
        var i :| 0 <= i < |ps| && ps[i].block.event == e;
        assert all[i] == ps[i];
      } else {
        assert HasEvent(bs, e);
        var i :| 0 <= i < |bs| && bs[i].event == e;
        assert all[|ps| + i].block == bs[i];
      }
    }
    PiecesComplete(printable, all, command, windows);
  }

  // What the installer finds in the final text.
  lemma FinalIsRead(decode: Decoder, printable: char -> bool, qs: seq<Piece>, tail: string, command: string,
                    windows: string)
    requires ReadsToml(decode, printable) && Chained(qs, tail) && DistinctEvents(qs)
    requires ReadsAs(decode, printable, qs, tail, command, windows)
    requires decode(Doc(printable, qs, tail) + RenderAll(printable, Missing(printable, qs, tail, command, windows))).Some?
    ensures var bs := Missing(printable, qs, tail, command, windows);
            var all := Filled(printable, qs, tail, command, windows);
            && |Ranges(printable, all, 0, [])| == |all|
            && Analyze(decode, Doc(printable, qs, tail) + RenderAll(printable, bs), command, windows, true) ==
               Ok(OwnedBy(all, Ranges(printable, all, 0, [])))
            && Placed(OwnedBy(all, Ranges(printable, all, 0, [])), Doc(printable, qs, tail) + RenderAll(printable, bs))
            && Strip(Doc(printable, qs, tail) + RenderAll(printable, bs), OwnedBy(all, Ranges(printable, all, 0, []))) ==
               UserText(qs, tail)
  {
    NothingRendered(printable, Doc(printable, qs, tail));
    hide ReadsToml, Chained, DistinctEvents, Doc, Missing, RenderAll, Analyze, Ranges, OwnedBy, Placed, Strip, UserText,
      Appendable, Lacking, Fills;
    var bs := Missing(printable, qs, tail, command, windows);
    var all := Filled(printable, qs, tail, command, windows);
    MissingFills(printable, qs, tail, command, windows);
    RangesEvents(printable, all, 0, []);
    var os := OwnedBy(all, Ranges(printable, all, 0, []));
    if bs == [] {
      assert FreshPieces(tail, bs) == [] && all == qs;
      DocStrips(printable, qs, tail, os);
    } else {
      AppendIsRead(decode, printable, qs, tail, bs, command, windows);
      AllText(printable, qs, tail, bs);
      DocStrips(printable, all, "", os);
    }
  }

  lemma NothingRendered(printable: char -> bool, text: string)
    ensures text + RenderAll(printable, []) == text
  {
  }

  // Installing over any blocks changes the commands of those there are in place,
  // appends one for every other event, and touches no other byte. It refuses
  // exactly when it does not recognize the config, or the decoder refuses the text
  // with the commands changed or with the blocks appended.
  lemma InstallUpdatesAndAppends(decode: Decoder, printable: char -> bool, ps: seq<Piece>, tail: string,
                                 command: string, windows: string)
    requires ReadsToml(decode, printable) && ReadsPrinted(decode, printable) && ReadsUpdates(decode, printable)
    requires Chained(ps, tail) && DistinctEvents(ps)
    ensures var found := Analyze(decode, Doc(printable, ps, tail), command, windows, true);
            var qs := Updated(ps, command, windows);
            var added := Missing(printable, qs, tail, command, windows);
            var mid := Doc(printable, qs, tail);
            && InstallText(decode, printable, Doc(printable, ps, tail), command, windows) ==
               (if found.Err? then Err(found.error)
                else if decode(mid).None? then Err(Unparseable)
                else if decode(mid + RenderAll(printable, added)).None? then Err(Invalid)
                else Ok(mid + RenderAll(printable, added)))
            && Fills(added, ps, command, windows) && UserText(qs, tail) == UserText(ps, tail)
  {
    hide ReadsToml, ReadsPrinted, ReadsUpdates, Chained, DistinctEvents, Doc, Updated, UserText, Missing, RenderAll,
      Analyze, InstallText, ReadsAs, HasPiece, MANAGED_EVENTS, HasEvent;
    var qs := Updated(ps, command, windows);
    UpdatedFills(printable, ps, tail, command, windows);
    UserTextKept(ps, tail, command, windows);
    if Analyze(decode, Doc(printable, ps, tail), command, windows, true).Err? {
      NotFound(decode, printable, Doc(printable, ps, tail), command, windows);
    } else {
      FoundAsPrinted(decode, printable, ps, tail, command, windows);
      if decode(Doc(printable, qs, tail)).None? {
        RefusedUpdate(decode, printable, ps, tail, command, windows);
      } else {
        MidwayIsRead(decode, printable, ps, tail, command, windows);
        UpdatedChained(ps, tail, command, windows);
        InstallFrom(decode, printable, ps, tail, command, windows);
      }
    }
  }

  lemma UpdatedFills(printable: char -> bool, ps: seq<Piece>, tail: string, command: string, windows: string)
    ensures var qs := Updated(ps, command, windows); Fills(Missing(printable, qs, tail, command, windows), ps, command, windows)
  {
    hide Updated, Missing, HasPiece, MANAGED_EVENTS, HasEvent;
    MissingFills(printable, Updated(ps, command, windows), tail, command, windows);
    forall e
      ensures HasPiece(Updated(ps, command, windows), e) <==> HasPiece(ps, e)
    {
      UpdatedPieces(ps, command, windows, e);
    }
  }

  lemma UpdatedChained(ps: seq<Piece>, tail: string, command: string, windows: string)
    requires Chained(ps, tail) && DistinctEvents(ps)
    ensures Chained(Updated(ps, command, windows), tail) && DistinctEvents(Updated(ps, command, windows))
  {
    UpdatedAlike(ps, command, windows);
    AlikeChained(ps, Updated(ps, command, windows), tail);
  }

  // The steps of an install whose middle text is recognized.
  lemma InstallFrom(decode: Decoder, printable: char -> bool, ps: seq<Piece>, tail: string, command: string,
                    windows: string)
    requires var qs := Updated(ps, command, windows);
             && ReadsToml(decode, printable) && Chained(qs, tail) && DistinctEvents(qs)
             && ReadsAs(decode, printable, ps, tail, command, windows)
             && ReadsAs(decode, printable, qs, tail, command, windows)
    ensures var qs := Updated(ps, command, windows);
            var out := Doc(printable, qs, tail) + RenderAll(printable, Missing(printable, qs, tail, command, windows));
            InstallText(decode, printable, Doc(printable, ps, tail), command, windows) ==
            if decode(out).None? then Err(Invalid) else Ok(out)
  {
    hide ReadsToml, Chained, DistinctEvents, Doc, Updated, UserText, RenderAll, Analyze, Ranges, OwnedBy, Placed, Strip,
      Reasserted, NewBlocks, NeedsNewline, Complete, MANAGED_EVENTS, Filled;
    var qs := Updated(ps, command, windows);
    var out := Doc(printable, qs, tail) + RenderAll(printable, Missing(printable, qs, tail, command, windows));
    RangesEvents(printable, ps, 0, []);
    var before := OwnedBy(ps, Ranges(printable, ps, 0, []));
    DocStrips(printable, ps, tail, before);
    DocReasserts(printable, ps, tail, before, command, windows);
    UserTextKept(ps, tail, command, windows);
    if decode(out).None? {
      UndecodedIsRefused(decode, out, command, windows);
    } else {
      UpdatedAt(ps, command, windows);
      FilledComplete(printable, qs, tail, command, windows);
      FinalIsRead(decode, printable, qs, tail, command, windows);
    }
  }

  // What the installer finds after printing the drifted blocks anew.
  lemma MidwayIsRead(decode: Decoder, printable: char -> bool, ps: seq<Piece>, tail: string,
                     command: string, windows: string)
    requires ReadsUpdates(decode, printable) && Chained(ps, tail) && DistinctEvents(ps)
    requires ReadsAs(decode, printable, ps, tail, command, windows)
    requires decode(Doc(printable, Updated(ps, command, windows), tail)).Some?
    ensures ReadsAs(decode, printable, Updated(ps, command, windows), tail, command, windows)
  {
    hide ReadsUpdates, Chained, DistinctEvents, Doc, Alike;
    if ps != [] {
      UpdatedAlike(ps, command, windows);
      UpdateIsRead(decode, printable, ps, Updated(ps, command, windows), tail, command, windows);
    }
  }

  lemma UpdatedPieces(ps: seq<Piece>, command: string, windows: string, event: string)
    ensures HasPiece(Updated(ps, command, windows), event) <==> HasPiece(ps, event)
  {
    hide Updated;
    UpdatedAt(ps, command, windows);
    if i :| 0 <= i < |ps| && ps[i].block.event == event {
      assert Updated(ps, command, windows)[i].block.event == event;
    }
  }

  // ----- Commands that cannot be quoted --------------------------------------

  // The quoted form of a text is no basic string in a version of TOML.
  predicate Unreadable(v: Version, printable: char -> bool, s: string) {
    Unquote(v, UnitsText('"', QuoteUnits(printable, s))) == None
  }

  // The decoder refuses blocks that hold such a string behind text it accepts.
  ghost predicate RefusesBadEscapes(v: Version, decode: Decoder, printable: char -> bool) {
    forall t: string, bs: seq<Block>, b: Block ::
      decode(t).Some? && Appendable(t, bs) && b in bs && BadEscapes(v, printable, b) ==>
        decode(t + RenderAll(printable, bs)).None?
  }

  predicate BadEscapes(v: Version, printable: char -> bool, b: Block) {
    Unreadable(v, printable, b.command) || (b.windows != "" && Unreadable(v, printable, b.windows))
  }

  lemma UnmanagedDecodes(decode: Decoder, text: string, command: string, windows: string)
    requires Unmanaged(decode, text, command, windows)
    ensures decode(text).Some?
  {
    hide TextFacts, AnyInline, EventMapped, ScanRegions, OwnedGroups, Clashes;
  }

  // Installing a command with a character that Go escapes as the decoder's TOML
  // cannot is refused.
  lemma UnquotableIsRefused(v: Version, decode: Decoder, printable: char -> bool, text: string, command: string,
                            windows: string)
    requires ReadsToml(decode, printable) && RefusesBadEscapes(v, decode, printable) && Printing(printable)
    requires Unmanaged(decode, text, command, windows)
    requires !Quotable(v, printable, command) || (windows != "" && !Quotable(v, printable, windows))
    ensures InstallText(decode, printable, text, command, windows) == Err(Invalid)
  {
    hide ReadsToml, Unmanaged, InstallText, RenderAll, FirstBlocks, Appendable, QuoteUnits, UnitsText, Unquote,
      MANAGED_EVENTS;
    var bs := FirstBlocks(text, command, windows);
    InstallAppends(decode, printable, text, command, windows);
    InstalledIs(printable, text, command, windows);
    FirstBlocksAre(text, command, windows);
    BlocksNotEmpty(text, bs);
    UnmanagedDecodes(decode, text, command, windows);
    QuoteReadsBack(v, printable, command);
    QuoteReadsBack(v, printable, windows);
    assert bs[0] in bs;
  }
}
