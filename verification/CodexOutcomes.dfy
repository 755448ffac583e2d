// What an install means for the decoded config, in terms of its hook groups and
// handlers alone: which ones run a command, when an install is refused for them,
// and that afterwards every event runs the command once.
module CodexOutcomes {
  import opened Common
  import opened Json
  import opened CodexLines
  import opened CodexFacts
  import opened CodexRegions
  import opened CodexRewrite
  import opened CodexConfig
  import opened CodexInstall
  import opened CodexInstallProofs
  import opened CodexInstallLaws

  // ----- Handlers of a decoded config ----------------------------------------

  // The groups of an event, and the handlers in one of them, when they are all
  // tables.
  function GroupItems(d: Table, event: string): seq<Json> {
    if && "hooks" in d && d["hooks"].Object? && event in d["hooks"].fields && d["hooks"].fields[event].Array?
    then d["hooks"].fields[event].items
    else []
  }

  function HandlersAt(d: Table, event: string, g: nat): seq<Json> {
    if g < |GroupItems(d, event)| then HandlersIn(GroupItems(d, event)[g]) else []
  }

  function HandlersIn(group: Json): seq<Json> {
    if && group.Object? && "hooks" in group.fields && group.fields["hooks"].Array?
       && forall k :: 0 <= k < |group.fields["hooks"].items| ==> group.fields["hooks"].items[k].Object?
    then group.fields["hooks"].items
    else []
  }

  // A handler that runs the command itself, or on Windows.
  predicate Executes(h: Json, command: string) {
    && h.Object? && "type" in h.fields && h.fields["type"] == String("command")
    && "command" in h.fields && h.fields["command"] == String(command)
  }

  predicate ExecutesOnWindows(h: Json, windows: string) {
    && windows != "" && h.Object? && "type" in h.fields && h.fields["type"] == String("command")
    && ("commandWindows" in h.fields <==> "command_windows" !in h.fields)
    && forall k :: k in {"commandWindows", "command_windows"} && k in h.fields ==> h.fields[k] == String(windows)
  }

  // Both spellings of a Windows command, or one that is no text or an empty one.
  predicate AmbiguousWindows(h: Json) {
    && h.Object?
    && (|| ("commandWindows" in h.fields && "command_windows" in h.fields)
        || exists k :: k in {"commandWindows", "command_windows"} && k in h.fields &&
                       (!h.fields[k].String? || h.fields[k].s == ""))
  }

  // ----- Clashes -------------------------------------------------------------

  lemma WindowsMeans(h: Table, windows: string)
    ensures WindowsCommand(h).Malformed? <==> AmbiguousWindows(Object(h))
    ensures windows != "" && StringField(h, "type") == Some("command") ==>
              (WindowsCommand(h) == Present(windows) <==> ExecutesOnWindows(Object(h), windows))
    ensures WindowsCommand(h) != Present("")
  {
    assert "commandWindows" in {"commandWindows", "command_windows"};
    assert "command_windows" in {"commandWindows", "command_windows"};
  }

  // A handler that keeps an install from going ahead.
  predicate Bars(h: Json, unmarked: bool, command: string, windows: string) {
    AmbiguousWindows(h) || (unmarked && (Executes(h, command) || ExecutesOnWindows(h, windows)))
  }

  lemma HandlerClashMeans(h: Table, unmarked: bool, command: string, windows: string)
    requires command != ""
    ensures HandlerClashes(h, unmarked, command, windows) <==> Bars(Object(h), unmarked, command, windows)
  {
    hide WindowsCommand, AmbiguousWindows;
    WindowsMeans(h, windows);
    if ExecutesOnWindows(Object(h), windows) { assert StringField(h, "type") == Some("command"); }
  }

  lemma HandlersAgree(group: Table)
    ensures |Handlers(group)| == |HandlersIn(Object(group))|
    ensures forall k :: 0 <= k < |Handlers(group)| ==> HandlersIn(Object(group))[k] == Object(Handlers(group)[k])
  {
  }

  lemma GroupClashMeans(group: Table, unmarked: bool, command: string, windows: string)
    requires command != ""
    ensures GroupClashes(group, unmarked, command, windows) <==>
            exists k :: 0 <= k < |HandlersIn(Object(group))| && Bars(HandlersIn(Object(group))[k], unmarked, command, windows)
  {
    hide Handlers, HandlersIn, HandlerClashes, Bars;
    HandlersAgree(group);
    forall k | 0 <= k < |Handlers(group)| { HandlerClashMeans(Handlers(group)[k], unmarked, command, windows); }
  }

  lemma GroupsAgree(d: Table, event: string, g: nat)
    requires HooksTable(d).Some? && (event in HooksTable(d).value ==> MapSlice(HooksTable(d).value[event]).Some?)
    ensures var groups := GroupsOf(HooksTable(d).value, event);
            && HandlersAt(d, event, g) == (if g < |groups| then HandlersIn(Object(groups[g])) else [])
            && (g < |groups| ==> g < |GroupItems(d, event)| && GroupItems(d, event)[g] == Object(groups[g]))
  {
    hide HandlersIn;
  }

  // The handlers of all events that bar an install are what the installer calls
  // clashes.
  lemma ClashesMean(d: Table, os: seq<Owned>, command: string, windows: string)
    requires HooksTable(d).Some? && command != ""
    requires forall e :: e in MANAGED_EVENTS && e in HooksTable(d).value ==> MapSlice(HooksTable(d).value[e]).Some?
    ensures Clashes(HooksTable(d).value, os, command, windows) <==>
            exists event, g: nat, k :: event in MANAGED_EVENTS && 0 <= k < |HandlersAt(d, event, g)| &&
              Bars(HandlersAt(d, event, g)[k], ManagedIndex(os, event) != Some(g), command, windows)
  {
    hide HooksTable, MANAGED_EVENTS, GroupClashes, HandlersAt, HandlersIn, Bars, GroupsOf, MapSlice;
    var hooks := HooksTable(d).value;
    if event, g: nat, k :| event in MANAGED_EVENTS && 0 <= k < |HandlersAt(d, event, g)| &&
                          Bars(HandlersAt(d, event, g)[k], ManagedIndex(os, event) != Some(g), command, windows)
    {
      GroupsAgree(d, event, g);
      GroupClashMeans(GroupsOf(hooks, event)[g], ManagedIndex(os, event) != Some(g), command, windows);
      assert EventClashes(hooks, os, event, command, windows);
    }
    if event :| event in MANAGED_EVENTS && EventClashes(hooks, os, event, command, windows) {
      var g :| 0 <= g < |GroupsOf(hooks, event)| &&
               GroupClashes(GroupsOf(hooks, event)[g], ManagedIndex(os, event) != Some(g), command, windows);
      GroupsAgree(d, event, g);
      GroupClashMeans(GroupsOf(hooks, event)[g], ManagedIndex(os, event) != Some(g), command, windows);
      var k :| 0 <= k < |HandlersIn(Object(GroupsOf(hooks, event)[g]))| &&
               Bars(HandlersIn(Object(GroupsOf(hooks, event)[g]))[k], ManagedIndex(os, event) != Some(g), command, windows);
      assert Bars(HandlersAt(d, event, g)[k], ManagedIndex(os, event) != Some(g), command, windows);
    }
  }

  // ----- Refusals ------------------------------------------------------------

  // No managed region stands for group g of an event.
  predicate Unowned(text: string, event: string, g: nat) {
    var scan := ScanRegions(text, TextFacts(text, 0));
    scan.Ok? ==> forall i :: 0 <= i < |scan.value| ==> !(scan.value[i].event == event && scan.value[i].groupIndex == g)
  }

  lemma {:induction false} IndexOwned(os: seq<Owned>, event: string, g: nat)
    requires ManagedIndex(os, event) == Some(g)
    ensures exists i :: 0 <= i < |os| && os[i].region.event == event && os[i].region.groupIndex == g
  {
    if os[0].region.event != event {
      IndexOwned(os[1..], event, g);
      var i :| 0 <= i < |os[1..]| && os[1..][i].region.event == event && os[1..][i].region.groupIndex == g;
      assert os[i + 1] == os[1..][i];
    }
  }

  // What an analysis has gone through, with its refusals.
  lemma AnalysisSteps(decode: Decoder, text: string, command: string, windows: string)
    requires decode(text).Some?
    ensures var fs, d := TextFacts(text, 0), decode(text).value;
            var a := Analyze(decode, text, command, windows, true);
            && (a.Err? ==> a.error == Conflict || (a.error == Unmodelled && ScanRegions(text, fs) == Err(Unmodelled)))
            && (a.Ok? ==>
                  && HooksTable(d).Some? && ScanRegions(text, fs).Ok?
                  && (forall e :: e in MANAGED_EVENTS ==> EventMapped(HooksTable(d).value, fs, e))
                  && OwnedGroups(HooksTable(d).value, ScanRegions(text, fs).value) == a
                  && !Clashes(HooksTable(d).value, a.value, command, windows))
  {
    hide TextFacts, AnyInline, EventMapped, Collect, MetaOwned, RegionsOk, Clashes, OwnedGroups, MANAGED_EVENTS, IsLegacy;
    var fs, hooks := TextFacts(text, 0), HooksTable(decode(text).value);
    ScanErrors(text, fs);
    if hooks.Some? && ScanRegions(text, fs).Ok? { OwnedErrors(hooks.value, ScanRegions(text, fs).value); }
  }

  lemma {:induction false} CollectErrors(text: string, fs: seq<Fact>, i: nat)
    requires i <= |fs| && Collect(text, fs, i).Err?
    ensures Collect(text, fs, i).error in {Conflict, Unmodelled}
    decreases |fs| - i
  {
    hide ManagedStart, AotEnd, GroupsBefore;
    if !fs[i].marker || OwnedRegion(text, fs, i).Ok? { CollectErrors(text, fs, i + 1); }
  }

  lemma ScanErrors(text: string, fs: seq<Fact>)
    ensures ScanRegions(text, fs).Err? ==> ScanRegions(text, fs).error in {Conflict, Unmodelled}
    ensures AnyInline(fs, false) ==> ScanRegions(text, fs) == Err(Unmodelled)
  {
    hide AnyInline, Collect, MetaOwned, RegionsOk, IsLegacy;
    if Collect(text, fs, 0).Err? { CollectErrors(text, fs, 0); }
  }

  lemma {:induction false} OwnedErrors(hooks: Table, rs: seq<Region>)
    ensures OwnedGroups(hooks, rs).Err? ==> OwnedGroups(hooks, rs).error == Conflict
  {
    hide GroupsOf, CanonicalCommands;
    if rs != [] { OwnedErrors(hooks, rs[1..]); }
  }

  // A config in which a handler outside the managed groups already runs the command,
  // or whose Windows command is ambiguous, is refused, whatever else it holds.
  lemma BarredIsRefused(decode: Decoder, printable: char -> bool, text: string, command: string, windows: string,
                        event: string, g: nat, k: nat)
    requires decode(text).Some? && command != "" && event in MANAGED_EVENTS
    requires k < |HandlersAt(decode(text).value, event, g)|
    requires var h := HandlersAt(decode(text).value, event, g)[k];
             Bars(h, Unowned(text, event, g), command, windows)
    ensures var r := InstallText(decode, printable, text, command, windows);
            r == Err(Conflict) || (r == Err(Unmodelled) && ScanRegions(text, TextFacts(text, 0)) == Err(Unmodelled))
  {
    hide Analyze, TextFacts, ScanRegions, Regions, Clashes, HooksTable, HandlersAt, Bars, EventMapped, OwnedGroups,
      ManagedIndex, InstallText;
    AnalysisSteps(decode, text, command, windows);
    NotAnalyzed(decode, printable, text, command, windows);
    var a := Analyze(decode, text, command, windows, true);
    if a.Ok? {
      var d, h := decode(text).value, HandlersAt(decode(text).value, event, g)[k];
      MappedGroups(d, TextFacts(text, 0));
      ClashesMean(d, a.value, command, windows);
      if ManagedIndex(a.value, event) == Some(g) {
        IndexOwned(a.value, event, g);
        AnalyzedRegions(decode, text, command, windows, true);
        RegionAt(a.value);
        BarsUnmarked(h, Unowned(text, event, g), false, command, windows);
      } else {
        BarsUnmarked(h, Unowned(text, event, g), true, command, windows);
      }
    }
  }

  lemma NotAnalyzed(decode: Decoder, printable: char -> bool, text: string, command: string, windows: string)
    ensures Analyze(decode, text, command, windows, true).Err? ==>
              InstallText(decode, printable, text, command, windows) ==
              Err(Analyze(decode, text, command, windows, true).error)
  {
    hide Analyze;
  }

  lemma MappedGroups(d: Table, fs: seq<Fact>)
    requires HooksTable(d).Some? && forall e :: e in MANAGED_EVENTS ==> EventMapped(HooksTable(d).value, fs, e)
    ensures forall e :: e in MANAGED_EVENTS && e in HooksTable(d).value ==> MapSlice(HooksTable(d).value[e]).Some?
  {
    hide HooksTable, MapSlice, MANAGED_EVENTS;
  }

  lemma BarsUnmarked(h: Json, a: bool, b: bool, command: string, windows: string)
    requires Bars(h, a, command, windows) && (a ==> b)
    ensures Bars(h, b, command, windows)
  {
  }

  // Where a block starts: its marker, its metadata and the header of its group.
  predicate BlockStart(fs: seq<Fact>, i: nat) {
    && i + 2 < |fs| && fs[i + 1].prefix.Some?
    && exists e :: e in MANAGED_EVENTS && fs[i + 2].header == Some(Header(true, ["hooks", e]))
  }

  lemma {:induction false} CollectedStarts(text: string, fs: seq<Fact>, i: nat, k: nat)
    requires i <= k < |fs| && Collect(text, fs, i).Ok? && fs[k].marker
    ensures BlockStart(fs, k)
    decreases |fs| - i
  {
    hide MANAGED_EVENTS, AotEnd, GroupsBefore, ManagedStart;
    if i < k {
      CollectedStarts(text, fs, i + 1, k);
    } else {
      var h := fs[k + 2].header.value;
      assert h.path == ["hooks", h.path[1]];
    }
  }

  // A config is refused unless every marker starts a block and all metadata stands
  // behind a marker; so no line that claims to be managed is passed over.
  lemma MarkersAccounted(text: string, fs: seq<Fact>, i: nat)
    requires i < |fs| && ScanRegions(text, fs).Ok?
    ensures fs[i].marker ==> BlockStart(fs, i)
    ensures fs[i].meta ==> i > 0 && fs[i - 1].marker
    ensures !fs[i].trailing
  {
    hide AnyInline, Collect, RegionsOk, BlockStart;
    if fs[i].marker { CollectedStarts(text, fs, 0, i); }
    assert MetaOwned(fs, i);
  }

  // ----- What a success means ------------------------------------------------

  // A group of the installer's shape: it matches everything and has one handler,
  // which runs the commands and says nothing else.
  predicate HoldsOnly(group: Json, command: string, windows: string) {
    && group.Object? && group.fields.Keys == {"matcher", "hooks"} && group.fields["matcher"] == String("")
    && |HandlersIn(group)| == 1
    && var h := HandlersIn(group)[0];
       && Executes(h, command) && (windows != "" ==> ExecutesOnWindows(h, windows))
       && !AmbiguousWindows(h) && h.fields.Keys <= {"type", "command", "commandWindows", "command_windows"}
  }

  lemma CanonicalHoldsOnly(group: Table, command: string, windows: string)
    ensures CanonicalCommands(group) == Some((command, windows)) <==>
              && HoldsOnly(Object(group), command, windows)
              && (windows == "" ==> WindowsCommand(HandlersIn(Object(group))[0].fields).Absent?)
  {
    hide WindowsCommand, AmbiguousWindows;
    TwoKeys(group);
    HandlersAgree(group);
    if "hooks" in group && MapSlice(group["hooks"]).Some? && |MapSlice(group["hooks"]).value| == 1 {
      var h := Handlers(group)[0];
      WindowsMeans(h, windows);
      if "type" in h && "command" in h && h.Keys <= HANDLER_KEYS && !WindowsCommand(h).Malformed? { HandlerKeys(h); }
    }
  }

  lemma TwoKeys(group: Table)
    ensures "matcher" in group && "hooks" in group ==> (|group| == 2 <==> group.Keys == {"matcher", "hooks"})
  {
    if "matcher" in group && "hooks" in group {
      assert |group| == |group.Keys|;
      var rest := group.Keys - {"matcher", "hooks"};
      assert group.Keys == rest + {"matcher", "hooks"};
      assert |rest| == |group| - 2;
    }
  }

  lemma HandlerKeys(h: Table)
    requires "type" in h && "command" in h && h.Keys <= HANDLER_KEYS && !WindowsCommand(h).Malformed?
    ensures |h| == 2 || |h| == 3
  {
    assert |h| == |h.Keys|;
    if "commandWindows" in h {
      assert h.Keys == {"type", "command", "commandWindows"};
    } else if "command_windows" in h {
      assert h.Keys == {"type", "command", "command_windows"};
    } else {
      assert h.Keys == {"type", "command"};
    }
  }

  // Group g is the installer's, with the commands, and no other handler of the event
  // runs either of them.
  predicate OnlyIn(d: Table, text: string, event: string, g: nat, command: string, windows: string) {
    && g < |GroupItems(d, event)| && HoldsOnly(GroupItems(d, event)[g], command, windows) && !Unowned(text, event, g)
    && forall h: nat, k: nat | h < |GroupItems(d, event)| && k < |HandlersAt(d, event, h)| ::
         Executes(HandlersAt(d, event, h)[k], command) || ExecutesOnWindows(HandlersAt(d, event, h)[k], windows) ==>
           h == g && k == 0
  }

  // After an install that succeeds, whatever was there before and whatever the TOML
  // decoder makes of it, every event runs the command exactly once, in the managed
  // group.
  lemma InstallRunsOnce(decode: Decoder, printable: char -> bool, text: string, command: string, windows: string,
                        event: string)
    requires InstallText(decode, printable, text, command, windows).Ok? && command != "" && event in MANAGED_EVENTS
    ensures var out := InstallText(decode, printable, text, command, windows).value;
            decode(out).Some? && exists g: nat :: OnlyIn(decode(out).value, out, event, g, command, windows)
  {
    hide Analyze, InstallText, Placed, Strip, MANAGED_EVENTS, TextFacts, OnePerEvent;
    var out := InstallText(decode, printable, text, command, windows).value;
    InstallLeaves(decode, printable, text, command, windows);
    AnalyzedDecodes(decode, out, command, windows);
    AnalyzedEvents(decode, out, command, windows);
    CompleteRunsOnce(decode, out, command, windows, event);
  }

  lemma AnalyzedDecodes(decode: Decoder, text: string, command: string, windows: string)
    requires Analyze(decode, text, command, windows, true).Ok?
    ensures decode(text).Some?
  {
    hide TextFacts, AnyInline, EventMapped, ScanRegions, OwnedGroups, Clashes;
  }

  lemma {:induction false} OwnedGroupAt(hooks: Table, rs: seq<Region>, i: nat)
    requires i < |rs| && OwnedGroups(hooks, rs).Ok?
    ensures |OwnedGroups(hooks, rs).value| == |rs| && OwnedGroup(hooks, rs[i]) == Ok(OwnedGroups(hooks, rs).value[i])
  {
    hide GroupsOf, CanonicalCommands;
    if i > 0 {
      OwnedGroupAt(hooks, rs[1..], i - 1);
    } else if |rs| > 1 {
      OwnedGroupAt(hooks, rs[1..], 0);
    }
  }

  // A complete analysis has a region for the event with a group of its commands.
  lemma OwnedHolds(decode: Decoder, text: string, command: string, windows: string, i: nat)
    requires Analyze(decode, text, command, windows, true).Ok? && decode(text).Some?
    requires var os := Analyze(decode, text, command, windows, true).value;
             i < |os| && os[i].command == command && (windows != "" ==> os[i].windows == windows)
             && os[i].region.event in MANAGED_EVENTS
    ensures var o, d := Analyze(decode, text, command, windows, true).value[i], decode(text).value;
            && o.region.groupIndex < |GroupItems(d, o.region.event)|
            && HoldsOnly(GroupItems(d, o.region.event)[o.region.groupIndex], command, windows)
            && !Unowned(text, o.region.event, o.region.groupIndex)
  {
    hide Analyze, TextFacts, ScanRegions, Regions, Clashes, HooksTable, HandlersAt, HandlersIn, EventMapped,
      OwnedGroups, CanonicalCommands, HoldsOnly, GroupItems, GroupsOf, MANAGED_EVENTS;
    var d, o := decode(text).value, Analyze(decode, text, command, windows, true).value[i];
    var e, g := o.region.event, o.region.groupIndex;
    AnalysisSteps(decode, text, command, windows);
    AnalyzedRegions(decode, text, command, windows, true);
    RegionAt(Analyze(decode, text, command, windows, true).value);
    OwnedGroupAt(HooksTable(d).value, ScanRegions(text, TextFacts(text, 0)).value, i);
    MappedGroups(d, TextFacts(text, 0));
    GroupsAgree(d, e, g);
    var group := GroupsOf(HooksTable(d).value, e)[g];
    CanonicalHoldsOnly(group, command, o.windows);
    HoldsLess(Object(group), command, o.windows, windows);
  }

  lemma HoldsLess(group: Json, command: string, own: string, windows: string)
    requires HoldsOnly(group, command, own) && (windows != "" ==> own == windows)
    ensures HoldsOnly(group, command, windows)
  {
  }

  lemma CompleteRunsOnce(decode: Decoder, text: string, command: string, windows: string, event: string)
    requires Analyze(decode, text, command, windows, true).Ok? && decode(text).Some?
    requires command != "" && event in MANAGED_EVENTS
    requires var os := Analyze(decode, text, command, windows, true).value;
             OnePerEvent(os) && Complete(os, command, windows)
    ensures exists g: nat :: OnlyIn(decode(text).value, text, event, g, command, windows)
  {
    hide Analyze, TextFacts, ScanRegions, Clashes, HooksTable, HandlersAt, HandlersIn, EventMapped,
      OwnedGroups, HoldsOnly, GroupItems, GroupsOf, MANAGED_EVENTS, Executes, ExecutesOnWindows, Unowned, AmbiguousWindows;
    var d, os := decode(text).value, Analyze(decode, text, command, windows, true).value;
    var i :| 0 <= i < |os| && os[i].region.event == event && os[i].command == command &&
             (windows != "" ==> os[i].windows == windows);
    var g := os[i].region.groupIndex;
    OwnedHolds(decode, text, command, windows, i);
    ManagedIndexAt(os, i);
    AnalysisSteps(decode, text, command, windows);
    MappedGroups(d, TextFacts(text, 0));
    ClashesMean(d, os, command, windows);
    forall h: nat, k: nat | h < |GroupItems(d, event)| && k < |HandlersAt(d, event, h)| &&
        (Executes(HandlersAt(d, event, h)[k], command) || ExecutesOnWindows(HandlersAt(d, event, h)[k], windows))
      ensures h == g && k == 0
    {
      assert !Bars(HandlersAt(d, event, h)[k], ManagedIndex(os, event) != Some(h), command, windows);
      OneHandler(d, event, g, command, windows);
    }
    assert OnlyIn(d, text, event, g, command, windows);
  }

  lemma OneHandler(d: Table, event: string, g: nat, command: string, windows: string)
    requires g < |GroupItems(d, event)| && HoldsOnly(GroupItems(d, event)[g], command, windows)
    ensures |HandlersAt(d, event, g)| == 1
  {
  }
}
