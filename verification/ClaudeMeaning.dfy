// What the settings merges mean in terms of groups and handlers alone: when a
// group is the installer's, when a handler runs a command, what ownership says of
// a whole settings object, and what the merges take out and put in.
module ClaudeMeaning {
  import opened Common
  import opened Json
  import opened ClaudeMerge
  import opened ClaudeMergeProofs

  // ----- Handlers and groups -------------------------------------------------

  // A handler's arguments; an absent list and an empty one both run the shell form.
  predicate GivesArgs(handler: Table, args: Option<seq<string>>) {
    match args
    case None => "args" in handler ==> handler["args"].Array? && handler["args"].items == []
    case Some(texts) =>
      && "args" in handler && handler["args"].Array? && |handler["args"].items| == |texts|
      && forall i :: 0 <= i < |texts| ==> handler["args"].items[i] == String(texts[i])
  }

  // Whether a handler starts the command, whatever its other options are.
  predicate Runs(h: Json, spec: HookSpec) {
    && h.Object? && "type" in h.fields && "command" in h.fields
    && h.fields["type"] == String(spec.kind) && h.fields["command"] == String(spec.command)
    && GivesArgs(h.fields, spec.args)
  }

  function HandlersOf(g: Json): seq<Json> {
    if g.Object? && "hooks" in g.fields && g.fields["hooks"].Array? then g.fields["hooks"].items else []
  }

  // Some handler without an ownership key starts the command.
  predicate AnyRuns(gs: seq<Json>, spec: HookSpec) {
    exists i, j :: 0 <= i < |gs| && 0 <= j < |HandlersOf(gs[i])| && Starts(HandlersOf(gs[i])[j], spec)
  }

  predicate Starts(h: Json, spec: HookSpec) {
    Runs(h, spec) && MARKER !in h.fields
  }

  // A group that matches everything and runs the command, and nothing else.
  predicate RunsAlone(g: Json, spec: HookSpec) {
    && g.Object? && g.fields.Keys == {"matcher", "hooks"} && g.fields["matcher"] == String("")
    && g.fields["hooks"].Array? && |g.fields["hooks"].items| == 1
    && var h := g.fields["hooks"].items[0];
       Runs(h, spec) && h.fields.Keys == {"type", "command"} + (if spec.args.Some? then {"args"} else {})
  }

  // The installer's group is the one that does just that.
  lemma ManagedRunsAlone(g: Json, spec: HookSpec)
    ensures g == ManagedGroup(spec) <==> RunsAlone(g, spec)
  {
    var m := ManagedGroup(spec);
    var h := HandlerObject(spec);
    assert h.fields.Keys == {"type", "command"} + (if spec.args.Some? then {"args"} else {});
    assert m.fields.Keys == {"matcher", "hooks"};
    if RunsAlone(g, spec) {
      var k := g.fields["hooks"].items[0];
      if spec.args.Some? { assert k.fields["args"].items == Strings(spec.args.value); }
      assert k.fields == h.fields;
      assert g.fields["hooks"].items == [h];
      assert g.fields == m.fields;
    }
  }

  // What the historical installer wrote for a command.
  function LegacyGroup(command: string): Json {
    Object(map["matcher" := String(""),
               "hooks" := Array([Object(map["type" := String("command"), "command" := String(command),
                                            MARKER := Bool(true)])])])
  }

  lemma CandidateIsLegacy(g: Json, command: string)
    ensures CandidateCommand(g) == Some(command) <==> command != "" && g == LegacyGroup(command)
  {
    var l := LegacyGroup(command);
    assert l.fields.Keys == {"matcher", "hooks"};
    assert l.fields["hooks"].items[0].fields.Keys == {"type", "command", MARKER};
    if CandidateCommand(g) == Some(command) {
      assert g.fields["hooks"].items[0].fields == l.fields["hooks"].items[0].fields;
      assert g.fields["hooks"].items == l.fields["hooks"].items;
      assert g.fields == l.fields;
    }
  }

  // ----- Counting runs -------------------------------------------------------

  lemma SameIdentity(handler: Table, spec: HookSpec)
    ensures SameExecutionIdentity(handler, spec) <==> Runs(Object(handler), spec)
  {
    match spec.args
    case None =>
    case Some(texts) =>
      if GivesArgs(handler, spec.args) { assert handler["args"].items == Strings(texts); }
  }

  lemma {:induction false} HandlerHitsZero(hs: seq<Json>, spec: HookSpec)
    ensures HandlerHits(hs, spec) == 0 <==> forall j :: 0 <= j < |hs| ==> !Starts(hs[j], spec)
  {
    if hs != [] {
      var h := hs[|hs| - 1];
      HandlerHitsZero(hs[..|hs| - 1], spec);
      if h.Object? { SameIdentity(h.fields, spec); }
    }
  }

  lemma GroupHitsZero(g: Json, spec: HookSpec)
    ensures GroupHits(g, spec) == 0 <==> forall j :: 0 <= j < |HandlersOf(g)| ==> !Starts(HandlersOf(g)[j], spec)
  {
    HandlerHitsZero(HandlersOf(g), spec);
  }

  lemma {:induction false} HitsZero(gs: seq<Json>, spec: HookSpec)
    ensures Hits(gs, spec) == 0 <==> !AnyRuns(gs, spec)
  {
    hide HandlersOf, Starts, GroupHits;
    if gs != [] {
      var init, g := gs[..|gs| - 1], gs[|gs| - 1];
      HitsZero(init, spec);
      GroupHitsZero(g, spec);
      if AnyRuns(init, spec) {
        var i, j :| 0 <= i < |init| && 0 <= j < |HandlersOf(init[i])| && Starts(HandlersOf(init[i])[j], spec);
        assert gs[i] == init[i];
      }
    }
  }

  lemma {:induction false} HitsConcat(a: seq<Json>, b: seq<Json>, spec: HookSpec)
    ensures Hits(a + b, spec) == Hits(a, spec) + Hits(b, spec)
    ensures ExactCount(a + b, spec) == ExactCount(a, spec) + ExactCount(b, spec)
  {
    hide GroupHits, ManagedGroup;
    if b == [] {
      assert a + b == a;
    } else {
      var init, g := b[..|b| - 1], b[|b| - 1];
      HitsConcat(a, init, spec);
      assert (a + b)[..|a + b| - 1] == a + init && (a + b)[|a + b| - 1] == g;
    }
  }

  lemma SplitAt(gs: seq<Json>, i: nat, spec: HookSpec)
    requires i < |gs|
    ensures Hits(gs, spec) == Hits(gs[..i], spec) + GroupHits(gs[i], spec) + Hits(gs[i + 1..], spec)
    ensures ExactCount(gs, spec) ==
            ExactCount(gs[..i], spec) + (if gs[i] == ManagedGroup(spec) then 1 else 0) + ExactCount(gs[i + 1..], spec)
  {
    hide GroupHits, ManagedGroup;
    assert gs == (gs[..i] + [gs[i]]) + gs[i + 1..];
    HitsConcat(gs[..i] + [gs[i]], gs[i + 1..], spec);
    HitsConcat(gs[..i], [gs[i]], spec);
    assert [gs[i]][..0] == [];
  }

  lemma {:induction false} ExactFound(gs: seq<Json>, spec: HookSpec) returns (i: nat)
    requires ExactCount(gs, spec) > 0
    ensures i < |gs| && gs[i] == ManagedGroup(spec)
  {
    hide ManagedGroup;
    if gs[|gs| - 1] == ManagedGroup(spec) {
      i := |gs| - 1;
    } else {
      i := ExactFound(gs[..|gs| - 1], spec);
    }
  }

  // ----- One event -----------------------------------------------------------

  // Entries in the shape of the settings schema, with ownership keys on nothing but
  // what the historical installer wrote.
  ghost predicate WellShaped(entries: Json) {
    entries.Array? && forall i :: 0 <= i < |entries.items| ==> ShapedGroup(entries.items[i])
  }

  ghost predicate ShapedGroup(g: Json) {
    && g.Object? && ("hooks" in g.fields ==> g.fields["hooks"].Array?)
    && forall j :: 0 <= j < |HandlersOf(g)| ==>
         && HandlersOf(g)[j].Object?
         && (MARKER in HandlersOf(g)[j].fields ==> exists c :: c != "" && g == LegacyGroup(c))
  }

  lemma GroupOkIsShaped(g: Json)
    ensures GroupOk(g) <==> ShapedGroup(g)
  {
    if GroupOk(g) {
      forall j | 0 <= j < |HandlersOf(g)| && MARKER in HandlersOf(g)[j].fields
        ensures exists c :: c != "" && g == LegacyGroup(c)
      {
        var c := CandidateCommand(g);
        assert c.Some?;
        CandidateIsLegacy(g, c.value);
      }
    }
    if ShapedGroup(g) {
      var hs := HandlersOf(g);
      forall j | 0 <= j < |hs|
        ensures HandlerOk(g.fields, |hs|, hs[j])
      {
        if MARKER in hs[j].fields {
          var c :| c != "" && g == LegacyGroup(c);
          CandidateIsLegacy(g, c);
          assert |hs| == 1 && hs[0] == hs[j];
        }
      }
    }
  }

  lemma EntriesOkIsShaped(entries: Json)
    ensures EntriesOk(entries) <==> WellShaped(entries)
  {
    hide GroupOk, ShapedGroup;
    if entries.Array? {
      forall i | 0 <= i < |entries.items| { GroupOkIsShaped(entries.items[i]); }
    }
  }

  // Exactly one group is the installer's, and no other handler runs the command.
  ghost predicate RunsOnce(entries: Json, spec: HookSpec) {
    && WellShaped(entries)
    && exists i :: 0 <= i < |entries.items| && OnlyAt(entries.items, i, spec)
  }

  predicate OnlyAt(gs: seq<Json>, i: nat, spec: HookSpec)
    requires i < |gs|
  {
    RunsAlone(gs[i], spec) && !AnyRuns(gs[..i], spec) && !AnyRuns(gs[i + 1..], spec)
  }

  lemma OnlyAtIff(gs: seq<Json>, i: nat, spec: HookSpec)
    requires i < |gs|
    ensures OnlyAt(gs, i, spec) <==> gs[i] == ManagedGroup(spec) && Hits(gs, spec) == 1
  {
    hide RunsAlone, AnyRuns, ManagedGroup, Hits, ExactCount, GroupHits;
    ManagedRunsAlone(gs[i], spec);
    ManagedGroupFacts(spec);
    SplitAt(gs, i, spec);
    HitsZero(gs[..i], spec);
    HitsZero(gs[i + 1..], spec);
  }

  lemma CountsMeanOnce(entries: Json, spec: HookSpec)
    requires entries.Array? && EntriesOk(entries)
    ensures (ExactCount(entries.items, spec) == 1 && Hits(entries.items, spec) == 1) <==> RunsOnce(entries, spec)
  {
    hide EntriesOk, WellShaped, ExactCount, Hits, OnlyAt, ManagedGroup;
    var gs := entries.items;
    EntriesOkIsShaped(entries);
    if ExactCount(gs, spec) == 1 && Hits(gs, spec) == 1 {
      var i := ExactFound(gs, spec);
      OnlyAtIff(gs, i, spec);
    }
    if RunsOnce(entries, spec) {
      var i :| 0 <= i < |gs| && OnlyAt(gs, i, spec);
      OnlyAtIff(gs, i, spec);
      SplitAt(gs, i, spec);
      ExactIsAHit(gs, spec);
    }
  }

  // ----- Ownership -----------------------------------------------------------

  // The settings an active record speaks of: every managed event runs the command
  // once, in the installer's own group, and no ownership key is left.
  ghost predicate Owns(cfg: Table, spec: HookSpec) {
    && "hooks" in cfg && cfg["hooks"].Object? && CountKey(cfg["hooks"], MARKER) == 0
    && forall e :: e in HOOK_EVENTS ==> e in cfg["hooks"].fields && RunsOnce(cfg["hooks"].fields[e], spec)
  }

  lemma OwnedMeans(cfg: Table, spec: HookSpec)
    ensures Owned(cfg, spec) <==> Owns(cfg, spec)
  {
    hide HOOK_EVENTS, EntriesOwned, RunsOnce;
    if "hooks" in cfg && cfg["hooks"].Object? && CountKey(cfg["hooks"], MARKER) == 0 {
      forall e | e in HOOK_EVENTS && e in cfg["hooks"].fields
        ensures EntriesOwned(cfg["hooks"].fields[e], spec) <==> RunsOnce(cfg["hooks"].fields[e], spec)
      {
        UnmarkedEvent(cfg["hooks"].fields, e);
        OwnedEntries(cfg["hooks"].fields[e], spec);
      }
    }
  }

  lemma UnmarkedEvent(hooks: Table, event: string)
    requires CountKey(Object(hooks), MARKER) == 0 && event in HOOK_EVENTS
    ensures EventCandidates(hooks, event) == []
  {
    CandidatesAtMostMarkers(hooks);
    TotalZero(hooks, HOOK_EVENTS);
  }

  lemma OwnedEntries(entries: Json, spec: HookSpec)
    requires entries.Array? ==> Candidates(entries.items) == []
    ensures EntriesOwned(entries, spec) <==> RunsOnce(entries, spec)
  {
    hide EntriesOk, WellShaped, ExactCount, Hits, OnlyAt;
    EntriesOkIsShaped(entries);
    if EntriesOk(entries) {
      assert entries.Array? by { EntriesAreArray(entries); }
      CountsMeanOnce(entries, spec);
    }
  }

  lemma EntriesAreArray(entries: Json)
    requires EntriesOk(entries)
    ensures entries.Array?
  {
  }

  // ----- Historical installs -------------------------------------------------

  // A whole historical install: its group in every event of one of the two sets,
  // and no ownership key anywhere else.
  ghost predicate Historical(hooks: Table, events: seq<string>, command: string) {
    && (events == LEGACY_EVENTS || events == HOOK_EVENTS) && command != ""
    && CountKey(Object(hooks), MARKER) == |events|
    && forall e :: e in events ==> e in hooks && hooks[e].Array? && LegacyGroup(command) in hooks[e].items
  }

  lemma {:induction false} CandidatesAre(gs: seq<Json>)
    ensures forall c :: c in Candidates(gs) <==> c != "" && LegacyGroup(c) in gs
  {
    hide CandidateCommand, LegacyGroup;
    if gs != [] {
      var init, g := gs[..|gs| - 1], gs[|gs| - 1];
      CandidatesAre(init);
      assert gs == init + [g];
      forall c { CandidateIsLegacy(g, c); }
    }
  }

  // Distinct events that all hold historical groups account for as many of them.
  lemma {:induction false} TotalCovers(hooks: Table, events: seq<string>, some: seq<string>)
    requires Distinct(events) && Distinct(some)
    requires forall e :: e in some ==> e in events && EventCandidates(hooks, e) != []
    ensures CandidateTotal(hooks, events) >= |some|
    ensures CandidateTotal(hooks, events) == |some| ==> forall e :: e in some ==> |EventCandidates(hooks, e)| == 1
  {
    hide EventCandidates;
    assert some != [] ==> some[0] in some;
    if events != [] {
      var init, e := events[..|events| - 1], events[|events| - 1];
      assert events == init + [e];
      if e in some {
        var i :| 0 <= i < |some| && some[i] == e;
        var rest := some[..i] + some[i + 1..];
        assert forall x :: x in some <==> x in rest || x == e;
        assert e !in rest;
        TotalCovers(hooks, init, rest);
      } else {
        TotalCovers(hooks, init, some);
      }
    }
  }

  lemma HistoricalIsMarkerSet(hooks: Table, events: seq<string>, command: string)
    requires Historical(hooks, events, command)
    ensures IsMarkerSet(hooks, events, command) && CandidateTotal(hooks, HOOK_EVENTS) == |events|
  {
    hide LegacyGroup, HOOK_EVENTS, LEGACY_EVENTS, CandidateTotal, CountKey;
    EventNames();
    CandidatesAtMostMarkers(hooks);
    forall e | e in events
      ensures e in HOOK_EVENTS && command in EventCandidates(hooks, e)
    {
      CandidatesAre(hooks[e].items);
    }
    TotalCovers(hooks, HOOK_EVENTS, events);
  }

  // The classification of the ownership keys is the plain one.
  lemma LegacyMeans(hooks: Table, events: seq<string>, command: string)
    ensures LegacyOf(hooks) == NoMarkers <==> CountKey(Object(hooks), MARKER) == 0
    ensures LegacyOf(hooks) == MarkerSet(events, command) <==> Historical(hooks, events, command)
  {
    hide LegacyGroup;
    CandidatesAtMostMarkers(hooks);
    if LegacyOf(hooks) == MarkerSet(events, command) {
      EventNames();
      forall e | e in events
        ensures command != "" && e in hooks && hooks[e].Array? && LegacyGroup(command) in hooks[e].items
      {
        assert EventCandidates(hooks, e) == [command];
        CandidatesAre(hooks[e].items);
        assert command in Candidates(hooks[e].items);
      }
    }
    if Historical(hooks, events, command) {
      HistoricalIsMarkerSet(hooks, events, command);
      assert EventCandidates(hooks, events[0]) == [command];
    }
  }

  // ----- Accepting an install ------------------------------------------------

  // When a fresh install goes ahead: no managed event starts the command yet, nor
  // the one the caller says is historical, and what ownership keys there are belong
  // to a whole historical install of a command the caller vouches for.
  ghost predicate Accepts(cfg: Table, desired: HookSpec, legacyOpt: string) {
    && ("hooks" in cfg ==> cfg["hooks"].Object?)
    && var hooks := if "hooks" in cfg then cfg["hooks"].fields else map[];
       && (forall e :: e in HOOK_EVENTS && e in hooks ==>
             && WellShaped(hooks[e]) && !AnyRuns(hooks[e].items, desired)
             && (legacyOpt != "" ==> !AnyRuns(hooks[e].items, HookSpec("command", legacyOpt, None))))
       && (|| CountKey(Object(hooks), MARKER) == 0
           || exists events, command :: Historical(hooks, events, command) && Vouched(command, desired, legacyOpt))
  }

  // A historical handler is a shell command, so it is the desired one only without
  // arguments.
  predicate Vouched(command: string, desired: HookSpec, legacyOpt: string) {
    command == legacyOpt || desired.(kind := "command") == HookSpec("command", command, None)
  }

  lemma EventFreeMeans(entries: Json, desired: HookSpec, legacyOpt: string)
    ensures EventFree(entries, desired, legacyOpt) <==>
              && WellShaped(entries) && !AnyRuns(entries.items, desired)
              && (legacyOpt != "" ==> !AnyRuns(entries.items, HookSpec("command", legacyOpt, None)))
  {
    hide AnyRuns, Hits;
    EntriesOkIsShaped(entries);
    if WellShaped(entries) {
      HitsZero(entries.items, desired);
      HitsZero(entries.items, ShellSpec(legacyOpt));
    }
  }

  lemma FreshOkMeans(cfg: Table, desired: HookSpec, legacyOpt: string)
    ensures FreshOk(cfg, desired, legacyOpt) <==> Accepts(cfg, desired, legacyOpt)
  {
    hide LegacyOf, EventFree, WellShaped, AnyRuns, Historical, HOOK_EVENTS;
    if HooksReadable(cfg) {
      var hooks := HooksOf(cfg);
      forall e | e in HOOK_EVENTS && e in hooks { EventFreeMeans(hooks[e], desired, legacyOpt); }
      LegacyAllowed(hooks, desired, legacyOpt);
    }
  }

  lemma LegacyAllowed(hooks: Table, desired: HookSpec, legacyOpt: string)
    ensures (match LegacyOf(hooks)
             case NoMarkers => true
             case MarkerSet(_, command) => CommandAllowed(command, desired, legacyOpt)
             case Foreign => false) <==>
            || CountKey(Object(hooks), MARKER) == 0
            || exists events, command :: Historical(hooks, events, command) && Vouched(command, desired, legacyOpt)
  {
    hide LegacyOf, Historical;
    var l := LegacyOf(hooks);
    LegacyMeans(hooks, [], "");
    if l.MarkerSet? {
      LegacyMeans(hooks, l.events, l.command);
      HistoricalNamed(hooks, l.events, l.command);
    }
    if events, command :| Historical(hooks, events, command) && Vouched(command, desired, legacyOpt) {
      LegacyMeans(hooks, events, command);
      HistoricalNamed(hooks, events, command);
    }
  }

  lemma HistoricalNamed(hooks: Table, events: seq<string>, command: string)
    requires Historical(hooks, events, command)
    ensures command != ""
  {
  }

  // ----- What the merges put in and take out ---------------------------------

  function Drop(gs: seq<Json>, i: nat): seq<Json>
    requires i < |gs|
  {
    gs[..i] + gs[i + 1..]
  }

  lemma {:induction false} WithoutConcat(a: seq<Json>, b: seq<Json>, g: Json)
    ensures Without(a + b, g) == Without(a, g) + Without(b, g)
  {
    if b == [] {
      assert a + b == a;
    } else {
      WithoutConcat(a, b[..|b| - 1], g);
      assert (a + b)[..|a + b| - 1] == a + b[..|b| - 1];
    }
  }

  lemma WithoutOne(gs: seq<Json>, i: nat, spec: HookSpec)
    requires i < |gs| && gs[i] == ManagedGroup(spec) && ExactCount(gs, spec) == 1
    ensures Without(gs, ManagedGroup(spec)) == Drop(gs, i)
  {
    hide ManagedGroup, ExactCount, Without, Hits;
    var g := ManagedGroup(spec);
    SplitAt(gs, i, spec);
    WithoutAbsent(gs[..i], spec);
    WithoutAbsent(gs[i + 1..], spec);
    assert gs == (gs[..i] + [g]) + gs[i + 1..];
    WithoutConcat(gs[..i] + [g], gs[i + 1..], g);
    WithoutConcat(gs[..i], [g], g);
    WithoutItself(g);
    assert gs[..i] + [] == gs[..i];
  }

  lemma WithoutItself(g: Json)
    ensures Without([g], g) == []
  {
    assert [g][..0] == [];
  }

  // The parts of entries that hold one historical group.
  lemma {:induction false} OneCandidate(gs: seq<Json>, command: string, spec: HookSpec) returns (i: nat)
    requires Candidates(gs) == [command]
    ensures i < |gs| && gs[i] == LegacyGroup(command)
    ensures WithoutLegacy(gs, command) == Drop(gs, i)
    ensures Migrated(gs, spec) == gs[..i] + [ManagedGroup(spec)] + gs[i + 1..]
  {
    hide LegacyGroup, ManagedGroup, CandidateCommand, Migrated;
    var init, g := gs[..|gs| - 1], gs[|gs| - 1];
    CandidateIsLegacy(g, command);
    MigratedLast(gs, spec);
    if CandidateCommand(g).Some? {
      i := |gs| - 1;
      NoCandidates(init, command, spec);
      assert Candidates(gs)[|Candidates(init)|] == CandidateCommand(g).value;
      assert gs[i + 1..] == [];
    } else {
      hide WithoutLegacy, Candidates;
      i := OneCandidate(init, command, spec) by { LastIsOther(gs, command); }
      LastIsOther(gs, command);
      SplicedLast(gs, i, []);
      SplicedLast(gs, i, [ManagedGroup(spec)]);
      assert gs[..i] + [] == gs[..i] && init[..i] + [] == init[..i];
    }
  }

  lemma LastIsOther(gs: seq<Json>, command: string)
    requires gs != [] && CandidateCommand(gs[|gs| - 1]).None?
    ensures Candidates(gs) == Candidates(gs[..|gs| - 1])
    ensures WithoutLegacy(gs, command) == WithoutLegacy(gs[..|gs| - 1], command) + [gs[|gs| - 1]]
  {
    hide CandidateCommand;
  }

  // Replacing a group before the last one leaves the last one where it is.
  lemma SplicedLast(gs: seq<Json>, i: nat, put: seq<Json>)
    requires i + 1 < |gs|
    ensures var init := gs[..|gs| - 1];
            gs[..i] + put + gs[i + 1..] == (init[..i] + put + init[i + 1..]) + [gs[|gs| - 1]]
  {
  }

  lemma MigratedLast(gs: seq<Json>, spec: HookSpec)
    requires gs != []
    ensures var g := gs[|gs| - 1];
            Migrated(gs, spec) ==
            Migrated(gs[..|gs| - 1], spec) + [if CandidateCommand(g).Some? then ManagedGroup(spec) else g]
  {
    hide CandidateCommand, ManagedGroup;
  }

  lemma {:induction false} NoCandidates(gs: seq<Json>, command: string, spec: HookSpec)
    requires Candidates(gs) == []
    ensures WithoutLegacy(gs, command) == gs && Migrated(gs, spec) == gs
  {
    hide CandidateCommand, ManagedGroup, Migrated;
    if gs != [] {
      var init, g := gs[..|gs| - 1], gs[|gs| - 1];
      NoCandidates(init, command, spec);
      MigratedLast(gs, spec);
      assert gs == init + [g];
    } else {
      assert Migrated(gs, spec) == [];
    }
  }

  // The historical install that an event belongs to, if there is one.
  ghost predicate HistoricalAt(hooks: Table, event: string) {
    exists events, command :: Historical(hooks, events, command) && event in events
  }

  // The groups an install leaves in a managed event: its own in the place of the
  // historical one, or behind all others.
  ghost predicate Installs(hooks: Table, event: string, after: seq<Json>, spec: HookSpec) {
    exists g :: RunsAlone(g, spec) &&
      if HistoricalAt(hooks, event) then
        event in hooks && hooks[event].Array? && exists i, command ::
          0 <= i < |hooks[event].items| && hooks[event].items[i] == LegacyGroup(command) &&
          after == hooks[event].items[..i] + [g] + hooks[event].items[i + 1..]
      else
        after == (if event in hooks && hooks[event].Array? then hooks[event].items else []) + [g]
  }

  lemma HistoricalSet(hooks: Table, event: string)
    ensures HistoricalAt(hooks, event) <==> LegacyOf(hooks).MarkerSet? && event in LegacyOf(hooks).events
  {
    hide LegacyOf, Historical;
    var l := LegacyOf(hooks);
    if l.MarkerSet? { LegacyMeans(hooks, l.events, l.command); }
    if events, command :| Historical(hooks, events, command) && event in events { LegacyMeans(hooks, events, command); }
  }

  lemma EntriesInstalled(hooks: Table, event: string, spec: HookSpec)
    ensures Installs(hooks, event, InstalledEntries(hooks, LegacyOf(hooks), event, spec), spec)
  {
    hide LegacyOf, RunsAlone, LegacyGroup, ManagedGroup, HistoricalAt, Migrated;
    ManagedRunsAlone(ManagedGroup(spec), spec);
    HistoricalSet(hooks, event);
    if HistoricalAt(hooks, event) {
      var l := LegacyOf(hooks);
      MarkerSetCandidates(hooks, event);
      var i := OneCandidate(hooks[event].items, l.command, spec);
    }
  }

  lemma MarkerSetCandidates(hooks: Table, event: string)
    requires LegacyOf(hooks).MarkerSet? && event in LegacyOf(hooks).events
    ensures event in hooks && hooks[event].Array? && event in HOOK_EVENTS
    ensures Candidates(hooks[event].items) == [LegacyOf(hooks).command]
  {
    MarkerSetPresent(hooks, event);
    assert EventCandidates(hooks, event) == [LegacyOf(hooks).command];
  }

  // An install puts its group into every managed event, and changes nothing else.
  lemma InstallPuts(cfg: Table, desired: HookSpec, legacyOpt: string, event: string)
    requires Accepts(cfg, desired, legacyOpt)
    ensures HooksReadable(cfg)
    ensures var after := FreshConfig(cfg, desired);
            && after - {"hooks"} == cfg - {"hooks"} && "hooks" in after && after["hooks"].Object?
            && var before, hooks := HooksOf(cfg), after["hooks"].fields;
               if event in HOOK_EVENTS then
                 event in hooks && hooks[event].Array? && Installs(before, event, hooks[event].items, desired)
               else
                 (event in hooks <==> event in before) && (event in before ==> hooks[event] == before[event])
  {
    hide LegacyOf, Installs, InstalledEntries, WellShaped, AnyRuns, Historical, HOOK_EVENTS;
    EntriesInstalled(HooksOf(cfg), event, desired);
  }

  // An uninstall takes one group out of an event, and the event with its last one.
  ghost predicate Takes(before: Table, after: Table, event: string, g: Json) {
    && event in before && before[event].Array?
    && var gs := before[event].items;
       exists i :: 0 <= i < |gs| && gs[i] == g && LeftBy(gs, i, after, event)
  }

  predicate LeftBy(gs: seq<Json>, i: nat, after: Table, event: string)
    requires i < |gs|
  {
    if |gs| == 1 then event !in after else event in after && after[event] == Array(Drop(gs, i))
  }

  lemma PrunedAt(cfg: Table, hooks: Table, kept: map<string, seq<Json>>, event: string, i: nat)
    requires event in hooks && event in kept && hooks[event].Array?
    requires i < |hooks[event].items| && kept[event] == Drop(hooks[event].items, i)
    ensures HooksReadable(WithHooks(cfg, Pruned(hooks, kept)))
    ensures Takes(hooks, HooksOf(WithHooks(cfg, Pruned(hooks, kept))), event, hooks[event].items[i])
  {
    WithHooksTwice(cfg, Pruned(hooks, kept), map[]);
    assert LeftBy(hooks[event].items, i, Pruned(hooks, kept), event);
  }

  // What an uninstall leaves of everything that it does not manage.
  ghost predicate Spares(cfg: Table, after: Table, events: seq<string>) {
    && after - {"hooks"} == cfg - {"hooks"} && HooksReadable(cfg) && HooksReadable(after)
    && ("hooks" in after ==> HooksOf(after) != map[])
    && forall e :: e !in events ==>
         && (e in HooksOf(after) <==> e in HooksOf(cfg))
         && (e in HooksOf(cfg) ==> HooksOf(after)[e] == HooksOf(cfg)[e])
  }

  lemma PrunedSpares(cfg: Table, kept: map<string, seq<Json>>, events: seq<string>)
    requires HooksReadable(cfg) && forall e :: e in kept ==> e in events
    ensures Spares(cfg, WithHooks(cfg, Pruned(HooksOf(cfg), kept)), events)
  {
    WithHooksTwice(cfg, Pruned(HooksOf(cfg), kept), map[]);
    var after := WithHooks(cfg, Pruned(HooksOf(cfg), kept));
    assert after - {"hooks"} == cfg - {"hooks"};
  }

  // Uninstalling owned settings takes the installer's group out of each managed
  // event and spares everything else.
  lemma UninstallTakes(cfg: Table, spec: HookSpec, event: string)
    requires Owns(cfg, spec)
    ensures var after := OwnedUninstalled(cfg, spec);
            && Spares(cfg, after, HOOK_EVENTS)
            && (event in HOOK_EVENTS ==> exists g :: RunsAlone(g, spec) && Takes(HooksOf(cfg), HooksOf(after), event, g))
  {
    hide HOOK_EVENTS, OnlyAt, Without, Pruned, WithHooks, Takes, Spares, RunsAlone, WellShaped, RunsOnce;
    var hooks := HooksOf(cfg);
    var kept := OwnedKept(hooks, HOOK_EVENTS, spec);
    PrunedSpares(cfg, kept, HOOK_EVENTS);
    if event in HOOK_EVENTS {
      var i := OnceDropped(hooks[event], spec);
      PrunedAt(cfg, hooks, kept, event, i);
    }
  }

  // Then no managed event starts the command.
  lemma UninstallStops(cfg: Table, spec: HookSpec, event: string)
    requires Owns(cfg, spec) && event in HOOK_EVENTS
    ensures var after := OwnedUninstalled(cfg, spec);
            && HooksReadable(after)
            && (event in HooksOf(after) ==> HooksOf(after)[event].Array? && !AnyRuns(HooksOf(after)[event].items, spec))
  {
    hide HOOK_EVENTS, OwnedUninstalled, RunsAlone, WellShaped, AnyRuns, OnlyAt, GroupHits, Hits, ManagedGroup;
    UninstallTakes(cfg, spec, event);
    var before, hooks := HooksOf(cfg)[event], HooksOf(OwnedUninstalled(cfg, spec));
    var g :| RunsAlone(g, spec) && Takes(HooksOf(cfg), hooks, event, g);
    var i :| 0 <= i < |before.items| && before.items[i] == g && LeftBy(before.items, i, hooks, event);
    var j :| 0 <= j < |before.items| && OnlyAt(before.items, j, spec);
    ManagedRunsAlone(g, spec);
    ManagedGroupFacts(spec);
    OnlyAtIff(before.items, j, spec);
    SplitAt(before.items, i, spec);
    HitsConcat(before.items[..i], before.items[i + 1..], spec);
    HitsZero(Drop(before.items, i), spec);
  }

  lemma OnceDropped(entries: Json, spec: HookSpec) returns (i: nat)
    requires RunsOnce(entries, spec)
    ensures entries.Array? && i < |entries.items| && RunsAlone(entries.items[i], spec)
    ensures Without(entries.items, ManagedGroup(spec)) == Drop(entries.items, i)
  {
    hide HandlersOf, RunsAlone, AnyRuns, ManagedGroup, ShapedGroup;
    EntriesOkIsShaped(entries);
    CountsMeanOnce(entries, spec);
    i :| 0 <= i < |entries.items| && OnlyAt(entries.items, i, spec);
    ManagedRunsAlone(entries.items[i], spec);
    WithoutOne(entries.items, i, spec);
  }

  // Removing a historical install takes its groups and spares everything else.
  lemma LegacyTakes(cfg: Table, events: seq<string>, command: string, event: string)
    requires HooksReadable(cfg) && Historical(HooksOf(cfg), events, command)
    ensures var after := LegacyUninstalled(cfg, events, command);
            && Spares(cfg, after, events)
            && (event in events ==> Takes(HooksOf(cfg), HooksOf(after), event, LegacyGroup(command)))
  {
    hide WithoutLegacy, Pruned, WithHooks, Takes, Spares, LegacyGroup, LegacyOf, Historical;
    var hooks := HooksOf(cfg);
    var kept := LegacyKept(hooks, events, command);
    LegacyMeans(hooks, events, command);
    PrunedSpares(cfg, kept, events);
    if event in events {
      MarkerSetCandidates(hooks, event);
      var i := OneCandidate(hooks[event].items, command, ShellSpec(command));
      PrunedAt(cfg, hooks, kept, event, i);
    }
  }
}
