// The settings document as the installer edits it: the scanning loops and the
// in-place merges.
module ClaudeSettings {
  import opened Common
  import opened Json
  import opened ClaudeMerge
  import opened ClaudeMergeProofs

  method CountKeyIn(value: Json, key: string) returns (n: nat)
    ensures n == CountKey(value, key)
    decreases value
  {
    n := 0;
    match value
    case Object(fields) =>
      var todo := fields.Keys;
      while todo != {}
        invariant todo <= fields.Keys
        invariant n + CountFields(value, todo, key) == CountKey(value, key)
        decreases |todo|
      {
        var k :| k in todo;
        CountFieldsRemove(value, todo, k, key);
        if k == key { n := n + 1; }
        var below := CountKeyIn(fields[k], key);
        n := n + below;
        todo := todo - {k};
      }
    case Array(items) =>
      for i := 0 to |items|
        invariant n == CountItems(value, i, key)
      {
        var below := CountKeyIn(items[i], key);
        n := n + below;
      }
    case _ =>
  }

  datatype Scan = Scan(exactGroups: nat, exactHandlers: nat, legacyCommands: seq<string>)

  // Validates one group and counts what it holds. None is a conflict.
  method ScanGroup(g: Json, desired: HookSpec) returns (r: Option<Scan>)
    ensures r.Some? <==> GroupOk(g)
    ensures r.Some? ==>
              && r.value.exactGroups == (if g == ManagedGroup(desired) then 1 else 0)
              && r.value.exactHandlers == GroupHits(g, desired)
              && r.value.legacyCommands == if CandidateCommand(g).Some? then [CandidateCommand(g).value] else []
  {
    if !g.Object? { return None; }
    var group := g.fields;
    if "hooks" !in group { return Some(Scan(0, 0, [])); }
    if !group["hooks"].Array? { return None; }
    var handlers := group["hooks"].items;
    var hits, legacy := 0, [];
    for i := 0 to |handlers|
      invariant forall j :: 0 <= j < i ==> HandlerOk(group, |handlers|, handlers[j])
      invariant hits == HandlerHits(handlers[..i], desired)
      invariant legacy == if i > 0 && CandidateCommand(g).Some? then [CandidateCommand(g).value] else []
    {
      assert handlers[..i + 1][..i] == handlers[..i];
      if !handlers[i].Object? { return None; }
      var handler := handlers[i].fields;
      if MARKER in handler {
        var command := ExactLegacyHandler(handler);
        if command.None? || !PlainGroup(group) || |handlers| != 1 { return None; }
        legacy := legacy + [command.value];
      } else if SameExecutionIdentity(handler, desired) {
        hits := hits + 1;
      }
    }
    assert handlers[..|handlers|] == handlers;
    return Some(Scan(if g == ManagedGroup(desired) then 1 else 0, hits, legacy));
  }

  lemma NothingScanned(desired: HookSpec)
    ensures ExactCount([], desired) == 0 && Hits([], desired) == 0 && Candidates([]) == []
  {
  }

  lemma ScanStep(arr: seq<Json>, g: nat, desired: HookSpec, s: Scan)
    requires g < |arr| && s.exactGroups == (if arr[g] == ManagedGroup(desired) then 1 else 0)
    requires s.exactHandlers == GroupHits(arr[g], desired)
    requires s.legacyCommands == if CandidateCommand(arr[g]).Some? then [CandidateCommand(arr[g]).value] else []
    ensures ExactCount(arr[..g + 1], desired) == ExactCount(arr[..g], desired) + s.exactGroups
    ensures Hits(arr[..g + 1], desired) == Hits(arr[..g], desired) + s.exactHandlers
    ensures Candidates(arr[..g + 1]) == Candidates(arr[..g]) + s.legacyCommands
  {
    hide GroupHits, CandidateCommand, ManagedGroup;
    assert arr[..g + 1][..g] == arr[..g];
  }

  // Validates one managed event and counts what it holds. None is a conflict.
  method ScanEvent(entries: Json, desired: HookSpec) returns (r: Option<Scan>)
    ensures r.Some? <==> EntriesOk(entries)
    ensures r.Some? ==>
              && r.value.exactGroups == ExactCount(entries.items, desired)
              && r.value.exactHandlers == Hits(entries.items, desired)
              && r.value.legacyCommands == Candidates(entries.items)
  {
    hide GroupOk, ExactCount, Hits, Candidates;
    if !entries.Array? { return None; }
    var arr := entries.items;
    var out := Scan(0, 0, []);
    NothingScanned(desired);
    for g := 0 to |arr|
      invariant forall j :: 0 <= j < g ==> GroupOk(arr[j])
      invariant out == Scan(ExactCount(arr[..g], desired), Hits(arr[..g], desired), Candidates(arr[..g]))
    {
      var group := ScanGroup(arr[g], desired);
      if group.None? { return None; }
      ScanStep(arr, g, desired, group.value);
      out := Scan(out.exactGroups + group.value.exactGroups,
                  out.exactHandlers + group.value.exactHandlers,
                  out.legacyCommands + group.value.legacyCommands);
    }
    assert arr[..|arr|] == arr;
    return Some(out);
  }

  datatype Candidate = Candidate(event: string, command: string)

  // The commands listed for one event, in order.
  function CommandsFor(cs: seq<Candidate>, event: string): seq<string> {
    if cs == [] then []
    else
      CommandsFor(cs[..|cs| - 1], event) +
      (if cs[|cs| - 1].event == event then [cs[|cs| - 1].command] else [])
  }

  lemma CommandsForAppend(cs: seq<Candidate>, c: Candidate, event: string)
    ensures CommandsFor(cs + [c], event) ==
            CommandsFor(cs, event) + (if c.event == event then [c.command] else [])
  {
    assert (cs + [c])[..|cs|] == cs;
  }

  lemma AppendedOne(cs: seq<Candidate>, c: Candidate)
    ensures CommandsFor(cs + [c], c.event) == CommandsFor(cs, c.event) + [c.command]
    ensures forall e :: e != c.event ==> CommandsFor(cs + [c], e) == CommandsFor(cs, e)
    ensures forall x :: x in cs + [c] <==> x in cs || x == c
  {
    forall e { CommandsForAppend(cs, c, e); }
  }

  // Every listed candidate belongs to exactly one of the distinct events.
  lemma {:induction false} CountByEvent(cs: seq<Candidate>, hooks: Table, events: seq<string>)
    requires Distinct(events)
    requires forall c :: c in cs ==> c.event in events
    requires forall e :: e in events ==> CommandsFor(cs, e) == EventCandidates(hooks, e)
    ensures |cs| == CandidateTotal(hooks, events)
  {
    SplitByEvents(cs, events);
    SumsAgree(cs, hooks, events);
  }

  function SumFor(cs: seq<Candidate>, events: seq<string>): nat {
    if events == [] then 0 else SumFor(cs, events[..|events| - 1]) + |CommandsFor(cs, events[|events| - 1])|
  }

  lemma {:induction false} SumsAgree(cs: seq<Candidate>, hooks: Table, events: seq<string>)
    requires forall e :: e in events ==> CommandsFor(cs, e) == EventCandidates(hooks, e)
    ensures SumFor(cs, events) == CandidateTotal(hooks, events)
  {
    if events != [] {
      SumsAgree(cs, hooks, events[..|events| - 1]);
    }
  }

  lemma {:induction false} SumForAppend(cs: seq<Candidate>, c: Candidate, events: seq<string>)
    requires Distinct(events)
    ensures SumFor(cs + [c], events) == SumFor(cs, events) + (if c.event in events then 1 else 0)
  {
    if events != [] {
      var init, e := events[..|events| - 1], events[|events| - 1];
      SumForAppend(cs, c, init);
      CommandsForAppend(cs, c, e);
      assert events == init + [e];
    }
  }

  lemma {:induction false} SplitByEvents(cs: seq<Candidate>, events: seq<string>)
    requires Distinct(events)
    requires forall c :: c in cs ==> c.event in events
    ensures SumFor(cs, events) == |cs|
  {
    if cs == [] {
      NothingFor(events);
    } else {
      var init, c := cs[..|cs| - 1], cs[|cs| - 1];
      assert cs == init + [c];
      SplitByEvents(init, events);
      SumForAppend(init, c, events);
    }
  }

  lemma {:induction false} NothingFor(events: seq<string>)
    ensures SumFor([], events) == 0
  {
    if events != [] {
      NothingFor(events[..|events| - 1]);
    }
  }

  // Lists every historical group of a managed event, or None when some
  // ownership key is elsewhere. Go visits the events in no particular order.
  method LegacyInventory(hooks: Table) returns (r: Option<seq<Candidate>>)
    ensures r.Some? <==> CountKey(Object(hooks), MARKER) == CandidateTotal(hooks, HOOK_EVENTS)
    ensures r.Some? ==>
              && |r.value| == CandidateTotal(hooks, HOOK_EVENTS)
              && (forall c :: c in r.value ==> c.event in HOOK_EVENTS)
              && forall e :: e in HOOK_EVENTS ==> CommandsFor(r.value, e) == EventCandidates(hooks, e)
  {
    var total := CountKeyIn(Object(hooks), MARKER);
    CandidatesAtMostMarkers(hooks);
    if total == 0 {
      TotalZero(hooks, HOOK_EVENTS);
      return Some([]);
    }
    var out: seq<Candidate> := [];
    var todo := hooks.Keys;
    while todo != {}
      invariant todo <= hooks.Keys
      invariant forall c :: c in out ==> c.event in HOOK_EVENTS && c.event !in todo
      invariant forall e :: e in HOOK_EVENTS && e !in todo ==> CommandsFor(out, e) == EventCandidates(hooks, e)
      invariant forall e :: e in todo ==> CommandsFor(out, e) == []
      decreases |todo|
    {
      var event :| event in todo;
      out := ListCandidates(out, event, event in HOOK_EVENTS, hooks[event]);
      todo := todo - {event};
    }
    EventNames();
    CountByEvent(out, hooks, HOOK_EVENTS);
    if |out| != total { return None; }
    return Some(out);
  }

  // Appends the historical groups of one event to the list.
  method ListCandidates(before: seq<Candidate>, event: string, managed: bool, entries: Json)
    returns (out: seq<Candidate>)
    requires CommandsFor(before, event) == []
    ensures CommandsFor(out, event) ==
            if managed && entries.Array? then Candidates(entries.items) else []
    ensures forall e :: e != event ==> CommandsFor(out, e) == CommandsFor(before, e)
    ensures forall c :: c in out ==> c in before || (c.event == event && managed)
  {
    out := before;
    if !entries.Array? { return; }
    var gs := entries.items;
    for i := 0 to |gs|
      invariant CommandsFor(out, event) == if managed then Candidates(gs[..i]) else []
      invariant forall e :: e != event ==> CommandsFor(out, e) == CommandsFor(before, e)
      invariant forall c :: c in out ==> c in before || (c.event == event && managed)
    {
      assert gs[..i + 1][..i] == gs[..i];
      var command := CandidateCommand(gs[i]);
      if command.Some? && managed {
        var c := Candidate(event, command.value);
        AppendedOne(out, c);
        out := out + [c];
      }
    }
    assert gs[..|gs|] == gs;
  }

  lemma {:induction false} ListedFor(cs: seq<Candidate>, event: string)
    ensures forall x :: x in CommandsFor(cs, event) <==> Candidate(event, x) in cs
  {
    if cs != [] {
      ListedFor(cs[..|cs| - 1], event);
      assert cs == cs[..|cs| - 1] + [cs[|cs| - 1]];
    }
  }

  predicate OnePerEvent(cs: seq<Candidate>, events: seq<string>) {
    |cs| == |events| && forall i :: 0 <= i < |events| ==> |CommandsFor(cs, events[i])| == 1
  }

  // Whether the candidates are exactly one per listed event.
  method Accept(cs: seq<Candidate>, events: seq<string>) returns (ok: bool)
    ensures ok <==> OnePerEvent(cs, events)
  {
    if |cs| != |events| { return false; }
    var counts: map<string, nat> := map[];
    for i := 0 to |cs|
      invariant forall e :: |CommandsFor(cs[..i], e)| == if e in counts then counts[e] else 0
    {
      assert cs[..i + 1][..i] == cs[..i];
      var event := cs[i].event;
      counts := counts[event := (if event in counts then counts[event] else 0) + 1];
    }
    assert cs[..|cs|] == cs;
    for i := 0 to |events|
      invariant forall j :: 0 <= j < i ==> |CommandsFor(cs, events[j])| == 1
    {
      if events[i] !in counts || counts[events[i]] != 1 { return false; }
    }
    return true;
  }

  // One candidate per event, all with one command: what an accepted set is.
  lemma AcceptedSet(cs: seq<Candidate>, hooks: Table, events: seq<string>, command: string)
    requires forall c :: c in cs ==> c.command == command
    requires forall i :: 0 <= i < |events| ==>
               CommandsFor(cs, events[i]) == EventCandidates(hooks, events[i]) && |CommandsFor(cs, events[i])| == 1
    requires |events| == CandidateTotal(hooks, HOOK_EVENTS)
    ensures IsMarkerSet(hooks, events, command)
  {
    forall i | 0 <= i < |events|
      ensures EventCandidates(hooks, events[i]) == [command]
    {
      ListedFor(cs, events[i]);
      assert EventCandidates(hooks, events[i])[0] in CommandsFor(cs, events[i]);
    }
  }

  lemma ListedCommand(cs: seq<Candidate>, hooks: Table, c: Candidate)
    requires c in cs && CommandsFor(cs, c.event) == EventCandidates(hooks, c.event)
    ensures c.command in EventCandidates(hooks, c.event)
  {
    ListedFor(cs, c.event);
    assert c == Candidate(c.event, c.command);
  }

  lemma OnlyCommand(hooks: Table, events: seq<string>, command: string, event: string)
    requires IsMarkerSet(hooks, events, command)
    requires Distinct(events) && (forall e :: e in events ==> e in HOOK_EVENTS) && event in HOOK_EVENTS
    ensures EventCandidates(hooks, event) == [] || EventCandidates(hooks, event) == [command]
  {
    EventNames();
    if event !in events {
      assert forall e :: e in events ==> EventCandidates(hooks, e) == [command];
      TotalSplits(hooks, HOOK_EVENTS, events);
    }
  }

  lemma MarkerSetAgrees(cs: seq<Candidate>, hooks: Table, events: seq<string>, command: string)
    requires IsMarkerSet(hooks, events, command)
    requires Distinct(events) && forall e :: e in events ==> e in HOOK_EVENTS
    requires forall c :: c in cs ==> c.event in HOOK_EVENTS
    requires forall e :: e in HOOK_EVENTS ==> CommandsFor(cs, e) == EventCandidates(hooks, e)
    ensures forall c :: c in cs ==> c.command == command
  {
    forall c | c in cs
      ensures c.command == command
    {
      ListedCommand(cs, hooks, c);
      OnlyCommand(hooks, events, command, c.event);
    }
  }

  // A table has at most one reading as a historical set.
  lemma LegacyOfIs(hooks: Table, events: seq<string>, command: string)
    requires CountKey(Object(hooks), MARKER) == CandidateTotal(hooks, HOOK_EVENTS)
    requires events == LEGACY_EVENTS || events == HOOK_EVENTS
    requires IsMarkerSet(hooks, events, command)
    ensures LegacyOf(hooks) == MarkerSet(events, command)
  {
    assert EventCandidates(hooks, events[0]) == [command];
  }

  lemma LegacyFacts(hooks: Table)
    requires LegacyOf(hooks).MarkerSet?
    ensures var l := LegacyOf(hooks);
            && (l.events == LEGACY_EVENTS || l.events == HOOK_EVENTS)
            && IsMarkerSet(hooks, l.events, l.command)
  {
    hide IsMarkerSet, CandidateTotal, EventCandidates;
  }

  lemma MarkerSetListed(cs: seq<Candidate>, hooks: Table)
    requires LegacyOf(hooks).MarkerSet?
    requires |cs| == CandidateTotal(hooks, HOOK_EVENTS)
    requires forall c :: c in cs ==> c.event in HOOK_EVENTS
    requires forall e :: e in HOOK_EVENTS ==> CommandsFor(cs, e) == EventCandidates(hooks, e)
    ensures var l := LegacyOf(hooks);
            && (l.events == LEGACY_EVENTS || l.events == HOOK_EVENTS)
            && OnePerEvent(cs, l.events)
            && forall c :: c in cs ==> c.command == l.command
  {
    var l := LegacyOf(hooks);
    LegacyFacts(hooks);
    EventNames();
    hide LegacyOf, EventCandidates, CandidateTotal, CommandsFor, OnePerEvent;
    MarkerSetAgrees(cs, hooks, l.events, l.command);
    forall i | 0 <= i < |l.events|
      ensures |CommandsFor(cs, l.events[i])| == 1
    {
      assert l.events[i] in HOOK_EVENTS;
      assert EventCandidates(hooks, l.events[i]) == [l.command];
    }
  }

  lemma AcceptedIs(cs: seq<Candidate>, hooks: Table, events: seq<string>)
    requires CountKey(Object(hooks), MARKER) == CandidateTotal(hooks, HOOK_EVENTS) == |cs|
    requires forall e :: e in HOOK_EVENTS ==> CommandsFor(cs, e) == EventCandidates(hooks, e)
    requires events == LEGACY_EVENTS || events == HOOK_EVENTS
    requires OnePerEvent(cs, events) && cs != [] && forall c :: c in cs ==> c.command == cs[0].command
    ensures LegacyOf(hooks) == MarkerSet(events, cs[0].command)
  {
    EventNames();
    forall i | 0 <= i < |events|
      ensures CommandsFor(cs, events[i]) == EventCandidates(hooks, events[i])
    {
      assert events[i] in HOOK_EVENTS;
    }
    AcceptedSet(cs, hooks, events, cs[0].command);
    LegacyOfIs(hooks, events, cs[0].command);
  }

  // Keys that are not an accepted set are foreign.
  lemma UnlistedIsForeign(cs: seq<Candidate>, hooks: Table)
    requires CountKey(Object(hooks), MARKER) == CandidateTotal(hooks, HOOK_EVENTS) == |cs|
    requires forall c :: c in cs ==> c.event in HOOK_EVENTS
    requires forall e :: e in HOOK_EVENTS ==> CommandsFor(cs, e) == EventCandidates(hooks, e)
    requires cs != [] && cs[0] in cs
    requires || (!OnePerEvent(cs, LEGACY_EVENTS) && !OnePerEvent(cs, HOOK_EVENTS))
             || exists c :: c in cs && c.command != cs[0].command
    ensures LegacyOf(hooks) == Foreign
  {
    if LegacyOf(hooks).MarkerSet? {
      MarkerSetListed(cs, hooks);
    }
  }

  // Classifies the ownership keys of a hooks table.
  method ReadLegacy(hooks: Table) returns (l: Legacy)
    ensures l == LegacyOf(hooks)
  {
    var inventory := LegacyInventory(hooks);
    if inventory.None? { return Foreign; }
    var cs := inventory.value;
    if |cs| == 0 { return NoMarkers; }
    var events := AcceptedEvents(cs);
    if events.None? {
      UnlistedIsForeign(cs, hooks);
      return Foreign;
    }
    var agree := CommandsAgree(cs);
    if !agree {
      UnlistedIsForeign(cs, hooks);
      return Foreign;
    }
    AcceptedIs(cs, hooks, events.value);
    return MarkerSet(events.value, cs[0].command);
  }

  // The historical event set the candidates cover exactly, if any.
  method AcceptedEvents(cs: seq<Candidate>) returns (r: Option<seq<string>>)
    ensures r.Some? ==> (r.value == LEGACY_EVENTS || r.value == HOOK_EVENTS) && OnePerEvent(cs, r.value)
    ensures r.None? ==> !OnePerEvent(cs, LEGACY_EVENTS) && !OnePerEvent(cs, HOOK_EVENTS)
  {
    var accepted := Accept(cs, LEGACY_EVENTS);
    if accepted { return Some(LEGACY_EVENTS); }
    accepted := Accept(cs, HOOK_EVENTS);
    if accepted { return Some(HOOK_EVENTS); }
    return None;
  }

  method CommandsAgree(cs: seq<Candidate>) returns (ok: bool)
    requires cs != []
    ensures ok <==> forall c :: c in cs ==> c.command == cs[0].command
  {
    for i := 1 to |cs|
      invariant forall j :: 0 <= j < i ==> cs[j].command == cs[0].command
    {
      if cs[i].command != cs[0].command {
        assert cs[i] in cs;
        return false;
      }
    }
    return true;
  }

  class Settings {
    // The decoded document; a missing or null document is the empty object.
    var cfg: Table

    constructor (cfg: Table)
      ensures this.cfg == cfg
    {
      this.cfg := cfg;
    }

    // Adds the managed group to every managed event, migrating an exact
    // historical install in place. A refusal changes nothing.
    method MergeFreshInstall(desired: HookSpec, legacyOpt: string) returns (ok: bool)
      modifies this
      ensures ok <==> FreshOk(old(cfg), desired, legacyOpt)
      ensures ok ==> cfg == FreshConfig(old(cfg), desired)
      ensures !ok ==> cfg == old(cfg)
    {
      if "hooks" in cfg && !cfg["hooks"].Object? { return false; }
      var hooks := HooksOf(cfg);
      var legacy := ReadLegacy(hooks);
      if legacy.Foreign? { return false; }
      for i := 0 to |HOOK_EVENTS|
        invariant cfg == old(cfg)
        invariant forall j :: 0 <= j < i && HOOK_EVENTS[j] in hooks ==> EventFree(hooks[HOOK_EVENTS[j]], desired, legacyOpt)
      {
        var event := HOOK_EVENTS[i];
        if event in hooks {
          var scan := ScanEvent(hooks[event], desired);
          if scan.None? || scan.value.exactHandlers != 0 { return false; }
          if legacyOpt != "" {
            var legacyScan := ScanEvent(hooks[event], ShellSpec(legacyOpt));
            if legacyScan.None? || legacyScan.value.exactHandlers != 0 { return false; }
          }
        }
      }
      if legacy.MarkerSet? && !CommandAllowed(legacy.command, desired, legacyOpt) { return false; }
      EventNames();
      hooks := InstallGroups(hooks, legacy, desired, HOOK_EVENTS, legacyOpt);
      assert hooks == FreshHooks(HooksOf(cfg), desired);
      cfg := cfg["hooks" := Object(hooks)];
      return true;
    }

    // Whether the settings still hold exactly what an ownership record claims.
    method ValidateOwnedState(spec: HookSpec) returns (ok: bool)
      ensures ok <==> Owned(cfg, spec)
    {
      if "hooks" !in cfg || !cfg["hooks"].Object? { return false; }
      var hooks := cfg["hooks"].fields;
      assert cfg["hooks"] == Object(hooks);
      var inventory := LegacyInventory(hooks);
      if inventory.None? || inventory.value != [] {
        CandidatesAtMostMarkers(hooks);
        return false;
      }
      ok := ValidateEvents(hooks, HOOK_EVENTS, spec);
    }

    // Removes the managed groups of owned settings. A refusal changes nothing.
    method MergeOwnedUninstall(spec: HookSpec) returns (ok: bool)
      modifies this
      ensures ok <==> Owned(old(cfg), spec)
      ensures ok ==> cfg == OwnedUninstalled(old(cfg), spec)
      ensures !ok ==> cfg == old(cfg)
    {
      var owned := ValidateOwnedState(spec);
      if !owned { return false; }
      var hooks := HooksOf(cfg);
      EventNames();
      ghost var kept := OwnedKept(hooks, HOOK_EVENTS, spec);
      forall i | 0 <= i < |HOOK_EVENTS|
        ensures OwnedStep(hooks, HOOK_EVENTS[i], spec, kept[HOOK_EVENTS[i]])
      {
        assert EntriesOwned(hooks[HOOK_EVENTS[i]], spec);
      }
      hooks := RemoveGroups(hooks, HOOK_EVENTS, spec, kept);
      if hooks == map[] { cfg := cfg - {"hooks"}; } else { cfg := cfg["hooks" := Object(hooks)]; }
      return true;
    }

    // Removes an exact historical install.
    method MergeLegacyUninstall(events: seq<string>, command: string) returns (ok: bool)
      requires HooksReadable(cfg) && LegacyOf(HooksOf(cfg)) == MarkerSet(events, command)
      modifies this
      ensures ok && cfg == LegacyUninstalled(old(cfg), events, command)
    {
      var hooks := HooksOf(cfg);
      EventNames();
      ghost var kept := LegacyKept(hooks, events, command);
      forall i | 0 <= i < |events|
        ensures LegacyStep(hooks, events[i], command, kept[events[i]])
      {
        assert EventCandidates(hooks, events[i]) == [command];
      }
      hooks := RemoveLegacyGroups(hooks, events, command, kept);
      if hooks == map[] { cfg := cfg - {"hooks"}; } else { cfg := cfg["hooks" := Object(hooks)]; }
      return true;
    }
  }

  // The table with some of the managed events installed.
  ghost function PartlyInstalled(before: Table, legacy: Legacy, desired: HookSpec, done: set<string>): Table {
    map e | e in before.Keys + done ::
      if e in done then Array(InstalledEntries(before, legacy, e, desired)) else before[e]
  }

  lemma InstallOneMore(before: Table, legacy: Legacy, desired: HookSpec, done: set<string>, event: string)
    ensures PartlyInstalled(before, legacy, desired, done + {event}) ==
            PartlyInstalled(before, legacy, desired, done)[event := Array(InstalledEntries(before, legacy, event, desired))]
  {
  }

  method InstallGroups(before: Table, legacy: Legacy, desired: HookSpec, events: seq<string>, ghost legacyOpt: string)
    returns (hooks: Table)
    requires legacy == LegacyOf(before) && legacy != Foreign
    requires Distinct(events) && forall e :: e in events ==> e in HOOK_EVENTS
    requires forall e :: e in events && e in before ==> EventFree(before[e], desired, legacyOpt)
    ensures hooks == PartlyInstalled(before, legacy, desired, Names(events))
  {
    hooks := before;
    ghost var done := {};
    for i := 0 to |events|
      invariant done == Names(events[..i])
      invariant hooks == PartlyInstalled(before, legacy, desired, done)
    {
      var event := events[i];
      assert events[..i + 1] == events[..i] + [event];
      assert event !in done;
      InstallOneMore(before, legacy, desired, done, event);
      hooks := InstallGroup(hooks, before, legacy, desired, event, legacyOpt);
      done := done + {event};
    }
    assert events[..|events|] == events;
  }

  method ValidateEvents(hooks: Table, events: seq<string>, spec: HookSpec) returns (ok: bool)
    ensures ok <==> forall e :: e in events ==> e in hooks && EntriesOwned(hooks[e], spec)
  {
    for i := 0 to |events|
      invariant forall e :: e in events[..i] ==> e in hooks && EntriesOwned(hooks[e], spec)
    {
      assert events[..i + 1] == events[..i] + [events[i]];
      if events[i] !in hooks { return false; }
      ok := ValidateEvent(hooks[events[i]], spec);
      if !ok { return false; }
    }
    assert events[..|events|] == events;
    return true;
  }

  method ValidateEvent(entries: Json, spec: HookSpec) returns (ok: bool)
    ensures ok <==> EntriesOwned(entries, spec)
  {
    var scan := ScanEvent(entries, spec);
    return && scan.Some? && scan.value.legacyCommands == []
           && scan.value.exactGroups == 1 && scan.value.exactHandlers == 1;
  }

  method InstallGroup(hooks: Table, ghost before: Table, legacy: Legacy, desired: HookSpec,
                      event: string, ghost legacyOpt: string) returns (r: Table)
    requires legacy == LegacyOf(before) && legacy != Foreign && event in HOOK_EVENTS
    requires event in before ==> EventFree(before[event], desired, legacyOpt)
    requires event in hooks <==> event in before
    requires event in before ==> hooks[event] == before[event]
    ensures r == hooks[event := Array(InstalledEntries(before, legacy, event, desired))]
  {
    if legacy.MarkerSet? && event in legacy.events {
      MarkerSetPresent(before, event);
      assert EventCandidates(before, event) == [legacy.command];
      var migrated := MigrateGroups(hooks[event].items, desired);
      r := hooks[event := Array(migrated)];
    } else if event !in hooks {
      assert ItemsAt(before, event) + [ManagedGroup(desired)] == [ManagedGroup(desired)];
      r := hooks[event := Array([ManagedGroup(desired)])];
    } else {
      r := hooks[event := Array(hooks[event].items + [ManagedGroup(desired)])];
    }
  }

  // Replaces the one historical group of an event.
  method MigrateGroups(gs: seq<Json>, desired: HookSpec) returns (arr: seq<Json>)
    requires EntriesOk(Array(gs)) && |Candidates(gs)| == 1
    ensures arr == Migrated(gs, desired)
  {
    arr := gs;
    for i := 0 to |gs|
      invariant |arr| == |gs|
      invariant forall j :: 0 <= j < i ==> arr[j] == Migrated(gs, desired)[j]
      invariant forall j :: i <= j < |gs| ==> arr[j] == gs[j]
    {
      var group := gs[i].fields;
      assert GroupOk(gs[i]);
      if "hooks" in group && |group["hooks"].items| == 1 {
        var handler := group["hooks"].items[0];
        assert HandlerOk(group, 1, handler);
        if ExactLegacyHandler(handler.fields).Some? {
          arr := arr[i := ManagedGroup(desired)];
        }
      }
    }
  }

  // One more event pruned.
  lemma PruneOneMore(hooks: Table, kept: map<string, seq<Json>>, event: string, entries: seq<Json>)
    requires event in hooks && event !in kept
    ensures Pruned(hooks, kept[event := entries]) ==
            if entries == [] then Pruned(hooks, kept) - {event}
            else Pruned(hooks, kept)[event := Array(entries)]
  {
  }

  method RemoveGroups(before: Table, events: seq<string>, spec: HookSpec, ghost kept: map<string, seq<Json>>)
    returns (hooks: Table)
    requires Distinct(events) && kept.Keys == Names(events)
    requires OwnedSteps(before, events, spec, kept)
    ensures hooks == Pruned(before, kept)
  {
    hooks := before;
    ghost var done: map<string, seq<Json>> := map[];
    assert Pruned(before, done) == before;
    for i := 0 to |events|
      invariant forall e :: e in done <==> e in events[..i]
      invariant forall e :: e in done ==> done[e] == kept[e]
      invariant hooks == Pruned(before, done)
    {
      assert events[..i + 1] == events[..i] + [events[i]];
      hooks := RemoveGroupAt(hooks, before, done, events, i, spec, kept);
      done := done[events[i] := kept[events[i]]];
    }
    assert events[..|events|] == events;
    assert done == kept;
  }

  // An event holding one managed group, and what is left without it.
  predicate OwnedStep(hooks: Table, event: string, spec: HookSpec, entries: seq<Json>) {
    && ExactCount(ItemsAt(hooks, event), spec) == 1
    && entries == Without(ItemsAt(hooks, event), ManagedGroup(spec))
  }

  predicate OwnedSteps(hooks: Table, events: seq<string>, spec: HookSpec, kept: map<string, seq<Json>>)
    requires kept.Keys == Names(events)
  {
    forall i {:trigger OwnedStep(hooks, events[i], spec, kept[events[i]])} :: 0 <= i < |events| ==>
      OwnedStep(hooks, events[i], spec, kept[events[i]])
  }

  method RemoveGroupAt(hooks: Table, ghost before: Table, ghost done: map<string, seq<Json>>,
                       events: seq<string>, i: nat, spec: HookSpec, ghost kept: map<string, seq<Json>>)
    returns (r: Table)
    requires kept.Keys == Names(events) && i < |events|
    requires OwnedSteps(before, events, spec, kept)
    requires hooks == Pruned(before, done) && events[i] !in done
    ensures r == Pruned(before, done[events[i] := kept[events[i]]])
  {
    assert OwnedStep(before, events[i], spec, kept[events[i]]);
    var entries := RemoveManaged(ItemsAt(hooks, events[i]), spec);
    PruneOneMore(before, done, events[i], entries);
    r := if entries == [] then hooks - {events[i]} else hooks[events[i] := Array(entries)];
  }

  // Drops the one managed group of an event; a second would be a conflict.
  method RemoveManaged(gs: seq<Json>, spec: HookSpec) returns (kept: seq<Json>)
    requires ExactCount(gs, spec) == 1
    ensures kept == Without(gs, ManagedGroup(spec))
  {
    kept := [];
    var removed := false;
    for i := 0 to |gs|
      invariant kept == Without(gs[..i], ManagedGroup(spec))
      invariant removed <==> ExactCount(gs[..i], spec) == 1
    {
      assert gs[..i + 1][..i] == gs[..i];
      ExactCountGrows(gs, i, spec);
      ExactCountGrows(gs, i + 1, spec);
      if gs[i] == ManagedGroup(spec) {
        assert !removed;
        removed := true;
      } else {
        kept := kept + [gs[i]];
      }
    }
    assert gs[..|gs|] == gs;
  }

  lemma {:induction false} ExactCountGrows(gs: seq<Json>, n: nat, spec: HookSpec)
    requires n <= |gs|
    ensures ExactCount(gs[..n], spec) <= ExactCount(gs, spec)
    decreases |gs|
  {
    if n < |gs| {
      var init := gs[..|gs| - 1];
      ExactCountGrows(init, n, spec);
      assert init[..n] == gs[..n];
    } else {
      assert gs[..n] == gs;
    }
  }

  method RemoveLegacyGroups(before: Table, events: seq<string>, command: string, ghost kept: map<string, seq<Json>>)
    returns (hooks: Table)
    requires Distinct(events) && kept.Keys == Names(events)
    requires LegacySteps(before, events, command, kept)
    ensures hooks == Pruned(before, kept)
  {
    hooks := before;
    ghost var done: map<string, seq<Json>> := map[];
    assert Pruned(before, done) == before;
    for i := 0 to |events|
      invariant forall e :: e in done <==> e in events[..i]
      invariant forall e :: e in done ==> done[e] == kept[e]
      invariant hooks == Pruned(before, done)
    {
      assert events[..i + 1] == events[..i] + [events[i]];
      hooks := RemoveLegacyAt(hooks, before, done, events, i, command, kept);
      done := done[events[i] := kept[events[i]]];
    }
    assert events[..|events|] == events;
    assert done == kept;
  }

  // An event holding one historical group, and what is left without it.
  predicate LegacyStep(hooks: Table, event: string, command: string, entries: seq<Json>) {
    && Candidates(ItemsAt(hooks, event)) == [command]
    && entries == WithoutLegacy(ItemsAt(hooks, event), command)
  }

  predicate LegacySteps(hooks: Table, events: seq<string>, command: string, kept: map<string, seq<Json>>)
    requires kept.Keys == Names(events)
  {
    forall i {:trigger LegacyStep(hooks, events[i], command, kept[events[i]])} :: 0 <= i < |events| ==>
      LegacyStep(hooks, events[i], command, kept[events[i]])
  }

  method RemoveLegacyAt(hooks: Table, ghost before: Table, ghost done: map<string, seq<Json>>,
                        events: seq<string>, i: nat, command: string, ghost kept: map<string, seq<Json>>)
    returns (r: Table)
    requires kept.Keys == Names(events) && i < |events|
    requires LegacySteps(before, events, command, kept)
    requires hooks == Pruned(before, done) && events[i] !in done
    ensures r == Pruned(before, done[events[i] := kept[events[i]]])
  {
    assert LegacyStep(before, events[i], command, kept[events[i]]);
    var entries := RemoveLegacy(ItemsAt(hooks, events[i]), command);
    PruneOneMore(before, done, events[i], entries);
    r := if entries == [] then hooks - {events[i]} else hooks[events[i] := Array(entries)];
  }

  // Drops the one historical group of an event; a second would be a conflict.
  method RemoveLegacy(gs: seq<Json>, command: string) returns (kept: seq<Json>)
    requires Candidates(gs) == [command]
    ensures kept == WithoutLegacy(gs, command)
  {
    kept := [];
    var removed := false;
    for i := 0 to |gs|
      invariant kept == WithoutLegacy(gs[..i], command)
      invariant Candidates(gs[..i]) == if removed then [command] else []
    {
      assert gs[..i + 1][..i] == gs[..i];
      CandidatesGrow(gs, i + 1);
      var c := CandidateCommand(gs[i]);
      if c.Some? {
        var found := Candidates(gs[..i + 1]);
        assert found == Candidates(gs[..i]) + [c.value] && found <= [command];
        assert |found| == 1 && found[0] == command;
      }
      if c == Some(command) {
        assert !removed;
        removed := true;
      } else {
        kept := kept + [gs[i]];
      }
    }
    assert gs[..|gs|] == gs;
    assert removed;
  }

  lemma {:induction false} CandidatesGrow(gs: seq<Json>, n: nat)
    requires n <= |gs|
    ensures Candidates(gs[..n]) <= Candidates(gs)
    decreases |gs|
  {
    if n < |gs| {
      var init := gs[..|gs| - 1];
      CandidatesGrow(init, n);
      assert init[..n] == gs[..n];
    } else {
      assert gs[..n] == gs;
    }
  }
}
