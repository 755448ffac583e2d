// Laws of the settings merges: an install establishes ownership and keeps every
// other group; an uninstall undoes it.
module ClaudeMergeProofs {
  import opened Common
  import opened Json
  import opened ClaudeMerge

  // ----- One group -----------------------------------------------------------

  lemma HandlerCarriesNoMarker(spec: HookSpec)
    ensures CountKey(HandlerObject(spec), MARKER) == 0
  {
    var h := HandlerObject(spec);
    forall k | k in h.fields
      ensures CountField(h, k, MARKER) == 0
    {
      assert k == "type" || k == "command" || k == "args";
      if k == "args" {
        CountItemsZero(h.fields[k], |h.fields[k].items|, MARKER);
      }
    }
    CountFieldsZero(h, h.fields.Keys, MARKER);
  }

  // The group the installer writes: acceptable to the scan, free of the
  // ownership key, and running the command exactly once.
  lemma ManagedGroupFacts(spec: HookSpec)
    ensures CountKey(ManagedGroup(spec), MARKER) == 0
    ensures GroupOk(ManagedGroup(spec))
    ensures CandidateCommand(ManagedGroup(spec)) == None
    ensures GroupHits(ManagedGroup(spec), spec) == 1
  {
    var g := ManagedGroup(spec);
    var hs := g.fields["hooks"];
    HandlerCarriesNoMarker(spec);
    assert MARKER !in hs.items[0].fields;
    assert CountItems(hs, 1, MARKER) == CountItems(hs, 0, MARKER) + CountKey(hs.items[0], MARKER);
    assert CountKey(hs, MARKER) == 0;
    forall k | k in g.fields
      ensures CountField(g, k, MARKER) == 0
    {
      assert k == "matcher" || k == "hooks";
    }
    CountFieldsZero(g, g.fields.Keys, MARKER);
    assert hs.items[..0] == [];
    assert SameExecutionIdentity(hs.items[0].fields, spec);
    assert HandlerHit(hs.items[0], spec) == 1;
    assert HandlerHits(hs.items, spec) == HandlerHits(hs.items[..0], spec) + HandlerHit(hs.items[0], spec);
  }

  // A historical group carries the ownership key exactly once, and its handler
  // never counts as a copy of another command.
  lemma CandidateFacts(g: Json, spec: HookSpec)
    requires CandidateCommand(g).Some?
    ensures CountKey(g, MARKER) == 1
    ensures GroupHits(g, spec) == 0
    ensures g != ManagedGroup(spec)
  {
    var hs := g.fields["hooks"];
    var h := hs.items[0];
    assert h.fields.Keys == {"type", "command", MARKER};
    CountFieldsRemove(h, h.fields.Keys, MARKER, MARKER);
    CountFieldsZero(h, h.fields.Keys - {MARKER}, MARKER);
    assert CountKey(h, MARKER) == 1;
    assert CountItems(hs, 1, MARKER) == CountItems(hs, 0, MARKER) + CountKey(h, MARKER);
    assert CountKey(hs, MARKER) == 1;
    CountFieldsRemove(g, g.fields.Keys, "hooks", MARKER);
    CountFieldsZero(g, g.fields.Keys - {"hooks"}, MARKER);
    assert hs.items[..0] == [];
    ManagedGroupFacts(spec);
  }

  // ----- One event -----------------------------------------------------------

  lemma ScanAppend(gs: seq<Json>, g: Json, spec: HookSpec)
    ensures Hits(gs + [g], spec) == Hits(gs, spec) + GroupHits(g, spec)
    ensures ExactCount(gs + [g], spec) == ExactCount(gs, spec) + (if g == ManagedGroup(spec) then 1 else 0)
    ensures Candidates(gs + [g]) ==
            Candidates(gs) + (if CandidateCommand(g).Some? then [CandidateCommand(g).value] else [])
    ensures Without(gs + [g], ManagedGroup(spec)) ==
            Without(gs, ManagedGroup(spec)) + (if g == ManagedGroup(spec) then [] else [g])
  {
    assert (gs + [g])[..|gs|] == gs;
  }

  lemma {:induction false} ExactIsAHit(gs: seq<Json>, spec: HookSpec)
    ensures ExactCount(gs, spec) <= Hits(gs, spec)
  {
    if gs != [] {
      ExactIsAHit(gs[..|gs| - 1], spec);
      ManagedGroupFacts(spec);
    }
  }

  lemma {:induction false} WithoutAbsent(gs: seq<Json>, spec: HookSpec)
    requires ExactCount(gs, spec) == 0
    ensures Without(gs, ManagedGroup(spec)) == gs
  {
    if gs != [] {
      WithoutAbsent(gs[..|gs| - 1], spec);
      assert gs == gs[..|gs| - 1] + [gs[|gs| - 1]];
    }
  }

  // Migrating an event turns each historical group into one exact group.
  lemma {:induction false} MigratedFacts(gs: seq<Json>, spec: HookSpec)
    ensures Hits(Migrated(gs, spec), spec) == Hits(gs, spec) + |Candidates(gs)|
    ensures ExactCount(Migrated(gs, spec), spec) == ExactCount(gs, spec) + |Candidates(gs)|
    ensures Candidates(Migrated(gs, spec)) == []
    ensures CountItems(Array(gs), |gs|, MARKER) ==
            CountItems(Array(Migrated(gs, spec)), |gs|, MARKER) + |Candidates(gs)|
  {
    if gs != [] {
      var init, last := gs[..|gs| - 1], gs[|gs| - 1];
      MigratedFacts(init, spec);
      ManagedGroupFacts(spec);
      var m := Migrated(gs, spec);
      assert m[..|m| - 1] == Migrated(init, spec);
      CountItemsPrefix(gs, MARKER);
      CountItemsPrefix(m, MARKER);
      if CandidateCommand(last).Some? {
        CandidateFacts(last, spec);
      }
    }
  }

  lemma {:induction false} CountItemsAgree(a: seq<Json>, b: seq<Json>, n: nat, key: string)
    requires n <= |a| && n <= |b| && a[..n] == b[..n]
    ensures CountItems(Array(a), n, key) == CountItems(Array(b), n, key)
  {
    if n > 0 {
      assert a[n - 1] == a[..n][n - 1] == b[..n][n - 1] == b[n - 1];
      assert a[..n - 1] == a[..n][..n - 1] == b[..n][..n - 1] == b[..n - 1];
      CountItemsAgree(a, b, n - 1, key);
    }
  }

  lemma CountItemsPrefix(gs: seq<Json>, key: string)
    requires gs != []
    ensures CountItems(Array(gs), |gs|, key) ==
            CountItems(Array(gs[..|gs| - 1]), |gs| - 1, key) + CountKey(gs[|gs| - 1], key)
  {
    CountItemsAgree(gs, gs[..|gs| - 1], |gs| - 1, key);
  }

  // Appending the managed group adds no ownership key.
  lemma AppendCount(gs: seq<Json>, spec: HookSpec)
    ensures CountKey(Array(gs + [ManagedGroup(spec)]), MARKER) == CountKey(Array(gs), MARKER)
  {
    var all := gs + [ManagedGroup(spec)];
    CountItemsPrefix(all, MARKER);
    assert all[..|all| - 1] == gs;
    ManagedGroupFacts(spec);
  }

  // ----- The whole table -----------------------------------------------------

  // What one event contributes to the count of ownership keys.
  ghost function EventCount(hooks: Table, event: string): nat {
    if event in hooks then CountField(Object(hooks), event, MARKER) else 0
  }

  lemma CandidatesCarryMarkers(hooks: Table, event: string)
    ensures |EventCandidates(hooks, event)| <= EventCount(hooks, event)
  {
    if event in hooks && hooks[event].Array? {
      MigratedFacts(hooks[event].items, ShellSpec(""));
      var gs := hooks[event].items;
      assert hooks[event] == Array(gs);
      assert CountKey(hooks[event], MARKER) == CountItems(Array(gs), |gs|, MARKER);
    }
  }

  lemma EventNames()
    ensures Distinct(HOOK_EVENTS) && Distinct(LEGACY_EVENTS)
    ensures forall e :: e in LEGACY_EVENTS ==> e in HOOK_EVENTS
    ensures MARKER !in HOOK_EVENTS
  {
    assert forall i :: 0 <= i < |HOOK_EVENTS| ==> |HOOK_EVENTS[i]| != |MARKER|;
    assert HOOK_EVENTS[0][4] == 'C' && HOOK_EVENTS[1][4] == 'T';
    assert HOOK_EVENTS[2][3] == 'C' && HOOK_EVENTS[3][3] == 'T';
    assert HOOK_EVENTS[4][7] == 'E' && HOOK_EVENTS[5][7] == 'S';
    assert forall i :: 0 <= i < 4 ==> LEGACY_EVENTS[i] == HOOK_EVENTS[i];
    assert forall i :: 4 <= i < 7 ==> LEGACY_EVENTS[i] == HOOK_EVENTS[i + 1];
  }

  function Names(events: seq<string>): set<string> {
    set e | e in events
  }

  // The count splits into some distinct events and everything else.
  lemma {:induction false} PeelEvents(hooks: Table, events: seq<string>)
    requires Distinct(events)
    ensures CandidateTotal(hooks, events) + CountFields(Object(hooks), hooks.Keys - Names(events), MARKER)
            <= CountKey(Object(hooks), MARKER)
    ensures CandidateTotal(hooks, events) + CountFields(Object(hooks), hooks.Keys - Names(events), MARKER)
            == CountKey(Object(hooks), MARKER)
            ==> forall e :: e in events ==> EventCount(hooks, e) == |EventCandidates(hooks, e)|
  {
    if events == [] {
      assert hooks.Keys - Names(events) == hooks.Keys;
    } else {
      var init, e := events[..|events| - 1], events[|events| - 1];
      PeelEvents(hooks, init);
      CandidatesCarryMarkers(hooks, e);
      assert events == init + [e];
      var rest := hooks.Keys - Names(init);
      assert hooks.Keys - Names(events) == rest - {e};
      if e in hooks {
        assert e !in init;
        CountFieldsRemove(Object(hooks), rest, e, MARKER);
      } else {
        assert rest - {e} == rest;
      }
    }
  }

  lemma CandidatesAtMostMarkers(hooks: Table)
    ensures CandidateTotal(hooks, HOOK_EVENTS) <= CountKey(Object(hooks), MARKER)
  {
    EventNames();
    PeelEvents(hooks, HOOK_EVENTS);
  }

  // When the inventory adds up, every ownership key sits on a historical group
  // of a managed event.
  lemma InventoryExact(hooks: Table)
    requires CountKey(Object(hooks), MARKER) == CandidateTotal(hooks, HOOK_EVENTS)
    ensures forall e :: e in HOOK_EVENTS ==> EventCount(hooks, e) == |EventCandidates(hooks, e)|
    ensures forall e :: e in hooks && e !in HOOK_EVENTS ==> EventCount(hooks, e) == 0
  {
    EventNames();
    PeelEvents(hooks, HOOK_EVENTS);
    var others := hooks.Keys - Names(HOOK_EVENTS);
    CountFieldsZero(Object(hooks), others, MARKER);
    forall e | e in hooks && e !in HOOK_EVENTS
      ensures EventCount(hooks, e) == 0
    {
      assert e in others;
    }
  }

  lemma {:induction false} TotalZero(hooks: Table, events: seq<string>)
    ensures CandidateTotal(hooks, events) == 0 <==> forall e :: e in events ==> EventCandidates(hooks, e) == []
  {
    if events != [] {
      TotalZero(hooks, events[..|events| - 1]);
      assert events == events[..|events| - 1] + [events[|events| - 1]];
    }
  }

  // ----- Installing ----------------------------------------------------------

  // Appending the managed group to entries without the command or an
  // ownership key gives owned entries.
  lemma AppendOwned(gs: seq<Json>, spec: HookSpec)
    requires EntriesOk(Array(gs)) && Hits(gs, spec) == 0 && CountKey(Array(gs), MARKER) == 0
    ensures EntriesOwned(Array(gs + [ManagedGroup(spec)]), spec)
    ensures CountKey(Array(gs + [ManagedGroup(spec)]), MARKER) == 0
  {
    ManagedGroupFacts(spec);
    ExactIsAHit(gs, spec);
    ScanAppend(gs, ManagedGroup(spec), spec);
    AppendCount(gs, spec);
    MigratedFacts(gs, spec);
  }

  // Migrating entries that hold one historical group does the same.
  lemma MigratedOwned(gs: seq<Json>, spec: HookSpec)
    requires EntriesOk(Array(gs)) && Hits(gs, spec) == 0
    requires |Candidates(gs)| == 1 && CountKey(Array(gs), MARKER) == 1
    ensures EntriesOwned(Array(Migrated(gs, spec)), spec)
    ensures CountKey(Array(Migrated(gs, spec)), MARKER) == 0
  {
    ManagedGroupFacts(spec);
    ExactIsAHit(gs, spec);
    MigratedFacts(gs, spec);
  }

  lemma EventMarkers(hooks: Table, event: string)
    requires event in HOOK_EVENTS && LegacyOf(hooks) != Foreign
    ensures event in hooks && hooks[event].Array? ==>
              CountKey(hooks[event], MARKER) == |Candidates(hooks[event].items)|
  {
    InventoryExact(hooks);
    EventNames();
  }

  // Every event the install touches ends with one exact group, one handler
  // running the command, and no historical group.
  lemma InstalledEventOwned(hooks: Table, desired: HookSpec, legacyOpt: string, event: string)
    requires event in HOOK_EVENTS && LegacyOf(hooks) != Foreign
    requires event in hooks ==> EventFree(hooks[event], desired, legacyOpt)
    ensures EntriesOwned(Array(InstalledEntries(hooks, LegacyOf(hooks), event, desired)), desired)
    ensures CountKey(Array(InstalledEntries(hooks, LegacyOf(hooks), event, desired)), MARKER) == 0
  {
    var gs := ItemsAt(hooks, event);
    EventMarkers(hooks, event);
    if event in hooks {
      assert hooks[event] == Array(gs);
    }
    if LegacyOf(hooks).MarkerSet? && event in LegacyOf(hooks).events {
      assert EventCandidates(hooks, event) == [LegacyOf(hooks).command];
      MigratedOwned(gs, desired);
    } else {
      NoCandidatesElsewhere(hooks, event);
      AppendOwned(gs, desired);
    }
  }

  lemma {:induction false} TotalSplits(hooks: Table, events: seq<string>, some: seq<string>)
    requires Distinct(events) && Distinct(some)
    requires forall e :: e in some ==> e in events && |EventCandidates(hooks, e)| == 1
    ensures CandidateTotal(hooks, events) >= |some|
    ensures CandidateTotal(hooks, events) == |some| ==>
              forall e :: e in events && e !in some ==> EventCandidates(hooks, e) == []
  {
    assert |some| > 0 ==> some[0] in events;
    if events == [] {
    } else {
      var init, e := events[..|events| - 1], events[|events| - 1];
      assert events == init + [e];
      if e in some {
        var i :| 0 <= i < |some| && some[i] == e;
        var rest := some[..i] + some[i + 1..];
        assert forall x :: x in some <==> x in rest || x == e;
        assert e !in rest;
        TotalSplits(hooks, init, rest);
      } else {
        TotalSplits(hooks, init, some);
      }
    }
  }

  // Outside an accepted historical set no event holds a historical group.
  lemma NoCandidatesElsewhere(hooks: Table, event: string)
    requires event in HOOK_EVENTS && LegacyOf(hooks) != Foreign
    requires LegacyOf(hooks).MarkerSet? ==> event !in LegacyOf(hooks).events
    ensures EventCandidates(hooks, event) == []
  {
    EventNames();
    match LegacyOf(hooks)
    case NoMarkers => TotalZero(hooks, HOOK_EVENTS);
    case MarkerSet(events, command) =>
      assert forall e :: e in events ==> EventCandidates(hooks, e) == [command];
      TotalSplits(hooks, HOOK_EVENTS, events);
  }

  lemma FreshEntry(hooks: Table, desired: HookSpec, event: string)
    requires event in HOOK_EVENTS
    ensures event in FreshHooks(hooks, desired)
    ensures FreshHooks(hooks, desired)[event] == Array(InstalledEntries(hooks, LegacyOf(hooks), event, desired))
  {
  }

  lemma UnmanagedFieldsUnmarked(hooks: Table, k: string)
    requires LegacyOf(hooks) != Foreign && k in hooks && k !in HOOK_EVENTS
    ensures CountField(Object(hooks), k, MARKER) == 0
  {
    InventoryExact(hooks);
  }

  lemma FreshHooksUnmarked(hooks: Table, desired: HookSpec, legacyOpt: string)
    requires LegacyOf(hooks) != Foreign
    requires forall e :: e in HOOK_EVENTS && e in hooks ==> EventFree(hooks[e], desired, legacyOpt)
    ensures CountKey(Object(FreshHooks(hooks, desired)), MARKER) == 0
  {
    var after := FreshHooks(hooks, desired);
    EventNames();
    forall k | k in after
      ensures CountField(Object(after), k, MARKER) == 0
    {
      if k in HOOK_EVENTS {
        FreshEntry(hooks, desired, k);
        InstalledEventOwned(hooks, desired, legacyOpt, k);
      } else {
        UnmanagedFieldsUnmarked(hooks, k);
      }
    }
    CountFieldsZero(Object(after), after.Keys, MARKER);
  }

  // A successful install establishes the state its ownership record vouches
  // for: whatever historical groups there were, none is left.
  lemma InstallEstablishesOwnership(cfg: Table, desired: HookSpec, legacyOpt: string)
    requires FreshOk(cfg, desired, legacyOpt)
    ensures Owned(FreshConfig(cfg, desired), desired)
  {
    var hooks := HooksOf(cfg);
    var after := FreshHooks(hooks, desired);
    FreshHooksUnmarked(hooks, desired, legacyOpt);
    forall e | e in HOOK_EVENTS
      ensures e in after && EntriesOwned(after[e], desired)
    {
      FreshEntry(hooks, desired, e);
      InstalledEventOwned(hooks, desired, legacyOpt, e);
    }
    assert FreshConfig(cfg, desired)["hooks"] == Object(after);
  }

  // The groups of `after` other than the managed group are those of `before`
  // other than the historical ones, in the same order.
  function Others(gs: seq<Json>, spec: HookSpec): seq<Json> {
    if gs == [] then []
    else
      var g := gs[|gs| - 1];
      Others(gs[..|gs| - 1], spec) +
      (if g == ManagedGroup(spec) || CandidateCommand(g).Some? then [] else [g])
  }

  lemma {:induction false} MigratedKeepsOthers(gs: seq<Json>, spec: HookSpec)
    ensures Others(Migrated(gs, spec), spec) == Others(gs, spec)
  {
    if gs != [] {
      MigratedKeepsOthers(gs[..|gs| - 1], spec);
      var m := Migrated(gs, spec);
      assert m[..|m| - 1] == Migrated(gs[..|gs| - 1], spec);
    }
  }

  lemma InstalledKeepsOthers(hooks: Table, legacy: Legacy, desired: HookSpec, event: string)
    ensures Others(InstalledEntries(hooks, legacy, event, desired), desired) == Others(ItemsAt(hooks, event), desired)
  {
    var gs := ItemsAt(hooks, event);
    MigratedKeepsOthers(gs, desired);
    assert (gs + [ManagedGroup(desired)])[..|gs|] == gs;
  }

  lemma FreshEntryKeepsOthers(hooks: Table, desired: HookSpec, event: string)
    ensures Others(ItemsAt(FreshHooks(hooks, desired), event), desired) == Others(ItemsAt(hooks, event), desired)
  {
    var after := FreshHooks(hooks, desired);
    if event in HOOK_EVENTS {
      FreshEntry(hooks, desired, event);
      InstalledKeepsOthers(hooks, LegacyOf(hooks), desired, event);
    } else {
      assert ItemsAt(after, event) == ItemsAt(hooks, event);
    }
  }

  // An install keeps every settings key and every hook it does not manage, and
  // within a managed event keeps every other group in order.
  lemma InstallPreservesOthers(cfg: Table, desired: HookSpec, legacyOpt: string, event: string)
    requires FreshOk(cfg, desired, legacyOpt)
    ensures FreshConfig(cfg, desired) - {"hooks"} == cfg - {"hooks"}
    ensures var before, after := HooksOf(cfg), HooksOf(FreshConfig(cfg, desired));
            && (event !in HOOK_EVENTS ==> (event in after <==> event in before))
            && (event !in HOOK_EVENTS && event in before ==> after[event] == before[event])
            && Others(ItemsAt(after, event), desired) == Others(ItemsAt(before, event), desired)
  {
    FreshEntryKeepsOthers(HooksOf(cfg), desired, event);
  }

  // ----- Undoing -------------------------------------------------------------

  // An event after an uninstall of a fresh install is the event before it.
  lemma FreshEventUndone(hooks: Table, desired: HookSpec, legacyOpt: string, event: string)
    requires event in HOOK_EVENTS && LegacyOf(hooks) == NoMarkers
    requires event in hooks ==> EventFree(hooks[event], desired, legacyOpt)
    ensures Without(ItemsAt(FreshHooks(hooks, desired), event), ManagedGroup(desired)) == ItemsAt(hooks, event)
  {
    var gs := ItemsAt(hooks, event);
    assert ItemsAt(FreshHooks(hooks, desired), event) == gs + [ManagedGroup(desired)];
    ScanAppend(gs, ManagedGroup(desired), desired);
    ExactIsAHit(gs, desired);
    WithoutAbsent(gs, desired);
  }

  // Pruning an installed table back to the entries of `hooks` normalizes it.
  lemma PrunedToNormal(hooks: Table, after: Table, kept: map<string, seq<Json>>)
    requires kept.Keys == Names(HOOK_EVENTS)
    requires forall e :: e in HOOK_EVENTS ==> e in after && kept[e] == ItemsAt(hooks, e)
    requires forall e :: e in HOOK_EVENTS && e in hooks ==> hooks[e].Array?
    requires forall e :: e !in HOOK_EVENTS ==> (e in after <==> e in hooks)
    requires forall e :: e !in HOOK_EVENTS && e in hooks ==> after[e] == hooks[e]
    ensures Pruned(after, kept) == NormalHooks(hooks)
  {
    var p, n := Pruned(after, kept), NormalHooks(hooks);
    forall e
      ensures e in p <==> e in n
      ensures e in p ==> p[e] == n[e]
    {
      if e in HOOK_EVENTS {
        assert e in kept;
        if e in hooks {
          assert hooks[e] == Array(kept[e]);
        }
      }
    }
  }

  lemma FreshTableUndone(hooks: Table, desired: HookSpec, legacyOpt: string)
    requires LegacyOf(hooks) == NoMarkers
    requires forall e :: e in HOOK_EVENTS && e in hooks ==> EventFree(hooks[e], desired, legacyOpt)
    ensures var after := FreshHooks(hooks, desired);
            Pruned(after, OwnedKept(after, HOOK_EVENTS, desired)) == NormalHooks(hooks)
  {
    var after := FreshHooks(hooks, desired);
    var kept := OwnedKept(after, HOOK_EVENTS, desired);
    forall e | e in HOOK_EVENTS
      ensures e in after && kept[e] == ItemsAt(hooks, e)
    {
      FreshEntry(hooks, desired, e);
      FreshEventUndone(hooks, desired, legacyOpt, e);
    }
    PrunedToNormal(hooks, after, kept);
  }

  // Uninstalling from settings whose hooks table is `after`.
  lemma UninstalledFrom(cfg: Table, after: Table, hooks: Table, desired: HookSpec)
    requires Pruned(after, OwnedKept(after, HOOK_EVENTS, desired)) == hooks
    ensures OwnedUninstalled(cfg["hooks" := Object(after)], desired) == WithHooks(cfg, hooks)
  {
    WithHooksIgnoresOldHooks(cfg, after, hooks);
  }

  // Uninstalling a fresh install gives the original settings back, except that
  // managed events left without groups, and then an empty hooks table, go.
  lemma UninstallUndoesFreshInstall(cfg: Table, desired: HookSpec, legacyOpt: string)
    requires FreshOk(cfg, desired, legacyOpt) && LegacyOf(HooksOf(cfg)) == NoMarkers
    ensures OwnedUninstalled(FreshConfig(cfg, desired), desired) == Normalized(cfg)
  {
    var hooks := HooksOf(cfg);
    FreshTableUndone(hooks, desired, legacyOpt);
    UninstalledFrom(cfg, FreshHooks(hooks, desired), NormalHooks(hooks), desired);
  }

  lemma WithHooksIgnoresOldHooks(cfg: Table, old_: Table, hooks: Table)
    ensures WithHooks(cfg["hooks" := Object(old_)], hooks) == WithHooks(cfg, hooks)
  {
    assert cfg["hooks" := Object(old_)] - {"hooks"} == cfg - {"hooks"};
  }

  lemma {:induction false} MigratedUndone(gs: seq<Json>, desired: HookSpec, command: string)
    requires ExactCount(gs, desired) == 0
    requires forall i :: 0 <= i < |Candidates(gs)| ==> Candidates(gs)[i] == command
    ensures Without(Migrated(gs, desired), ManagedGroup(desired)) == WithoutLegacy(gs, command)
  {
    if gs != [] {
      var init, g := gs[..|gs| - 1], gs[|gs| - 1];
      var m := Migrated(gs, desired);
      assert m[..|m| - 1] == Migrated(init, desired);
      var c := Candidates(init);
      assert c <= Candidates(gs);
      assert forall i :: 0 <= i < |c| ==> c[i] == Candidates(gs)[i];
      if CandidateCommand(g).Some? {
        assert Candidates(gs)[|Candidates(gs)| - 1] == CandidateCommand(g).value;
      }
      MigratedUndone(init, desired, command);
    }
  }

  // An event after migrating and uninstalling.
  lemma MigratedEventUndone(hooks: Table, desired: HookSpec, legacyOpt: string, event: string)
    requires event in HOOK_EVENTS && LegacyOf(hooks).MarkerSet?
    requires event in hooks ==> EventFree(hooks[event], desired, legacyOpt)
    ensures var l := LegacyOf(hooks);
            Without(InstalledEntries(hooks, l, event, desired), ManagedGroup(desired)) ==
            if event in l.events then WithoutLegacy(ItemsAt(hooks, event), l.command) else ItemsAt(hooks, event)
  {
    var l := LegacyOf(hooks);
    var gs := ItemsAt(hooks, event);
    ExactIsAHit(gs, desired);
    if event in l.events {
      assert EventCandidates(hooks, event) == [l.command];
      MigratedUndone(gs, desired, l.command);
    } else {
      ScanAppend(gs, ManagedGroup(desired), desired);
      WithoutAbsent(gs, desired);
    }
  }

  // Every event of an accepted historical set is present, as an array.
  lemma MarkerSetPresent(hooks: Table, event: string)
    requires LegacyOf(hooks).MarkerSet? && event in LegacyOf(hooks).events
    ensures event in hooks && hooks[event].Array? && event in HOOK_EVENTS
  {
    EventNames();
    assert EventCandidates(hooks, event) == [LegacyOf(hooks).command];
  }

  // What pruning the historical groups leaves at one event.
  lemma LegacyPrunedAt(hooks: Table, event: string)
    requires event in HOOK_EVENTS && LegacyOf(hooks).MarkerSet?
    requires event in hooks ==> hooks[event].Array?
    ensures var l := LegacyOf(hooks);
            var mid := Pruned(hooks, LegacyKept(hooks, l.events, l.command));
            && ItemsAt(mid, event) ==
               (if event in l.events then WithoutLegacy(ItemsAt(hooks, event), l.command) else ItemsAt(hooks, event))
            && (event in mid ==> mid[event].Array?)
  {
    if event in LegacyOf(hooks).events { MarkerSetPresent(hooks, event); }
  }

  lemma MigratedEntryUndone(hooks: Table, desired: HookSpec, legacyOpt: string, event: string)
    requires event in HOOK_EVENTS && LegacyOf(hooks).MarkerSet?
    requires event in hooks ==> EventFree(hooks[event], desired, legacyOpt)
    ensures var l := LegacyOf(hooks);
            var mid := Pruned(hooks, LegacyKept(hooks, l.events, l.command));
            && event in FreshHooks(hooks, desired)
            && OwnedKept(FreshHooks(hooks, desired), HOOK_EVENTS, desired)[event] == ItemsAt(mid, event)
            && (event in mid ==> mid[event].Array?)
  {
    FreshEntry(hooks, desired, event);
    MigratedEventUndone(hooks, desired, legacyOpt, event);
    LegacyPrunedAt(hooks, event);
  }

  lemma UnmanagedEntryKept(hooks: Table, desired: HookSpec, event: string)
    requires event !in HOOK_EVENTS && LegacyOf(hooks).MarkerSet?
    ensures var l := LegacyOf(hooks);
            var mid := Pruned(hooks, LegacyKept(hooks, l.events, l.command));
            var after := FreshHooks(hooks, desired);
            && (event in after <==> event in mid)
            && (event in mid ==> after[event] == mid[event])
  {
    if event in LegacyOf(hooks).events { MarkerSetPresent(hooks, event); }
  }

  lemma MigratedTableUndone(hooks: Table, desired: HookSpec, legacyOpt: string)
    requires LegacyOf(hooks).MarkerSet?
    requires forall e :: e in HOOK_EVENTS && e in hooks ==> EventFree(hooks[e], desired, legacyOpt)
    ensures var l := LegacyOf(hooks);
            var after := FreshHooks(hooks, desired);
            Pruned(after, OwnedKept(after, HOOK_EVENTS, desired)) ==
            NormalHooks(Pruned(hooks, LegacyKept(hooks, l.events, l.command)))
  {
    var l := LegacyOf(hooks);
    var after := FreshHooks(hooks, desired);
    var kept := OwnedKept(after, HOOK_EVENTS, desired);
    var mid := Pruned(hooks, LegacyKept(hooks, l.events, l.command));
    forall e | e in HOOK_EVENTS
      ensures e in after && kept[e] == ItemsAt(mid, e)
      ensures e in mid ==> mid[e].Array?
    {
      MigratedEntryUndone(hooks, desired, legacyOpt, e);
    }
    forall e | e !in HOOK_EVENTS
      ensures e in after <==> e in mid
      ensures e in mid ==> after[e] == mid[e]
    {
      UnmanagedEntryKept(hooks, desired, e);
    }
    PrunedToNormal(mid, after, kept);
  }

  // Migrating a historical install and then uninstalling leaves what
  // uninstalling the historical install directly would have left, normalized.
  lemma UninstallUndoesMigration(cfg: Table, desired: HookSpec, legacyOpt: string)
    requires FreshOk(cfg, desired, legacyOpt) && LegacyOf(HooksOf(cfg)).MarkerSet?
    ensures var l := LegacyOf(HooksOf(cfg));
            OwnedUninstalled(FreshConfig(cfg, desired), desired) ==
            Normalized(LegacyUninstalled(cfg, l.events, l.command))
  {
    var hooks := HooksOf(cfg);
    var mid := Pruned(hooks, LegacyKept(hooks, LegacyOf(hooks).events, LegacyOf(hooks).command));
    MigratedTableUndone(hooks, desired, legacyOpt);
    UninstalledFrom(cfg, FreshHooks(hooks, desired), NormalHooks(mid), desired);
    NormalizedOf(cfg, mid);
  }

  lemma NormalizedOf(cfg: Table, mid: Table)
    ensures HooksReadable(WithHooks(cfg, mid))
    ensures Normalized(WithHooks(cfg, mid)) == WithHooks(cfg, NormalHooks(mid))
  {
    WithHooksTwice(cfg, mid, NormalHooks(mid));
  }

  lemma WithHooksTwice(cfg: Table, mid: Table, hooks: Table)
    ensures HooksReadable(WithHooks(cfg, mid)) && HooksOf(WithHooks(cfg, mid)) == mid
    ensures WithHooks(WithHooks(cfg, mid), hooks) == WithHooks(cfg, hooks)
  {
    assert cfg["hooks" := Object(mid)] - {"hooks"} == cfg - {"hooks"};
    assert (cfg - {"hooks"}) - {"hooks"} == cfg - {"hooks"};
    assert (cfg - {"hooks"})["hooks" := Object(hooks)] == cfg["hooks" := Object(hooks)];
  }

  // ----- Repeating a merge after a crash -------------------------------------

  // The historical command an install records in its pending manifest.
  ghost function RecordedCommand(cfg: Table): string
    requires HooksReadable(cfg)
  {
    var l := LegacyOf(HooksOf(cfg));
    if l.MarkerSet? then l.command else ""
  }

  // An install that was accepted under the caller's options is accepted again
  // under the recorded command alone.
  lemma RecordedCommandSuffices(cfg: Table, desired: HookSpec, legacyOpt: string)
    requires FreshOk(cfg, desired, legacyOpt) && desired.kind == "command"
    ensures FreshOk(cfg, desired, RecordedCommand(cfg))
  {
    var hooks := HooksOf(cfg);
    var l := LegacyOf(hooks);
    if l.MarkerSet? {
      assert EventCandidates(hooks, HOOK_EVENTS[0]) == [l.command];
      CandidatesNamed(hooks[HOOK_EVENTS[0]].items);
      assert l.command != "";
      if l.command != legacyOpt {
        assert ShellSpec(l.command) == desired;
      }
    }
  }

  lemma {:induction false} CandidatesNamed(gs: seq<Json>)
    ensures forall i :: 0 <= i < |Candidates(gs)| ==> Candidates(gs)[i] != ""
  {
    if gs != [] {
      CandidatesNamed(gs[..|gs| - 1]);
    }
  }

  // Owned settings are never mistaken for a historical install.
  lemma OwnedIsNotLegacy(cfg: Table, spec: HookSpec)
    requires Owned(cfg, spec)
    ensures HooksReadable(cfg) && LegacyOf(HooksOf(cfg)) == NoMarkers
  {
    CandidatesAtMostMarkers(HooksOf(cfg));
    assert cfg["hooks"] == Object(HooksOf(cfg));
  }
}
