// What the installer's answers mean: when an install or an uninstall succeeds, and
// what the two files then say.
module ClaudeOutcomes {
  import opened Common
  import opened Json
  import opened ClaudeMerge
  import opened ClaudeMergeProofs
  import opened ClaudeMeaning
  import opened ClaudeTables
  import opened ClaudeTransaction
  import opened ClaudeRecovery
  import opened ClaudeRivals

  // The command is installed: every managed event runs it once, and the record
  // says so.
  ghost predicate InstalledAt(c: Codec, d: Disk, spec: HookSpec) {
    && Load(c, d.settings).Some? && Owns(Load(c, d.settings).value, spec)
    && d.sidecar == Recorded(Manifest(Active, spec, "", None, None))
  }

  // Nothing of the installer is left, nor of the historical one.
  ghost predicate CleanAt(c: Codec, d: Disk) {
    && Load(c, d.settings).Some? && HooksReadable(Load(c, d.settings).value)
    && CountKey(Object(HooksOf(Load(c, d.settings).value)), MARKER) == 0
    && d.sidecar == NoManifest
  }

  // ----- Runs that start from a settled disk ---------------------------------

  // A transaction that succeeds ends closed, whatever others may write.
  lemma DoneTransact(c: Codec, d: Disk, m: Manifest, after: Table, env: Env)
    requires Transact(c, d, m, after, env).outcome.Done?
    ensures ValidManifest(m)
    ensures Final(d, Transact(c, d, m, after, env)) == Close(Disk(Some(c.encode(after)), Recorded(m)), m)
  {
    hide Second, Published, Third;
    TransactValid(c, d, m, after, env);
    TransactSucceedsIff(c, d, m, after, env);
    hide Transact;
    QuietTransact(c, d, m, after);
  }

  lemma TransactValid(c: Codec, d: Disk, m: Manifest, after: Table, env: Env)
    requires Transact(c, d, m, after, env).outcome.Done?
    ensures ValidManifest(m)
  {
  }

  lemma SettledInstallDone(c: Codec, d: Disk, desired: HookSpec, legacyOpt: string, env: Env)
    requires Lossless(c) && Readable(c, d) && !Pending(d)
    requires InstallSettled(c, d, desired, legacyOpt, env).outcome.Done?
    ensures InstalledAt(c, Final(d, InstallSettled(c, d, desired, legacyOpt, env)), desired)
  {
    hide Lossless, FreshOk, FreshConfig, Owned, Owns, Transact, RecordedCommand, ValidSpec, HooksReadable;
    var cfg := Load(c, d.settings).value;
    if d.sidecar.Recorded? {
      OwnedMeans(cfg, desired);
    } else {
      FreshIsReadable(cfg, desired, legacyOpt);
      var after := FreshConfig(cfg, desired);
      var m := PendingManifest(Installing, desired, RecordedCommand(cfg), d.settings, c.encode(after));
      DoneTransact(c, d, m, after, env);
      InstallEstablishesOwnership(cfg, desired, legacyOpt);
      OwnedMeans(after, desired);
      FreshTable(c, d.settings, desired);
    }
  }

  // ----- What a removal leaves -----------------------------------------------

  lemma FieldUnmarked(hooks: Table, k: string)
    requires CountKey(Object(hooks), MARKER) == 0 && k in hooks
    ensures CountKey(hooks[k], MARKER) == 0 && k != MARKER
  {
    CountFieldsZero(Object(hooks), hooks.Keys, MARKER);
    assert CountField(Object(hooks), k, MARKER) == 0;
  }

  lemma UnmarkedFields(hooks: Table)
    requires forall k :: k in hooks ==> k != MARKER && CountKey(hooks[k], MARKER) == 0
    ensures CountKey(Object(hooks), MARKER) == 0
  {
    forall k | k in hooks
      ensures CountField(Object(hooks), k, MARKER) == 0
    {
    }
    CountFieldsZero(Object(hooks), hooks.Keys, MARKER);
  }

  lemma ItemsUnmarked(gs: seq<Json>)
    ensures CountKey(Array(gs), MARKER) == 0 <==> forall i :: 0 <= i < |gs| ==> CountKey(gs[i], MARKER) == 0
  {
    CountItemsZero(Array(gs), |gs|, MARKER);
  }

  lemma DropKeepsUnmarked(gs: seq<Json>, i: nat)
    requires i < |gs| && CountKey(Array(gs), MARKER) == 0
    ensures CountKey(Array(Drop(gs, i)), MARKER) == 0
  {
    ItemsUnmarked(gs);
    ItemsUnmarked(Drop(gs, i));
  }

  lemma OwnedRemovalUnmarked(cfg: Table, spec: HookSpec)
    requires Owns(cfg, spec)
    ensures var after := OwnedUninstalled(cfg, spec);
            HooksReadable(after) && CountKey(Object(HooksOf(after)), MARKER) == 0
  {
    hide Owns, HOOK_EVENTS, OwnedUninstalled, CountKey, RunsAlone;
    OwnsParts(cfg, spec);
    var before := HooksOf(cfg);
    UninstallTakes(cfg, spec, "");
    var hooks := HooksOf(OwnedUninstalled(cfg, spec));
    forall k | k in hooks
      ensures k != MARKER && CountKey(hooks[k], MARKER) == 0
    {
      UninstallTakes(cfg, spec, k);
      FieldUnmarked(before, k);
      if k in HOOK_EVENTS {
        var g :| RunsAlone(g, spec) && Takes(before, hooks, k, g);
        var i :| 0 <= i < |before[k].items| && before[k].items[i] == g && LeftBy(before[k].items, i, hooks, k);
        assert before[k] == Array(before[k].items);
        DropKeepsUnmarked(before[k].items, i);
      }
    }
    UnmarkedFields(hooks);
  }

  lemma OwnsParts(cfg: Table, spec: HookSpec)
    requires Owns(cfg, spec)
    ensures HooksReadable(cfg) && "hooks" in cfg && CountKey(Object(HooksOf(cfg)), MARKER) == 0
  {
    assert cfg["hooks"] == Object(HooksOf(cfg));
  }

  // In a historical install the ownership keys of an event are those of its one
  // historical group, and there are none in other events.
  lemma HistoricalField(hooks: Table, events: seq<string>, command: string, k: string)
    requires Historical(hooks, events, command) && k in hooks
    ensures k != MARKER && (k !in events ==> CountKey(hooks[k], MARKER) == 0)
  {
    hide Historical;
    LegacyMeans(hooks, events, command);
    EventNames();
    InventoryExact(hooks);
    assert k in HOOK_EVENTS || EventCount(hooks, k) == 0;
    if k in HOOK_EVENTS && k !in events { NoCandidatesElsewhere(hooks, k); }
  }

  lemma HistoricalRemovalAt(hooks: Table, events: seq<string>, command: string, k: string, i: nat)
    requires Historical(hooks, events, command) && k in events
    requires k in hooks && hooks[k].Array? && i < |hooks[k].items| && hooks[k].items[i] == LegacyGroup(command)
    ensures CountKey(Array(Drop(hooks[k].items, i)), MARKER) == 0
  {
    hide Historical, LegacyGroup, LegacyOf, CountKey;
    var gs := hooks[k].items;
    LegacyMeans(hooks, events, command);
    MarkerSetCandidates(hooks, k);
    EventMarkers(hooks, k);
    assert hooks[k] == Array(gs);
    CountSplits(gs, i);
    HistoricalNamed(hooks, events, command);
    CandidateIsLegacy(gs[i], command);
    CandidateFacts(gs[i], ShellSpec(command));
    CountAll(gs);
    CountAll(Drop(gs, i));
  }

  lemma CountAll(gs: seq<Json>)
    ensures CountKey(Array(gs), MARKER) == CountItems(Array(gs), |gs|, MARKER)
  {
  }

  lemma {:induction false} CountConcat(a: seq<Json>, b: seq<Json>)
    ensures CountItems(Array(a + b), |a + b|, MARKER) == CountItems(Array(a), |a|, MARKER) + CountItems(Array(b), |b|, MARKER)
  {
    hide CountKey;
    if b == [] {
      assert a + b == a;
    } else {
      CountConcat(a, b[..|b| - 1]);
      CountItemsPrefix(a + b, MARKER);
      CountItemsPrefix(b, MARKER);
      assert (a + b)[..|a + b| - 1] == a + b[..|b| - 1];
    }
  }

  lemma CountSplits(gs: seq<Json>, i: nat)
    requires i < |gs|
    ensures CountItems(Array(gs), |gs|, MARKER) ==
            CountItems(Array(Drop(gs, i)), |Drop(gs, i)|, MARKER) + CountKey(gs[i], MARKER)
  {
    hide CountKey;
    assert gs == (gs[..i] + [gs[i]]) + gs[i + 1..];
    CountConcat(gs[..i] + [gs[i]], gs[i + 1..]);
    CountConcat(gs[..i], [gs[i]]);
    CountConcat(gs[..i], gs[i + 1..]);
    CountItemsPrefix([gs[i]], MARKER);
    assert [gs[i]][..0] == [];
  }

  lemma LegacyRemovalUnmarked(cfg: Table, events: seq<string>, command: string)
    requires HooksReadable(cfg) && Historical(HooksOf(cfg), events, command)
    ensures var after := LegacyUninstalled(cfg, events, command);
            HooksReadable(after) && CountKey(Object(HooksOf(after)), MARKER) == 0
  {
    hide Historical, LegacyUninstalled, CountKey, LegacyGroup;
    var before := HooksOf(cfg);
    LegacyTakes(cfg, events, command, "");
    var hooks := HooksOf(LegacyUninstalled(cfg, events, command));
    forall k | k in hooks
      ensures k != MARKER && CountKey(hooks[k], MARKER) == 0
    {
      LegacyTakes(cfg, events, command, k);
      HistoricalField(before, events, command, k);
      if k in events {
        var i :| 0 <= i < |before[k].items| && before[k].items[i] == LegacyGroup(command)
                 && LeftBy(before[k].items, i, hooks, k);
        HistoricalRemovalAt(before, events, command, k, i);
      }
    }
    UnmarkedFields(hooks);
  }

  // ----- Uninstalling --------------------------------------------------------

  lemma RemovalLoads(c: Codec, settings: Option<string>, spec: HookSpec, events: seq<string>, command: string)
    requires Lossless(c) && Load(c, settings).Some? && HooksReadable(Load(c, settings).value)
    ensures var cfg := Load(c, settings).value;
            && Load(c, Some(c.encode(OwnedUninstalled(cfg, spec)))) == Some(OwnedUninstalled(cfg, spec))
            && Load(c, Some(c.encode(LegacyUninstalled(cfg, events, command)))) ==
               Some(LegacyUninstalled(cfg, events, command))
  {
    hide OwnedUninstalled, LegacyUninstalled, ReaderTable, HooksReadable;
    LoadedTable(c, settings);
    UninstalledDecodable(Load(c, settings).value, spec, events, command);
  }

  lemma SettledUninstallDone(c: Codec, d: Disk, env: Env)
    requires Lossless(c) && Readable(c, d) && !Pending(d) && UninstallSettled(c, d, env).outcome.Done?
    ensures CleanAt(c, Final(d, UninstallSettled(c, d, env)))
  {
    hide Lossless, Owned, Owns, Historical, LegacyOf, Transact, OwnedUninstalled, LegacyUninstalled, ValidSpec, CountKey;
    var cfg := Load(c, d.settings).value;
    if d.sidecar.Recorded? {
      var spec := d.sidecar.m.hook;
      OwnedMeans(cfg, spec);
      OwnsParts(cfg, spec);
      OwnedRemovalUnmarked(cfg, spec);
      RemovalLoads(c, d.settings, spec, [], "");
      var after := OwnedUninstalled(cfg, spec);
      DoneTransact(c, d, PendingManifest(Uninstalling, spec, "", d.settings, c.encode(after)), after, env);
    } else {
      LegacyMeans(HooksOf(cfg), [], "");
      if LegacyOf(HooksOf(cfg)).MarkerSet? {
        var l := LegacyOf(HooksOf(cfg));
        LegacyMeans(HooksOf(cfg), l.events, l.command);
        LegacyRemovalUnmarked(cfg, l.events, l.command);
        RemovalLoads(c, d.settings, ShellSpec(""), l.events, l.command);
        var after := LegacyUninstalled(cfg, l.events, l.command);
        DoneTransact(c, d, PendingManifest(Uninstalling, ShellSpec(l.command), l.command, d.settings, c.encode(after)),
                     after, env);
      }
    }
  }

  // ----- What success means --------------------------------------------------

  // An operation that succeeds has succeeded from a settled disk.
  lemma DoneFrom(c: Codec, d: Disk, op: Op, env: Env) returns (s: Disk, rest: Env)
    requires Lossless(c) && RunOp(c, d, op, env).outcome.Done?
    ensures Readable(c, s) && !Pending(s) && RunSettled(c, s, op, rest).outcome.Done?
    ensures Final(d, RunOp(c, d, op, env)) == Final(s, RunSettled(c, s, op, rest))
    ensures !Pending(d) ==> s == d && rest == env
  {
    hide Recover, RunSettled, Lossless, ValidSpec, ValidManifest;
    if Pending(d) {
      RecoveredDisk(c, d, env);
      s, rest := Final(d, Recover(c, d, env)), Remaining(d, env);
      StopInSequence(d, Recover(c, d, env), RunSettled(c, s, op, rest), 0);
    } else {
      s, rest := d, env;
    }
  }

  // An install that succeeds, on any disk and beside any others, leaves the command
  // installed.
  lemma InstallDone(c: Codec, d: Disk, desired: HookSpec, legacyOpt: string, env: Env)
    requires Lossless(c) && RunOp(c, d, Install(desired, legacyOpt), env).outcome.Done?
    ensures InstalledAt(c, Final(d, RunOp(c, d, Install(desired, legacyOpt), env)), desired)
  {
    hide RunOp, InstallSettled, InstalledAt, Lossless, Readable;
    var s, rest := DoneFrom(c, d, Install(desired, legacyOpt), env);
    SettledInstallDone(c, s, desired, legacyOpt, rest);
  }

  // An uninstall that succeeds leaves no record and no ownership key.
  lemma UninstallDone(c: Codec, d: Disk, env: Env)
    requires Lossless(c) && RunOp(c, d, Uninstall, env).outcome.Done?
    ensures CleanAt(c, Final(d, RunOp(c, d, Uninstall, env)))
  {
    hide RunOp, UninstallSettled, CleanAt, Lossless, Readable;
    var s, rest := DoneFrom(c, d, Uninstall, env);
    SettledUninstallDone(c, s, rest);
  }

  // ----- When an operation succeeds ------------------------------------------

  // Over an active record an install writes nothing, and succeeds exactly when the
  // record is of the same command and the settings still have it.
  lemma InstallOverRecordIff(c: Codec, d: Disk, desired: HookSpec, legacyOpt: string, env: Env)
    requires Lossless(c) && d.sidecar.Recorded? && ValidManifest(d.sidecar.m) && !Pending(d) && ValidSpec(desired)
    ensures RunOp(c, d, Install(desired, legacyOpt), env).writes == []
    ensures RunOp(c, d, Install(desired, legacyOpt), env).outcome.Done? <==>
              Load(c, d.settings).Some? && d.sidecar.m.hook == desired && Owns(Load(c, d.settings).value, desired)
  {
    hide Owned, Owns, Lossless, ValidSpec;
    if Load(c, d.settings).Some? { OwnedMeans(Load(c, d.settings).value, desired); }
  }

  // Without a record it succeeds exactly when the settings accept the command.
  lemma InstallAfreshIff(c: Codec, d: Disk, desired: HookSpec, legacyOpt: string)
    requires Lossless(c) && d.sidecar.NoManifest?
    ensures RunOp(c, d, Install(desired, legacyOpt), []).outcome.Done? <==>
              ValidSpec(desired) && Load(c, d.settings).Some? && Accepts(Load(c, d.settings).value, desired, legacyOpt)
  {
    hide FreshOk, Accepts, Lossless, ValidSpec, FreshConfig, Transact;
    if ValidSpec(desired) && Load(c, d.settings).Some? {
      FreshOkMeans(Load(c, d.settings).value, desired, legacyOpt);
      if FreshOk(Load(c, d.settings).value, desired, legacyOpt) { InstallResult(c, d, desired, legacyOpt); }
    }
  }

  // An uninstall that no one interferes with succeeds exactly when the settings are
  // those the record speaks of; or, without one, when there is no ownership key or a
  // whole historical install of a valid command.
  lemma UninstallIff(c: Codec, d: Disk)
    requires Lossless(c) && Readable(c, d) && !Pending(d)
    ensures var cfg := Load(c, d.settings).value;
            RunOp(c, d, Uninstall, []).outcome.Done? <==>
            if d.sidecar.Recorded? then Owns(cfg, d.sidecar.m.hook)
            else
              && HooksReadable(cfg)
              && (|| CountKey(Object(HooksOf(cfg)), MARKER) == 0
                  || exists events, command :: Historical(HooksOf(cfg), events, command) && ValidSpec(ShellSpec(command)))
  {
    hide Owned, Owns, Historical, LegacyOf, Transact, OwnedUninstalled, LegacyUninstalled, ValidSpec, CountKey, Lossless;
    var cfg := Load(c, d.settings).value;
    if d.sidecar.Recorded? {
      OwnedMeans(cfg, d.sidecar.m.hook);
      if Owned(cfg, d.sidecar.m.hook) { UninstallResult(c, d); }
    } else if HooksReadable(cfg) {
      UninstallLegacyIff(c, d);
    }
  }

  lemma UninstallLegacyIff(c: Codec, d: Disk)
    requires Lossless(c) && Readable(c, d) && d.sidecar.NoManifest? && HooksReadable(Load(c, d.settings).value)
    ensures var hooks := HooksOf(Load(c, d.settings).value);
            RunOp(c, d, Uninstall, []).outcome.Done? <==>
            || CountKey(Object(hooks), MARKER) == 0
            || exists events, command :: Historical(hooks, events, command) && ValidSpec(ShellSpec(command))
  {
    hide Historical, LegacyOf, Transact, LegacyUninstalled, ValidSpec, CountKey, Lossless;
    var cfg := Load(c, d.settings).value;
    var hooks := HooksOf(cfg);
    var l := LegacyOf(hooks);
    LegacyMeans(hooks, [], "");
    if l.MarkerSet? {
      LegacyMeans(hooks, l.events, l.command);
      var after := LegacyUninstalled(cfg, l.events, l.command);
      var m := PendingManifest(Uninstalling, ShellSpec(l.command), l.command, d.settings, c.encode(after));
      if ValidManifest(m) { QuietTransact(c, d, m, after); } else { InvalidFails(c, d, m, after); }
    }
    if events, command :| Historical(hooks, events, command) && ValidSpec(ShellSpec(command)) {
      LegacyMeans(hooks, events, command);
    }
  }

  lemma InvalidFails(c: Codec, d: Disk, m: Manifest, after: Table)
    requires !ValidManifest(m)
    ensures Transact(c, d, m, after, []).outcome == Failed
  {
  }

  // After a recovery the settings are exactly those the pending record promised.
  lemma RecoveryKeepsPromise(c: Codec, d: Disk, env: Env)
    requires Readable(c, d) && Pending(d) && Recover(c, d, env).outcome.Done?
    ensures var end := Final(d, Recover(c, d, env));
            && d.sidecar.m.after == Some(Digest(end.settings))
            && end.sidecar == (if d.sidecar.m.state == Installing
                               then Recorded(Manifest(Active, d.sidecar.m.hook, "", None, None)) else NoManifest)
  {
    hide Remerged, ValidManifest;
  }

  // An operation that does not succeed, and that no one interferes with, has changed
  // nothing, unless it was to recover a pending change first; a pending install of
  // another command is not even recovered.
  lemma FailureLeavesDisk(c: Codec, d: Disk, op: Op)
    requires Lossless(c) && !RunOp(c, d, op, []).outcome.Done?
    ensures Final(d, RunOp(c, d, op, [])) == d || Final(d, RunOp(c, d, op, [])) == Settle(c, d)
    ensures Readable(c, d) && Pending(d) && d.sidecar.m.state.Installing? && op.Install? && op.desired != d.sidecar.m.hook ==>
              RunOp(c, d, op, []).writes == []
  {
    hide Recover, RunSettled, Lossless, ValidSpec, ValidManifest;
    if Readable(c, d) && !Pending(d) {
      SettledFailure(c, d, op);
    } else if && Readable(c, d) && (op.Install? ==> ValidSpec(op.desired))
              && !(op.Install? && d.sidecar.m.state.Installing? && d.sidecar.m.hook != op.desired) {
      RunOpPending(c, d, op);
      if Recover(c, d, []).outcome.Done? {
        var next := RunSettled(c, Settle(c, d), op, []);
        SettledFailure(c, Settle(c, d), op);
        StopInSequence(d, Recover(c, d, []), next, 0);
      }
    }
  }

  lemma SettledFailure(c: Codec, d: Disk, op: Op)
    requires Readable(c, d) && !Pending(d)
    ensures !RunSettled(c, d, op, []).outcome.Done? ==> RunSettled(c, d, op, []).writes == []
  {
    hide Transact, RunSettled;
    var after, m := SettledTransact(c, d, op, []);
    if RunSettled(c, d, op, []).writes != [] { QuietWrites(c, d, m, after); }
  }

  lemma QuietWrites(c: Codec, d: Disk, m: Manifest, after: Table)
    ensures Transact(c, d, m, after, []).outcome.Done? || Transact(c, d, m, after, []).writes == []
  {
    hide ValidManifest;
    if ValidManifest(m) { QuietTransact(c, d, m, after); }
  }
}
