// Crash safety of the hook installer: stopping an operation after any of its
// writes leaves a disk that recovers to before it or after it, never between.
module ClaudeRecovery {
  import opened Common
  import opened Json
  import opened ClaudeMerge
  import opened ClaudeMergeProofs
  import opened ClaudeTables
  import opened ClaudeTransaction

  // The disk an operation leaves when it stops after k of its writes.
  function StopAfter(d: Disk, r: Run, k: nat): Disk {
    if k == 0 || r.writes == [] then d
    else if k <= |r.writes| then r.writes[k - 1]
    else r.writes[|r.writes| - 1]
  }

  // What the next operation's recovery makes of a disk.
  ghost function Settle(c: Codec, d: Disk): Disk {
    if Readable(c, d) && Pending(d) && Recover(c, d, []).outcome.Done?
    then Final(d, Recover(c, d, []))
    else d
  }

  lemma SettleIsStable(c: Codec, d: Disk)
    requires Lossless(c)
    ensures Settle(c, Settle(c, d)) == Settle(c, d)
    ensures Readable(c, d) ==> Readable(c, Settle(c, d))
  {
    hide Recover, Lossless, Final, Readable;
    if Readable(c, d) && Pending(d) && Recover(c, d, []).outcome.Done? { RecoveredDisk(c, d, []); }
  }

  // Stopping inside a recovery changes nothing about where it leads.
  lemma RecoveryInterrupted(c: Codec, d: Disk, k: nat)
    requires Lossless(c) && Readable(c, d) && Pending(d)
    ensures Settle(c, StopAfter(d, Recover(c, d, []), k)) == Settle(c, d)
  {
    hide Lossless, Remerged, Load, ValidManifest;
    WrittenLoads(c, d.settings, d.sidecar.m);
    if Recover(c, d, []).outcome.Done? { RecoveredDisk(c, d, []); }
  }

  // A transaction that meets no one else.
  lemma QuietTransact(c: Codec, d: Disk, m: Manifest, after: Table)
    requires ValidManifest(m)
    ensures var published := Disk(Some(c.encode(after)), Recorded(m));
            Transact(c, d, m, after, []) == Run(Done, [d.(sidecar := Recorded(m)), published, Close(published, m)])
  {
  }

  // A transaction stopped after its record recovers to its end, provided the
  // recorded merge can be made again from the settings it was recorded for.
  lemma TransactInterrupted(c: Codec, d: Disk, m: Manifest, after: Table, k: nat)
    requires Lossless(c) && Readable(c, d) && !Pending(d) && ValidManifest(m) && !m.state.Active?
    requires m.before == Some(Digest(d.settings)) && m.after == Some(Digest(Some(c.encode(after))))
    requires Remerged(Load(c, d.settings).value, m) == Some(after)
    ensures var r := Transact(c, d, m, after, []);
            var x := StopAfter(d, r, k);
            Settle(c, x) == if k == 0 then d else Final(d, r)
  {
    hide Lossless, Remerged, Load, ValidManifest, Transact;
    var recorded := d.(sidecar := Recorded(m));
    QuietTransact(c, d, m, after);
    WrittenLoads(c, d.settings, m);
    if k == 1 {
      assert Recover(c, recorded, []).outcome == Done;
    }
  }

  // An operation without a pending change is atomic under crashes.
  lemma SettledInterrupted(c: Codec, d: Disk, op: Op, k: nat)
    requires Lossless(c) && Readable(c, d) && !Pending(d)
    requires op.Install? ==> ValidSpec(op.desired)
    ensures var r := RunSettled(c, d, op, []);
            var x := StopAfter(d, r, k);
            Settle(c, x) == d || Settle(c, x) == Final(d, r)
  {
    var cfg := Load(c, d.settings).value;
    match op
    case Install(desired, legacyOpt) =>
      if d.sidecar.NoManifest? && FreshOk(cfg, desired, legacyOpt) {
        var after := FreshConfig(cfg, desired);
        var m := PendingManifest(Installing, desired, RecordedCommand(cfg), d.settings, c.encode(after));
        RecordedCommandSuffices(cfg, desired, legacyOpt);
        TransactInterrupted(c, d, m, after, k);
      }
    case Uninstall =>
      if d.sidecar.Recorded? {
        var spec := d.sidecar.m.hook;
        if Owned(cfg, spec) {
          var after := OwnedUninstalled(cfg, spec);
          var m := PendingManifest(Uninstalling, spec, "", d.settings, c.encode(after));
          OwnedIsNotLegacy(cfg, spec);
          TransactInterrupted(c, d, m, after, k);
        }
      } else if HooksReadable(cfg) && LegacyOf(HooksOf(cfg)).MarkerSet? {
        var l := LegacyOf(HooksOf(cfg));
        var after := LegacyUninstalled(cfg, l.events, l.command);
        var m := PendingManifest(Uninstalling, ShellSpec(l.command), l.command, d.settings, c.encode(after));
        if ValidManifest(m) {
          TransactInterrupted(c, d, m, after, k);
        }
      }
  }

  // The steps of an operation that recovers a pending change first.
  lemma RunOpPending(c: Codec, d: Disk, op: Op)
    requires Lossless(c) && Readable(c, d) && Pending(d)
    requires op.Install? ==> ValidSpec(op.desired) && !(d.sidecar.m.state.Installing? && d.sidecar.m.hook != op.desired)
    ensures var rec := Recover(c, d, []);
            if rec.outcome.Done? then
              && Readable(c, Settle(c, d)) && !Pending(Settle(c, d))
              && RunOp(c, d, op, []) == After(rec.writes, RunSettled(c, Settle(c, d), op, []))
            else
              RunOp(c, d, op, []) == rec && rec.writes == []
  {
    hide RunSettled, Remerged, ValidSpec, ValidManifest, Load, Lossless;
    if Recover(c, d, []).outcome.Done? { RecoveredDisk(c, d, []); }
  }

  // Stopping one run after another is stopping in the first or in the second.
  lemma StopInSequence(d: Disk, first: Run, next: Run, k: nat)
    ensures var both := After(first.writes, next);
            && Final(d, both) == Final(Final(d, first), next)
            && StopAfter(d, both, k) ==
               if k <= |first.writes| then StopAfter(d, first, k)
               else StopAfter(Final(d, first), next, k - |first.writes|)
  {
  }

  lemma PendingInterrupted(c: Codec, d: Disk, op: Op, next: Run, k: nat)
    requires Lossless(c) && Readable(c, d) && Pending(d) && Recover(c, d, []).outcome.Done?
    requires op.Install? ==> ValidSpec(op.desired)
    requires Readable(c, Settle(c, d)) && !Pending(Settle(c, d)) && next == RunSettled(c, Settle(c, d), op, [])
    ensures var both := After(Recover(c, d, []).writes, next);
            var x := StopAfter(d, both, k);
            Settle(c, x) == Settle(c, d) || Settle(c, x) == Settle(c, Final(d, both))
  {
    var rec, s := Recover(c, d, []), Settle(c, d);
    StopInSequence(d, rec, next, k);
    if k <= |rec.writes| {
      RecoveryInterrupted(c, d, k);
    } else {
      SettledInterrupted(c, s, op, k - |rec.writes|);
      SettleIsStable(c, StopAfter(s, next, k - |rec.writes|));
    }
  }

  // Crash atomicity: stopping any operation on any disk after any number of its
  // writes leaves a disk that settles as if the operation had not started or
  // had finished.
  lemma CrashAtomicity(c: Codec, d: Disk, op: Op, k: nat)
    requires Lossless(c)
    ensures var r := RunOp(c, d, op, []);
            var x := StopAfter(d, r, k);
            Settle(c, x) == Settle(c, d) || Settle(c, x) == Settle(c, Final(d, r))
  {
    var r := RunOp(c, d, op, []);
    var x := StopAfter(d, r, k);
    if r.writes == [] {
    } else if !Pending(d) {
      SettledInterrupted(c, d, op, k);
      SettleIsStable(c, x);
    } else {
      RunOpPending(c, d, op);
      SettledFacts(c, d);
      PendingInterrupted(c, d, op, RunSettled(c, Settle(c, d), op, []), k);
    }
  }

  lemma RunOpSettled(c: Codec, d: Disk, op: Op)
    requires Lossless(c) && Readable(c, d) && !Pending(d) && (op.Install? ==> ValidSpec(op.desired))
    ensures RunOp(c, d, op, []) == RunSettled(c, d, op, [])
  {
  }

  lemma SettledFacts(c: Codec, d: Disk)
    requires Lossless(c)
    ensures Settle(c, d) != d ==> Readable(c, d) && Pending(d) && Recover(c, d, []).outcome.Done?
    ensures Readable(c, d) && Pending(d) && Recover(c, d, []).outcome.Done? ==>
              && Readable(c, Settle(c, d)) && !Pending(Settle(c, d))
              && (d.sidecar.m.state.Installing? ==>
                    Settle(c, d).sidecar == Recorded(ActiveManifest(d.sidecar.m.hook)))
  {
    hide Remerged, ValidManifest, Load, Lossless;
    if Readable(c, d) && Pending(d) && Recover(c, d, []).outcome.Done? { RecoveredDisk(c, d, []); }
  }

  // An install of another command is refused before and after recovery alike.
  lemma OtherCommandRefused(c: Codec, d: Disk, op: Op)
    requires Lossless(c) && Settle(c, d) != d
    requires op.Install? && ValidSpec(op.desired)
    requires d.sidecar.m.state.Installing? && d.sidecar.m.hook != op.desired
    ensures RunOp(c, d, op, []) == Run(Refused, []) == RunOp(c, Settle(c, d), op, [])
  {
    SettledFacts(c, d);
    RunOpSettled(c, Settle(c, d), op);
  }

  // Recovery is invisible: an operation reports the same, and leads to the same
  // settled disk, whether or not a pending change was settled before it.
  lemma RecoveryIsTransparent(c: Codec, d: Disk, op: Op)
    requires Lossless(c)
    ensures var r, s := RunOp(c, d, op, []), RunOp(c, Settle(c, d), op, []);
            && r.outcome == s.outcome
            && Settle(c, Final(d, r)) == Settle(c, Final(Settle(c, d), s))
  {
    var s := Settle(c, d);
    SettleIsStable(c, d);
    if s != d {
      SettledFacts(c, d);
      if op.Install? && !ValidSpec(op.desired) {
      } else if op.Install? && d.sidecar.m.state.Installing? && d.sidecar.m.hook != op.desired {
        OtherCommandRefused(c, d, op);
      } else {
        RunOpPending(c, d, op);
        RunOpSettled(c, s, op);
        StopInSequence(d, Recover(c, d, []), RunSettled(c, s, op, []), 0);
      }
    }
  }

  // ----- Runs with any number of crashes -------------------------------------

  // Each step runs an operation, to its end or until it stops after some of
  // its writes.
  datatype Step = Step(op: Op, stop: Option<nat>)

  ghost function Crashing(c: Codec, d: Disk, steps: seq<Step>): Disk
    requires Lossless(c)
  {
    if steps == [] then d
    else
      var before := Crashing(c, d, steps[..|steps| - 1]);
      var step := steps[|steps| - 1];
      var r := RunOp(c, before, step.op, []);
      if step.stop.None? then Final(before, r) else StopAfter(before, r, step.stop.value)
  }

  // The same operations without crashes, leaving out those not marked as having
  // taken effect.
  ghost function Completing(c: Codec, d: Disk, steps: seq<Step>, took: seq<bool>): Disk
    requires Lossless(c) && |took| == |steps|
  {
    if steps == [] then Settle(c, d)
    else
      var n := |steps| - 1;
      var before := Completing(c, d, steps[..n], took[..n]);
      if took[n] then Settle(c, Final(before, RunOp(c, before, steps[n].op, []))) else before
  }

  // Every run of operations, each stopped wherever it may, settles to what some
  // of those operations, each run to its end and in the same order, give; and
  // every operation that was not stopped is among them.
  lemma {:induction false} CrashesLinearize(c: Codec, d: Disk, steps: seq<Step>) returns (took: seq<bool>)
    requires Lossless(c)
    ensures |took| == |steps|
    ensures forall i :: 0 <= i < |steps| && steps[i].stop.None? ==> took[i]
    ensures Settle(c, Crashing(c, d, steps)) == Completing(c, d, steps, took)
  {
    if steps == [] {
      took := [];
    } else {
      var n := |steps| - 1;
      var init := CrashesLinearize(c, d, steps[..n]);
      var before, step := Crashing(c, d, steps[..n]), steps[n];
      if step.stop.Some? {
        CrashAtomicity(c, before, step.op, step.stop.value);
      }
      RecoveryIsTransparent(c, before, step.op);
      took := init + [step.stop.None? || Settle(c, Crashing(c, d, steps)) != Settle(c, before)];
      assert took[..n] == init;
    }
  }

  // ----- What installing and uninstalling achieve ----------------------------

  // What a completed install leaves on disk.
  lemma InstallResult(c: Codec, d: Disk, desired: HookSpec, legacyOpt: string)
    requires Lossless(c) && ValidSpec(desired) && Readable(c, d) && d.sidecar.NoManifest?
    requires FreshOk(Load(c, d.settings).value, desired, legacyOpt)
    ensures var r := RunOp(c, d, Install(desired, legacyOpt), []);
            && r.outcome == Done
            && Final(d, r) == Disk(Some(c.encode(FreshConfig(Load(c, d.settings).value, desired))),
                                   Recorded(ActiveManifest(desired)))
  {
    RunOpSettled(c, d, Install(desired, legacyOpt));
  }

  lemma FreshTable(c: Codec, settings: Option<string>, desired: HookSpec)
    requires Lossless(c) && Load(c, settings).Some? && HooksReadable(Load(c, settings).value)
    ensures var after := FreshConfig(Load(c, settings).value, desired);
            ReaderTable(after) && Load(c, Some(c.encode(after))) == Some(after)
  {
    hide FreshConfig, HooksReadable, ReaderTable;
    LoadedTable(c, settings);
    FreshDecodable(Load(c, settings).value, desired);
  }

  // What a completed uninstall of owned settings leaves on disk.
  lemma UninstallResult(c: Codec, d: Disk)
    requires Lossless(c) && Readable(c, d) && d.sidecar.Recorded? && !Pending(d)
    requires Owned(Load(c, d.settings).value, d.sidecar.m.hook)
    ensures var r := RunOp(c, d, Uninstall, []);
            var after := OwnedUninstalled(Load(c, d.settings).value, d.sidecar.m.hook);
            r.outcome == Done && Final(d, r) == Disk(Some(c.encode(after)), NoManifest)
  {
    hide Lossless, ValidSpec, Transact;
    var cfg, spec := Load(c, d.settings).value, d.sidecar.m.hook;
    var after := OwnedUninstalled(cfg, spec);
    RunOpSettled(c, d, Uninstall);
    QuietTransact(c, d, PendingManifest(Uninstalling, spec, "", d.settings, c.encode(after)), after);
  }

  // An install of a valid command on settings free of ownership keys, then an
  // uninstall, leaves the original settings normalized and no record.
  lemma InstallThenUninstall(c: Codec, d: Disk, desired: HookSpec, legacyOpt: string)
    requires Lossless(c) && ValidSpec(desired) && Readable(c, d) && d.sidecar.NoManifest?
    requires FreshOk(Load(c, d.settings).value, desired, legacyOpt)
    requires LegacyOf(HooksOf(Load(c, d.settings).value)) == NoMarkers
    ensures var mid := Final(d, RunOp(c, d, Install(desired, legacyOpt), []));
            var r := RunOp(c, mid, Uninstall, []);
            && r.outcome == Done
            && Final(mid, r) == Disk(Some(c.encode(Normalized(Load(c, d.settings).value))), NoManifest)
  {
    var cfg := Load(c, d.settings).value;
    InstallResult(c, d, desired, legacyOpt);
    InstallEstablishesOwnership(cfg, desired, legacyOpt);
    FreshTable(c, d.settings, desired);
    UninstallResult(c, Final(d, RunOp(c, d, Install(desired, legacyOpt), [])));
    UninstallUndoesFreshInstall(cfg, desired, legacyOpt);
  }

  // Installing again, under any migration option, reports success and writes
  // nothing.
  lemma InstallIsIdempotent(c: Codec, d: Disk, desired: HookSpec, legacyOpt: string, again: string)
    requires Lossless(c) && RunOp(c, d, Install(desired, legacyOpt), []).outcome == Done
    ensures var mid := Final(d, RunOp(c, d, Install(desired, legacyOpt), []));
            RunOp(c, mid, Install(desired, again), []) == Run(Done, [])
  {
    hide Recover, InstallSettled, UninstallSettled, Lossless, ValidManifest;
    var op := Install(desired, legacyOpt);
    var s := Settle(c, d);
    if Pending(d) {
      RunOpPending(c, d, op);
      SettledFacts(c, d);
      StopInSequence(d, Recover(c, d, []), RunSettled(c, s, op, []), 0);
    } else {
      RunOpSettled(c, d, op);
    }
    SettledInstallIsIdempotent(c, s, desired, legacyOpt, again);
  }

  lemma FreshIsReadable(cfg: Table, desired: HookSpec, legacyOpt: string)
    ensures FreshOk(cfg, desired, legacyOpt) ==> HooksReadable(cfg)
  {
  }

  lemma SettledInstallIsIdempotent(c: Codec, d: Disk, desired: HookSpec, legacyOpt: string, again: string)
    requires Lossless(c) && Readable(c, d) && !Pending(d) && ValidSpec(desired)
    requires InstallSettled(c, d, desired, legacyOpt, []).outcome == Done
    ensures var mid := Final(d, InstallSettled(c, d, desired, legacyOpt, []));
            RunOp(c, mid, Install(desired, again), []) == Run(Done, [])
  {
    hide FreshOk, FreshConfig, Owned, RecordedCommand, Transact, HooksReadable, ReaderTable, Lossless;
    var cfg := Load(c, d.settings).value;
    var mid := Final(d, InstallSettled(c, d, desired, legacyOpt, []));
    if d.sidecar.NoManifest? {
      FreshIsReadable(cfg, desired, legacyOpt);
      InstallEstablishesOwnership(cfg, desired, legacyOpt);
      var after := FreshConfig(cfg, desired);
      QuietTransact(c, d, PendingManifest(Installing, desired, RecordedCommand(cfg), d.settings, c.encode(after)), after);
      FreshTable(c, d.settings, desired);
    }
    RunOpSettled(c, mid, Install(desired, again));
  }
}
