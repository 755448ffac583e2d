// The installer itself: the operations as they step through the two files, each
// proved to make exactly the durable writes its specification lists.
module ClaudeInstaller {
  import opened Common
  import opened Json
  import opened ClaudeMerge
  import opened ClaudeSettings
  import opened ClaudeTransaction

  lemma RunsChain(d: Disk, log: seq<Disk>, writes: seq<Disk>, next: Run)
    ensures log + writes + next.writes == log + After(writes, next).writes
    ensures Final(d, After(writes, next)) == Final(Final(d, Run(Done, writes)), next)
  {
  }

  // A Claude configuration directory, held under the installer's lock.
  class HookFiles {
    const codec: Codec
    var settings: Option<string>
    var sidecar: Sidecar

    // What other programs have still in store.
    var env: Env

    // Every durable state since the directory was opened.
    ghost var log: seq<Disk>

    constructor (codec: Codec, settings: Option<string>, sidecar: Sidecar, env: Env)
      ensures this.codec == codec && State() == Disk(settings, sidecar) && this.env == env && log == []
    {
      this.codec, this.settings, this.sidecar, this.env, this.log := codec, settings, sidecar, env, [];
    }

    function State(): Disk
      reads this
    {
      Disk(settings, sidecar)
    }

    // Other programs do what they have in store.
    method Meet()
      modifies this
      ensures State() == Met(old(State()), old(env)) && env == Next(old(env))
      ensures log == old(log) + Came(old(State()), old(env))
    {
      if env == [] { return; }
      var x := env[0];
      env := env[1..];
      if x.settings.Some? { settings := x.settings.value; }
      if x.sidecar.Some? { sidecar := x.sidecar.value; }
      if x.settings.Some? || x.sidecar.Some? { log := log + [State()]; }
    }

    // One compared write took place, or failed its comparison.
    twostate predicate Swaps(from: Disk, to: Disk, ok: bool)
      reads this
    {
      var r := Swap(old(State()), old(env), from, to);
      && ok == r.0 && log == old(log) + r.1 && env == Next(old(env))
      && State() == if ok then to else Met(old(State()), old(env))
    }

    // writeManifestAtomic: a new record in place of the expected one, while the
    // settings are still those read.
    method WriteManifest(m: Manifest, expected: Sidecar, snapshot: Option<string>) returns (r: Outcome)
      modifies this
      ensures !ValidManifest(m) ==> r == Failed && State() == old(State()) && env == old(env) && log == old(log)
      ensures ValidManifest(m) ==>
                !r.Failed? && Swaps(Disk(snapshot, expected), Disk(snapshot, Recorded(m)), r.Done?)
    {
      if !ValidManifest(m) { return Failed; }
      Meet();
      if sidecar != expected || settings != snapshot { return Refused; }
      sidecar := Recorded(m);
      log := log + [State()];
      return Done;
    }

    // removeManifest: without a snapshot the settings are not compared.
    method RemoveManifest(expected: Sidecar, snapshot: Option<Option<string>>) returns (ok: bool)
      modifies this
      ensures var met := Met(old(State()), old(env)).settings;
              var from := Disk(if snapshot.Some? then snapshot.value else met, expected);
              Swaps(from, from.(sidecar := NoManifest), ok)
    {
      Meet();
      if sidecar != expected { return false; }
      if snapshot.Some? && settings != snapshot.value { return false; }
      sidecar := NoManifest;
      log := log + [State()];
      return true;
    }

    // commitSettings: new settings in place of those read, while the record is
    // still the expected one.
    method CommitSettings(snapshot: Option<string>, data: string, expected: Sidecar) returns (ok: bool)
      modifies this
      ensures Swaps(Disk(snapshot, expected), Disk(Some(data), expected), ok)
    {
      Meet();
      if settings != snapshot || sidecar != expected { return false; }
      settings := Some(data);
      log := log + [State()];
      return true;
    }

    // Ends a pending change: an install becomes active, an uninstall forgotten.
    method ClosePending(m: Manifest, snapshot: Option<string>) returns (outcome: Outcome)
      requires ValidManifest(m)
      modifies this
      ensures var from := Disk(snapshot, Recorded(m));
              !outcome.Failed? && Swaps(from, Close(from, m), outcome.Done?)
    {
      if m.state.Installing? {
        outcome := WriteManifest(ActiveManifest(m.hook), Recorded(m), snapshot);
      } else {
        var ok := RemoveManifest(Recorded(m), Some(snapshot));
        outcome := if ok then Done else Refused;
      }
    }

    // The merge a pending manifest stands for, applied to freshly read settings.
    method Remerge(cfg: Table, m: Manifest) returns (r: Option<Table>)
      ensures r == Remerged(cfg, m)
    {
      var s := new Settings(cfg);
      var ok := false;
      if m.state.Installing? {
        ok := s.MergeFreshInstall(m.hook, m.legacyCommand);
      } else if HooksReadable(cfg) {
        var legacy := ReadLegacy(HooksOf(cfg));
        match legacy
        case Foreign =>
        case MarkerSet(events, command) =>
          if command == m.hook.command {
            ok := s.MergeLegacyUninstall(events, command);
          }
        case NoMarkers =>
          ok := s.MergeOwnedUninstall(m.hook);
      }
      r := if ok then Some(s.cfg) else None;
    }

    method RecoverPending() returns (outcome: Outcome)
      requires Readable(codec, State()) && Pending(State())
      modifies this
      ensures var r := Recover(codec, old(State()), old(env));
              outcome == r.outcome && log == old(log) + r.writes && State() == Final(old(State()), r)
      ensures outcome.Done? ==> env == Remaining(old(State()), old(env))
    {
      var m := sidecar.m;
      var snapshot := settings;
      if Some(Digest(snapshot)) == m.after {
        outcome := ClosePending(m, snapshot);
        return;
      }
      if Some(Digest(snapshot)) != m.before { return Refused; }
      var merged := Remerge(Load(codec, snapshot).value, m);
      if merged.None? { return Refused; }
      var data := codec.encode(merged.value);
      if Some(Digest(Some(data))) != m.after { return Refused; }
      var ok := CommitSettings(snapshot, data, Recorded(m));
      if !ok { return Refused; }
      outcome := ClosePending(m, Some(data));
    }

    // Record, publish, close; and when the settings are lost, take the record
    // back: an uninstall puts back the active one, if it had one.
    method Publish(m: Manifest, after: Table) returns (outcome: Outcome)
      modifies this
      ensures var r := Transact(codec, old(State()), m, after, old(env));
              outcome == r.outcome && log == old(log) + r.writes && State() == Final(old(State()), r)
    {
      hide Swap, Publishing, ValidManifest;
      var before, snapshot := sidecar, settings;
      ghost var d, recorded, seen := State(), State().(sidecar := Recorded(m)), log;
      SwapEnds(d, env, d, recorded);
      outcome := WriteManifest(m, before, snapshot);
      if !outcome.Done? { return; }
      ghost var noted, rest := Swap(d, old(env), d, recorded).1, Publishing(codec, d, m, after, env);
      outcome := PublishRecorded(m, after, before, snapshot);
      RunsChain(d, seen, noted, rest);
    }

    method PublishRecorded(m: Manifest, after: Table, before: Sidecar, snapshot: Option<string>)
      returns (outcome: Outcome)
      requires ValidManifest(m) && State() == Disk(snapshot, Recorded(m))
      modifies this
      ensures var r := Publishing(codec, Disk(snapshot, before), m, after, old(env));
              outcome == r.outcome && log == old(log) + r.writes && State() == Final(old(State()), r)
    {
      var data := codec.encode(after);
      var ok := CommitSettings(snapshot, data, Recorded(m));
      if ok {
        outcome := ClosePending(m, Some(data));
        return;
      }
      if m.state.Uninstalling? && before.Recorded? {
        var _ := WriteManifest(ActiveManifest(m.hook), Recorded(m), snapshot);
      } else {
        var _ := RemoveManifest(Recorded(m), None);
      }
      return Refused;
    }

    method ProceedInstall(desired: HookSpec, legacyOpt: string) returns (outcome: Outcome)
      requires Readable(codec, State()) && !Pending(State())
      modifies this
      ensures var r := InstallSettled(codec, old(State()), desired, legacyOpt, old(env));
              outcome == r.outcome && log == old(log) + r.writes && State() == Final(old(State()), r)
    {
      var cfg := Load(codec, settings).value;
      var s := new Settings(cfg);
      if sidecar.Recorded? {
        if sidecar.m.hook != desired { return Refused; }
        var owned := s.ValidateOwnedState(desired);
        return if owned then Done else Refused;
      }
      var legacy := NoMarkers;
      if HooksReadable(cfg) {
        legacy := ReadLegacy(HooksOf(cfg));
      }
      if legacy.Foreign? { return Refused; }
      var ok := s.MergeFreshInstall(desired, legacyOpt);
      if !ok { return Refused; }
      var recorded := if legacy.MarkerSet? then legacy.command else "";
      var m := PendingManifest(Installing, desired, recorded, settings, codec.encode(s.cfg));
      outcome := Publish(m, s.cfg);
    }

    method ProceedUninstall() returns (outcome: Outcome)
      requires Readable(codec, State()) && !Pending(State())
      modifies this
      ensures var r := UninstallSettled(codec, old(State()), old(env));
              outcome == r.outcome && log == old(log) + r.writes && State() == Final(old(State()), r)
    {
      var cfg := Load(codec, settings).value;
      var s := new Settings(cfg);
      if sidecar.Recorded? {
        var spec := sidecar.m.hook;
        var ok := s.MergeOwnedUninstall(spec);
        if !ok { return Refused; }
        var m := PendingManifest(Uninstalling, spec, "", settings, codec.encode(s.cfg));
        outcome := Publish(m, s.cfg);
        return;
      }
      if !HooksReadable(cfg) { return Refused; }
      var legacy := ReadLegacy(HooksOf(cfg));
      match legacy
      case Foreign => return Refused;
      case NoMarkers => return Done;
      case MarkerSet(events, command) =>
        var ok := s.MergeLegacyUninstall(events, command);
        var m := PendingManifest(Uninstalling, ShellSpec(command), command, settings, codec.encode(s.cfg));
        outcome := Publish(m, s.cfg);
    }

    method Proceed(op: Op) returns (outcome: Outcome)
      requires Readable(codec, State()) && !Pending(State())
      modifies this
      ensures var r := RunSettled(codec, old(State()), op, old(env));
              outcome == r.outcome && log == old(log) + r.writes && State() == Final(old(State()), r)
    {
      match op
      case Install(desired, legacyOpt) =>
        outcome := ProceedInstall(desired, legacyOpt);
      case Uninstall =>
        outcome := ProceedUninstall();
    }

    // An operation that finds a pending change.
    method RecoverAndProceed(op: Op) returns (outcome: Outcome)
      requires Lossless(codec) && Readable(codec, State()) && Pending(State())
      modifies this
      ensures var r := RunPending(codec, old(State()), op, old(env));
              outcome == r.outcome && log == old(log) + r.writes && State() == Final(old(State()), r)
    {
      ghost var d, before, left := State(), log, Remaining(State(), env);
      ghost var rec := Recover(codec, d, env);
      outcome := RecoverPending();
      if outcome.Done? {
        RecoveredDisk(codec, d, old(env));
        ghost var mid := State();
        outcome := Proceed(op);
        RunsChain(d, before, rec.writes, RunSettled(codec, mid, op, left));
      }
    }

    // InstallHooks and UninstallHooks, under the lock and without dry-run.
    method Execute(op: Op) returns (outcome: Outcome)
      requires Lossless(codec)
      modifies this
      ensures var r := RunOp(codec, old(State()), op, old(env));
              outcome == r.outcome && log == old(log) + r.writes && State() == Final(old(State()), r)
    {
      if op.Install? && !ValidSpec(op.desired) { return Failed; }
      if Load(codec, settings).None? { return Failed; }
      if !Readable(codec, State()) { return Refused; }
      if !Pending(State()) {
        outcome := Proceed(op);
      } else if op.Install? && sidecar.m.state.Installing? && sidecar.m.hook != op.desired {
        return Refused;
      } else {
        outcome := RecoverAndProceed(op);
      }
    }
  }
}
