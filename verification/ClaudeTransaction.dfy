// The two-file transaction of the Claude hook installer: the settings document
// and the ownership manifest, changed by single atomic writes between which the
// process may stop.
module ClaudeTransaction {
  import opened Common
  import opened Json
  import opened ClaudeMerge
  import opened ClaudeMergeProofs
  import opened ClaudeTables

  // ----- Durable state -------------------------------------------------------

  // A collision-free digest of a settings file, absent or with its bytes.
  datatype Digest = Digest(content: Option<string>)

  datatype TxState = Active | Installing | Uninstalling

  // An ownership manifest. Digests are present exactly while a change is pending.
  datatype Manifest = Manifest(
    state: TxState, hook: HookSpec, legacyCommand: string,
    before: Option<Digest>, after: Option<Digest>)

  // The sidecar file: absent, unreadable as a manifest, or a decoded manifest.
  datatype Sidecar = NoManifest | Unreadable | Recorded(m: Manifest)

  datatype Disk = Disk(settings: Option<string>, sidecar: Sidecar)

  // The JSON reader and writer. Reading gives None unless the bytes are exactly
  // one object (or null, which reads as the empty object).
  datatype Codec = Codec(decode: string -> Option<Table>, encode: Table -> string)

  // What the reader returns can be written, and reads back.
  ghost predicate Lossless(c: Codec) {
    && (forall s :: c.decode(s).Some? ==> ReaderTable(c.decode(s).value))
    && (forall t: Table :: ReaderTable(t) ==> c.decode(c.encode(t)) == Some(t))
  }

  predicate NoNul(s: string) {
    '\0' !in s
  }

  predicate ValidSpec(spec: HookSpec) {
    && spec.kind == "command"
    && (exists i :: 0 <= i < |spec.command| && !IsSpace(spec.command[i]))
    && NoNul(spec.command)
    && (spec.args.Some? ==> forall i :: 0 <= i < |spec.args.value| ==> NoNul(spec.args.value[i]))
  }

  predicate ValidManifest(m: Manifest) {
    && ValidSpec(m.hook)
    && if m.state.Active? then m.legacyCommand == "" && m.before.None? && m.after.None?
       else m.before.Some? && m.after.Some?
  }

  function ActiveManifest(spec: HookSpec): Manifest {
    Manifest(Active, spec, "", None, None)
  }

  function PendingManifest(state: TxState, spec: HookSpec, legacyCommand: string,
                           before: Option<string>, after: string): Manifest {
    Manifest(state, spec, legacyCommand, Some(Digest(before)), Some(Digest(Some(after))))
  }

  function Load(c: Codec, settings: Option<string>): Option<Table> {
    if settings.None? then Some(map[]) else c.decode(settings.value)
  }

  predicate Readable(c: Codec, d: Disk) {
    Load(c, d.settings).Some? && (d.sidecar.NoManifest? || (d.sidecar.Recorded? && ValidManifest(d.sidecar.m)))
  }

  predicate Pending(d: Disk) {
    d.sidecar.Recorded? && !d.sidecar.m.state.Active?
  }

  // ----- One operation as its result and its durable writes ------------------

  datatype Outcome = Done | Refused | Failed

  // What an operation reports, and the disk after each write it made.
  datatype Run = Run(outcome: Outcome, writes: seq<Disk>)

  function Final(d: Disk, r: Run): Disk {
    if r.writes == [] then d else r.writes[|r.writes| - 1]
  }

  // What other programs make of the two files just before the installer compares
  // them with what it expects; nothing of a file left alone.
  datatype Intrusion = Intrusion(settings: Option<Option<string>>, sidecar: Option<Sidecar>)

  // The intrusions before each comparison in turn, and none after the last.
  type Env = seq<Intrusion>

  // The disk a comparison meets.
  function Met(d: Disk, env: Env): Disk {
    if env == [] then d
    else Disk(if env[0].settings.Some? then env[0].settings.value else d.settings,
              if env[0].sidecar.Some? then env[0].sidecar.value else d.sidecar)
  }

  function Came(d: Disk, env: Env): (writes: seq<Disk>)
    ensures writes == [] ==> Met(d, env) == d
  {
    if env == [] || (env[0].settings.None? && env[0].sidecar.None?) then [] else [Met(d, env)]
  }

  function Next(env: Env): Env {
    if env == [] then [] else env[1..]
  }

  // A write that is made only when the disk is still `from`.
  function Swap(d: Disk, env: Env, from: Disk, to: Disk): (bool, seq<Disk>) {
    if Met(d, env) == from then (true, Came(d, env) + [to]) else (false, Came(d, env))
  }

  // The disk after a compared write.
  lemma SwapEnds(d: Disk, env: Env, from: Disk, to: Disk)
    ensures var (ok, writes) := Swap(d, env, from, to);
            Final(d, Run(Done, writes)) == if ok then to else Met(d, env)
  {
  }

  // The transition that ends a pending change.
  function Close(d: Disk, m: Manifest): Disk {
    d.(sidecar := if m.state.Installing? then Recorded(ActiveManifest(m.hook)) else NoManifest)
  }

  // The merge a pending change stands for, made again from its settings.
  ghost function Remerged(cfg: Table, m: Manifest): Option<Table> {
    if m.state.Installing? then
      if FreshOk(cfg, m.hook, m.legacyCommand) then Some(FreshConfig(cfg, m.hook)) else None
    else if !HooksReadable(cfg) then None
    else match LegacyOf(HooksOf(cfg))
      case Foreign => None
      case MarkerSet(events, command) =>
        if command == m.hook.command then Some(LegacyUninstalled(cfg, events, command)) else None
      case NoMarkers => if Owned(cfg, m.hook) then Some(OwnedUninstalled(cfg, m.hook)) else None
  }

  // A merge that a pending change stands for.
  lemma RemergedDecodable(cfg: Table, m: Manifest)
    requires ReaderTable(cfg)
    ensures Remerged(cfg, m).Some? ==> ReaderTable(Remerged(cfg, m).value)
  {
    hide FreshConfig, OwnedUninstalled, LegacyUninstalled, LegacyOf, Decodable, Owned;
    if HooksReadable(cfg) {
      FreshDecodable(cfg, m.hook);
      var l := LegacyOf(HooksOf(cfg));
      UninstalledDecodable(cfg, m.hook, if l.MarkerSet? then l.events else [], if l.MarkerSet? then l.command else "");
    }
  }

  // The settings of a readable disk, and those of a merge that was written.
  lemma LoadedTable(c: Codec, settings: Option<string>)
    requires Lossless(c) && Load(c, settings).Some?
    ensures ReaderTable(Load(c, settings).value)
  {
  }

  lemma WrittenLoads(c: Codec, settings: Option<string>, m: Manifest)
    requires Lossless(c) && Load(c, settings).Some?
    ensures var after := Remerged(Load(c, settings).value, m);
            after.Some? ==> Load(c, Some(c.encode(after.value))) == after
  {
    hide Remerged;
    LoadedTable(c, settings);
    RemergedDecodable(Load(c, settings).value, m);
  }

  ghost function Recover(c: Codec, d: Disk, env: Env): Run
    requires Readable(c, d) && Pending(d)
  {
    var m := d.sidecar.m;
    if Some(Digest(d.settings)) == m.after then Closing(d, m, env)
    else if Some(Digest(d.settings)) != m.before then Run(Refused, [])
    else
      var merged := Remerged(Load(c, d.settings).value, m);
      if merged.None? || Some(Digest(Some(c.encode(merged.value)))) != m.after then Run(Refused, [])
      else
        var published := d.(settings := Some(c.encode(merged.value)));
        var (ok, writes) := Swap(d, env, d, published);
        if ok then After(writes, Closing(published, m, Next(env))) else Run(Refused, writes)
  }

  function Closing(d: Disk, m: Manifest, env: Env): Run {
    var (ok, writes) := Swap(d, env, d, Close(d, m));
    Run(if ok then Done else Refused, writes)
  }

  // A run with writes made before it.
  function After(writes: seq<Disk>, r: Run): Run {
    Run(r.outcome, writes + r.writes)
  }

  // One merge as a transaction: record, publish, close.
  function Transact(c: Codec, d: Disk, m: Manifest, after: Table, env: Env): Run {
    if !ValidManifest(m) then Run(Failed, [])
    else
      var recorded := d.(sidecar := Recorded(m));
      var (noted, writes) := Swap(d, env, d, recorded);
      if !noted then Run(Refused, writes) else After(writes, Publishing(c, d, m, after, Next(env)))
  }

  // The rest of a transaction whose pending record is on disk.
  function Publishing(c: Codec, d: Disk, m: Manifest, after: Table, env: Env): Run {
    var recorded := d.(sidecar := Recorded(m));
    var published := recorded.(settings := Some(c.encode(after)));
    var (ok, writes) := Swap(recorded, env, recorded, published);
    if ok then After(writes, Closing(published, m, Next(env)))
    else After(writes, Run(Refused, Undoing(d, Met(recorded, env), m, Next(env)).1))
  }

  // Taking the pending record back after other programs have won the settings:
  // an uninstall restores the active record, if the settings are again those it
  // read; anything else removes its record, whatever the settings are.
  function Undoing(d: Disk, met: Disk, m: Manifest, env: Env): (bool, seq<Disk>) {
    if m.state.Uninstalling? && d.sidecar.Recorded? then
      Swap(met, env, d.(sidecar := Recorded(m)), d.(sidecar := Recorded(ActiveManifest(m.hook))))
    else
      var now := Met(met, env);
      Swap(met, env, now.(sidecar := Recorded(m)), now.(sidecar := NoManifest))
  }

  ghost function InstallSettled(c: Codec, d: Disk, desired: HookSpec, legacyOpt: string, env: Env): Run
    requires Readable(c, d) && !Pending(d)
  {
    var cfg := Load(c, d.settings).value;
    if d.sidecar.Recorded? then
      Run(if d.sidecar.m.hook == desired && Owned(cfg, desired) then Done else Refused, [])
    else if !FreshOk(cfg, desired, legacyOpt) then Run(Refused, [])
    else
      var after := FreshConfig(cfg, desired);
      var m := PendingManifest(Installing, desired, RecordedCommand(cfg), d.settings, c.encode(after));
      Transact(c, d, m, after, env)
  }

  ghost function UninstallSettled(c: Codec, d: Disk, env: Env): Run
    requires Readable(c, d) && !Pending(d)
  {
    var cfg := Load(c, d.settings).value;
    if d.sidecar.Recorded? then
      var spec := d.sidecar.m.hook;
      if !Owned(cfg, spec) then Run(Refused, [])
      else
        var after := OwnedUninstalled(cfg, spec);
        var m := PendingManifest(Uninstalling, spec, "", d.settings, c.encode(after));
        Transact(c, d, m, after, env)
    else if !HooksReadable(cfg) then Run(Refused, [])
    else match LegacyOf(HooksOf(cfg))
      case Foreign => Run(Refused, [])
      case NoMarkers => Run(Done, [])
      case MarkerSet(events, command) =>
        var after := LegacyUninstalled(cfg, events, command);
        var m := PendingManifest(Uninstalling, ShellSpec(command), command, d.settings, c.encode(after));
        Transact(c, d, m, after, env)
  }

  datatype Op = Install(desired: HookSpec, legacyOpt: string) | Uninstall

  ghost function RunSettled(c: Codec, d: Disk, op: Op, env: Env): Run
    requires Readable(c, d) && !Pending(d)
  {
    match op
    case Install(desired, legacyOpt) => InstallSettled(c, d, desired, legacyOpt, env)
    case Uninstall => UninstallSettled(c, d, env)
  }

  // The intrusions that a recovery has not met: it compares once to close a
  // published change, and twice to publish and close one.
  function Remaining(d: Disk, env: Env): Env
    requires Pending(d)
  {
    if Some(Digest(d.settings)) == d.sidecar.m.after then Next(env) else Next(Next(env))
  }

  lemma ClosedDisk(c: Codec, d: Disk, m: Manifest, env: Env)
    requires ValidManifest(m) && Load(c, d.settings).Some?
    ensures Closing(d, m, env).outcome.Done? ==>
              && Final(d, Closing(d, m, env)) == Close(d, m)
              && Readable(c, Close(d, m)) && !Pending(Close(d, m))
  {
  }

  lemma FinalAfter(d: Disk, mid: Disk, writes: seq<Disk>, r: Run)
    requires writes != [] && writes[|writes| - 1] == mid
    ensures Final(d, After(writes, r)) == Final(mid, r)
  {
  }

  // A disk that has been recovered is ready for an operation.
  lemma RecoveredDisk(c: Codec, d: Disk, env: Env)
    requires Lossless(c) && Readable(c, d) && Pending(d) && Recover(c, d, env).outcome.Done?
    ensures Readable(c, Final(d, Recover(c, d, env))) && !Pending(Final(d, Recover(c, d, env)))
  {
    hide Lossless, Load, ValidManifest, Remerged, Closing, Close, Met, Came, Final;
    var m := d.sidecar.m;
    if Some(Digest(d.settings)) == m.after {
      ClosedDisk(c, d, m, env);
    } else {
      WrittenLoads(c, d.settings, m);
      var published := d.(settings := Some(c.encode(Remerged(Load(c, d.settings).value, m).value)));
      ClosedDisk(c, published, m, Next(env));
      FinalAfter(d, published, Swap(d, env, d, published).1, Closing(published, m, Next(env)));
    }
  }

  // An operation that finds a pending change recovers it, then proceeds.
  ghost function RunPending(c: Codec, d: Disk, op: Op, env: Env): Run
    requires Lossless(c) && Readable(c, d) && Pending(d)
  {
    var r := Recover(c, d, env);
    if !r.outcome.Done? then r
    else
      RecoveredDisk(c, d, env);
      After(r.writes, RunSettled(c, Final(d, r), op, Remaining(d, env)))
  }

  ghost function RunOp(c: Codec, d: Disk, op: Op, env: Env): Run
    requires Lossless(c)
  {
    if op.Install? && !ValidSpec(op.desired) then Run(Failed, [])
    else if Load(c, d.settings).None? then Run(Failed, [])
    else if !Readable(c, d) then Run(Refused, [])
    else if !Pending(d) then RunSettled(c, d, op, env)
    else if op.Install? && d.sidecar.m.state.Installing? && d.sidecar.m.hook != op.desired then Run(Refused, [])
    else RunPending(c, d, op, env)
  }
}
