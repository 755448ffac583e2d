// The hook installer beside other programs that write the same two files just
// before it compares them.
module ClaudeRivals {
  import opened Common
  import opened Json
  import opened ClaudeMerge
  import opened ClaudeMergeProofs
  import opened ClaudeTransaction
  import opened ClaudeRecovery

  // Other programs that leave the sidecar alone.
  predicate SettingsOnly(env: Env) {
    forall i :: 0 <= i < |env| ==> env[i].sidecar.None?
  }

  // What the second and the third comparison of a transaction meet; the third
  // closes it when the settings were published, and takes it back otherwise.
  function Second(d: Disk, m: Manifest, env: Env): Disk {
    Met(d.(sidecar := Recorded(m)), Next(env))
  }

  predicate Published(d: Disk, m: Manifest, env: Env) {
    Second(d, m, env) == d.(sidecar := Recorded(m))
  }

  function Third(d: Disk, m: Manifest, data: string, env: Env): Disk {
    Met(if Published(d, m, env) then Disk(Some(data), Recorded(m)) else Second(d, m, env), Next(Next(env)))
  }

  // ----- Any transaction -----------------------------------------------------

  // A transaction succeeds exactly when every comparison meets what the one
  // before it left, and then ends as if there had been no one else.
  lemma TransactSucceedsIff(c: Codec, d: Disk, m: Manifest, after: Table, env: Env)
    requires ValidManifest(m)
    ensures var data, r := c.encode(after), Transact(c, d, m, after, env);
            && (r.outcome.Done? <==>
                  Met(d, env) == d && Published(d, m, env) && Third(d, m, data, env) == Disk(Some(data), Recorded(m)))
            && (r.outcome.Done? ==> Final(d, r) == Final(d, Transact(c, d, m, after, [])))
            && (!r.outcome.Done? ==> r.outcome.Refused?)
  {
  }

  // Where a recorded transaction ends. Once the settings are lost, only an
  // uninstall of an active record compares them again, and it finds the record
  // to restore exactly when they are again what it read; any other transaction
  // removes its record whatever the settings are. A comparison that fails
  // leaves what it met.
  lemma TransactEnds(c: Codec, d: Disk, m: Manifest, after: Table, env: Env)
    requires ValidManifest(m) && Met(d, env) == d
    ensures var data := c.encode(after);
            var third, end := Third(d, m, data, env), Final(d, Transact(c, d, m, after, env));
            if Published(d, m, env) then
              end == if third == Disk(Some(data), Recorded(m)) then Close(third, m) else third
            else if m.state.Uninstalling? && d.sidecar.Recorded? then
              end == if third == d.(sidecar := Recorded(m)) then d.(sidecar := Recorded(ActiveManifest(m.hook))) else third
            else
              end == if third.sidecar == Recorded(m) then third.(sidecar := NoManifest) else third
  {
  }

  // Beside programs that only write settings, a pending record is left behind
  // exactly when the third comparison is of settings and they are not what it
  // expects: the published ones, or those an uninstall has read.
  lemma PendingLeftIff(c: Codec, d: Disk, m: Manifest, after: Table, env: Env)
    requires ValidManifest(m) && !m.state.Active? && !Pending(d) && SettingsOnly(env) && Met(d, env) == d
    ensures var data := c.encode(after);
            var third := Third(d, m, data, env).settings;
            Pending(Final(d, Transact(c, d, m, after, env))) <==>
              if Published(d, m, env) then third != Some(data)
              else m.state.Uninstalling? && d.sidecar.Recorded? && third != d.settings
  {
    TransactEnds(c, d, m, after, env);
  }

  // Wherever the settings change, they were the ones read, or another program
  // wrote the new ones.
  predicate OnlyReadReplaced(read: Option<string>, d: Disk, writes: seq<Disk>, env: Env) {
    forall i :: 0 <= i < |writes| ==> Replaces(read, Prior(d, writes, i), writes[i], env)
  }

  function Prior(d: Disk, writes: seq<Disk>, i: nat): Disk
    requires i < |writes|
  {
    if i == 0 then d else writes[i - 1]
  }

  predicate Replaces(read: Option<string>, before: Disk, after: Disk, env: Env) {
    before.settings != after.settings ==> before.settings == read || WrittenBy(env, after.settings)
  }

  predicate WrittenBy(env: Env, settings: Option<string>) {
    exists k :: 0 <= k < |env| && env[k].settings == Some(settings)
  }

  lemma SwapReplacesOnlyRead(read: Option<string>, d: Disk, env: Env, from: Disk, to: Disk)
    requires to.settings != from.settings ==> from.settings == read
    ensures OnlyReadReplaced(read, d, Swap(d, env, from, to).1, env)
    ensures OnlyReadReplaced(read, d, [], env)
  {
    var writes := Swap(d, env, from, to).1;
    if env != [] && env[0].settings.Some? {
      assert env[0].settings == Some(Met(d, env).settings);
      assert WrittenBy(env, Met(d, env).settings);
    }
    forall i | 0 <= i < |writes|
      ensures Replaces(read, Prior(d, writes, i), writes[i], env)
    {
    }
  }

  lemma ReplacesInTurn(read: Option<string>, d: Disk, first: seq<Disk>, next: seq<Disk>, env: Env)
    requires OnlyReadReplaced(read, d, first, env)
    requires OnlyReadReplaced(read, Final(d, Run(Done, first)), next, Next(env))
    ensures OnlyReadReplaced(read, d, first + next, env)
  {
    forall i | 0 <= i < |first + next|
      ensures Replaces(read, Prior(d, first + next, i), (first + next)[i], env)
    {
      if i < |first| {
        assert Replaces(read, Prior(d, first, i), first[i], env);
      } else {
        var j := i - |first|;
        assert Replaces(read, Prior(Final(d, Run(Done, first)), next, j), next[j], Next(env));
        if WrittenBy(Next(env), next[j].settings) {
          var k :| 0 <= k < |Next(env)| && Next(env)[k].settings == Some(next[j].settings);
          assert env[k + 1] == Next(env)[k];
        }
      }
    }
  }

  // The installer never replaces settings that it has not read.
  lemma TransactReplacesOnlyRead(c: Codec, d: Disk, m: Manifest, after: Table, env: Env)
    ensures OnlyReadReplaced(d.settings, d, Transact(c, d, m, after, env).writes, env)
  {
    hide Swap, OnlyReadReplaced, Replaces, WrittenBy;
    if !ValidManifest(m) {
      SwapReplacesOnlyRead(d.settings, d, env, d, d);
    } else {
      var recorded := d.(sidecar := Recorded(m));
      SwapReplacesOnlyRead(d.settings, d, env, d, recorded);
      SwapEnds(d, env, d, recorded);
      if Swap(d, env, d, recorded).0 {
        PublishingReplacesOnlyRead(c, d, m, after, Next(env));
        ReplacesInTurn(d.settings, d, Swap(d, env, d, recorded).1, Publishing(c, d, m, after, Next(env)).writes, env);
      }
    }
  }

  lemma PublishingReplacesOnlyRead(c: Codec, d: Disk, m: Manifest, after: Table, env: Env)
    ensures OnlyReadReplaced(d.settings, d.(sidecar := Recorded(m)), Publishing(c, d, m, after, env).writes, env)
  {
    hide Swap, OnlyReadReplaced, Replaces, WrittenBy;
    var recorded := d.(sidecar := Recorded(m));
    var published := recorded.(settings := Some(c.encode(after)));
    var met := Met(recorded, env);
    var (ok, writes) := Swap(recorded, env, recorded, published);
    SwapReplacesOnlyRead(d.settings, recorded, env, recorded, published);
    SwapEnds(recorded, env, recorded, published);
    if ok {
      SwapReplacesOnlyRead(d.settings, published, Next(env), published, Close(published, m));
      ReplacesInTurn(d.settings, recorded, writes, Closing(published, m, Next(env)).writes, env);
    } else {
      var now := Met(met, Next(env));
      SwapReplacesOnlyRead(d.settings, met, Next(env), now.(sidecar := Recorded(m)), now.(sidecar := NoManifest));
      SwapReplacesOnlyRead(d.settings, met, Next(env), recorded, d.(sidecar := Recorded(ActiveManifest(m.hook))));
      ReplacesInTurn(d.settings, recorded, writes, Undoing(d, met, m, Next(env)).1, env);
    }
  }

  lemma SettledReplacesOnlyRead(c: Codec, d: Disk, op: Op, env: Env)
    requires Readable(c, d) && !Pending(d)
    ensures OnlyReadReplaced(d.settings, d, RunSettled(c, d, op, env).writes, env)
  {
    hide Transact, OnlyReadReplaced, FreshOk, FreshConfig, Owned, OwnedUninstalled, LegacyUninstalled, LegacyOf;
    SwapReplacesOnlyRead(d.settings, d, env, d, d);
    var r := RunSettled(c, d, op, env);
    if r.writes != [] {
      var after, m := SettledTransact(c, d, op, env);
      TransactReplacesOnlyRead(c, d, m, after, env);
    }
  }

  // An operation that writes runs a transaction, the same beside others.
  lemma SettledTransact(c: Codec, d: Disk, op: Op, env: Env) returns (after: Table, m: Manifest)
    requires Readable(c, d) && !Pending(d)
    ensures RunSettled(c, d, op, env).writes != [] ==>
              && RunSettled(c, d, op, env) == Transact(c, d, m, after, env)
              && RunSettled(c, d, op, []) == Transact(c, d, m, after, [])
              && m.before == Some(Digest(d.settings)) && m.after == Some(Digest(Some(c.encode(after))))
              && !m.state.Active?
              && ((op.Install? ==> ValidSpec(op.desired)) ==> Remerged(Load(c, d.settings).value, m) == Some(after))
  {
    hide Transact;
    after, m := map[], ActiveManifest(ShellSpec(""));
    var cfg := Load(c, d.settings).value;
    match op
    case Install(desired, legacyOpt) =>
      if d.sidecar.NoManifest? && FreshOk(cfg, desired, legacyOpt) {
        after := FreshConfig(cfg, desired);
        m := PendingManifest(Installing, desired, RecordedCommand(cfg), d.settings, c.encode(after));
        if ValidSpec(desired) { RecordedCommandSuffices(cfg, desired, legacyOpt); }
      }
    case Uninstall =>
      if d.sidecar.Recorded? {
        var spec := d.sidecar.m.hook;
        if Owned(cfg, spec) {
          after := OwnedUninstalled(cfg, spec);
          m := PendingManifest(Uninstalling, spec, "", d.settings, c.encode(after));
          OwnedIsNotLegacy(cfg, spec);
        }
      } else if HooksReadable(cfg) && LegacyOf(HooksOf(cfg)).MarkerSet? {
        var l := LegacyOf(HooksOf(cfg));
        after := LegacyUninstalled(cfg, l.events, l.command);
        m := PendingManifest(Uninstalling, ShellSpec(l.command), l.command, d.settings, c.encode(after));
      }
  }

  lemma RecoverReplacesOnlyRead(c: Codec, d: Disk, env: Env)
    requires Readable(c, d) && Pending(d)
    ensures OnlyReadReplaced(d.settings, d, Recover(c, d, env).writes, env)
  {
    hide Swap, OnlyReadReplaced, Replaces, WrittenBy, Remerged;
    var m := d.sidecar.m;
    SwapReplacesOnlyRead(d.settings, d, env, d, Close(d, m));
    var merged := Remerged(Load(c, d.settings).value, m);
    if merged.Some? {
      var published := d.(settings := Some(c.encode(merged.value)));
      SwapReplacesOnlyRead(d.settings, d, env, d, published);
      SwapEnds(d, env, d, published);
      if Swap(d, env, d, published).0 {
        SwapReplacesOnlyRead(d.settings, published, Next(env), published, Close(published, m));
        ReplacesInTurn(d.settings, d, Swap(d, env, d, published).1, Closing(published, m, Next(env)).writes, env);
      }
    }
  }

  lemma ReplacesEarlier(read: Option<string>, d: Disk, writes: seq<Disk>, env: Env)
    requires OnlyReadReplaced(read, d, writes, Next(env))
    ensures OnlyReadReplaced(read, d, writes, env)
  {
    SwapReplacesOnlyRead(read, d, [], d, d);
    assert [] + writes == writes;
    assert OnlyReadReplaced(read, d, [], env);
    ReplacesInTurn(read, d, [], writes, env);
  }

  // No operation replaces settings other than those it last read: it reads them
  // at its start and, when it has recovered a pending change, again after its
  // first k writes.
  lemma RunReplacesOnlyRead(c: Codec, d: Disk, op: Op, env: Env) returns (k: nat)
    requires Lossless(c)
    ensures var writes := RunOp(c, d, op, env).writes;
            && k <= |writes| && OnlyReadReplaced(d.settings, d, writes[..k], env)
            && var again := Final(d, Run(Done, writes[..k]));
               OnlyReadReplaced(again.settings, again, writes[k..], env)
  {
    var r := RunOp(c, d, op, env);
    k := 0;
    hide OnlyReadReplaced, Recover, RunSettled, ValidSpec, Swap;
    SwapReplacesOnlyRead(d.settings, d, env, d, d);
    assert r.writes[..0] == [] && r.writes[0..] == r.writes;
    if r.writes != [] {
      if !Pending(d) {
        SettledReplacesOnlyRead(c, d, op, env);
      } else {
        var rec := Recover(c, d, env);
        RecoverReplacesOnlyRead(c, d, env);
        if rec.outcome.Done? {
          k := |rec.writes|;
          var mid := Final(d, rec);
          RecoveredDisk(c, d, env);
          var next := RunSettled(c, mid, op, Remaining(d, env));
          assert r.writes[..k] == rec.writes && r.writes[k..] == next.writes;
          SettledReplacesOnlyRead(c, mid, op, Remaining(d, env));
          RemainingEarlier(mid.settings, mid, next.writes, d, env);
        }
      }
    }
  }

  lemma RemainingEarlier(read: Option<string>, from: Disk, writes: seq<Disk>, d: Disk, env: Env)
    requires Pending(d) && OnlyReadReplaced(read, from, writes, Remaining(d, env))
    ensures OnlyReadReplaced(read, from, writes, env)
  {
    hide OnlyReadReplaced;
    if Some(Digest(d.settings)) != d.sidecar.m.after { ReplacesEarlier(read, from, writes, Next(env)); }
    ReplacesEarlier(read, from, writes, env);
  }

  // ----- Crashes beside others -----------------------------------------------

  // A transaction leaves no other pending record than its own.
  lemma TransactSidecars(c: Codec, d: Disk, m: Manifest, after: Table, env: Env)
    requires SettingsOnly(env) && !Pending(d)
    ensures forall w :: w in Transact(c, d, m, after, env).writes ==> w.sidecar == Recorded(m) || !Pending(w)
  {
    hide ValidManifest;
    SidecarMet(d, env);
    SidecarMet(d.(sidecar := Recorded(m)), Next(env));
    SidecarMet(Disk(Some(c.encode(after)), Recorded(m)), Next(Next(env)));
    SidecarMet(Met(d.(sidecar := Recorded(m)), Next(env)), Next(Next(env)));
  }

  lemma SidecarMet(d: Disk, env: Env)
    requires SettingsOnly(env)
    ensures Met(d, env).sidecar == d.sidecar && SettingsOnly(Next(env))
    ensures forall w :: w in Came(d, env) ==> w.sidecar == d.sidecar
  {
  }

  // What recovery makes of a transaction's pending record.
  lemma PendingSettles(c: Codec, d: Disk, m: Manifest, after: Table, x: Disk)
    requires Lossless(c) && Readable(c, d) && ValidManifest(m) && !m.state.Active? && x.sidecar == Recorded(m)
    requires m.before == Some(Digest(d.settings)) && m.after == Some(Digest(Some(c.encode(after))))
    requires Remerged(Load(c, d.settings).value, m) == Some(after)
    ensures var published := Disk(Some(c.encode(after)), Recorded(m));
            Settle(c, x) ==
            if x.settings == d.settings || x.settings == published.settings then Close(published, m) else x
  {
    hide Remerged, ValidManifest, Lossless;
    WrittenLoads(c, d.settings, m);
  }

  // An operation beside programs that write settings, stopped after any of its
  // writes: when a record is pending and the settings are those the operation
  // read or was to publish, recovery leads to where it would have ended without
  // the others; anything else it leaves as it is.
  lemma CrashBesideOthers(c: Codec, d: Disk, op: Op, env: Env, k: nat)
    requires Lossless(c) && Readable(c, d) && !Pending(d) && SettingsOnly(env)
    requires op.Install? ==> ValidSpec(op.desired)
    ensures var x := StopAfter(d, RunSettled(c, d, op, env), k);
            var end := Final(d, RunSettled(c, d, op, []));
            Settle(c, x) ==
            if Pending(x) && (x.settings == d.settings || x.settings == end.settings) then end else x
  {
    hide Transact, Remerged, RunSettled;
    var r := RunSettled(c, d, op, env);
    var x := StopAfter(d, r, k);
    if r.writes != [] {
      var after, m := SettledTransact(c, d, op, env);
      TransactSidecars(c, d, m, after, env);
      TransactWrites(c, d, m, after, env);
      QuietTransact(c, d, m, after);
      assert x == d || x in r.writes;
      if Pending(x) {
        PendingSettles(c, d, m, after, x);
      }
    }
  }

  lemma TransactWrites(c: Codec, d: Disk, m: Manifest, after: Table, env: Env)
    ensures Transact(c, d, m, after, env).writes != [] ==> ValidManifest(m)
  {
  }

  lemma RecoverSidecars(c: Codec, d: Disk, env: Env)
    requires Readable(c, d) && Pending(d) && SettingsOnly(env)
    ensures forall w :: w in Recover(c, d, env).writes ==> w.sidecar == d.sidecar || !Pending(w)
  {
    hide Remerged, ValidManifest;
    SidecarMet(d, env);
    var merged := Remerged(Load(c, d.settings).value, d.sidecar.m);
    if merged.Some? { SidecarMet(d.(settings := Some(c.encode(merged.value))), Next(env)); }
  }

  // A recovery that would not succeed by itself writes nothing, and one that
  // succeeds ends as it would have by itself.
  lemma RecoverAlike(c: Codec, d: Disk, env: Env)
    requires Readable(c, d) && Pending(d)
    ensures !Recover(c, d, []).outcome.Done? ==> Recover(c, d, env).writes == [] && !Recover(c, d, env).outcome.Done?
    ensures Recover(c, d, env).outcome.Done? ==>
              Recover(c, d, []).outcome.Done? && Final(d, Recover(c, d, env)) == Final(d, Recover(c, d, []))
  {
    hide Remerged, ValidManifest;
  }

  // Where the same record leads from other settings.
  lemma RecordLeads(c: Codec, d: Disk, x: Disk)
    requires Lossless(c) && Readable(c, d) && Pending(d) && Recover(c, d, []).outcome.Done? && x.sidecar == d.sidecar
    ensures Recovering(c, d, x)
  {
    hide Remerged, ValidManifest, Lossless;
    WrittenLoads(c, d.settings, d.sidecar.m);
  }

  // A recovery beside programs that write settings, stopped after any of its
  // writes, leads where it would have ended without them when the settings are
  // those it read or was to publish, and otherwise there or nowhere.
  lemma RecoveryBesideOthers(c: Codec, d: Disk, env: Env, k: nat)
    requires Lossless(c) && Readable(c, d) && Pending(d) && SettingsOnly(env)
    ensures Recovering(c, d, StopAfter(d, Recover(c, d, env), k))
    ensures Recover(c, d, env).outcome.Done? ==> Final(d, Recover(c, d, env)) == Settle(c, d)
  {
    hide Recover, ValidManifest;
    var r := Recover(c, d, env);
    var x := StopAfter(d, r, k);
    RecoverSidecars(c, d, env);
    RecoverAlike(c, d, env);
    assert x == d || x in r.writes;
    if Recover(c, d, []).outcome.Done? && x.sidecar == d.sidecar { RecordLeads(c, d, x); }
  }

  // What may become of a disk that a recovery was stopped at.
  ghost predicate Recovering(c: Codec, d: Disk, x: Disk) {
    && (Settle(c, x) == x || Settle(c, x) == Settle(c, d))
    && (!Pending(x) ==> Settle(c, x) == x)
    && (Pending(x) && (x.settings == d.settings || x.settings == Settle(c, d).settings) ==> Settle(c, x) == Settle(c, d))
  }

  // The same for whole operations, which may recover a pending change first.
  lemma RunCrashBesideOthers(c: Codec, d: Disk, op: Op, env: Env, k: nat)
    requires Lossless(c) && SettingsOnly(env) && RunOp(c, d, op, env).writes != []
    ensures var x, start := StopAfter(d, RunOp(c, d, op, env), k), Settle(c, d);
            var end := Final(start, RunOp(c, start, op, []));
            if Pending(d) && (k <= |Recover(c, d, env).writes| || !Recover(c, d, env).outcome.Done?) then
              Recovering(c, d, x)
            else
              Settle(c, x) == if Pending(x) && (x.settings == start.settings || x.settings == end.settings) then end else x
  {
    hide Recover, RunSettled, Settle, Recovering, ValidSpec, ValidManifest;
    if Pending(d) {
      var rec := Recover(c, d, env);
      RecoveryBesideOthers(c, d, env, k);
      if rec.outcome.Done? {
        var start := Settle(c, d);
        RecoveredDisk(c, d, env);
        var next := RunSettled(c, start, op, Remaining(d, env));
        StopInSequence(d, rec, next, k);
        if k > |rec.writes| {
          RemainingSettingsOnly(d, env);
          CrashBesideOthers(c, start, op, Remaining(d, env), k - |rec.writes|);
          RunOpSettled(c, start, op);
        }
      }
    } else {
      SettledDisk(c, d);
      CrashBesideOthers(c, d, op, env, k);
      RunOpSettled(c, d, op);
    }
  }

  lemma RemainingSettingsOnly(d: Disk, env: Env)
    requires Pending(d) && SettingsOnly(env)
    ensures SettingsOnly(Remaining(d, env))
  {
  }

  lemma SettledDisk(c: Codec, d: Disk)
    requires !Pending(d)
    ensures Settle(c, d) == d
  {
  }

  // ----- Installing and uninstalling beside others ---------------------------

  // A fresh install that loses the settings leaves them to the others, and no
  // record of itself.
  lemma InstallYieldsToRival(c: Codec, d: Disk, desired: HookSpec, legacyOpt: string, env: Env)
    requires Lossless(c) && ValidSpec(desired) && Readable(c, d) && d.sidecar.NoManifest? && SettingsOnly(env)
    requires FreshOk(Load(c, d.settings).value, desired, legacyOpt)
    requires Met(d, env) == d && Met(d, Next(env)) != d
    ensures var r := RunOp(c, d, Install(desired, legacyOpt), env);
            r.outcome == Refused && Final(d, r) == Met(Met(d, Next(env)), Next(Next(env)))
  {
    var cfg := Load(c, d.settings).value;
    var after := FreshConfig(cfg, desired);
    var m := PendingManifest(Installing, desired, RecordedCommand(cfg), d.settings, c.encode(after));
    TransactEnds(c, d, m, after, env);
    TransactSucceedsIff(c, d, m, after, env);
    assert RunOp(c, d, Install(desired, legacyOpt), env) == Transact(c, d, m, after, env);
  }

  // The record of an uninstall of owned settings.
  function UninstallRecord(c: Codec, cfg: Table, d: Disk): Manifest
    requires d.sidecar.Recorded? && HooksReadable(cfg)
  {
    PendingManifest(Uninstalling, d.sidecar.m.hook, "", d.settings, c.encode(OwnedUninstalled(cfg, d.sidecar.m.hook)))
  }

  // An uninstall of owned settings that loses them restores the active record
  // exactly when the settings are what it read again by the time it compares
  // them; otherwise its record stays pending.
  lemma UninstallRestoresIff(c: Codec, d: Disk, env: Env)
    requires Lossless(c) && Readable(c, d) && d.sidecar.Recorded? && !Pending(d) && SettingsOnly(env)
    requires Owned(Load(c, d.settings).value, d.sidecar.m.hook)
    requires Met(d, env) == d && Met(d, Next(env)) != d
    ensures var r := RunOp(c, d, Uninstall, env);
            var again := Met(Met(d, Next(env)), Next(Next(env))).settings;
            && r.outcome == Refused && Final(d, r).settings == again
            && (Final(d, r).sidecar == d.sidecar <==> again == d.settings)
            && (again != d.settings ==>
                  Final(d, r).sidecar == Recorded(UninstallRecord(c, Load(c, d.settings).value, d)) && Pending(Final(d, r)))
  {
    var cfg := Load(c, d.settings).value;
    var m := UninstallRecord(c, cfg, d);
    var after := OwnedUninstalled(cfg, d.sidecar.m.hook);
    TransactEnds(c, d, m, after, env);
    TransactSucceedsIff(c, d, m, after, env);
    assert RunOp(c, d, Uninstall, env) == Transact(c, d, m, after, env);
  }

  // The stranded record then blocks every operation, unless the others have
  // published the very bytes that the uninstall would have.
  lemma StrandedRecordBlocks(c: Codec, d: Disk, env: Env, op: Op, later: Env)
    requires Lossless(c) && Readable(c, d) && d.sidecar.Recorded? && !Pending(d) && SettingsOnly(env)
    requires Owned(Load(c, d.settings).value, d.sidecar.m.hook)
    requires Met(d, env) == d && Met(d, Next(env)) != d
    requires var again := Met(Met(d, Next(env)), Next(Next(env))).settings;
             again != d.settings && Load(c, again).Some?
    ensures var x, r := Final(d, RunOp(c, d, Uninstall, env)), RunOp(c, Final(d, RunOp(c, d, Uninstall, env)), op, later);
            if x.settings != Some(c.encode(OwnedUninstalled(Load(c, d.settings).value, d.sidecar.m.hook))) then
              r.outcome != Done && r.writes == []
            else
              Settle(c, x) == Disk(x.settings, NoManifest)
  {
    hide Lossless, Remerged, Owned, RunSettled, ValidSpec;
    UninstallRestoresIff(c, d, env);
  }

  // A pending change whose settings match neither recorded digest is refused by
  // every operation, and nothing is written.
  lemma TamperedIsRefused(c: Codec, d: Disk, op: Op, env: Env)
    requires Lossless(c) && Readable(c, d) && Pending(d)
    requires Some(Digest(d.settings)) != d.sidecar.m.before && Some(Digest(d.settings)) != d.sidecar.m.after
    ensures RunOp(c, d, op, env).writes == [] && RunOp(c, d, op, env).outcome != Done
  {
  }
}
