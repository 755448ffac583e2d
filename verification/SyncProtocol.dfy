// Hosted sync as a protocol: the durable client state, the running client, the
// network and the server, with every step each may take, including stopping at
// any moment.
module SyncProtocol {
  import opened Common
  import opened SyncLog
  import opened SyncPacker

  // What the client keeps on disk for one credential scope.
  datatype Scope = Scope(workspace: string, cursor: int, accepted: bool, pending: Option<Batch>)

  const FRESH := Scope("", 0, false, None)

  // Where a running client is. Accepting, Built and Received hold a scope that
  // is not yet on disk.
  datatype Phase = Idle | Accepting | Ready | Built | Waiting | Received

  datatype Process = Off | On(scope: Scope, highWatermark: int, phase: Phase)

  datatype Request = Request(key: Key, body: Body)

  // `sent` holds every request ever put on the network: the server may see any
  // of them at any later time, any number of times. `replies` holds the keys a
  // receipt has been returned for.
  datatype State = State(
    log: seq<Row>, disk: Scope, process: Process, sent: set<Request>,
    receipts: map<Key, Body>, stored: seq<Body>, replies: set<Key>)

  datatype Action =
    | Start | Accept | Proceed | Save | Build(batch: Batch) | Post | Receive | Stop
    | Capture(rows: seq<Row>)
    | Deliver(request: Request, admit: bool)

  // What stays fixed: the workspace that the client's token belongs to, and which
  // texts may stand for a raw envelope on the wire.
  datatype Site = Site(workspace: string, redacts: Redacts)

  type Redacts = (string, string) -> bool

  // Events that stand for the rows: the same identities in the same order, each with
  // a text allowed for the envelope of its row.
  predicate Carries(redacts: Redacts, rows: seq<Row>, events: seq<WireEvent>) {
    && |events| == |rows|
    && forall i :: 0 <= i < |rows| ==> events[i].id == rows[i].id && redacts(rows[i].raw, events[i].text)
  }

  // A batch for exactly the log's events after the cursor.
  predicate BatchFor(redacts: Redacts, log: seq<Row>, scope: Scope, highWatermark: int, b: Batch) {
    && b.after == scope.cursor && scope.cursor < b.through <= highWatermark
    && b.key == Key(b.body) && b.body.workspace == scope.workspace
    && Carries(redacts, RowsIn(log, scope.cursor, b.through), b.body.events)
    && b.stats.events == |b.body.events| > 0
  }

  // The consistency checks on a pending batch found on disk.
  predicate PendingValid(quote: string -> string, scope: Scope, highWatermark: int) {
    scope.pending.Some? ==>
      var p := scope.pending.value;
      && p.after == scope.cursor && p.after < p.through <= highWatermark
      && 1 <= p.stats.events <= MAX_EVENTS_PER_BATCH && Fits(quote, p.body)
      && p.key == Key(p.body)
      && |p.body.events| == p.stats.events
      && p.body.workspace == scope.workspace
  }

  predicate Enabled(site: Site, s: State, a: Action) {
    match a
    case Start => s.process.Off? && s.disk.cursor <= MaxSeq(s.log)
                  && (s.disk.pending.Some? ==> s.disk.pending.value.through <= MaxSeq(s.log))
    case Accept => s.process.On? && s.process.phase.Idle? && !s.process.scope.accepted
    case Proceed => s.process.On? && s.process.phase.Idle? && s.process.scope.accepted
    case Save => s.process.On? && (s.process.phase.Accepting? || s.process.phase.Built? || s.process.phase.Received?)
    case Build(b) => s.process.On? && s.process.phase.Ready? && s.process.scope.pending.None?
                     && BatchFor(site.redacts, s.log, s.process.scope, s.process.highWatermark, b)
    case Post => s.process.On? && s.process.phase.Ready? && s.process.scope.pending.Some?
    case Receive => s.process.On? && s.process.phase.Waiting? && s.process.scope.pending.Some?
                    && s.process.scope.pending.value.key in s.replies
                    && (s.process.scope.workspace == "" || s.process.scope.workspace == site.workspace)
    case Stop => s.process.On?
    case Capture(rows) => ValidLog(s.log + rows)
    case Deliver(r, admit) => r in s.sent
  }

  // The server's answer to one delivery: a foreign workspace or a reused key is
  // turned away, a repeated key returns the original receipt and stores
  // nothing, and a new batch is stored whole unless some limit refuses it.
  function Delivered(site: Site, s: State, r: Request, admit: bool): State {
    if r.body.workspace != "" && r.body.workspace != site.workspace then s
    else if r.key in s.receipts then
      if s.receipts[r.key] == r.body then s.(replies := s.replies + {r.key}) else s
    else if !admit then s
    else s.(receipts := s.receipts[r.key := r.body], stored := s.stored + [r.body], replies := s.replies + {r.key})
  }

  function Do(site: Site, s: State, a: Action): State
    requires Enabled(site, s, a)
  {
    match a
    case Start => s.(process := On(s.disk, MaxSeq(s.log), Idle))
    case Accept => s.(process := s.process.(scope := s.process.scope.(accepted := true), phase := Accepting))
    case Proceed => s.(process := s.process.(phase := Ready))
    case Save => s.(disk := s.process.scope, process := s.process.(phase := Ready))
    case Build(b) => s.(process := s.process.(scope := s.process.scope.(pending := Some(b)), phase := Built))
    case Post =>
      var p := s.process.scope.pending.value;
      s.(sent := s.sent + {Request(p.key, p.body)}, process := s.process.(phase := Waiting))
    case Receive =>
      var p := s.process.scope.pending.value;
      s.(process := s.process.(scope := Scope(site.workspace, p.through, s.process.scope.accepted, None), phase := Received))
    case Stop => s.(process := Off)
    case Capture(rows) => s.(log := s.log + rows)
    case Deliver(r, admit) => Delivered(site, s, r, admit)
  }

  ghost predicate CanRun(site: Site, s: State, actions: seq<Action>)
    decreases |actions|, 0
  {
    actions == [] ||
    (CanRun(site, s, actions[..|actions| - 1]) &&
     Enabled(site, After(site, s, actions[..|actions| - 1]), actions[|actions| - 1]))
  }

  ghost function After(site: Site, s: State, actions: seq<Action>): State
    requires CanRun(site, s, actions)
    decreases |actions|, 1
  {
    if actions == [] then s
    else Do(site, After(site, s, actions[..|actions| - 1]), actions[|actions| - 1])
  }

  function Initial(log: seq<Row>): State {
    State(log, FRESH, Off, {}, map[], [], {})
  }

  // ----- The invariant -------------------------------------------------------

  // Everything the server has stored, in order.
  function Stored(bodies: seq<Body>): seq<WireEvent> {
    if bodies == [] then [] else Stored(bodies[..|bodies| - 1]) + bodies[|bodies| - 1].events
  }

  // The last sequence the server has: the pending batch's end once the server
  // has taken it, and until then the durable cursor.
  function StoredThrough(s: State): int {
    if s.disk.pending.Some? && s.disk.pending.value.key in s.receipts then s.disk.pending.value.through
    else s.disk.cursor
  }

  predicate DiskInv(site: Site, s: State) {
    && 0 <= s.disk.cursor <= MaxSeq(s.log)
    && (s.disk.workspace == "" || s.disk.workspace == site.workspace)
    && (s.disk.pending.Some? ==> s.disk.accepted && BatchFor(site.redacts, s.log, s.disk, MaxSeq(s.log), s.disk.pending.value))
  }

  predicate ServerInv(site: Site, s: State) {
    && Carries(site.redacts, s.log[..Upto(s.log, StoredThrough(s))], Stored(s.stored))
    && (forall k :: k in s.receipts ==> k == Key(s.receipts[k]) && s.receipts[k] in s.stored)
    && s.replies <= s.receipts.Keys
  }

  // Every request is of a batch the server has or of the durable pending batch,
  // and none exists before the preview was accepted on disk.
  predicate NetworkInv(s: State) {
    forall r :: r in s.sent ==>
      && s.disk.accepted && r.key == Key(r.body)
      && (r.key in s.receipts || (s.disk.pending.Some? && s.disk.pending.value.key == r.key))
  }

  predicate ProcessInv(site: Site, s: State) {
    s.process.On? ==>
      var p := s.process;
      && p.highWatermark <= MaxSeq(s.log) && s.disk.cursor <= p.highWatermark
      && (s.disk.pending.Some? ==> s.disk.pending.value.through <= p.highWatermark)
      && match p.phase
         case Idle => p.scope == s.disk
         case Accepting => p.scope == s.disk.(accepted := true)
         case Ready => p.scope == s.disk && s.disk.accepted
         case Built =>
           && s.disk.accepted && s.disk.pending.None? && p.scope.pending.Some?
           && p.scope == s.disk.(pending := p.scope.pending)
           && BatchFor(site.redacts, s.log, s.disk, p.highWatermark, p.scope.pending.value)
         case Waiting => p.scope == s.disk && s.disk.accepted && s.disk.pending.Some?
         case Received =>
           && s.disk.accepted && s.disk.pending.Some? && s.disk.pending.value.key in s.receipts
           && p.scope == Scope(site.workspace, s.disk.pending.value.through, true, None)
  }

  ghost predicate Inv(site: Site, s: State) {
    ValidLog(s.log) && DiskInv(site, s) && ServerInv(site, s) && NetworkInv(s) && ProcessInv(site, s)
  }

  // ----- Each step keeps it --------------------------------------------------

  lemma BatchForGrows(redacts: Redacts, log: seq<Row>, more: seq<Row>, scope: Scope, highWatermark: int, b: Batch)
    requires ValidLog(log + more) && highWatermark <= MaxSeq(log)
    ensures BatchFor(redacts, log + more, scope, highWatermark, b) <==> BatchFor(redacts, log, scope, highWatermark, b)
  {
    if scope.cursor < b.through <= highWatermark {
      UptoGrows(log, more, scope.cursor);
      UptoGrows(log, more, b.through);
      assert RowsIn(log + more, scope.cursor, b.through) == RowsIn(log, scope.cursor, b.through);
    }
  }

  lemma MaxGrows(log: seq<Row>, more: seq<Row>)
    requires ValidLog(log + more)
    ensures MaxSeq(log) <= MaxSeq(log + more)
  {
    if more != [] {
      assert (log + more)[|log + more| - 1].seqNo == MaxSeq(log + more);
      if log != [] { assert (log + more)[|log| - 1] == log[|log| - 1]; }
    }
  }

  lemma CaptureKeepsDisk(site: Site, s: State, rows: seq<Row>)
    requires Inv(site, s) && Enabled(site, s, Capture(rows))
    ensures DiskInv(site, Do(site, s, Capture(rows))) && NetworkInv(Do(site, s, Capture(rows)))
  {
    hide ServerInv, ProcessInv;
    MaxGrows(s.log, rows);
    if s.disk.pending.Some? {
      BatchForGrows(site.redacts, s.log, rows, s.disk, MaxSeq(s.log), s.disk.pending.value);
    }
  }

  lemma CaptureKeepsServer(site: Site, s: State, rows: seq<Row>)
    requires Inv(site, s) && Enabled(site, s, Capture(rows))
    ensures ServerInv(site, Do(site, s, Capture(rows)))
  {
    hide NetworkInv, ProcessInv;
    var t := Do(site, s, Capture(rows));
    MaxGrows(s.log, rows);
    UptoGrows(s.log, rows, StoredThrough(s));
    assert t.log[..Upto(t.log, StoredThrough(t))] == s.log[..Upto(s.log, StoredThrough(s))];
  }

  lemma CaptureKeepsProcess(site: Site, s: State, rows: seq<Row>)
    requires Inv(site, s) && Enabled(site, s, Capture(rows))
    ensures ProcessInv(site, Do(site, s, Capture(rows)))
  {
    hide NetworkInv, ServerInv;
    MaxGrows(s.log, rows);
    if s.process.On? && s.process.phase.Built? {
      BatchForGrows(site.redacts, s.log, rows, s.disk, s.process.highWatermark, s.process.scope.pending.value);
    }
  }

  lemma CaptureKeepsInv(site: Site, s: State, rows: seq<Row>)
    requires Inv(site, s) && Enabled(site, s, Capture(rows))
    ensures Inv(site, Do(site, s, Capture(rows)))
  {
    hide DiskInv, ServerInv, NetworkInv, ProcessInv;
    CaptureKeepsDisk(site, s, rows);
    CaptureKeepsServer(site, s, rows);
    CaptureKeepsProcess(site, s, rows);
  }

  lemma {:induction false} StoredHas(bodies: seq<Body>, b: Body)
    requires b in bodies
    ensures forall i :: 0 <= i < |b.events| ==> b.events[i] in Stored(bodies)
  {
    var init, last := bodies[..|bodies| - 1], bodies[|bodies| - 1];
    assert bodies == init + [last];
    if b != last { StoredHas(init, b); }
  }

  // A batch of events after the stored ones has never been sent before.
  lemma BatchIsNew(site: Site, s: State, highWatermark: int, b: Batch)
    requires ValidLog(s.log) && ServerInv(site, s) && StoredThrough(s) == s.disk.cursor
    requires BatchFor(site.redacts, s.log, s.disk, highWatermark, b)
    ensures b.key !in s.receipts
  {
    var n := Upto(s.log, s.disk.cursor);
    var first := b.body.events[0];
    assert RowsIn(s.log, s.disk.cursor, b.through)[0] == s.log[n];
    assert first.id == s.log[n].id;
    if b.key in s.receipts {
      StoredHas(s.stored, b.body);
    }
  }

  lemma CarriesMore(redacts: Redacts, a: seq<Row>, b: seq<Row>, events: seq<WireEvent>, more: seq<WireEvent>)
    requires Carries(redacts, a, events) && Carries(redacts, b, more)
    ensures Carries(redacts, a + b, events + more)
  {
  }

  // Storing the durable pending batch extends the stored prefix to its end.
  lemma AdmitKeepsServerInv(site: Site, s: State, t: State)
    requires ValidLog(s.log) && DiskInv(site, s) && ServerInv(site, s) && s.disk.pending.Some?
    requires var p := s.disk.pending.value;
             && p.key !in s.receipts
             && t == s.(receipts := s.receipts[p.key := p.body], stored := s.stored + [p.body],
                        replies := s.replies + {p.key})
    ensures ServerInv(site, t)
  {
    hide Carries;
    var p := s.disk.pending.value;
    assert t.stored[..|t.stored| - 1] == s.stored;
    var a, b := Upto(s.log, p.after), Upto(s.log, p.through);
    UptoMonotone(s.log, p.after, p.through);
    CarriesMore(site.redacts, s.log[..a], RowsIn(s.log, p.after, p.through), Stored(s.stored), p.body.events);
    assert s.log[..b] == s.log[..a] + RowsIn(s.log, p.after, p.through);
  }

  lemma DeliverKeepsInv(site: Site, s: State, r: Request, admit: bool)
    requires Inv(site, s) && r in s.sent
    ensures Inv(site, Do(site, s, Deliver(r, admit)))
  {
    var t := Do(site, s, Deliver(r, admit));
    if t.stored != s.stored {
      assert r.key == s.disk.pending.value.key && s.disk.pending.value.body == r.body;
      AdmitKeepsServerInv(site, s, t);
    }
  }

  lemma SaveKeepsInv(site: Site, s: State)
    requires Inv(site, s) && Enabled(site, s, Save)
    ensures Inv(site, Do(site, s, Save))
  {
    var t := Do(site, s, Save);
    if s.process.phase.Built? {
      BatchIsNew(site, s, s.process.highWatermark, t.disk.pending.value);
    }
  }

  lemma StepKeepsInv(site: Site, s: State, a: Action)
    requires Inv(site, s) && Enabled(site, s, a)
    ensures Inv(site, Do(site, s, a))
  {
    match a
    case Capture(rows) => CaptureKeepsInv(site, s, rows);
    case Deliver(r, admit) => DeliverKeepsInv(site, s, r, admit);
    case Save => SaveKeepsInv(site, s);
    case _ =>
  }

  lemma {:induction false} RunKeepsInv(site: Site, s: State, actions: seq<Action>)
    requires Inv(site, s) && CanRun(site, s, actions)
    ensures Inv(site, After(site, s, actions))
  {
    if actions != [] {
      RunKeepsInv(site, s, actions[..|actions| - 1]);
      StepKeepsInv(site, After(site, s, actions[..|actions| - 1]), actions[|actions| - 1]);
    }
  }

  lemma InitialInv(site: Site, log: seq<Row>)
    requires ValidLog(log)
    ensures Inv(site, Initial(log))
  {
    UptoMax(log);
  }

  // ----- What it means -------------------------------------------------------

  predicate NoRepeats(ids: seq<string>) {
    forall i, j :: 0 <= i < j < |ids| ==> ids[i] != ids[j]
  }

  // Exactly once: after any run, wherever it was stopped, the server holds the
  // log's events in order and without repetition, exactly through the durable
  // cursor or, when it has taken the durable pending batch, through its end.
  lemma ServerHoldsPrefixOnce(site: Site, log: seq<Row>, actions: seq<Action>)
    requires ValidLog(log) && CanRun(site, Initial(log), actions)
    ensures var s := After(site, Initial(log), actions);
            && Carries(site.redacts, s.log[..Upto(s.log, StoredThrough(s))], Stored(s.stored))
            && NoRepeats(EventIds(Stored(s.stored)))
            && (StoredThrough(s) == s.disk.cursor ||
                (s.disk.pending.Some? && s.disk.pending.value.after == s.disk.cursor
                 && StoredThrough(s) == s.disk.pending.value.through))
  {
    InitialInv(site, log);
    RunKeepsInv(site, Initial(log), actions);
  }

  // Nothing leaves the machine early: whenever the client may send, preview
  // acceptance and the exact request are already on disk.
  lemma SendsOnlyDurable(site: Site, log: seq<Row>, actions: seq<Action>)
    requires ValidLog(log) && CanRun(site, Initial(log), actions + [Post])
    ensures var s := After(site, Initial(log), actions + [Post]);
            var before := After(site, Initial(log), (actions + [Post])[..|actions|]);
            && before.disk.accepted && before.disk.pending.Some?
            && var p := before.disk.pending.value;
               && s.sent == before.sent + {Request(p.key, p.body)}
               && s.disk == before.disk
  {
    assert (actions + [Post])[..|actions|] == actions;
    InitialInv(site, log);
    RunKeepsInv(site, Initial(log), actions);
  }

  // Nothing leaves the machine unredacted: every event in every request, answered or
  // not, carries a text allowed for the envelope of the log's row of that identity.
  lemma OnlyRedactedLeaves(site: Site, log: seq<Row>, actions: seq<Action>, r: Request, i: nat)
    requires ValidLog(log) && CanRun(site, Initial(log), actions)
    requires r in After(site, Initial(log), actions).sent && i < |r.body.events|
    ensures var s := After(site, Initial(log), actions);
            exists k :: 0 <= k < |s.log| && s.log[k].id == r.body.events[i].id
                        && site.redacts(s.log[k].raw, r.body.events[i].text)
  {
    InitialInv(site, log);
    RunKeepsInv(site, Initial(log), actions);
    var s := After(site, Initial(log), actions);
    hide CanRun, After, ValidLog, DiskInv, ProcessInv;
    if r.key in s.receipts {
      StoredHas(s.stored, r.body);
      var k :| 0 <= k < |Stored(s.stored)| && Stored(s.stored)[k] == r.body.events[i];
      assert s.log[..Upto(s.log, StoredThrough(s))][k] == s.log[k];
    } else {
      PendingRow(site, s, i);
    }
  }

  lemma PendingRow(site: Site, s: State, i: nat)
    requires DiskInv(site, s) && s.disk.pending.Some? && i < |s.disk.pending.value.body.events|
    ensures var e := s.disk.pending.value.body.events[i];
            exists k :: 0 <= k < |s.log| && s.log[k].id == e.id && site.redacts(s.log[k].raw, e.text)
  {
    var p := s.disk.pending.value;
    var rows := RowsIn(s.log, p.after, p.through);
    assert rows[i] == s.log[Upto(s.log, p.after) + i];
  }

  // A retransmission is byte-for-byte: at most one request at a time is not yet
  // on the server, and it is the durable pending batch.
  lemma OutstandingIsPending(site: Site, log: seq<Row>, actions: seq<Action>, r: Request)
    requires ValidLog(log) && CanRun(site, Initial(log), actions)
    requires var s := After(site, Initial(log), actions); r in s.sent && r.key !in s.receipts
    ensures var s := After(site, Initial(log), actions);
            s.disk.pending.Some? && r == Request(s.disk.pending.value.key, s.disk.pending.value.body)
  {
    InitialInv(site, log);
    RunKeepsInv(site, Initial(log), actions);
  }
}
