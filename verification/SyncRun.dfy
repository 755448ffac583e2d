// One explicit sync invocation: preview, first-upload acceptance, and the loop
// that builds, saves, posts and advances, proved to take only protocol steps.
module SyncRun {
  import opened Common
  import opened SyncLog
  import opened SyncPacker
  import opened SyncProtocol

  const DEFAULT_BATCH_SIZE := 100

  // What the world does around one call of the client: other actions that
  // happen meanwhile, whether the server then takes what the call sends, and
  // whether the call itself comes back.
  datatype Weather = Weather(actions: seq<Action>, served: bool, succeeds: bool)

  ghost predicate Fair(env: nat -> Weather) {
    forall n :: env(n).served && env(n).succeeds
  }

  // The local store, the state file, the network and the server.
  class World {
    const site: Site
    var st: State
    ghost var history: seq<Action>
    ghost const start: State

    constructor (site: Site, st: State)
      requires ValidLog(st.log)
      ensures this.site == site && this.st == st && Faithful() && history == []
    {
      this.site, this.st, this.start, this.history := site, st, st, [];
    }

    // The current state is what the recorded protocol steps lead to.
    ghost predicate Faithful()
      reads this
    {
      && CanRun(site, start, history) && st == After(site, start, history)
      && ValidLog(st.log)
    }

    method Take(a: Action)
      requires Faithful() && Enabled(site, st, a)
      modifies this
      ensures Faithful() && st == Do(site, old(st), a) && history == old(history) + [a]
      ensures Inv(site, old(st)) ==> Inv(site, st)
    {
      if Inv(site, st) { StepKeepsInv(site, st, a); }
      assert (history + [a])[..|history|] == history;
      st := Do(site, st, a);
      history := history + [a];
    }

    // Other things that happen: local capture, and deliveries to the server.
    method Meanwhile(actions: seq<Action>)
      requires Faithful()
      modifies this
      ensures Faithful() && Undisturbed(old(st), st) && old(history) <= history
      ensures Inv(site, old(st)) ==> Inv(site, st)
    {
      hide Inv;
      for i := 0 to |actions|
        invariant Faithful() && Undisturbed(old(st), st) && old(history) <= history
        invariant Inv(site, old(st)) ==> Inv(site, st)
      {
        if (actions[i].Capture? || actions[i].Deliver?) && Enabled(site, st, actions[i]) {
          ghost var before := st;
          Take(actions[i]);
          if actions[i].Capture? {
            assert st.log[..|before.log|] == before.log;
          }
          UndisturbedTransitive(old(st), before, st);
        }
      }
    }

    // Replaces the state file, or fails leaving it as it was.
    method SaveState(weather: Weather) returns (ok: bool)
      requires Faithful() && Enabled(site, st, Save)
      modifies this
      ensures Faithful() && old(history) <= history && ok == weather.succeeds
      ensures |old(st).log| <= |st.log| && st.log[..|old(st).log|] == old(st).log
      ensures Inv(site, old(st)) ==> Inv(site, st)
      ensures ok ==> st.disk == old(st).process.scope && st.process == old(st).process.(phase := Ready)
      ensures !ok ==> st.disk == old(st).disk && st.process == old(st).process
    {
      hide Inv;
      Meanwhile(weather.actions);
      ok := weather.succeeds;
      if ok { Take(Save); }
    }

    // Sends the pending batch. The request may be lost, answered late or never;
    // a receipt is the server's own for this key.
    method PostPending(weather: Weather) returns (receipt: Option<Receipt>)
      requires Faithful() && Enabled(site, st, Post)
      modifies this
      ensures Faithful() && old(history) <= history
      ensures |old(st).log| <= |st.log| && st.log[..|old(st).log|] == old(st).log
      ensures st.disk == old(st).disk && st.process == old(st).process.(phase := Waiting)
      ensures receipt.Some? ==> old(st).process.scope.pending.value.key in st.replies
      ensures Inv(site, old(st)) ==> Inv(site, st)
      ensures Inv(site, old(st)) && weather.served && weather.succeeds ==>
                receipt == Some(Receipt(old(st).process.scope.pending.value.stats.events, site.workspace))
    {
      hide Inv, CanRun, ValidLog, MaxSeq;
      var p := st.process.scope.pending.value;
      var request := Request(p.key, p.body);
      Take(Post);
      ghost var before := st;
      Meanwhile(weather.actions);
      if weather.served {
        if Inv(site, st) { ServedIsReplied(site, st, p); }
        Take(Deliver(request, true));
      }
      if weather.succeeds && p.key in st.replies && p.key in st.receipts {
        return Some(Receipt(|st.receipts[p.key].events|, site.workspace));
      }
      return None;
    }
  }

  datatype Receipt = Receipt(accepted: nat, workspace: string)

  // A delivery that the server does not refuse is answered with a receipt for
  // the whole pending batch, new or repeated.
  lemma ServedIsReplied(site: Site, s: State, p: Batch)
    requires Inv(site, s) && s.process.On? && s.process.phase.Waiting? && s.process.scope.pending == Some(p)
    requires Request(p.key, p.body) in s.sent
    ensures var t := Do(site, s, Deliver(Request(p.key, p.body), true));
            p.key in t.replies && p.key in t.receipts && |t.receipts[p.key].events| == p.stats.events
  {
    hide ValidLog, Stored, Carries;
  }

  // The client's own state is untouched and the log has only grown.
  ghost predicate Undisturbed(s: State, t: State) {
    && t.disk == s.disk && t.process == s.process && t.sent == s.sent
    && |s.log| <= |t.log| && t.log[..|s.log|] == s.log
  }

  lemma UndisturbedTransitive(a: State, b: State, c: State)
    requires Undisturbed(a, b) && Undisturbed(b, c)
    ensures Undisturbed(a, c)
  {
    assert c.log[..|a.log|] == c.log[..|b.log|][..|a.log|];
  }

  // A range that was complete reads the same after more capture.
  lemma RangeKept(log: seq<Row>, later: seq<Row>, after: int, highWatermark: int)
    requires ValidLog(later) && |log| <= |later| && later[..|log|] == log
    requires after <= highWatermark <= MaxSeq(log)
    ensures ValidLog(log) && RowsIn(later, after, highWatermark) == RowsIn(log, after, highWatermark)
    ensures MaxSeq(log) <= MaxSeq(later)
  {
    var more := later[|log|..];
    assert later == log + more;
    UptoGrows(log, more, after);
    UptoGrows(log, more, highWatermark);
    MaxGrows(log, more);
    assert RowsIn(log + more, after, highWatermark) == RowsIn(log, after, highWatermark);
  }

  datatype Options = Options(batchSize: int, previewOnly: bool, acceptRedaction: bool, shown: bool)

  datatype Report = Report(
    highWatermark: int, cursor: int, preview: Stats, acceptedEvents: nat,
    batchesSent: nat, upToDate: bool, firstUpload: bool)

  predicate RowOk(engine: Engine, quote: string -> string, workspace: string, row: Row) {
    && engine(row.raw).Some?
    && Fits(quote, Body(workspace, [WireEvent(row.id, engine(row.raw).value.text)]))
  }

  // Every row redacts, and fits one request alone.
  predicate Previewable(engine: Engine, quote: string -> string, workspace: string, rows: seq<Row>) {
    forall i {:trigger RowOk(engine, quote, workspace, rows[i])} :: 0 <= i < |rows| ==>
      RowOk(engine, quote, workspace, rows[i])
  }

  function PreviewFrom(scope: Scope): int {
    if scope.pending.Some? then scope.pending.value.through else scope.cursor
  }

  function PendingStats(scope: Scope): Stats {
    if scope.pending.Some? then scope.pending.value.stats else NO_STATS
  }

  // What a preview counts: the pending batch as recorded, and every later row.
  function PreviewTotal(engine: Engine, log: seq<Row>, scope: Scope, highWatermark: int): Stats {
    PendingStats(scope).Add(Tally(engine, RowsIn(log, PreviewFrom(scope), highWatermark)))
  }

  // What is still to be accepted: the pending batch and every later row.
  function Remaining(log: seq<Row>, scope: Scope, highWatermark: int): nat {
    PendingStats(scope).events + |RowsIn(log, PreviewFrom(scope), highWatermark)|
  }

  lemma NoTally(engine: Engine, rows: seq<Row>)
    requires rows == []
    ensures Tally(engine, rows) == NO_STATS
  {
  }

  lemma TallyStep(engine: Engine, page: seq<Row>, i: nat)
    requires i < |page| && engine(page[i].raw).Some?
    ensures Tally(engine, page[..i + 1]) == Tally(engine, page[..i]).Add(StatsOf(engine(page[i].raw)))
    ensures StatsOf(engine(page[i].raw)).events == 1
  {
    assert page[..i + 1][..i] == page[..i];
  }

  method PreviewPage(engine: Engine, quote: string -> string, workspace: string, page: seq<Row>)
    returns (stats: Stats, failure: Option<Failure>)
    ensures failure.None? <==> Previewable(engine, quote, workspace, page)
    ensures failure.None? ==> stats == Tally(engine, page) && stats.events == |page|
  {
    hide Fits, Tally, StatsOf;
    stats := NO_STATS;
    NoTally(engine, page[..0]);
    for i := 0 to |page|
      invariant Previewable(engine, quote, workspace, page[..i])
      invariant stats == Tally(engine, page[..i]) && stats.events == i
    {
      assert page[..i + 1][..i] == page[..i];
      var out := engine(page[i].raw);
      assert RowOk(engine, quote, workspace, page[i]) <==>
             out.Some? && Fits(quote, Body(workspace, [WireEvent(page[i].id, out.value.text)]));
      if out.None? { return stats, Some(RedactionFailed); }
      if !Fits(quote, Body(workspace, [WireEvent(page[i].id, out.value.text)])) {
        return stats, Some(TooLarge);
      }
      TallyStep(engine, page, i);
      stats := stats.Add(StatsOf(out));
    }
    assert page[..|page|] == page;
    return stats, None;
  }

  // Reads one page of a preview: it continues the range, and lies inside it.
  method NextPage(log: seq<Row>, ghost from: int, after: int, highWatermark: int, ghost seen: seq<Row>)
    returns (page: seq<Row>, next: int)
    requires ValidLog(log) && 0 <= from <= after < highWatermark == MaxSeq(log)
    requires seen == RowsIn(log, from, after)
    ensures page == Page(log, after, highWatermark, MAX_EVENTS_PER_BATCH) && page != []
    ensures after < next <= highWatermark
    ensures seen + page == RowsIn(log, from, next)
    ensures seen + page <= RowsIn(log, from, highWatermark)
  {
    page := Page(log, after, highWatermark, MAX_EVENTS_PER_BATCH);
    PageEmpty(log, after, MAX_EVENTS_PER_BATCH);
    next := page[|page| - 1].seqNo;
    PagePrefix(log, after, highWatermark, MAX_EVENTS_PER_BATCH, |page|);
    assert page[..|page|] == page;
    RowsInConcat(log, from, after, next);
    RowsInConcat(log, from, next, highWatermark);
  }

  lemma RowsPast(log: seq<Row>, from: int, after: int)
    requires ValidLog(log) && MaxSeq(log) <= after
    ensures RowsIn(log, from, after) == RowsIn(log, from, MaxSeq(log))
  {
    UptoMax(log);
    UptoMonotone(log, MaxSeq(log), after);
  }

  // Redacts and sizes the rows after one sequence, a page at a time.
  method PreviewRows(engine: Engine, quote: string -> string, workspace: string, log: seq<Row>,
                     from: int, highWatermark: int) returns (r: Result<Stats, Failure>)
    requires ValidLog(log) && 0 <= from && highWatermark == MaxSeq(log)
    ensures r.Ok? <==> Previewable(engine, quote, workspace, RowsIn(log, from, highWatermark))
    ensures r.Ok? ==> r.value == Tally(engine, RowsIn(log, from, highWatermark))
    ensures r.Ok? ==> r.value.events == |RowsIn(log, from, highWatermark)|
  {
    var total, after := NO_STATS, from;
    ghost var seen: seq<Row> := [];
    RowsInNone(log, from);
    while after < highWatermark
      invariant from <= after
      invariant seen == RowsIn(log, from, after) && Previewable(engine, quote, workspace, seen)
      invariant total == Tally(engine, seen) && total.events == |seen|
      decreases highWatermark - after
    {
      var page, next := NextPage(log, from, after, highWatermark, seen);
      var stats, failure := PreviewPage(engine, quote, workspace, page);
      PreviewableParts(engine, quote, workspace, seen, page, RowsIn(log, from, highWatermark));
      if failure.Some? { return Err(failure.value); }
      PreviewableParts(engine, quote, workspace, seen, page, seen + page);
      TallyConcat(engine, seen, page);
      seen, total, after := seen + page, total.Add(stats), next;
    }
    RowsPast(log, from, after);
    return Ok(total);
  }

  // Redacts and sizes every event that would be sent, writing nothing.
  method PreviewRange(engine: Engine, quote: string -> string, log: seq<Row>, scope: Scope, highWatermark: int)
    returns (r: Result<Stats, Failure>)
    requires ValidLog(log) && 0 <= scope.cursor && highWatermark == MaxSeq(log)
    requires scope.pending.Some? ==> scope.cursor < scope.pending.value.through
    ensures r.Ok? <==> Previewable(engine, quote, scope.workspace, RowsIn(log, PreviewFrom(scope), highWatermark))
    ensures r.Ok? ==> r.value == PreviewTotal(engine, log, scope, highWatermark)
    ensures r.Ok? ==> r.value.events == Remaining(log, scope, highWatermark)
  {
    var rest := PreviewRows(engine, quote, scope.workspace, log, PreviewFrom(scope), highWatermark);
    return if rest.Ok? then Ok(PendingStats(scope).Add(rest.value)) else rest;
  }

  lemma PreviewableParts(engine: Engine, quote: string -> string, workspace: string,
                         seen: seq<Row>, page: seq<Row>, all: seq<Row>)
    requires seen + page <= all
    ensures Previewable(engine, quote, workspace, all) ==> Previewable(engine, quote, workspace, page)
    ensures all == seen + page ==>
              (Previewable(engine, quote, workspace, seen) && Previewable(engine, quote, workspace, page) ==>
                 Previewable(engine, quote, workspace, all))
  {
    assert forall i :: 0 <= i < |page| ==> page[i] == (seen + page)[|seen| + i] == all[|seen| + i];
    if Previewable(engine, quote, workspace, all) {
      forall i | 0 <= i < |page|
        ensures RowOk(engine, quote, workspace, page[i])
      {
        assert RowOk(engine, quote, workspace, all[|seen| + i]);
      }
    }
    if && all == seen + page && Previewable(engine, quote, workspace, seen)
       && Previewable(engine, quote, workspace, page) {
      forall i | 0 <= i < |all|
        ensures RowOk(engine, quote, workspace, all[i])
      {
        if i < |seen| {
          assert RowOk(engine, quote, workspace, seen[i]);
        } else {
          assert RowOk(engine, quote, workspace, page[i - |seen|]);
        }
      }
    }
  }

  // The uploading client between two iterations.
  ghost predicate Uploading(world: World, log: seq<Row>, highWatermark: int)
    reads world
  {
    && world.Faithful()
    && world.st.process == On(world.st.disk, highWatermark, Ready)
    && 0 <= world.st.disk.cursor <= highWatermark == MaxSeq(log)
    && (world.st.disk.pending.Some? ==>
          && world.st.disk.pending.value.after == world.st.disk.cursor
          && world.st.disk.cursor < world.st.disk.pending.value.through <= highWatermark)
    && |log| <= |world.st.log| && world.st.log[..|log|] == log
  }

  // Building and saving the next batch moves rows into it and loses none.
  lemma BuildKeepsRemaining(redacts: Redacts, log: seq<Row>, later: seq<Row>, scope: Scope, highWatermark: int, b: Batch)
    requires ValidLog(later) && |log| <= |later| && later[..|log|] == log
    requires 0 <= scope.cursor <= highWatermark == MaxSeq(log) && scope.pending.None?
    requires BatchFor(redacts, later, scope, highWatermark, b)
    ensures Remaining(log, scope.(pending := Some(b)), highWatermark) == Remaining(log, scope, highWatermark)
  {
    RangeKept(log, later, scope.cursor, highWatermark);
    RangeKept(log, later, b.through, highWatermark);
    RowsInConcat(later, scope.cursor, b.through, highWatermark);
  }

  // A page of rows that preview can be packed.
  lemma PagePacks(engine: Engine, quote: string -> string, workspace: string, log: seq<Row>,
                  cursor: int, highWatermark: int, limit: nat)
    requires Previewable(engine, quote, workspace, RowsIn(log, cursor, highWatermark))
    ensures var page := Page(log, cursor, highWatermark, limit);
            && Redactable(engine, page)
            && (page != [] ==> Fits(quote, Body(workspace, Wire(engine, page)[..1])))
  {
    hide Fits;
    var rows, page := RowsIn(log, cursor, highWatermark), Page(log, cursor, highWatermark, limit);
    forall i | 0 <= i < |page|
      ensures engine(page[i].raw).Some?
    {
      assert page[i] == rows[i] && RowOk(engine, quote, workspace, rows[i]);
    }
    if page != [] {
      assert page[0] == rows[0] && RowOk(engine, quote, workspace, rows[0]);
      assert Wire(engine, page)[..1] == [WireEvent(page[0].id, engine(page[0].raw).value.text)];
    }
  }

  // What fits under a workspace fits without one.
  lemma UnboundFits(engine: Engine, quote: string -> string, workspace: string, rows: seq<Row>)
    requires Previewable(engine, quote, workspace, rows)
    ensures Previewable(engine, quote, "", rows)
  {
    forall i | 0 <= i < |rows|
      ensures RowOk(engine, quote, "", rows[i])
    {
      assert RowOk(engine, quote, workspace, rows[i]);
    }
  }

  // A later part of rows that preview does.
  lemma LaterPreviewable(engine: Engine, quote: string -> string, workspace: string, log: seq<Row>,
                         from: int, after: int, highWatermark: int)
    requires ValidLog(log) && from <= after <= highWatermark
    requires Previewable(engine, quote, workspace, RowsIn(log, from, highWatermark))
    ensures Previewable(engine, quote, workspace, RowsIn(log, after, highWatermark))
  {
    hide RowOk;
    RowsInConcat(log, from, after, highWatermark);
    var head, rows, all := RowsIn(log, from, after), RowsIn(log, after, highWatermark), RowsIn(log, from, highWatermark);
    forall i | 0 <= i < |rows|
      ensures RowOk(engine, quote, workspace, rows[i])
    {
      assert all[|head| + i] == rows[i];
    }
  }

  lemma BatchBounds(redacts: Redacts, log: seq<Row>, scope: Scope, highWatermark: int, b: Batch)
    requires BatchFor(redacts, log, scope, highWatermark, b)
    ensures b.after == scope.cursor < b.through <= highWatermark
  {
  }

  // The engine makes nothing of an envelope that may not stand for it.
  ghost predicate Allows(redacts: Redacts, engine: Engine) {
    forall raw :: engine(raw).Some? ==> redacts(raw, engine(raw).value.text)
  }

  // The batch the protocol may build next.
  method NextBatch(engine: Engine, quote: string -> string, log: seq<Row>, scope: Scope, highWatermark: int, limit: nat,
                   ghost redacts: Redacts)
    returns (r: Result<Option<Batch>, Failure>)
    requires ValidLog(log) && limit > 0 && Allows(redacts, engine)
    ensures r.Ok? && r.value.None? ==> Page(log, scope.cursor, highWatermark, limit) == []
    ensures r.Ok? && r.value.Some? ==> BatchFor(redacts, log, scope, highWatermark, r.value.value)
    ensures r.Err? ==> !Previewable(engine, quote, scope.workspace, RowsIn(log, scope.cursor, highWatermark))
  {
    if Previewable(engine, quote, scope.workspace, RowsIn(log, scope.cursor, highWatermark)) {
      PagePacks(engine, quote, scope.workspace, log, scope.cursor, highWatermark, limit);
    }
    r := BuildPending(engine, quote, log, scope.workspace, scope.cursor, highWatermark, limit);
    hide Fits, ValidLog, RowsIn, Page, Previewable, BatchFor, Redactions, BatchOf, Wire, Allows;
    if r.Ok? && r.value.Some? {
      ghost var page := Page(log, scope.cursor, highWatermark, limit);
      ghost var n :| 0 < n <= |page| && r.value.value == BatchOf(engine, scope.workspace, scope.cursor, page, n)
                     && Fits(quote, Body(scope.workspace, Wire(engine, page)[..n]))
                     && (n < |page| ==> !Fits(quote, Body(scope.workspace, Wire(engine, page)[..n + 1])));
      PackedMayBuild(engine, quote, log, scope, highWatermark, limit, redacts, n);
    }
  }

  lemma PackedMayBuild(engine: Engine, quote: string -> string, log: seq<Row>, scope: Scope, highWatermark: int,
                       limit: nat, redacts: Redacts, n: nat)
    requires ValidLog(log) && Allows(redacts, engine) && Redactable(engine, Page(log, scope.cursor, highWatermark, limit))
    requires 0 < n <= |Page(log, scope.cursor, highWatermark, limit)|
    requires var events := Wire(engine, Page(log, scope.cursor, highWatermark, limit));
             && Fits(quote, Body(scope.workspace, events[..n]))
             && (n < |events| ==> !Fits(quote, Body(scope.workspace, events[..n + 1])))
    ensures BatchFor(redacts, log, scope, highWatermark,
                     BatchOf(engine, scope.workspace, scope.cursor, Page(log, scope.cursor, highWatermark, limit), n))
  {
    hide Fits, ValidLog, RowsIn, Page, Tally, Redactions, Carries, Allows;
    PackedBatch(engine, quote, log, scope.workspace, scope.cursor, highWatermark, limit, n);
    var b := BatchOf(engine, scope.workspace, scope.cursor, Page(log, scope.cursor, highWatermark, limit), n);
    RedactionsCarry(engine, redacts, RowsIn(log, scope.cursor, b.through), b.body.events);
  }

  lemma RedactionsCarry(engine: Engine, redacts: Redacts, rows: seq<Row>, events: seq<WireEvent>)
    requires Redactions(engine, rows, events) && Allows(redacts, engine)
    ensures Carries(redacts, rows, events)
  {
  }

  // Packs the next batch and makes it durable. Ok(false) when nothing is left.
  method PrepareBatch(world: World, engine: Engine, quote: string -> string, limit: nat,
                      ghost log: seq<Row>, highWatermark: int, weather: Weather)
    returns (r: Result<bool, Failure>)
    requires Uploading(world, log, highWatermark) && world.st.disk.pending.None? && limit > 0
    requires Allows(world.site.redacts, engine)
    modifies world
    ensures world.Faithful() && old(world.history) <= world.history && world.st.process.On?
    ensures r == Ok(true) ==>
              && Uploading(world, log, highWatermark) && world.st.disk.pending.Some?
              && world.st.disk.cursor == old(world.st).disk.cursor
              && Remaining(log, world.st.disk, highWatermark) == Remaining(log, old(world.st).disk, highWatermark)
    ensures r == Ok(false) ==> world.st == old(world.st) && Page(world.st.log, world.st.disk.cursor, highWatermark, limit) == []
    ensures r == Ok(true) ==> world.st.disk.workspace == old(world.st).disk.workspace
    ensures Inv(world.site, old(world.st)) ==> Inv(world.site, world.st)
    ensures weather.succeeds &&
            Previewable(engine, quote, old(world.st).disk.workspace, RowsIn(log, old(world.st).disk.cursor, highWatermark)) ==>
              r.Ok?
  {
    hide Inv, Previewable, BatchFor, Remaining, RowsIn, Page, ValidLog, MaxSeq, CanRun;
    RangeKept(log, world.st.log, world.st.disk.cursor, highWatermark);
    var scope := world.st.disk;
    var built := NextBatch(engine, quote, world.st.log, scope, highWatermark, limit, world.site.redacts);
    if built.Err? { return Err(built.error); }
    if built.value.None? { return Ok(false); }
    var b := built.value.value;
    BuildKeepsRemaining(world.site.redacts, log, world.st.log, scope, highWatermark, b);
    BatchBounds(world.site.redacts, world.st.log, scope, highWatermark, b);
    world.Take(Build(b));
    var saved := world.SaveState(weather);
    if !saved { return Err(NotSaved); }
    GrowsTransitive(log, old(world.st).log, world.st.log);
    return Ok(true);
  }

  lemma GrowsTransitive(a: seq<Row>, b: seq<Row>, c: seq<Row>)
    requires |a| <= |b| && b[..|a|] == a && |b| <= |c| && c[..|b|] == b
    ensures |a| <= |c| && c[..|a|] == a
  {
    assert c[..|a|] == c[..|b|][..|a|];
  }

  lemma BoundToToken(site: Site, s: State)
    requires Inv(site, s)
    ensures s.disk.workspace == "" || s.disk.workspace == site.workspace
  {
  }

  lemma SentRemains(log: seq<Row>, scope: Scope, p: Batch, workspace: string, highWatermark: int)
    requires scope.pending == Some(p)
    ensures p.stats.events + Remaining(log, Scope(workspace, p.through, scope.accepted, None), highWatermark) ==
            Remaining(log, scope, highWatermark)
  {
  }

  // Posts the durable pending batch and checks the server's receipt.
  method ConfirmBatch(world: World, ghost log: seq<Row>, highWatermark: int, posting: Weather)
    returns (failure: Option<Failure>)
    requires Uploading(world, log, highWatermark) && world.st.disk.pending.Some?
    modifies world
    ensures world.Faithful() && old(world.history) <= world.history && world.st.process.On?
    ensures failure.None? ==>
              && world.st.disk == old(world.st).disk && |log| <= |world.st.log| && world.st.log[..|log|] == log
              && world.st.process == On(Scope(world.site.workspace, old(world.st).disk.pending.value.through,
                                              old(world.st).disk.accepted, None), highWatermark, Received)
    ensures Inv(world.site, old(world.st)) ==> Inv(world.site, world.st)
    ensures Inv(world.site, old(world.st)) && posting.served && posting.succeeds ==> failure.None?
  {
    if Inv(world.site, world.st) { BoundToToken(world.site, world.st); }
    hide Inv, ValidLog, CanRun, MaxSeq, World.Faithful;
    var scope := world.st.disk;
    var p := scope.pending.value;
    var receipt := world.PostPending(posting);
    if receipt.None? { return Some(Unavailable); }
    if receipt.value.accepted != p.stats.events { return Some(Rejected); }
    if scope.workspace != "" && receipt.value.workspace != scope.workspace { return Some(Rejected); }
    if scope.workspace != "" && scope.workspace != world.site.workspace { return Some(Rejected); }
    GrowsTransitive(log, old(world.st).log, world.st.log);
    world.Take(Receive);
    return None;
  }

  // Sends the durable pending batch and, on the server's receipt, advances.
  method SendBatch(world: World, ghost log: seq<Row>, highWatermark: int, posting: Weather, saving: Weather)
    returns (r: Result<nat, Failure>)
    requires Uploading(world, log, highWatermark) && world.st.disk.pending.Some?
    modifies world
    ensures world.Faithful() && old(world.history) <= world.history && world.st.process.On?
    ensures r.Ok? ==>
              && Uploading(world, log, highWatermark)
              && world.st.disk == Scope(world.site.workspace, old(world.st).disk.pending.value.through,
                                        old(world.st).disk.accepted, None)
              && r.value + Remaining(log, world.st.disk, highWatermark) == Remaining(log, old(world.st).disk, highWatermark)
    ensures Inv(world.site, old(world.st)) ==> Inv(world.site, world.st)
    ensures Inv(world.site, old(world.st)) && posting.served && posting.succeeds && saving.succeeds ==> r.Ok?
  {
    hide Inv, Remaining, RowsIn, ValidLog, CanRun, MaxSeq, World.Faithful;
    var p := world.st.disk.pending.value;
    SentRemains(log, world.st.disk, p, world.site.workspace, highWatermark);
    var failure := ConfirmBatch(world, log, highWatermark, posting);
    if failure.Some? { return Err(failure.value); }
    ghost var posted := world.st.log;
    var saved := world.SaveState(saving);
    if !saved { return Err(NotSaved); }
    GrowsTransitive(log, posted, world.st.log);
    return Ok(p.stats.events);
  }

  // Every row still to be packed can be sent under the token's workspace.
  ghost predicate Sendable(engine: Engine, quote: string -> string, world: World, log: seq<Row>, highWatermark: int)
    reads world
  {
    && Inv(world.site, world.st)
    && Previewable(engine, quote, world.site.workspace, RowsIn(log, PreviewFrom(world.st.disk), highWatermark))
  }

  // One round of uploading: packs a batch unless one is pending, and sends it.
  // Ok(None) when there is none.
  method UploadNext(world: World, engine: Engine, quote: string -> string, limit: nat, ghost log: seq<Row>,
                    highWatermark: int, building: Weather, posting: Weather, saving: Weather)
    returns (r: Result<Option<nat>, Failure>)
    requires Uploading(world, log, highWatermark) && limit > 0 && Allows(world.site.redacts, engine)
    requires world.st.disk.cursor < highWatermark || world.st.disk.pending.Some?
    modifies world
    ensures world.Faithful() && old(world.history) <= world.history && world.st.process.On?
    ensures r == Ok(None) ==>
              world.st == old(world.st) && Page(world.st.log, world.st.disk.cursor, highWatermark, limit) == [] &&
              world.st.disk.pending.None?
    ensures r.Ok? && r.value.Some? ==>
              && Uploading(world, log, highWatermark) && old(world.st).disk.cursor < world.st.disk.cursor
              && r.value.value + Remaining(log, world.st.disk, highWatermark) ==
                 Remaining(log, old(world.st).disk, highWatermark)
    ensures Inv(world.site, old(world.st)) ==> Inv(world.site, world.st)
    ensures old(Sendable(engine, quote, world, log, highWatermark)) && r.Ok? && r.value.Some? ==>
              Sendable(engine, quote, world, log, highWatermark)
    ensures (old(Sendable(engine, quote, world, log, highWatermark)) &&
             building.succeeds && posting.served && posting.succeeds && saving.succeeds) ==> r.Ok?
  {
    ghost var good := Sendable(engine, quote, world, log, highWatermark);
    if good { StaysSendable(engine, quote, world, log, highWatermark); }
    hide Inv, Previewable, Remaining, RowsIn, Page, ValidLog, CanRun, MaxSeq, Sendable;
    if world.st.disk.pending.None? {
      var prepared := PrepareBatch(world, engine, quote, limit, log, highWatermark, building);
      if prepared.Err? { return Err(prepared.error); }
      if !prepared.value { return Ok(None); }
    }
    ghost var through := world.st.disk.pending.value.through;
    var sent := SendBatch(world, log, highWatermark, posting, saving);
    if sent.Err? { return Err(sent.error); }
    if good { SentIsSendable(engine, quote, world, log, highWatermark, through); }
    return Ok(Some(sent.value));
  }

  lemma SentIsSendable(engine: Engine, quote: string -> string, world: World, log: seq<Row>, highWatermark: int,
                       through: int)
    requires Inv(world.site, world.st) && world.st.disk.cursor == through && world.st.disk.pending.None?
    requires Previewable(engine, quote, world.site.workspace, RowsIn(log, through, highWatermark))
    ensures Sendable(engine, quote, world, log, highWatermark)
  {
    hide Inv, Previewable, RowsIn;
  }

  // The upload loop: send what is pending, then pack and send until every row
  // through the high-water mark is accepted.
  method Upload(world: World, engine: Engine, quote: string -> string, limit: nat, ghost log: seq<Row>,
                highWatermark: int, env: nat -> Weather)
    returns (accepted: nat, batches: nat, failure: Option<Failure>)
    requires Uploading(world, log, highWatermark) && limit > 0 && Allows(world.site.redacts, engine)
    modifies world
    ensures world.Faithful() && old(world.history) <= world.history && world.st.process.On?
    ensures failure.None? ==>
              && accepted == Remaining(log, old(world.st).disk, highWatermark)
              && world.st.disk.pending.None? && world.st.disk.cursor == highWatermark
    ensures Inv(world.site, old(world.st)) ==> Inv(world.site, world.st)
    ensures old(Sendable(engine, quote, world, log, highWatermark)) && Fair(env) ==> failure.None?
  {
    hide Inv, Remaining, RowsIn, Page, ValidLog, MaxSeq, Sendable, CanRun;
    ghost var good := Sendable(engine, quote, world, log, highWatermark);
    accepted, batches := 0, 0;
    var call := 0;
    while world.st.disk.cursor < highWatermark || world.st.disk.pending.Some?
      invariant Uploading(world, log, highWatermark) && old(world.history) <= world.history
      invariant accepted + Remaining(log, world.st.disk, highWatermark) == Remaining(log, old(world.st).disk, highWatermark)
      invariant Inv(world.site, old(world.st)) ==> Inv(world.site, world.st)
      invariant good ==> Sendable(engine, quote, world, log, highWatermark)
      decreases highWatermark - world.st.disk.cursor
    {
      if world.st.disk.pending.None? {
        PageLeft(log, world.st.log, world.st.disk.cursor, highWatermark, limit);
      }
      var sent := UploadNext(world, engine, quote, limit, log, highWatermark, env(call), env(call + 1), env(call + 2));
      if sent.Err? { return accepted, batches, Some(sent.error); }
      if sent.value.None? { break; }
      accepted, batches, call := accepted + sent.value.value, batches + 1, call + 3;
    }
    NothingLeft(log, world.st.disk);
    return accepted, batches, None;
  }

  // Rows that preview under the token's workspace do so under the bound one, and
  // still do when some of them have been packed.
  lemma StaysSendable(engine: Engine, quote: string -> string, world: World, log: seq<Row>, highWatermark: int)
    requires Uploading(world, log, highWatermark) && Sendable(engine, quote, world, log, highWatermark)
    ensures Previewable(engine, quote, world.st.disk.workspace, RowsIn(log, PreviewFrom(world.st.disk), highWatermark))
    ensures forall after | PreviewFrom(world.st.disk) <= after <= highWatermark ::
              Previewable(engine, quote, world.site.workspace, RowsIn(log, after, highWatermark))
  {
    var from := PreviewFrom(world.st.disk);
    LogStaysValid(log, world.st.log);
    UnboundFits(engine, quote, world.site.workspace, RowsIn(log, from, highWatermark));
    forall after | from <= after <= highWatermark
      ensures Previewable(engine, quote, world.site.workspace, RowsIn(log, after, highWatermark))
    {
      LaterPreviewable(engine, quote, world.site.workspace, log, from, after, highWatermark);
    }
  }

  lemma LogStaysValid(log: seq<Row>, later: seq<Row>)
    requires ValidLog(later) && |log| <= |later| && later[..|log|] == log
    ensures ValidLog(log)
  {
    assert forall i :: 0 <= i < |log| ==> log[i] == later[i];
  }

  lemma NothingLeft(log: seq<Row>, scope: Scope)
    requires scope.pending.None?
    ensures Remaining(log, scope, scope.cursor) == 0
  {
    RowsInNone(log, scope.cursor);
  }

  lemma PageLeft(log: seq<Row>, later: seq<Row>, cursor: int, highWatermark: int, limit: nat)
    requires ValidLog(later) && |log| <= |later| && later[..|log|] == log
    requires 0 <= cursor < highWatermark == MaxSeq(log) && limit > 0
    ensures Page(later, cursor, highWatermark, limit) != []
  {
    RangeKept(log, later, cursor, highWatermark);
    PageEmpty(log, cursor, limit);
  }

  // Whether to go on uploading, or how the invocation ends without it.
  datatype Verdict = Finished(failure: Option<Failure>) | GoAhead

  // Everything before the first write: limits, the consistency of the state
  // file, the preview, and first-upload acceptance.
  method Preflight(log: seq<Row>, scope: Scope, engine: Engine, quote: string -> string, opts: Options)
    returns (report: Report, limit: int, verdict: Verdict)
    requires ValidLog(log)
    ensures verdict.GoAhead? || verdict == Finished(None) ==>
              && report.highWatermark == MaxSeq(log) && 0 <= scope.cursor <= MaxSeq(log)
              && report.preview == PreviewTotal(engine, log, scope, report.highWatermark)
              && report.preview.events == Remaining(log, scope, report.highWatermark)
              && PendingValid(quote, scope, report.highWatermark)
    ensures verdict.GoAhead? ==>
              && 1 <= limit <= MAX_EVENTS_PER_BATCH && !opts.previewOnly && report.preview.events > 0
              && (!scope.accepted ==> opts.acceptRedaction && opts.shown)
    ensures verdict == Finished(None) && !opts.previewOnly ==>
              report.preview.events == 0 == report.acceptedEvents && report.upToDate
    ensures opts.previewOnly ==> verdict.Finished?
    ensures !Previewable(engine, quote, scope.workspace, RowsIn(log, PreviewFrom(scope), MaxSeq(log))) ==>
              verdict.Finished? && verdict.failure.Some?
    ensures Invocable(log, scope, quote, opts) &&
            Previewable(engine, quote, scope.workspace, RowsIn(log, PreviewFrom(scope), MaxSeq(log))) ==>
              verdict.GoAhead? || verdict == Finished(None)
  {
    hide PreviewTotal, Remaining, PendingValid, ValidLog, MaxSeq, Previewable;
    var bad;
    limit, bad := CheckState(log, scope, quote, opts.batchSize);
    var highWatermark := MaxSeq(log);
    report := Report(highWatermark, scope.cursor, NO_STATS, 0, 0, false, !scope.accepted);
    if bad.Some? { return report, limit, Finished(bad); }
    var preview := PreviewRange(engine, quote, log, scope, highWatermark);
    if preview.Err? { return report, limit, Finished(Some(preview.error)); }
    report := report.(preview := preview.value, upToDate := preview.value.events == 0);
    verdict := Judge(scope, opts, preview.value.events);
  }

  // What an invocation needs beside the rows: a batch size within limits, a
  // consistent state file, and acceptance when it is to upload.
  predicate Invocable(log: seq<Row>, scope: Scope, quote: string -> string, opts: Options) {
    && 0 <= opts.batchSize <= MAX_EVENTS_PER_BATCH
    && 0 <= scope.cursor <= MaxSeq(log) && PendingValid(quote, scope, MaxSeq(log))
    && (opts.previewOnly || scope.accepted || (opts.acceptRedaction && opts.shown))
  }

  // A pending batch that the state file may hold: it starts at the cursor and ends
  // within the log, carries the key of its own body and the scope's workspace, counts
  // its events, and fits one request.
  predicate Resumable(quote: string -> string, scope: Scope, highWatermark: int) {
    match scope.pending
    case None => true
    case Some(Batch(after, through, Key(of), Body(workspace, events), stats)) =>
      && scope.cursor == after < through && through <= highWatermark
      && of == Body(workspace, events) && workspace == scope.workspace
      && stats.events == |events| && 0 < |events| <= 500
      && |Encode(quote, Body(workspace, events))| <= 262144
  }

  lemma ResumableMeans(quote: string -> string, scope: Scope, highWatermark: int)
    ensures PendingValid(quote, scope, highWatermark) <==> Resumable(quote, scope, highWatermark)
  {
    hide Encode;
  }

  // The limits on the invocation and the consistency of the state file.
  method CheckState(log: seq<Row>, scope: Scope, quote: string -> string, batchSize: int)
    returns (limit: int, bad: Option<Failure>)
    ensures (0 <= batchSize <= MAX_EVENTS_PER_BATCH && 0 <= scope.cursor <= MaxSeq(log) &&
             PendingValid(quote, scope, MaxSeq(log))) ==> bad.None?
    ensures bad.None? ==>
              && 1 <= limit <= MAX_EVENTS_PER_BATCH && 0 <= scope.cursor <= MaxSeq(log)
              && PendingValid(quote, scope, MaxSeq(log))
              && limit == (if batchSize == 0 then DEFAULT_BATCH_SIZE else batchSize)
  {
    limit := if batchSize == 0 then DEFAULT_BATCH_SIZE else batchSize;
    if limit < 1 || limit > MAX_EVENTS_PER_BATCH { return limit, Some(Inconsistent); }
    if scope.cursor < 0 { return limit, Some(Inconsistent); }
    if scope.cursor > MaxSeq(log) { return limit, Some(AheadOfLog); }
    if !PendingValid(quote, scope, MaxSeq(log)) { return limit, Some(Inconsistent); }
    return limit, None;
  }

  // What a successful preview leads to.
  function Judge(scope: Scope, opts: Options, events: nat): Verdict {
    if events == 0 || opts.previewOnly then Finished(None)
    else if scope.accepted then GoAhead
    else if !opts.acceptRedaction then Finished(Some(AcceptanceRequired))
    else if !opts.shown then Finished(Some(PreviewNotShown))
    else GoAhead
  }

  // Loads the state and, on a first upload, makes acceptance durable.
  method Begin(world: World, weather: Weather, ghost log: seq<Row>) returns (ok: bool)
    requires world.Faithful() && world.st.process.Off? && log == world.st.log
    requires 0 <= world.st.disk.cursor <= MaxSeq(log)
    requires world.st.disk.pending.Some? ==>
               && world.st.disk.pending.value.after == world.st.disk.cursor
               && world.st.disk.cursor < world.st.disk.pending.value.through <= MaxSeq(log)
    modifies world
    ensures world.Faithful() && old(world.history) <= world.history && world.st.process.On?
    ensures ok ==> Uploading(world, log, MaxSeq(log)) && world.st.disk == old(world.st).disk.(accepted := true)
    ensures Inv(world.site, old(world.st)) ==> Inv(world.site, world.st)
    ensures weather.succeeds ==> ok
  {
    hide Inv, ValidLog, CanRun, MaxSeq, World.Faithful;
    world.Take(Start);
    if world.st.disk.accepted {
      world.Take(Proceed);
      return true;
    }
    world.Take(Accept);
    ok := world.SaveState(weather);
  }

  // Nothing remains exactly when the cursor is at the high-water mark.
  lemma NothingRemains(log: seq<Row>, scope: Scope, quote: string -> string)
    requires ValidLog(log) && 0 <= scope.cursor <= MaxSeq(log) && PendingValid(quote, scope, MaxSeq(log))
    requires Remaining(log, scope, MaxSeq(log)) == 0
    ensures scope.pending.None? && scope.cursor == MaxSeq(log)
  {
    if scope.cursor < MaxSeq(log) {
      PageEmpty(log, scope.cursor, 1);
    }
  }

  lemma SentOrPending(engine: Engine, quote: string -> string, world: World, log: seq<Row>, highWatermark: int,
                      from: int)
    requires Inv(world.site, world.st) && PreviewFrom(world.st.disk) == from
    requires Previewable(engine, quote, world.site.workspace, RowsIn(log, from, highWatermark))
    ensures Sendable(engine, quote, world, log, highWatermark)
  {
    hide Inv, Previewable, RowsIn;
  }

  lemma BoundPreviewable(engine: Engine, quote: string -> string, site: Site, s: State)
    requires Inv(site, s)
    requires Previewable(engine, quote, site.workspace, RowsIn(s.log, PreviewFrom(s.disk), MaxSeq(s.log)))
    ensures Previewable(engine, quote, s.disk.workspace, RowsIn(s.log, PreviewFrom(s.disk), MaxSeq(s.log)))
  {
    UnboundFits(engine, quote, site.workspace, RowsIn(s.log, PreviewFrom(s.disk), MaxSeq(s.log)));
  }

  // Acceptance made durable, and every row sent.
  method Transfer(world: World, engine: Engine, quote: string -> string, limit: nat, env: nat -> Weather)
    returns (accepted: nat, batches: nat, failure: Option<Failure>)
    requires world.Faithful() && world.st.process.Off? && limit > 0 && Allows(world.site.redacts, engine)
    requires 0 <= world.st.disk.cursor <= MaxSeq(world.st.log)
    requires world.st.disk.pending.Some? ==>
               && world.st.disk.pending.value.after == world.st.disk.cursor
               && world.st.disk.cursor < world.st.disk.pending.value.through <= MaxSeq(world.st.log)
    modifies world
    ensures world.Faithful() && old(world.history) <= world.history && world.st.process.Off?
    ensures failure.None? ==>
              && accepted == Remaining(old(world.st).log, old(world.st).disk, MaxSeq(old(world.st).log))
              && world.st.disk.cursor == MaxSeq(old(world.st).log) && world.st.disk.pending.None?
    ensures Inv(world.site, old(world.st)) ==> Inv(world.site, world.st)
    ensures old(Sendable(engine, quote, world, world.st.log, MaxSeq(world.st.log))) && Fair(env) ==> failure.None?
  {
    ghost var good := Sendable(engine, quote, world, world.st.log, MaxSeq(world.st.log));
    ghost var from := PreviewFrom(world.st.disk);
    if good { SendableRows(engine, quote, world, world.st.log, MaxSeq(world.st.log)); }
    hide Inv, Previewable, RowsIn, ValidLog, CanRun, MaxSeq, Sendable, Remaining;
    ghost var log, scope := world.st.log, world.st.disk;
    var highWatermark := MaxSeq(world.st.log);
    var begun := Begin(world, env(0), log);
    if !begun {
      world.Take(Stop);
      return 0, 0, Some(NotSaved);
    }
    if good { SentOrPending(engine, quote, world, log, highWatermark, from); }
    AcceptedRemains(log, scope, highWatermark);
    accepted, batches, failure := Upload(world, engine, quote, limit, log, highWatermark, env);
    world.Take(Stop);
  }

  lemma SendableRows(engine: Engine, quote: string -> string, world: World, log: seq<Row>, highWatermark: int)
    requires Sendable(engine, quote, world, log, highWatermark)
    ensures Inv(world.site, world.st)
    ensures Previewable(engine, quote, world.site.workspace, RowsIn(log, PreviewFrom(world.st.disk), highWatermark))
  {
  }

  lemma AcceptedRemains(log: seq<Row>, scope: Scope, highWatermark: int)
    ensures Remaining(log, scope.(accepted := true), highWatermark) == Remaining(log, scope, highWatermark)
  {
  }

  // One explicit invocation of sync.
  method Run(world: World, engine: Engine, quote: string -> string, opts: Options, env: nat -> Weather)
    returns (report: Report, failure: Option<Failure>)
    requires world.Faithful() && world.st.process.Off? && Allows(world.site.redacts, engine)
    modifies world
    // Whatever happens, only protocol steps were taken and no client is left running.
    ensures world.Faithful() && old(world.history) <= world.history && world.st.process.Off?
    // A preview, or a first upload without acceptance, touches nothing.
    ensures opts.previewOnly || (!old(world.st).disk.accepted && !(opts.acceptRedaction && opts.shown)) ==>
              world.st == old(world.st) && world.history == old(world.history)
    // A state file that is not consistent with itself and the log stops everything.
    ensures !(0 <= old(world.st).disk.cursor <= MaxSeq(old(world.st).log) &&
              Resumable(quote, old(world.st).disk, MaxSeq(old(world.st).log))) ==>
              failure.Some? && world.st == old(world.st) && world.history == old(world.history)
    // Every event previewed is accepted, whatever the page and batch sizes.
    ensures failure.None? ==>
              report.preview == PreviewTotal(engine, old(world.st).log, old(world.st).disk, report.highWatermark)
    ensures failure.None? && !opts.previewOnly ==>
              && report.acceptedEvents == report.preview.events && report.upToDate
              && world.st.disk.cursor == report.highWatermark == MaxSeq(old(world.st).log)
              && world.st.disk.pending.None?
    // One row that cannot be sent stops everything: nothing is written or sent.
    ensures !Previewable(engine, quote, old(world.st).disk.workspace,
                         RowsIn(old(world.st).log, PreviewFrom(old(world.st).disk), MaxSeq(old(world.st).log))) ==>
              failure.Some? && world.st == old(world.st) && world.history == old(world.history)
    // It succeeds when every row can be sent under the token's workspace, every
    // save is kept and every request answered.
    ensures Inv(world.site, old(world.st)) && Fair(env) &&
            Invocable(old(world.st).log, old(world.st).disk, quote, opts) &&
            Previewable(engine, quote, world.site.workspace,
                        RowsIn(old(world.st).log, PreviewFrom(old(world.st).disk), MaxSeq(old(world.st).log))) ==>
              failure.None?
  {
    if Inv(world.site, world.st) &&
       Previewable(engine, quote, world.site.workspace,
                   RowsIn(world.st.log, PreviewFrom(world.st.disk), MaxSeq(world.st.log))) {
      BoundPreviewable(engine, quote, world.site, world.st);
      SentOrPending(engine, quote, world, world.st.log, MaxSeq(world.st.log), PreviewFrom(world.st.disk));
    }
    hide Inv, Previewable, Invocable, Remaining, RowsIn, ValidLog, CanRun, MaxSeq, PendingValid, Resumable, Sendable, PreviewTotal;
    var log, scope := world.st.log, world.st.disk;
    var limit, verdict;
    report, limit, verdict := Preflight(log, scope, engine, quote, opts);
    ResumableMeans(quote, scope, report.highWatermark);
    if verdict.Finished? {
      if verdict.failure.None? && !opts.previewOnly { NothingRemains(log, scope, quote); }
      return report, verdict.failure;
    }
    var accepted, batches;
    accepted, batches, failure := Transfer(world, engine, quote, limit, env);
    report := report.(acceptedEvents := accepted, batchesSent := batches, cursor := world.st.disk.cursor,
      upToDate := world.st.disk.cursor >= report.highWatermark && world.st.disk.pending.None?);
  }
}
