// The pieces of one hosted upload: redacted events, the request body, and the
// packing of a page of events into the largest body that fits.
module SyncPacker {
  import opened Common
  import opened SyncLog

  const MAX_BODY_BYTES := 262_144
  const MAX_EVENTS_PER_BATCH := 500

  // Counts of a redaction pass.
  datatype Stats = Stats(events: nat, clean: nat, redacted: nat, fieldsRedacted: nat) {
    function Add(o: Stats): Stats {
      Stats(events + o.events, clean + o.clean, redacted + o.redacted, fieldsRedacted + o.fieldsRedacted)
    }
  }

  const NO_STATS := Stats(0, 0, 0, 0)

  // What redaction makes of one envelope; None is a fail-closed refusal. The
  // event identity is never redacted.
  datatype Redacted = Redacted(text: string, fields: nat)

  type Engine = string -> Option<Redacted>

  function StatsOf(r: Option<Redacted>): Stats {
    if r.None? then NO_STATS
    else if r.value.fields == 0 then Stats(1, 1, 0, 0)
    else Stats(1, 0, 1, r.value.fields)
  }

  // An event on the wire: the identity of its row and its encoded envelope.
  datatype WireEvent = WireEvent(id: string, text: string)

  datatype Body = Body(workspace: string, events: seq<WireEvent>)

  // The idempotency key: a collision-free hash of the exact body.
  datatype Key = Key(of: Body)

  // ----- The encoded request -------------------------------------------------

  function Joined(events: seq<WireEvent>): string {
    if events == [] then ""
    else if |events| == 1 then events[0].text
    else Joined(events[..|events| - 1]) + "," + events[|events| - 1].text
  }

  // The body's JSON text, fields as they are declared; `quote` renders a
  // workspace id as a JSON string.
  function Encode(quote: string -> string, body: Body): string {
    "{\"schema_version\":\"hfg.event-batch.v1\"" + Label(quote, body.workspace) + ",\"events\":[" + Joined(body.events) + "]}"
  }

  function Label(quote: string -> string, workspace: string): string {
    if workspace == "" then "" else ",\"workspace_id\":" + quote(workspace)
  }

  predicate Fits(quote: string -> string, body: Body) {
    |Encode(quote, body)| <= MAX_BODY_BYTES
  }

  lemma {:induction false} JoinedGrows(events: seq<WireEvent>, i: nat, j: nat)
    requires i <= j <= |events|
    ensures |Joined(events[..i])| <= |Joined(events[..j])|
    decreases j
  {
    if i < j {
      JoinedGrows(events, i, j - 1);
      assert events[..j][..j - 1] == events[..j - 1];
    }
  }

  // A longer batch never encodes shorter, so a prefix of a fitting batch fits.
  lemma FitsShrinks(quote: string -> string, workspace: string, events: seq<WireEvent>, i: nat, j: nat)
    requires i <= j <= |events| && Fits(quote, Body(workspace, events[..j]))
    ensures Fits(quote, Body(workspace, events[..i]))
  {
    JoinedGrows(events, i, j);
  }

  // ----- Redacting rows ------------------------------------------------------

  predicate Redactable(engine: Engine, rows: seq<Row>) {
    forall i :: 0 <= i < |rows| ==> engine(rows[i].raw).Some?
  }

  function Wire(engine: Engine, rows: seq<Row>): (events: seq<WireEvent>)
    requires Redactable(engine, rows)
    ensures |events| == |rows|
  {
    seq(|rows|, i requires 0 <= i < |rows| => WireEvent(rows[i].id, engine(rows[i].raw).value.text))
  }

  // Events that say of each row what the engine makes of it, under its identity.
  predicate Redactions(engine: Engine, rows: seq<Row>, events: seq<WireEvent>) {
    && |events| == |rows|
    && forall i :: 0 <= i < |rows| ==>
         && engine(rows[i].raw).Some?
         && events[i].id == rows[i].id && events[i].text == engine(rows[i].raw).value.text
  }

  function Tally(engine: Engine, rows: seq<Row>): Stats {
    if rows == [] then NO_STATS
    else Tally(engine, rows[..|rows| - 1]).Add(StatsOf(engine(rows[|rows| - 1].raw)))
  }

  lemma {:induction false} TallyConcat(engine: Engine, a: seq<Row>, b: seq<Row>)
    ensures Tally(engine, a + b) == Tally(engine, a).Add(Tally(engine, b))
  {
    if b == [] {
      assert a + b == a;
    } else {
      var all, init, last := a + b, b[..|b| - 1], b[|b| - 1];
      TallyConcat(engine, a, init);
      assert all[..|all| - 1] == a + init && all[|all| - 1] == last;
      assert Tally(engine, all) == Tally(engine, a + init).Add(StatsOf(engine(last.raw)));
    }
  }

  lemma {:induction false} TallyCounts(engine: Engine, rows: seq<Row>)
    requires Redactable(engine, rows)
    ensures var t := Tally(engine, rows); t.events == |rows| && t.clean + t.redacted == |rows|
  {
    if rows != [] {
      TallyCounts(engine, rows[..|rows| - 1]);
    }
  }

  // The rows that redaction leaves as they are, and the fields it changes in others.
  function CleanRows(engine: Engine, rows: seq<Row>): set<nat>
    requires Redactable(engine, rows)
  {
    set i: nat | i < |rows| && engine(rows[i].raw).value.fields == 0
  }

  function FieldsOf(engine: Engine, rows: seq<Row>): nat
    requires Redactable(engine, rows)
  {
    if rows == [] then 0 else FieldsOf(engine, rows[..|rows| - 1]) + engine(rows[|rows| - 1].raw).value.fields
  }

  // The counts mean what they are called.
  lemma {:induction false} TallyMeans(engine: Engine, rows: seq<Row>)
    requires Redactable(engine, rows)
    ensures var t := Tally(engine, rows);
            && t.events == |rows| && t.clean == |CleanRows(engine, rows)| && t.clean + t.redacted == |rows|
            && t.fieldsRedacted == FieldsOf(engine, rows)
  {
    hide CleanRows;
    CleanStep(engine, rows);
    if rows != [] { TallyMeans(engine, rows[..|rows| - 1]); }
  }

  lemma CleanStep(engine: Engine, rows: seq<Row>)
    requires Redactable(engine, rows)
    ensures rows == [] ==> CleanRows(engine, rows) == {}
    ensures rows != [] ==>
              |CleanRows(engine, rows)| ==
              |CleanRows(engine, rows[..|rows| - 1])| + (if engine(rows[|rows| - 1].raw).value.fields == 0 then 1 else 0)
  {
    if rows != [] {
      var n := |rows| - 1;
      assert CleanRows(engine, rows) ==
             CleanRows(engine, rows[..n]) + (if engine(rows[n].raw).value.fields == 0 then {n} else {});
    }
  }

  function EventIds(events: seq<WireEvent>): (ids: seq<string>)
    ensures |ids| == |events| && forall i :: 0 <= i < |events| ==> ids[i] == events[i].id
  {
    seq(|events|, i requires 0 <= i < |events| => events[i].id)
  }

  lemma WireKeepsIds(engine: Engine, rows: seq<Row>)
    requires Redactable(engine, rows)
    ensures EventIds(Wire(engine, rows)) == Ids(rows)
  {
  }

  // ----- Batches -------------------------------------------------------------

  datatype Batch = Batch(after: int, through: int, key: Key, body: Body, stats: Stats)

  // A batch for the first n rows of a page.
  function BatchOf(engine: Engine, workspace: string, after: int, page: seq<Row>, n: nat): Batch
    requires 0 < n <= |page| && Redactable(engine, page)
  {
    var body := Body(workspace, Wire(engine, page)[..n]);
    Batch(after, page[n - 1].seqNo, Key(body), body, Tally(engine, page[..n]))
  }

  datatype Failure = RedactionFailed | TooLarge | LogEnded | Inconsistent | Rejected
                   | AcceptanceRequired | PreviewNotShown | AheadOfLog | NotSaved | Unavailable

  // Redacts every row of a page, failing closed on the first refusal.
  method SanitizePage(engine: Engine, page: seq<Row>) returns (r: Result<seq<WireEvent>, Failure>, each: seq<Stats>)
    ensures r.Ok? <==> Redactable(engine, page)
    ensures r.Ok? ==> r.value == Wire(engine, page) && |each| == |page|
    ensures r.Ok? ==> Redactions(engine, page, r.value)
    ensures r.Ok? ==> forall i :: 0 <= i < |page| ==> each[i] == StatsOf(engine(page[i].raw))
    ensures r.Err? ==> r.error == RedactionFailed
  {
    var events: seq<WireEvent> := [];
    each := [];
    for i := 0 to |page|
      invariant |events| == i && |each| == i
      invariant forall j :: 0 <= j < i ==> engine(page[j].raw).Some?
      invariant forall j :: 0 <= j < i ==> events[j] == WireEvent(page[j].id, engine(page[j].raw).value.text)
      invariant forall j :: 0 <= j < i ==> each[j] == StatsOf(engine(page[j].raw))
    {
      var out := engine(page[i].raw);
      if out.None? { return Err(RedactionFailed), each; }
      events := events + [WireEvent(page[i].id, out.value.text)];
      each := each + [StatsOf(out)];
    }
    return Ok(events), each;
  }

  // The largest fitting prefix, found by binary search over encodings.
  method LargestFitting(quote: string -> string, workspace: string, events: seq<WireEvent>) returns (count: nat)
    requires events != []
    requires Fits(quote, Body(workspace, events[..1])) && !Fits(quote, Body(workspace, events))
    ensures 1 <= count < |events|
    ensures Fits(quote, Body(workspace, events[..count])) && !Fits(quote, Body(workspace, events[..count + 1]))
  {
    var low, high := 1, |events|;
    count := 1;
    assert events[..|events|] == events;
    while low <= high
      invariant 1 <= low <= high + 1 <= |events| + 1
      invariant 1 <= count <= |events| && count == (if low == 1 then 1 else low - 1)
      invariant Fits(quote, Body(workspace, events[..count]))
      invariant high < |events| ==> !Fits(quote, Body(workspace, events[..high + 1]))
      decreases high - low
    {
      var mid := low + (high - low) / 2;
      if Fits(quote, Body(workspace, events[..mid])) {
        count := mid;
        low := mid + 1;
      } else {
        if mid <= count { FitsShrinks(quote, workspace, events, mid, count); }
        high := mid - 1;
      }
    }
  }

  method SumStats(ghost engine: Engine, ghost rows: seq<Row>, each: seq<Stats>) returns (stats: Stats)
    requires |each| == |rows|
    requires forall i :: 0 <= i < |rows| ==> each[i] == StatsOf(engine(rows[i].raw))
    ensures stats == Tally(engine, rows)
  {
    stats := NO_STATS;
    for i := 0 to |each|
      invariant stats == Tally(engine, rows[..i])
    {
      assert rows[..i + 1][..i] == rows[..i];
      stats := stats.Add(each[i]);
    }
    assert rows[..|rows|] == rows;
  }

  lemma RedactedPrefix(engine: Engine, rows: seq<Row>, events: seq<WireEvent>, n: nat)
    requires Redactions(engine, rows, events) && n <= |rows|
    ensures Redactions(engine, rows[..n], events[..n])
  {
  }

  // The next pending batch: the largest prefix of the next page whose encoding
  // fits one request. Ok(None) when nothing is left to send.
  method BuildPending(engine: Engine, quote: string -> string, log: seq<Row>, workspace: string,
                      cursor: int, highWatermark: int, limit: nat)
    returns (r: Result<Option<Batch>, Failure>)
    requires ValidLog(log) && limit > 0
    ensures var page := Page(log, cursor, highWatermark, limit);
            match r
            case Ok(None) => page == []
            case Ok(Some(b)) =>
              && Redactable(engine, page)
              && Redactions(engine, RowsIn(log, cursor, b.through), b.body.events)
              && exists n :: 0 < n <= |page| && b == BatchOf(engine, workspace, cursor, page, n)
                   && Fits(quote, Body(workspace, Wire(engine, page)[..n]))
                   && (n < |page| ==> !Fits(quote, Body(workspace, Wire(engine, page)[..n + 1])))
            case Err(RedactionFailed) => !Redactable(engine, page)
            case Err(TooLarge) =>
              page != [] && Redactable(engine, page) && !Fits(quote, Body(workspace, Wire(engine, page)[..1]))
            case Err(_) => false
  {
    hide ValidLog, RowsIn, Page, Tally, Fits, Redactions;
    var page := Page(log, cursor, highWatermark, limit);
    if |page| == 0 { return Ok(None); }
    var wired, each := SanitizePage(engine, page);
    if wired.Err? { return Err(RedactionFailed); }
    var events := wired.value;
    assert events[..|events|] == events;
    var count := |events|;
    if !Fits(quote, Body(workspace, events)) {
      if !Fits(quote, Body(workspace, events[..1])) { return Err(TooLarge); }
      count := LargestFitting(quote, workspace, events);
    }
    var stats := SumStats(engine, page[..count], each[..count]);
    var body := Body(workspace, events[..count]);
    var b := Batch(cursor, page[count - 1].seqNo, Key(body), body, stats);
    assert b == BatchOf(engine, workspace, cursor, page, count);
    PagePrefix(log, cursor, highWatermark, limit, count);
    RedactedPrefix(engine, page, events, count);
    return Ok(Some(b));
  }

  // A packed batch holds exactly the log's events after the cursor through its
  // end, and no longer prefix of its page fits one request.
  lemma PackedBatch(engine: Engine, quote: string -> string, log: seq<Row>, workspace: string,
                    cursor: int, highWatermark: int, limit: nat, n: nat)
    requires ValidLog(log) && Redactable(engine, Page(log, cursor, highWatermark, limit))
    requires 0 < n <= |Page(log, cursor, highWatermark, limit)|
    requires var events := Wire(engine, Page(log, cursor, highWatermark, limit));
             && Fits(quote, Body(workspace, events[..n]))
             && (n < |events| ==> !Fits(quote, Body(workspace, events[..n + 1])))
    ensures var page := Page(log, cursor, highWatermark, limit);
            var b := BatchOf(engine, workspace, cursor, page, n);
            var rows := RowsIn(log, cursor, b.through);
            && b.after == cursor < b.through <= highWatermark
            && Redactions(engine, rows, b.body.events) && EventIds(b.body.events) == Ids(rows)
            && b.stats.events == |b.body.events| == |rows|
            && (forall m :: 0 < m <= |page| ==>
                  (Fits(quote, Body(workspace, Wire(engine, page)[..m])) <==> m <= n))
  {
    hide Fits, Tally, ValidLog, RowsIn, Page;
    var page := Page(log, cursor, highWatermark, limit);
    var events := Wire(engine, page);
    PagePrefix(log, cursor, highWatermark, limit, n);
    WireKeepsIds(engine, page[..n]);
    assert events[..n] == Wire(engine, page[..n]);
    TallyCounts(engine, page[..n]);
    FitsUpTo(quote, workspace, events, n);
  }

  lemma FitsUpTo(quote: string -> string, workspace: string, events: seq<WireEvent>, n: nat)
    requires n <= |events| && Fits(quote, Body(workspace, events[..n]))
    requires n < |events| ==> !Fits(quote, Body(workspace, events[..n + 1]))
    ensures forall m :: 0 < m <= |events| ==> (Fits(quote, Body(workspace, events[..m])) <==> m <= n)
  {
    hide Fits;
    forall m | 0 < m <= |events|
      ensures Fits(quote, Body(workspace, events[..m])) <==> m <= n
    {
      if m <= n {
        FitsShrinks(quote, workspace, events, m, n);
      } else if Fits(quote, Body(workspace, events[..m])) {
        FitsShrinks(quote, workspace, events, n + 1, m);
      }
    }
  }

  // The room an unbound envelope leaves for events.
  const ROOM := MAX_BODY_BYTES - |"{\"schema_version\":\"hfg.event-batch.v1\"" + ",\"events\":[" + "]}"|

  function TextBytes(events: seq<WireEvent>): nat {
    if events == [] then 0 else |events[0].text| + TextBytes(events[1..])
  }

  lemma {:induction false} JoinedLength(events: seq<WireEvent>)
    ensures |Joined(events)| == TextBytes(events) + (if events == [] then 0 else |events| - 1)
  {
    if events != [] {
      var init, last := events[..|events| - 1], events[|events| - 1];
      JoinedLength(init);
      BytesConcat(init, [last]);
      assert events == init + [last];
      assert [last][1..] == [];
    }
  }

  lemma {:induction false} BytesConcat(a: seq<WireEvent>, b: seq<WireEvent>)
    ensures TextBytes(a + b) == TextBytes(a) + TextBytes(b)
  {
    if a == [] {
      assert a + b == b;
    } else {
      BytesConcat(a[1..], b);
      assert (a + b)[1..] == a[1..] + b;
    }
  }

  // Events fit one request exactly when their texts, the commas between them and the
  // workspace label fill no more than the room there is.
  lemma FitsIff(quote: string -> string, workspace: string, events: seq<WireEvent>)
    requires events != []
    ensures Fits(quote, Body(workspace, events)) <==>
            TextBytes(events) + |events| - 1 + |Label(quote, workspace)| <= ROOM
  {
    JoinedLength(events);
    assert |Encode(quote, Body(workspace, events))| ==
           MAX_BODY_BYTES - ROOM + |Joined(events)| + |Label(quote, workspace)|;
  }

  // An event previewed before the workspace is bound stops fitting once it is,
  // exactly when its text leaves no room for the workspace label.
  lemma BindingCanOverflow(quote: string -> string, workspace: string, e: WireEvent)
    requires workspace != ""
    ensures Fits(quote, Body("", [e])) && !Fits(quote, Body(workspace, [e])) <==>
            ROOM - |Label(quote, workspace)| < |e.text| <= ROOM
  {
    assert Joined([e]) == e.text;
    assert |Encode(quote, Body("", [e]))| == MAX_BODY_BYTES - ROOM + |e.text|;
    assert |Encode(quote, Body(workspace, [e]))| == MAX_BODY_BYTES - ROOM + |e.text| + |Label(quote, workspace)|;
  }
}
