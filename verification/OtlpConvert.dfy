// The converter from OTLP spans to events: two passes over the request, one
// event order.
module OtlpConvert {
  import opened Common
  import opened TextOrder

  type UInt64 = n: nat | n < 0x1_0000_0000_0000_0000

  const HALF := 0x8000_0000_0000_0000

  // A span of the request. The times are what parseNano gives; wellFormed is
  // whether its name and attributes pass the sanitizer; session is the key its
  // sanitized attributes carry and rawSession the one of the first scan.
  datatype Span = Span(
    trace: string, id: string, parent: string, start: Option<UInt64>, end: Option<UInt64>,
    wellFormed: bool, session: string, rawSession: string, failed: bool)

  // The spans of a resource; a broken resource rejects all of them.
  datatype Resource = Resource(ok: bool, service: string, spans: seq<Span>)

  predicate ValidHex(s: string, n: nat) {
    |s| == n && forall i :: 0 <= i < |s| ==> '0' <= s[i] <= '9' || 'a' <= s[i] <= 'f' || 'A' <= s[i] <= 'F'
  }

  function Lower(s: string): string {
    seq(|s|, i requires 0 <= i < |s| => if 'A' <= s[i] <= 'Z' then (s[i] as int + 32) as char else s[i])
  }

  // A span under its trace, both in lower case.
  datatype Place = Place(trace: string, span: string)

  function PlaceOf(sp: Span): Place {
    Place(Lower(sp.trace), Lower(sp.id))
  }

  predicate HexOk(sp: Span) {
    ValidHex(sp.trace, 32) && ValidHex(sp.id, 16)
  }

  // validateSpan
  predicate Accepted(sp: Span) {
    && HexOk(sp) && (sp.parent == "" || ValidHex(sp.parent, 16))
    && sp.start.Some? && sp.end.Some? && sp.start.value <= sp.end.value && sp.wellFormed
  }

  // A span with the service of its resource.
  datatype Tagged = Tagged(span: Span, service: string)

  function Tag(spans: seq<Span>, service: string): (ts: seq<Tagged>)
    ensures |ts| == |spans| && forall i :: 0 <= i < |spans| ==> ts[i] == Tagged(spans[i], service)
  {
    seq(|spans|, i requires 0 <= i < |spans| => Tagged(spans[i], service))
  }

  // The spans of the resources that are in order.
  function Flat(rs: seq<Resource>): seq<Tagged> {
    if rs == [] then []
    else
      var last := rs[|rs| - 1];
      Flat(rs[..|rs| - 1]) + (if last.ok then Tag(last.spans, last.service) else [])
  }

  // ----- The first pass ------------------------------------------------------

  // When each span starts; of two in one place the later counts.
  function Starts(ts: seq<Tagged>): map<Place, UInt64> {
    if ts == [] then map[]
    else
      var before, sp := Starts(ts[..|ts| - 1]), ts[|ts| - 1].span;
      if HexOk(sp) && sp.start.Some? then before[PlaceOf(sp) := sp.start.value] else before
  }

  // The session key of each trace: the first one a span of it carries.
  function TraceSessions(ts: seq<Tagged>): map<string, string> {
    if ts == [] then map[]
    else
      var before, sp := TraceSessions(ts[..|ts| - 1]), ts[|ts| - 1].span;
      if HexOk(sp) && Lower(sp.trace) !in before && sp.rawSession != "" then before[Lower(sp.trace) := sp.rawSession]
      else before
  }

  // ----- Events --------------------------------------------------------------

  // What an event id is derived from; the hash of it is taken as injective.
  datatype Subject =
    | SpanStart(place: Place)
    | SpanEnd(place: Place)
    | TraceStart(trace: string)
    | TraceEnd(trace: string)
    | SessionStart(session: string)

  datatype Id = Id(subject: Subject, ms: nat)

  function Milliseconds(ns: nat): nat {
    ns / 1_000_000
  }

  datatype Kind = SessionStarted | TraceStarted | SpanStarted | SpanCompleted | SpanFailed | TraceCompleted

  function Rank(k: Kind): nat {
    match k
    case SessionStarted => 0
    case TraceStarted => 1
    case SpanStarted => 2
    case SpanCompleted => 3
    case SpanFailed => 3
    case TraceCompleted => 4
  }

  datatype Event = Event(id: Id, at: UInt64, session: string, kind: Kind, trace: string, agent: string,
                         parents: seq<Id>)

  // An accepted span as the second pass sees it.
  datatype Item = Item(place: Place, start: UInt64, end: UInt64, session: string, failed: bool, service: string,
                       parents: seq<Id>)

  function SessionKey(sp: Span, sessions: map<string, string>): string {
    if sp.session != "" then sp.session
    else if Lower(sp.trace) in sessions then sessions[Lower(sp.trace)]
    else "otlp-trace-" + Lower(sp.trace)
  }

  // The started event of the parent, when the first pass saw it start.
  function Parents(sp: Span, starts: map<Place, UInt64>): seq<Id> {
    var parent := Place(Lower(sp.trace), Lower(sp.parent));
    if sp.parent != "" && parent in starts then [Id(SpanStart(parent), Milliseconds(starts[parent]))] else []
  }

  function ItemOf(t: Tagged, starts: map<Place, UInt64>, sessions: map<string, string>): Item
    requires Accepted(t.span)
  {
    var sp := t.span;
    Item(PlaceOf(sp), sp.start.value, sp.end.value, SessionKey(sp, sessions), sp.failed, t.service, Parents(sp, starts))
  }

  function Items(ts: seq<Tagged>, starts: map<Place, UInt64>, sessions: map<string, string>): seq<Item> {
    if ts == [] then []
    else
      var before, last := Items(ts[..|ts| - 1], starts, sessions), ts[|ts| - 1];
      if Accepted(last.span) then before + [ItemOf(last, starts, sessions)] else before
  }

  // The accepted spans of a request.
  function ItemsOf(rs: seq<Resource>): seq<Item> {
    Items(Flat(rs), Starts(Flat(rs)), TraceSessions(Flat(rs)))
  }

  function StartedEvent(it: Item): Event {
    Event(Id(SpanStart(it.place), Milliseconds(it.start)), it.start, it.session, SpanStarted, it.place.trace, it.service, it.parents)
  }

  function EndedEvent(it: Item): Event {
    Event(Id(SpanEnd(it.place), Milliseconds(it.end)), it.end, it.session,
          if it.failed then SpanFailed else SpanCompleted, it.place.trace, it.service, [])
  }

  function SpanEvents(items: seq<Item>): seq<Event> {
    if items == [] then []
    else
      var last := items[|items| - 1];
      SpanEvents(items[..|items| - 1]) + [StartedEvent(last), EndedEvent(last)]
  }

  function Min(a: UInt64, b: UInt64): UInt64 {
    if a < b then a else b
  }

  function Max(a: UInt64, b: UInt64): UInt64 {
    if a > b then a else b
  }

  datatype TraceAccum = TraceAccum(session: string, min: UInt64, max: UInt64)

  datatype SessionAccum = SessionAccum(min: UInt64, agent: string)

  function JoinTrace(a: Option<TraceAccum>, it: Item): TraceAccum {
    var tr := if a.Some? then a.value else TraceAccum(it.session, it.start, it.end);
    tr.(min := Min(tr.min, it.start), max := Max(tr.max, it.end))
  }

  function JoinSession(a: Option<SessionAccum>, it: Item): SessionAccum {
    var ses := if a.Some? then a.value else SessionAccum(it.start, it.service);
    ses.(min := Min(ses.min, it.start), agent := if ses.agent == "" then it.service else ses.agent)
  }

  function Lookup<V>(m: map<string, V>, k: string): Option<V> {
    if k in m then Some(m[k]) else None
  }

  function Traces(items: seq<Item>): map<string, TraceAccum> {
    if items == [] then map[]
    else
      var before, it := Traces(items[..|items| - 1]), items[|items| - 1];
      before[it.place.trace := JoinTrace(Lookup(before, it.place.trace), it)]
  }

  function Sessions(items: seq<Item>): map<string, SessionAccum> {
    if items == [] then map[]
    else
      var before, it := Sessions(items[..|items| - 1]), items[|items| - 1];
      before[it.session := JoinSession(Lookup(before, it.session), it)]
  }

  function TraceStartedEvent(t: string, a: TraceAccum): Event {
    Event(Id(TraceStart(t), Milliseconds(a.min)), a.min, a.session, TraceStarted, t, "", [])
  }

  function TraceCompletedEvent(t: string, a: TraceAccum): Event {
    Event(Id(TraceEnd(t), Milliseconds(a.max)), a.max, a.session, TraceCompleted, t, "", [])
  }

  function SessionStartedEvent(k: string, a: SessionAccum): Event {
    Event(Id(SessionStart(k), Milliseconds(a.min)), a.min, k, SessionStarted, "", a.agent, [])
  }

  // ----- The order of the output ---------------------------------------------

  // int64(ns): what the timestamps are compared by.
  function Signed(ns: UInt64): int {
    if ns < HALF then ns else ns - 2 * HALF
  }

  // (occurred_at, class, event_id), `text` being the printed id.
  predicate Ahead(text: Id -> string, a: Event, b: Event) {
    if Signed(a.at) != Signed(b.at) then Signed(a.at) < Signed(b.at)
    else if Rank(a.kind) != Rank(b.kind) then Rank(a.kind) < Rank(b.kind)
    else Before(text(a.id), text(b.id))
  }

  predicate Sorted(text: Id -> string, es: seq<Event>) {
    forall i, j :: 0 <= i < j < |es| ==> !Ahead(text, es[j], es[i])
  }

  // Every key of a map once.
  ghost predicate Lists<V>(keys: seq<string>, m: map<string, V>) {
    Distinct(keys) && forall k :: k in keys <==> k in m
  }

  function TraceEvents(m: map<string, TraceAccum>, keys: seq<string>): seq<Event>
    requires forall k :: k in keys ==> k in m
  {
    if keys == [] then []
    else
      var last := keys[|keys| - 1];
      TraceEvents(m, keys[..|keys| - 1]) + [TraceStartedEvent(last, m[last]), TraceCompletedEvent(last, m[last])]
  }

  function SessionEvents(m: map<string, SessionAccum>, keys: seq<string>): seq<Event>
    requires forall k :: k in keys ==> k in m
  {
    if keys == [] then []
    else
      var last := keys[|keys| - 1];
      SessionEvents(m, keys[..|keys| - 1]) + [SessionStartedEvent(last, m[last])]
  }

  // The events of a request: two for each accepted span, two for each trace of
  // one, and one for each session; in order.
  ghost predicate Converted(text: Id -> string, rs: seq<Resource>, traceKeys: seq<string>,
                            sessionKeys: seq<string>, out: seq<Event>) {
    var items := ItemsOf(rs);
    && Lists(traceKeys, Traces(items)) && Lists(sessionKeys, Sessions(items))
    && multiset(out) ==
       multiset(SpanEvents(items) + TraceEvents(Traces(items), traceKeys) + SessionEvents(Sessions(items), sessionKeys))
    && Sorted(text, out)
  }

  // ----- The passes ----------------------------------------------------------

  lemma FlatStep(rs: seq<Resource>, i: nat)
    requires i < |rs|
    ensures Flat(rs[..i + 1]) == Flat(rs[..i]) + (if rs[i].ok then Tag(rs[i].spans, rs[i].service) else [])
  {
    assert rs[..i + 1][..i] == rs[..i];
  }

  lemma ScanStep(before: seq<Tagged>, ts: seq<Tagged>, i: nat)
    requires i < |ts|
    ensures var was, sp := before + ts[..i], ts[i].span;
            && Starts(before + ts[..i + 1]) ==
               (if HexOk(sp) && sp.start.Some? then Starts(was)[PlaceOf(sp) := sp.start.value] else Starts(was))
            && TraceSessions(before + ts[..i + 1]) ==
               (if HexOk(sp) && Lower(sp.trace) !in TraceSessions(was) && sp.rawSession != ""
                then TraceSessions(was)[Lower(sp.trace) := sp.rawSession] else TraceSessions(was))
  {
    hide HexOk, Lower;
    assert (before + ts[..i + 1])[..|before| + i] == before + ts[..i];
  }

  lemma ItemsStep(before: seq<Tagged>, ts: seq<Tagged>, i: nat, starts: map<Place, UInt64>, keys: map<string, string>)
    requires i < |ts|
    ensures Items(before + ts[..i + 1], starts, keys) ==
            if Accepted(ts[i].span) then Items(before + ts[..i], starts, keys) + [ItemOf(ts[i], starts, keys)]
            else Items(before + ts[..i], starts, keys)
  {
    hide Accepted, ItemOf;
    assert (before + ts[..i + 1])[..|before| + i] == before + ts[..i];
  }

  // The first pass over the spans of a resource.
  method ScanSpans(spans: seq<Span>, service: string, ghost before: seq<Tagged>,
                   starts0: map<Place, UInt64>, sessions0: map<string, string>)
    returns (starts: map<Place, UInt64>, sessions: map<string, string>)
    requires starts0 == Starts(before) && sessions0 == TraceSessions(before)
    ensures starts == Starts(before + Tag(spans, service)) && sessions == TraceSessions(before + Tag(spans, service))
  {
    hide HexOk, Lower, Starts, TraceSessions;
    starts, sessions := starts0, sessions0;
    ghost var ts := Tag(spans, service);
    assert before + ts[..0] == before;
    for i := 0 to |spans|
      invariant starts == Starts(before + ts[..i]) && sessions == TraceSessions(before + ts[..i])
    {
      ScanStep(before, ts, i);
      var sp := spans[i];
      if HexOk(sp) {
        if sp.start.Some? { starts := starts[PlaceOf(sp) := sp.start.value]; }
        var trace := Lower(sp.trace);
        if trace !in sessions && sp.rawSession != "" { sessions := sessions[trace := sp.rawSession]; }
      }
    }
    assert ts[..|spans|] == ts;
  }

  // Phase 1: start times, and session keys that hold for a whole trace.
  method Scan(rs: seq<Resource>) returns (starts: map<Place, UInt64>, sessions: map<string, string>)
    ensures starts == Starts(Flat(rs)) && sessions == TraceSessions(Flat(rs))
  {
    starts, sessions := map[], map[];
    for i := 0 to |rs|
      invariant starts == Starts(Flat(rs[..i])) && sessions == TraceSessions(Flat(rs[..i]))
    {
      FlatStep(rs, i);
      if rs[i].ok {
        starts, sessions := ScanSpans(rs[i].spans, rs[i].service, Flat(rs[..i]), starts, sessions);
      } else {
        assert Flat(rs[..i]) + [] == Flat(rs[..i]);
      }
    }
    assert rs[..|rs|] == rs;
  }

  // The state of the second pass: the events of the spans so far, and the
  // accumulators of their traces and sessions.
  class Accumulators {
    var events: seq<Event>
    var traces: map<string, TraceAccum>
    var sessions: map<string, SessionAccum>

    constructor ()
      ensures Hold([])
    {
      events, traces, sessions := [], map[], map[];
    }

    ghost predicate Hold(items: seq<Item>)
      reads this
    {
      events == SpanEvents(items) && traces == Traces(items) && sessions == Sessions(items)
    }

    // Emits the events of a span and joins it to its trace and session.
    method Add(it: Item, ghost items: seq<Item>)
      requires Hold(items)
      modifies this
      ensures Hold(items + [it])
    {
      assert (items + [it])[..|items|] == items;
      var tr := JoinTrace(Lookup(traces, it.place.trace), it);
      traces := traces[it.place.trace := tr];
      var ses := JoinSession(Lookup(sessions, it.session), it);
      sessions := sessions[it.session := ses];
      events := events + [StartedEvent(it), EndedEvent(it)];
    }

    // The second pass over the spans of a resource.
    method AddSpans(spans: seq<Span>, service: string, starts: map<Place, UInt64>, keys: map<string, string>,
                    ghost before: seq<Tagged>)
      requires Hold(Items(before, starts, keys))
      modifies this
      ensures Hold(Items(before + Tag(spans, service), starts, keys))
    {
      hide Accepted, ItemOf, Items, Hold;
      ghost var ts := Tag(spans, service);
      assert before + ts[..0] == before;
      for i := 0 to |spans|
        invariant Hold(Items(before + ts[..i], starts, keys))
      {
        ItemsStep(before, ts, i, starts, keys);
        if Accepted(spans[i]) {
          Add(ItemOf(Tagged(spans[i], service), starts, keys), Items(before + ts[..i], starts, keys));
        }
      }
      assert ts[..|spans|] == ts;
    }
  }

  // The least of some keys.
  method LeastKey(keys: set<string>) returns (k: string)
    requires keys != {}
    ensures k in keys && forall x :: x in keys ==> !Before(x, k)
  {
    k :| k in keys;
    NotBeforeSelf(k);
    var rest := keys - {k};
    while rest != {}
      invariant k in keys && rest <= keys && forall x :: x in keys && x !in rest ==> !Before(x, k)
      decreases |rest|
    {
      var x :| x in rest;
      if Before(x, k) {
        forall y | y in keys && y !in rest
          ensures !Before(y, x)
        {
          if Before(y, x) { Transitive(y, x, k); }
        }
        k := x;
        NotBeforeSelf(x);
      }
      rest := rest - {x};
    }
  }

  // The keys of a map in order.
  method SortedKeys<V>(m: map<string, V>) returns (keys: seq<string>)
    ensures Lists(keys, m) && forall i, j :: 0 <= i < j < |keys| ==> !Before(keys[j], keys[i])
  {
    keys := [];
    var todo := m.Keys;
    while todo != {}
      invariant todo <= m.Keys && Distinct(keys)
      invariant forall k :: k in keys <==> k in m && k !in todo
      invariant forall i, j :: 0 <= i < j < |keys| ==> !Before(keys[j], keys[i])
      invariant forall i, x :: 0 <= i < |keys| && x in todo ==> !Before(x, keys[i])
      decreases |todo|
    {
      var k := LeastKey(todo);
      keys, todo := keys + [k], todo - {k};
    }
  }

  method EmitTraces(m: map<string, TraceAccum>, keys: seq<string>) returns (es: seq<Event>)
    requires forall k :: k in keys ==> k in m
    ensures es == TraceEvents(m, keys)
  {
    es := [];
    for i := 0 to |keys|
      invariant es == TraceEvents(m, keys[..i])
    {
      assert keys[..i + 1][..i] == keys[..i];
      es := es + [TraceStartedEvent(keys[i], m[keys[i]]), TraceCompletedEvent(keys[i], m[keys[i]])];
    }
    assert keys[..|keys|] == keys;
  }

  method EmitSessions(m: map<string, SessionAccum>, keys: seq<string>) returns (es: seq<Event>)
    requires forall k :: k in keys ==> k in m
    ensures es == SessionEvents(m, keys)
  {
    es := [];
    for i := 0 to |keys|
      invariant es == SessionEvents(m, keys[..i])
    {
      assert keys[..i + 1][..i] == keys[..i];
      es := es + [SessionStartedEvent(keys[i], m[keys[i]])];
    }
    assert keys[..|keys|] == keys;
  }

  // ----- Sorting -------------------------------------------------------------

  lemma AheadIrreflexive(text: Id -> string, a: Event, b: Event)
    ensures !(Ahead(text, a, b) && Ahead(text, b, a))
  {
    Total(text(a.id), text(b.id));
  }

  // Not being behind carries over.
  lemma AheadCarries(text: Id -> string, a: Event, b: Event, c: Event)
    requires !Ahead(text, b, a) && !Ahead(text, c, b)
    ensures !Ahead(text, c, a)
  {
    Total(text(a.id), text(b.id));
    Total(text(b.id), text(c.id));
    Total(text(a.id), text(c.id));
    if Before(text(a.id), text(b.id)) && Before(text(b.id), text(c.id)) {
      Transitive(text(a.id), text(b.id), text(c.id));
    }
  }

  function Placed(es: seq<Event>, i: nat, e: Event): seq<Event>
    requires i <= |es|
  {
    es[..i] + [e] + es[i..]
  }

  // Stable insertion: behind every event that is not behind it.
  method PlaceFor(text: Id -> string, es: seq<Event>, e: Event) returns (i: nat)
    requires Sorted(text, es)
    ensures i <= |es| && Sorted(text, Placed(es, i, e))
  {
    hide Ahead;
    i := |es|;
    while i > 0 && Ahead(text, e, es[i - 1])
      invariant i <= |es| && forall k :: i <= k < |es| ==> Ahead(text, e, es[k])
    {
      i := i - 1;
    }
    forall k | 0 <= k < i
      ensures !Ahead(text, e, es[k])
    {
      if k < i - 1 { AheadCarries(text, es[k], es[i - 1], e); }
    }
    forall k | i <= k < |es|
      ensures !Ahead(text, es[k], e)
    {
      AheadIrreflexive(text, e, es[k]);
    }
  }

  // sort.SliceStable
  method SortEvents(text: Id -> string, es: seq<Event>) returns (out: seq<Event>)
    ensures multiset(out) == multiset(es) && Sorted(text, out)
  {
    out := [];
    for n := 0 to |es|
      invariant multiset(out) == multiset(es[..n]) && Sorted(text, out)
    {
      hide Sorted;
      assert es[..n + 1] == es[..n] + [es[n]];
      var i := PlaceFor(text, out, es[n]);
      assert out == out[..i] + out[i..];
      out := Placed(out, i, es[n]);
    }
    assert es[..|es|] == es;
  }

  // ----- The whole conversion ------------------------------------------------

  // Phase 2: the events of the spans, the traces and the sessions.
  method Convert(text: Id -> string, rs: seq<Resource>)
    returns (out: seq<Event>, ghost traceKeys: seq<string>, ghost sessionKeys: seq<string>)
    ensures Converted(text, rs, traceKeys, sessionKeys, out)
  {
    hide Items, Starts, TraceSessions, Sorted, SpanEvents, TraceEvents, SessionEvents, Traces, Sessions;
    var starts, keys := Scan(rs);
    var acc := new Accumulators();
    assert Items([], starts, keys) == [] by { NoItems(starts, keys); }
    for i := 0 to |rs|
      invariant fresh(acc) && acc.Hold(Items(Flat(rs[..i]), starts, keys))
    {
      FlatStep(rs, i);
      if rs[i].ok {
        acc.AddSpans(rs[i].spans, rs[i].service, starts, keys, Flat(rs[..i]));
      } else {
        assert Flat(rs[..i]) + [] == Flat(rs[..i]);
      }
    }
    assert rs[..|rs|] == rs;
    var tks := SortedKeys(acc.traces);
    var traceEvents := EmitTraces(acc.traces, tks);
    var sks := SortedKeys(acc.sessions);
    var sessionEvents := EmitSessions(acc.sessions, sks);
    out := SortEvents(text, acc.events + traceEvents + sessionEvents);
    traceKeys, sessionKeys := tks, sks;
  }

  lemma NoItems(starts: map<Place, UInt64>, keys: map<string, string>)
    ensures Items([], starts, keys) == []
  {
  }
}
