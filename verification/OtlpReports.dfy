// What the events of a conversion say of the spans of the request, in terms of the
// spans alone.
module OtlpReports {
  import opened Common
  import opened TextOrder
  import opened OtlpConvert
  import opened OtlpConvertProofs

  // ----- Spans ---------------------------------------------------------------

  const HEX := "0123456789abcdef"
  const UPPER_HEX := "0123456789ABCDEF"

  // So many hexadecimal digits of either case.
  predicate HexText(s: string, n: nat) {
    |s| == n && forall i :: 0 <= i < |s| ==> s[i] in HEX || s[i] in UPPER_HEX
  }

  // A span that is converted: its ids, its times and its attributes are in order.
  predicate Acceptable(sp: Span) {
    && HexText(sp.trace, 32) && HexText(sp.id, 16) && (sp.parent == "" || HexText(sp.parent, 16))
    && sp.start.Some? && sp.end.Some? && !(sp.end.value < sp.start.value) && sp.wellFormed
  }

  lemma HexMeans(s: string, n: nat)
    ensures ValidHex(s, n) <==> HexText(s, n)
  {
    forall c: char
      ensures ('0' <= c <= '9' || 'a' <= c <= 'f' || 'A' <= c <= 'F') <==> c in HEX || c in UPPER_HEX
    {
      HexDigits(c);
    }
  }

  lemma HexDigits(c: char)
    ensures ('0' <= c <= '9' || 'a' <= c <= 'f') <==> c in HEX
    ensures ('0' <= c <= '9' || 'A' <= c <= 'F') <==> c in UPPER_HEX
  {
    if '0' <= c <= '9' {
      assert HEX[c as int - 48] == c && UPPER_HEX[c as int - 48] == c;
    } else if 'a' <= c <= 'f' {
      assert HEX[c as int - 87] == c;
    } else if 'A' <= c <= 'F' {
      assert UPPER_HEX[c as int - 55] == c;
    }
  }

  lemma AcceptedMeans(sp: Span)
    ensures Accepted(sp) <==> Acceptable(sp)
  {
    hide ValidHex, HexText;
    HexMeans(sp.trace, 32);
    HexMeans(sp.id, 16);
    HexMeans(sp.parent, 16);
  }

  // Lower case keeps every digit's value.
  lemma LowerMeans(s: string, i: nat)
    requires HexText(s, |s|) && i < |s|
    ensures |Lower(s)| == |s|
    ensures exists d :: 0 <= d < 16 && Lower(s)[i] == HEX[d] && (s[i] == HEX[d] || s[i] == UPPER_HEX[d])
  {
    var c := s[i];
    HexDigits(c);
    if '0' <= c <= '9' {
      assert Lower(s)[i] == HEX[c as int - 48];
    } else if 'a' <= c <= 'f' {
      assert Lower(s)[i] == HEX[c as int - 87];
    } else {
      assert 'A' <= c <= 'F';
      assert UPPER_HEX[c as int - 55] == c && Lower(s)[i] == HEX[c as int - 55];
    }
  }

  // The spans of the request are those of the resources in order, each with the
  // service of its resource.
  lemma {:induction false} FlatMeans(rs: seq<Resource>, t: Tagged)
    ensures t in Flat(rs) <==> exists r, k ::
              0 <= r < |rs| && rs[r].ok && 0 <= k < |rs[r].spans| && t == Tagged(rs[r].spans[k], rs[r].service)
  {
    if rs != [] {
      var init, last := rs[..|rs| - 1], rs[|rs| - 1];
      FlatMeans(init, t);
      if r, k :| 0 <= r < |init| && init[r].ok && 0 <= k < |init[r].spans| && t == Tagged(init[r].spans[k], init[r].service) {
        assert rs[r] == init[r];
      }
      if r, k :| 0 <= r < |rs| && rs[r].ok && 0 <= k < |rs[r].spans| && t == Tagged(rs[r].spans[k], rs[r].service) {
        if r < |init| {
          assert init[r] == rs[r];
        } else {
          assert Tag(last.spans, last.service)[k] == t;
        }
      }
      if last.ok && t in Tag(last.spans, last.service) {
        var k :| 0 <= k < |last.spans| && Tag(last.spans, last.service)[k] == t;
        assert t == Tagged(rs[|rs| - 1].spans[k], rs[|rs| - 1].service);
      }
    }
  }

  // ----- Sessions of spans ---------------------------------------------------

  // A span of a trace that a session key was seen on.
  predicate Keyed(sp: Span, trace: string) {
    HexText(sp.trace, 32) && HexText(sp.id, 16) && Lower(sp.trace) == trace && sp.rawSession != ""
  }

  // The session of a span: its own, or else the first that its trace carries, or else
  // the trace.
  ghost predicate InSession(ts: seq<Tagged>, sp: Span, key: string) {
    var trace := Lower(sp.trace);
    if sp.session != "" then key == sp.session
    else if exists i :: 0 <= i < |ts| && Keyed(ts[i].span, trace) then
      exists i :: 0 <= i < |ts| && Keyed(ts[i].span, trace) && key == ts[i].span.rawSession
                  && forall j :: 0 <= j < i ==> !Keyed(ts[j].span, trace)
    else key == "otlp-trace-" + trace
  }

  lemma FirstKeyed(ts: seq<Tagged>, trace: string, i: nat)
    ensures FirstWithKey(ts, trace, i) <==>
            i < |ts| && Keyed(ts[i].span, trace) && forall j :: 0 <= j < i ==> !Keyed(ts[j].span, trace)
  {
    hide ValidHex, HexText, Lower;
    forall s: string, n: nat { HexMeans(s, n); }
  }

  lemma {:induction false} LeastKeyed(ts: seq<Tagged>, trace: string, i: nat) returns (k: nat)
    requires i < |ts| && Keyed(ts[i].span, trace)
    ensures k < |ts| && Keyed(ts[k].span, trace) && forall j :: 0 <= j < k ==> !Keyed(ts[j].span, trace)
    decreases i
  {
    if j :| 0 <= j < i && Keyed(ts[j].span, trace) { k := LeastKeyed(ts, trace, j); } else { k := i; }
  }

  lemma SessionKeyMeans(ts: seq<Tagged>, sp: Span)
    ensures InSession(ts, sp, SessionKey(sp, TraceSessions(ts)))
  {
    hide TraceSessions, Keyed, Lower, FirstWithKey;
    var trace := Lower(sp.trace);
    TraceSessionIs(ts, trace);
    if sp.session == "" {
      if i :| 0 <= i < |ts| && Keyed(ts[i].span, trace) {
        var k := LeastKeyed(ts, trace, i);
        FirstKeyed(ts, trace, k);
      } else {
        forall i: nat { FirstKeyed(ts, trace, i); }
      }
    }
  }

  lemma InSessionOnce(ts: seq<Tagged>, sp: Span, key: string)
    requires InSession(ts, sp, key)
    ensures key == SessionKey(sp, TraceSessions(ts))
  {
    hide TraceSessions, Keyed, Lower, FirstWithKey;
    var trace := Lower(sp.trace);
    TraceSessionIs(ts, trace);
    if sp.session == "" {
      if exists i :: 0 <= i < |ts| && Keyed(ts[i].span, trace) {
        var i: nat :| i < |ts| && Keyed(ts[i].span, trace) && key == ts[i].span.rawSession
                      && forall j :: 0 <= j < i ==> !Keyed(ts[j].span, trace);
        FirstKeyed(ts, trace, i);
      } else {
        forall i: nat { FirstKeyed(ts, trace, i); }
      }
    }
  }

  // ----- Span events ---------------------------------------------------------

  // A span with ids in order and a start time, at a place.
  predicate StartsAt(sp: Span, trace: string, id: string) {
    HexText(sp.trace, 32) && HexText(sp.id, 16) && sp.start.Some? && Lower(sp.trace) == trace && Lower(sp.id) == id
  }

  lemma StartsAtMeans(sp: Span, trace: string, id: string)
    ensures HexOk(sp) && sp.start.Some? && PlaceOf(sp) == Place(trace, id) <==> StartsAt(sp, trace, id)
  {
    hide ValidHex, HexText, Lower;
    HexMeans(sp.trace, 32);
    HexMeans(sp.id, 16);
  }

  // The last span that starts at a place.
  predicate LastAt(ts: seq<Tagged>, trace: string, id: string, i: nat) {
    i < |ts| && StartsAt(ts[i].span, trace, id) && forall j :: i < j < |ts| ==> !StartsAt(ts[j].span, trace, id)
  }

  lemma LastShift(ts: seq<Tagged>, trace: string, id: string, i: nat)
    requires ts != [] && LastAt(ts[..|ts| - 1], trace, id, i) && !StartsAt(ts[|ts| - 1].span, trace, id)
    ensures LastAt(ts, trace, id, i) && ts[i] == ts[..|ts| - 1][i]
  {
    hide StartsAt;
    assert forall j :: 0 <= j < |ts| - 1 ==> ts[j] == ts[..|ts| - 1][j];
  }

  lemma {:induction false} LastStart(ts: seq<Tagged>, trace: string, id: string)
    ensures Place(trace, id) in Starts(ts) <==> exists i: nat :: LastAt(ts, trace, id, i)
    ensures forall i: nat :: LastAt(ts, trace, id, i) ==> Some(Starts(ts)[Place(trace, id)]) == ts[i].span.start
  {
    hide HexOk, PlaceOf, StartsAt;
    if ts != [] {
      var n := |ts| - 1;
      var init, sp := ts[..n], ts[n].span;
      LastStart(init, trace, id);
      StartsAtMeans(sp, trace, id);
      if StartsAt(sp, trace, id) {
        assert LastAt(ts, trace, id, n);
      } else {
        if i: nat :| LastAt(init, trace, id, i) { LastShift(ts, trace, id, i); }
        forall i: nat | LastAt(ts, trace, id, i)
          ensures LastAt(init, trace, id, i) && init[i] == ts[i]
        {
          assert forall j :: 0 <= j < n ==> ts[j] == init[j];
        }
      }
    }
  }

  lemma {:induction false} HasLastAt(ts: seq<Tagged>, trace: string, id: string, i: nat) returns (k: nat)
    requires i < |ts| && StartsAt(ts[i].span, trace, id)
    ensures LastAt(ts, trace, id, k)
    decreases |ts| - i
  {
    if j :| i < j < |ts| && StartsAt(ts[j].span, trace, id) { k := HasLastAt(ts, trace, id, j); } else { k := i; }
  }

  // The parent reference of a span: the started event of the last span at the
  // parent's place, wherever it is in the request.
  ghost predicate RefersTo(ts: seq<Tagged>, sp: Span, parents: seq<Id>) {
    var trace, parent := Lower(sp.trace), Lower(sp.parent);
    if sp.parent != "" && exists i :: 0 <= i < |ts| && StartsAt(ts[i].span, trace, parent) then
      exists i: nat ::
        && LastAt(ts, trace, parent, i)
        && parents == [Id(SpanStart(Place(trace, parent)), ts[i].span.start.value / 1_000_000)]
    else parents == []
  }

  lemma ParentsMean(ts: seq<Tagged>, sp: Span)
    ensures RefersTo(ts, sp, Parents(sp, Starts(ts)))
  {
    hide Starts, Lower, StartsAt;
    var trace, parent := Lower(sp.trace), Lower(sp.parent);
    LastStart(ts, trace, parent);
    if i :| 0 <= i < |ts| && StartsAt(ts[i].span, trace, parent) { var k := HasLastAt(ts, trace, parent, i); }
  }

  // The events of a span under some session.
  predicate Begins(e: Event, sp: Span, service: string, key: string)
    requires sp.start.Some?
  {
    && e.kind == SpanStarted && e.at == sp.start.value && e.session == key && e.agent == service
    && e.trace == Lower(sp.trace)
    && e.id == Id(SpanStart(Place(Lower(sp.trace), Lower(sp.id))), sp.start.value / 1_000_000)
  }

  predicate Ends(e: Event, sp: Span, service: string, key: string)
    requires sp.end.Some?
  {
    && e.kind == (if sp.failed then SpanFailed else SpanCompleted) && e.at == sp.end.value && e.session == key
    && e.agent == service && e.trace == Lower(sp.trace) && e.parents == []
    && e.id == Id(SpanEnd(Place(Lower(sp.trace), Lower(sp.id))), sp.end.value / 1_000_000)
  }

  // Each accepted span is reported by a started event and by one that says how it
  // ended.
  lemma SpanIsReported(text: Id -> string, rs: seq<Resource>, tks: seq<string>, sks: seq<string>, out: seq<Event>,
                       i: nat)
    requires Converted(text, rs, tks, sks, out) && i < |Flat(rs)| && Acceptable(Flat(rs)[i].span)
    ensures var t := Flat(rs)[i];
            exists e, f, key ::
              && e in out && Begins(e, t.span, t.service, key) && RefersTo(Flat(rs), t.span, e.parents)
              && f in out && Ends(f, t.span, t.service, key) && InSession(Flat(rs), t.span, key)
  {
    hide Flat, Items, Starts, TraceSessions, Lower, HexText, ValidHex, RefersTo, InSession, Converted, Parents, SessionKey;
    var ts := Flat(rs);
    var t := ts[i];
    AcceptedMeans(t.span);
    ItemsFrom(ts, Starts(ts), TraceSessions(ts));
    var it := ItemOf(t, Starts(ts), TraceSessions(ts));
    var e, f := StartedEvent(it), EndedEvent(it);
    OutputIs(text, rs, tks, sks, out, e);
    OutputIs(text, rs, tks, sks, out, f);
    ParentsMean(ts, t.span);
    SessionKeyMeans(ts, t.span);
    assert Begins(e, t.span, t.service, it.session) && Ends(f, t.span, t.service, it.session);
  }

  // Every span event of the output reports an accepted span so.
  lemma ReportIsOfSpan(text: Id -> string, rs: seq<Resource>, tks: seq<string>, sks: seq<string>, out: seq<Event>,
                       e: Event)
    requires Converted(text, rs, tks, sks, out) && e in out
    requires e.kind.SpanStarted? || e.kind.SpanCompleted? || e.kind.SpanFailed?
    ensures exists i ::
              && 0 <= i < |Flat(rs)| && Acceptable(Flat(rs)[i].span)
              && InSession(Flat(rs), Flat(rs)[i].span, e.session)
              && if e.kind.SpanStarted? then
                   && Begins(e, Flat(rs)[i].span, Flat(rs)[i].service, e.session)
                   && RefersTo(Flat(rs), Flat(rs)[i].span, e.parents)
                 else
                   Ends(e, Flat(rs)[i].span, Flat(rs)[i].service, e.session)
  {
    hide Flat, Items, Starts, TraceSessions, Lower, HexText, ValidHex, RefersTo, InSession, Converted, Parents, SessionKey,
      Accepted;
    var ts := Flat(rs);
    OutputIs(text, rs, tks, sks, out, e);
    var it :| it in ItemsOf(rs) && (e == StartedEvent(it) || e == EndedEvent(it));
    ItemsFrom(ts, Starts(ts), TraceSessions(ts));
    var i :| 0 <= i < |ts| && Accepted(ts[i].span) && it == ItemOf(ts[i], Starts(ts), TraceSessions(ts));
    AcceptedMeans(ts[i].span);
    ParentsMean(ts, ts[i].span);
    SessionKeyMeans(ts, ts[i].span);
  }

  // ----- Trace and session events --------------------------------------------

  // The accepted spans of a trace and of a session.
  predicate InTrace(t: Tagged, trace: string) {
    Acceptable(t.span) && Lower(t.span.trace) == trace
  }

  ghost predicate UnderKey(ts: seq<Tagged>, t: Tagged, key: string) {
    Acceptable(t.span) && InSession(ts, t.span, key)
  }

  // No span before i is of the trace.
  predicate FirstInTrace(ts: seq<Tagged>, trace: string, i: nat) {
    i < |ts| && InTrace(ts[i], trace) && forall j :: 0 <= j < i ==> !InTrace(ts[j], trace)
  }

  // The last span among the items and the accumulators.
  lemma ItemsLast(ts: seq<Tagged>, starts: map<Place, UInt64>, keys: map<string, string>, trace: string)
    requires ts != []
    ensures var init, t := ts[..|ts| - 1], ts[|ts| - 1];
            var m, was := Traces(Items(ts, starts, keys)), Traces(Items(init, starts, keys));
            if InTrace(t, trace) then
              trace in m && m[trace].session == if trace in was then was[trace].session else SessionKey(t.span, keys)
            else
              (trace in m <==> trace in was) && (trace in was ==> m[trace] == was[trace])
  {
    hide SessionKey, Lower, Acceptable, Accepted, Parents;
    var init, t := ts[..|ts| - 1], ts[|ts| - 1];
    AcceptedMeans(t.span);
    if Accepted(t.span) {
      var items := Items(ts, starts, keys);
      assert items[..|items| - 1] == Items(init, starts, keys);
    }
  }

  lemma FirstShift(ts: seq<Tagged>, trace: string, i: nat)
    requires ts != []
    ensures FirstInTrace(ts[..|ts| - 1], trace, i) ==> FirstInTrace(ts, trace, i) && ts[..|ts| - 1][i] == ts[i]
  {
    hide InTrace;
    assert forall i :: 0 <= i < |ts| - 1 ==> ts[i] == ts[..|ts| - 1][i];
  }

  // A trace takes the session of its first accepted span.
  lemma {:induction false} TraceSessionFirst(ts: seq<Tagged>, starts: map<Place, UInt64>, keys: map<string, string>,
                                             trace: string)
    ensures var m := Traces(Items(ts, starts, keys));
            && (trace in m <==> exists i :: 0 <= i < |ts| && InTrace(ts[i], trace))
            && (trace in m ==> exists i: nat :: FirstInTrace(ts, trace, i) && m[trace].session == SessionKey(ts[i].span, keys))
  {
    hide SessionKey, Traces, InTrace;
    if ts == [] {
      NothingAccepted(starts, keys);
    } else {
      var n := |ts| - 1;
      var init, m := ts[..n], Traces(Items(ts[..n], starts, keys));
      TraceSessionFirst(init, starts, keys, trace);
      ItemsLast(ts, starts, keys, trace);
      assert forall i :: 0 <= i < n ==> ts[i] == init[i];
      if trace in m {
        var i: nat :| FirstInTrace(init, trace, i) && i < n && m[trace].session == SessionKey(init[i].span, keys);
        FirstShift(ts, trace, i);
      } else if InTrace(ts[n], trace) {
        FirstIs(ts, trace);
      }
    }
  }

  lemma FirstIs(ts: seq<Tagged>, trace: string)
    requires ts != [] && InTrace(ts[|ts| - 1], trace)
    requires forall t :: t in ts[..|ts| - 1] ==> !InTrace(t, trace)
    ensures FirstInTrace(ts, trace, |ts| - 1)
  {
    hide InTrace;
    var init := ts[..|ts| - 1];
    assert forall i :: 0 <= i < |init| ==> init[i] == ts[i] && init[i] in init;
  }

  lemma NothingAccepted(starts: map<Place, UInt64>, keys: map<string, string>)
    ensures Traces(Items([], starts, keys)) == map[] && Sessions(Items([], starts, keys)) == map[]
  {
  }

  // The bounds of some accepted spans: their first start and their last end.
  predicate FirstStart(ts: seq<Tagged>, trace: string, at: UInt64) {
    && (forall i :: 0 <= i < |ts| && InTrace(ts[i], trace) ==> at <= ts[i].span.start.value)
    && exists i :: 0 <= i < |ts| && InTrace(ts[i], trace) && at == ts[i].span.start.value
  }

  predicate LastEnd(ts: seq<Tagged>, trace: string, at: UInt64) {
    && (forall i :: 0 <= i < |ts| && InTrace(ts[i], trace) ==> ts[i].span.end.value <= at)
    && exists i :: 0 <= i < |ts| && InTrace(ts[i], trace) && at == ts[i].span.end.value
  }

  // An event that reports where a trace starts or ends, under the session of its
  // first accepted span.
  ghost predicate ReportsTrace(ts: seq<Tagged>, e: Event, trace: string, begins: bool) {
    && e.trace == trace && e.agent == "" && e.parents == []
    && (if begins then e.kind == TraceStarted && FirstStart(ts, trace, e.at)
        else e.kind == TraceCompleted && LastEnd(ts, trace, e.at))
    && e.id == Id(if begins then TraceStart(trace) else TraceEnd(trace), e.at / 1_000_000)
    && exists i: nat :: FirstInTrace(ts, trace, i) && InSession(ts, ts[i].span, e.session)
  }

  lemma ItemInTrace(ts: seq<Tagged>, it: Item, i: nat, trace: string)
    requires i < |ts| && Accepted(ts[i].span) && it == ItemOf(ts[i], Starts(ts), TraceSessions(ts))
    ensures OfTrace(it, trace) <==> InTrace(ts[i], trace)
    ensures it.start == ts[i].span.start.value && it.end == ts[i].span.end.value
  {
    hide Starts, TraceSessions, Lower, Accepted, Acceptable, Parents, SessionKey;
    AcceptedMeans(ts[i].span);
  }

  lemma TraceBoundsMean(rs: seq<Resource>, trace: string)
    requires trace in Traces(ItemsOf(rs))
    ensures var a := Traces(ItemsOf(rs))[trace]; FirstStart(Flat(rs), trace, a.min) && LastEnd(Flat(rs), trace, a.max)
  {
    hide Flat, Items, Starts, TraceSessions, Lower, Accepted, HexText, Traces, ItemOf, OfTrace;
    var ts, items := Flat(rs), ItemsOf(rs);
    var a := Traces(items)[trace];
    ItemsStart(rs);
    TraceBounds(items, trace);
    ItemsFrom(ts, Starts(ts), TraceSessions(ts));
    forall i | 0 <= i < |ts| && InTrace(ts[i], trace)
      ensures a.min <= ts[i].span.start.value && ts[i].span.end.value <= a.max
    {
      AcceptedInTrace(ts[i], trace);
      ItemInTrace(ts, ItemOf(ts[i], Starts(ts), TraceSessions(ts)), i, trace);
    }
    var b :| b in items && OfTrace(b, trace) && b.start == a.min;
    var c :| c in items && OfTrace(c, trace) && c.end == a.max;
    var j :| 0 <= j < |ts| && Accepted(ts[j].span) && b == ItemOf(ts[j], Starts(ts), TraceSessions(ts));
    var k :| 0 <= k < |ts| && Accepted(ts[k].span) && c == ItemOf(ts[k], Starts(ts), TraceSessions(ts));
    ItemInTrace(ts, b, j, trace);
    ItemInTrace(ts, c, k, trace);
    AcceptedInTrace(ts[j], trace);
    AcceptedInTrace(ts[k], trace);
  }

  lemma AcceptedInTrace(t: Tagged, trace: string)
    requires InTrace(t, trace)
    ensures Accepted(t.span) && t.span.start.Some? && t.span.end.Some?
  {
    hide HexText, ValidHex, Lower;
    AcceptedMeans(t.span);
  }

  lemma TraceEventReports(rs: seq<Resource>, trace: string)
    requires trace in Traces(ItemsOf(rs))
    ensures var a := Traces(ItemsOf(rs))[trace];
            && ReportsTrace(Flat(rs), TraceStartedEvent(trace, a), trace, true)
            && ReportsTrace(Flat(rs), TraceCompletedEvent(trace, a), trace, false)
  {
    hide Flat, Items, Starts, TraceSessions, Traces, FirstStart, LastEnd, InTrace, InSession, SessionKey;
    var ts := Flat(rs);
    TraceBoundsMean(rs, trace);
    TraceSessionFirst(ts, Starts(ts), TraceSessions(ts), trace);
    var i: nat :| FirstInTrace(ts, trace, i) && i < |ts| &&
                  Traces(ItemsOf(rs))[trace].session == SessionKey(ts[i].span, TraceSessions(ts));
    SessionKeyMeans(ts, ts[i].span);
  }

  // The trace of each accepted span is reported, and nothing else is said of traces.
  lemma TracesAreReported(text: Id -> string, rs: seq<Resource>, tks: seq<string>, sks: seq<string>, out: seq<Event>)
    requires Converted(text, rs, tks, sks, out)
    ensures forall i :: 0 <= i < |Flat(rs)| && Acceptable(Flat(rs)[i].span) ==>
              var trace := Lower(Flat(rs)[i].span.trace);
              && (exists e :: e in out && ReportsTrace(Flat(rs), e, trace, true))
              && (exists e :: e in out && ReportsTrace(Flat(rs), e, trace, false))
    ensures forall e :: e in out && (e.kind.TraceStarted? || e.kind.TraceCompleted?) ==>
              ReportsTrace(Flat(rs), e, e.trace, e.kind.TraceStarted?)
  {
    hide Flat, Items, Starts, TraceSessions, Traces, ReportsTrace, Converted, Acceptable, Lower, InTrace;
    var ts, m := Flat(rs), Traces(ItemsOf(rs));
    forall i | 0 <= i < |ts| && Acceptable(ts[i].span)
      ensures var trace := Lower(ts[i].span.trace);
              && (exists e :: e in out && ReportsTrace(ts, e, trace, true))
              && (exists e :: e in out && ReportsTrace(ts, e, trace, false))
    {
      var trace := Lower(ts[i].span.trace);
      OfItsTrace(ts[i]);
      TraceSessionFirst(ts, Starts(ts), TraceSessions(ts), trace);
      TraceEventReports(rs, trace);
      OutputIs(text, rs, tks, sks, out, TraceStartedEvent(trace, m[trace]));
      OutputIs(text, rs, tks, sks, out, TraceCompletedEvent(trace, m[trace]));
    }
    forall e | e in out && (e.kind.TraceStarted? || e.kind.TraceCompleted?)
      ensures ReportsTrace(ts, e, e.trace, e.kind.TraceStarted?)
    {
      OutputIs(text, rs, tks, sks, out, e);
      TraceEventReports(rs, e.trace);
    }
  }

  lemma OfItsTrace(t: Tagged)
    ensures Acceptable(t.span) ==> InTrace(t, Lower(t.span.trace))
  {
    hide Lower, HexText;
  }

  // ----- Sessions ------------------------------------------------------------

  predicate ForKey(keys: map<string, string>, t: Tagged, key: string) {
    Acceptable(t.span) && SessionKey(t.span, keys) == key
  }

  lemma UnderKeyIff(ts: seq<Tagged>, t: Tagged, key: string)
    ensures UnderKey(ts, t, key) <==> ForKey(TraceSessions(ts), t, key)
  {
    hide InSession, SessionKey, Acceptable;
    SessionKeyMeans(ts, t.span);
    if InSession(ts, t.span, key) { InSessionOnce(ts, t.span, key); }
  }

  // The first span of a session that names a service.
  predicate FirstNamed(ts: seq<Tagged>, keys: map<string, string>, key: string, i: nat) {
    && i < |ts| && ForKey(keys, ts[i], key) && ts[i].service != ""
    && forall j :: 0 <= j < i && ForKey(keys, ts[j], key) ==> ts[j].service == ""
  }

  lemma SessionLast(ts: seq<Tagged>, starts: map<Place, UInt64>, keys: map<string, string>, key: string)
    requires ts != []
    ensures var init, t := ts[..|ts| - 1], ts[|ts| - 1];
            var m, was := Sessions(Items(ts, starts, keys)), Sessions(Items(init, starts, keys));
            if ForKey(keys, t, key) then
              key in m && m[key].agent == if key in was && was[key].agent != "" then was[key].agent else t.service
            else
              (key in m <==> key in was) && (key in was ==> m[key] == was[key])
  {
    hide SessionKey, Lower, Acceptable, Accepted, Parents;
    var init, t := ts[..|ts| - 1], ts[|ts| - 1];
    AcceptedMeans(t.span);
    if Accepted(t.span) {
      var items := Items(ts, starts, keys);
      assert items[..|items| - 1] == Items(init, starts, keys);
    }
  }

  // A session is known when a span of it was accepted, and named by the first of them
  // that names a service.
  lemma {:induction false} SessionNamed(ts: seq<Tagged>, starts: map<Place, UInt64>, keys: map<string, string>,
                                        key: string)
    ensures var m := Sessions(Items(ts, starts, keys));
            && (key in m <==> exists i :: 0 <= i < |ts| && ForKey(keys, ts[i], key))
            && (forall i: nat :: key in m && FirstNamed(ts, keys, key, i) ==> m[key].agent == ts[i].service)
            && (key in m && m[key].agent == "" ==>
                  forall i :: 0 <= i < |ts| && ForKey(keys, ts[i], key) ==> ts[i].service == "")
            && (key in m && m[key].agent != "" ==> exists i: nat :: FirstNamed(ts, keys, key, i))
  {
    hide Sessions, ForKey, FirstNamed, Items;
    if ts == [] {
      NothingAccepted(starts, keys);
    } else {
      var n := |ts| - 1;
      var init := ts[..n];
      SessionNamed(init, starts, keys, key);
      SessionLast(ts, starts, keys, key);
      assert forall i :: 0 <= i < n ==> ts[i] == init[i];
      NamedShift(ts, keys, key);
      if i: nat :| FirstNamed(init, keys, key, i) {
        NamedIs(init, keys, key, i);
        assert FirstNamed(ts, keys, key, i);
      } else {
        assert FirstNamed(ts, keys, key, n) || !ForKey(keys, ts[n], key) || ts[n].service == "";
      }
    }
  }

  lemma NamedIs(ts: seq<Tagged>, keys: map<string, string>, key: string, i: nat)
    requires FirstNamed(ts, keys, key, i)
    ensures i < |ts| && ForKey(keys, ts[i], key) && ts[i].service != ""
  {
  }

  // What one more span changes of which one is the first to name a service.
  lemma NamedShift(ts: seq<Tagged>, keys: map<string, string>, key: string)
    requires ts != []
    ensures forall i: nat :: FirstNamed(ts, keys, key, i) <==>
              if i < |ts| - 1 then FirstNamed(ts[..|ts| - 1], keys, key, i)
              else
                i == |ts| - 1 && ForKey(keys, ts[i], key) && ts[i].service != ""
                && forall j :: 0 <= j < |ts| - 1 && ForKey(keys, ts[j], key) ==> ts[j].service == ""
    ensures forall i: nat :: FirstNamed(ts, keys, key, i) ==> i < |ts|
  {
    hide ForKey;
    var init := ts[..|ts| - 1];
    assert forall i :: 0 <= i < |init| ==> ts[i] == init[i];
  }

  // The service that a session is named by: the first that one of its spans names.
  ghost predicate NamedAs(ts: seq<Tagged>, key: string, agent: string) {
    if exists i :: 0 <= i < |ts| && UnderKey(ts, ts[i], key) && ts[i].service != "" then
      exists i :: 0 <= i < |ts| && UnderKey(ts, ts[i], key) && ts[i].service == agent != ""
                  && forall j :: 0 <= j < i && UnderKey(ts, ts[j], key) ==> ts[j].service == ""
    else agent == ""
  }

  // An event that reports where a session starts.
  ghost predicate ReportsSession(ts: seq<Tagged>, e: Event, key: string) {
    && e.kind == SessionStarted && e.session == key && e.trace == "" && e.parents == []
    && e.id == Id(SessionStart(key), e.at / 1_000_000)
    && (forall i :: 0 <= i < |ts| && UnderKey(ts, ts[i], key) ==> e.at <= ts[i].span.start.value)
    && (exists i :: 0 <= i < |ts| && UnderKey(ts, ts[i], key) && e.at == ts[i].span.start.value)
    && NamedAs(ts, key, e.agent)
  }

  lemma SessionNamedAs(rs: seq<Resource>, key: string)
    requires key in Sessions(ItemsOf(rs))
    ensures NamedAs(Flat(rs), key, Sessions(ItemsOf(rs))[key].agent)
  {
    hide Flat, Items, Starts, TraceSessions, Sessions, UnderKey, ForKey;
    var ts := Flat(rs);
    var keys, agent := TraceSessions(ts), Sessions(ItemsOf(rs))[key].agent;
    SessionNamed(ts, Starts(ts), keys, key);
    forall i | 0 <= i < |ts|
      ensures UnderKey(ts, ts[i], key) <==> ForKey(keys, ts[i], key)
    {
      UnderKeyIff(ts, ts[i], key);
    }
    if agent != "" {
      var i: nat :| FirstNamed(ts, keys, key, i);
      assert UnderKey(ts, ts[i], key);
    }
  }

  lemma ItemUnderKey(ts: seq<Tagged>, it: Item, i: nat, key: string)
    requires i < |ts| && Accepted(ts[i].span) && it == ItemOf(ts[i], Starts(ts), TraceSessions(ts))
    ensures it.session == key <==> UnderKey(ts, ts[i], key)
    ensures Some(it.start) == ts[i].span.start
  {
    hide Starts, TraceSessions, Lower, HexText, ValidHex, Parents, SessionKey, UnderKey;
    AcceptedMeans(ts[i].span);
    UnderKeyIff(ts, ts[i], key);
  }

  lemma SessionEventReports(rs: seq<Resource>, key: string)
    requires key in Sessions(ItemsOf(rs))
    ensures ReportsSession(Flat(rs), SessionStartedEvent(key, Sessions(ItemsOf(rs))[key]), key)
  {
    hide Flat, Items, Starts, TraceSessions, Lower, Accepted, HexText, Sessions, ItemOf, InSession, NamedAs;
    var ts, items := Flat(rs), ItemsOf(rs);
    SessionNamedAs(rs, key);
    SessionBounds(items, key);
    ItemsFrom(ts, Starts(ts), TraceSessions(ts));
    forall i | 0 <= i < |ts| && UnderKey(ts, ts[i], key)
      ensures Sessions(items)[key].min <= ts[i].span.start.value
    {
      AcceptedMeans(ts[i].span);
      ItemUnderKey(ts, ItemOf(ts[i], Starts(ts), TraceSessions(ts)), i, key);
    }
    var b :| b in items && b.session == key && b.start == Sessions(items)[key].min;
    var j :| 0 <= j < |ts| && Accepted(ts[j].span) && b == ItemOf(ts[j], Starts(ts), TraceSessions(ts));
    ItemUnderKey(ts, b, j, key);
  }

  // The session of each accepted span is reported, and nothing else is said of
  // sessions.
  lemma SessionsAreReported(text: Id -> string, rs: seq<Resource>, tks: seq<string>, sks: seq<string>, out: seq<Event>)
    requires Converted(text, rs, tks, sks, out)
    ensures forall i, key :: 0 <= i < |Flat(rs)| && UnderKey(Flat(rs), Flat(rs)[i], key) ==>
              exists e :: e in out && ReportsSession(Flat(rs), e, key)
    ensures forall e :: e in out && e.kind.SessionStarted? ==> ReportsSession(Flat(rs), e, e.session)
  {
    hide Flat, Items, Starts, TraceSessions, Sessions, ReportsSession, Converted, UnderKey, ForKey;
    var ts, m := Flat(rs), Sessions(ItemsOf(rs));
    forall i, key | 0 <= i < |ts| && UnderKey(ts, ts[i], key)
      ensures exists e :: e in out && ReportsSession(ts, e, key)
    {
      UnderKeyIff(ts, ts[i], key);
      SessionNamed(ts, Starts(ts), TraceSessions(ts), key);
      SessionEventReports(rs, key);
      OutputIs(text, rs, tks, sks, out, SessionStartedEvent(key, m[key]));
    }
    forall e | e in out && e.kind.SessionStarted?
      ensures ReportsSession(ts, e, e.session)
    {
      OutputIs(text, rs, tks, sks, out, e);
      SessionEventReports(rs, e.session);
    }
  }

  // ----- The order -----------------------------------------------------------

  // Within one moment sessions come first, then traces, spans that start, spans that
  // end, and traces that end.
  function Phase(e: Event): nat {
    if e.kind.SessionStarted? then 1
    else if e.kind.TraceStarted? then 2
    else if e.kind.SpanStarted? then 3
    else if e.kind.TraceCompleted? then 5
    else 4
  }

  // The moment of an event as the signed number it is compared by.
  function Moment(e: Event): int {
    if e.at >= 0x8000_0000_0000_0000 then e.at - 0x1_0000_0000_0000_0000 else e.at
  }

  // The output is in order of moments, then of phases, then of printed ids.
  lemma OutputIsOrdered(text: Id -> string, rs: seq<Resource>, tks: seq<string>, sks: seq<string>, out: seq<Event>,
                        i: nat, j: nat)
    requires Converted(text, rs, tks, sks, out) && i < j < |out|
    ensures Moment(out[i]) <= Moment(out[j])
    ensures Moment(out[i]) == Moment(out[j]) ==> Phase(out[i]) <= Phase(out[j])
    ensures Moment(out[i]) == Moment(out[j]) && Phase(out[i]) == Phase(out[j]) ==>
              !Before(text(out[j].id), text(out[i].id))
  {
    hide ItemsOf, Traces, Sessions, SpanEvents, TraceEvents, SessionEvents, Before;
    assert !Ahead(text, out[j], out[i]);
  }

  // ----- How many ------------------------------------------------------------

  function AcceptedPlaces(ts: seq<Tagged>): set<nat> {
    set i: nat | i < |ts| && Acceptable(ts[i].span)
  }

  lemma {:induction false} ItemsCounted(ts: seq<Tagged>, starts: map<Place, UInt64>, keys: map<string, string>)
    ensures |Items(ts, starts, keys)| == |AcceptedPlaces(ts)|
  {
    hide Acceptable, Accepted, ItemOf, AcceptedPlaces;
    PlacesStep(ts);
    if ts != [] {
      ItemsCounted(ts[..|ts| - 1], starts, keys);
      AcceptedMeans(ts[|ts| - 1].span);
    }
  }

  lemma PlacesStep(ts: seq<Tagged>)
    ensures ts == [] ==> AcceptedPlaces(ts) == {}
    ensures ts != [] ==>
              |AcceptedPlaces(ts)| ==
              |AcceptedPlaces(ts[..|ts| - 1])| + (if Acceptable(ts[|ts| - 1].span) then 1 else 0)
  {
    hide Acceptable;
    if ts != [] {
      var n := |ts| - 1;
      assert AcceptedPlaces(ts) == AcceptedPlaces(ts[..n]) + (if Acceptable(ts[n].span) then {n} else {});
    }
  }

  // Every accepted span gives two events, every trace of one two, and every session
  // of one a single event.
  lemma EventsCountedBySpans(text: Id -> string, rs: seq<Resource>, tks: seq<string>, sks: seq<string>,
                             out: seq<Event>)
    requires Converted(text, rs, tks, sks, out)
    ensures |out| == 2 * |AcceptedPlaces(Flat(rs))| + 2 * |tks| + |sks| && Distinct(tks) && Distinct(sks)
    ensures forall trace :: trace in tks <==> exists i :: 0 <= i < |Flat(rs)| && InTrace(Flat(rs)[i], trace)
    ensures forall key :: key in sks <==> exists i :: 0 <= i < |Flat(rs)| && UnderKey(Flat(rs), Flat(rs)[i], key)
  {
    hide Flat, Items, Starts, TraceSessions, Traces, Sessions, Sorted, SpanEvents, TraceEvents, SessionEvents, UnderKey,
      ForKey, InTrace;
    var ts := Flat(rs);
    EventsCounted(text, rs, tks, sks, out);
    ItemsCounted(ts, Starts(ts), TraceSessions(ts));
    ListLength(tks, Traces(ItemsOf(rs)));
    ListLength(sks, Sessions(ItemsOf(rs)));
    forall trace { TraceSessionFirst(ts, Starts(ts), TraceSessions(ts), trace); }
    forall key
      ensures key in Sessions(ItemsOf(rs)) <==> exists i :: 0 <= i < |ts| && UnderKey(ts, ts[i], key)
    {
      SessionNamed(ts, Starts(ts), TraceSessions(ts), key);
      forall i | 0 <= i < |ts|
        ensures UnderKey(ts, ts[i], key) <==> ForKey(TraceSessions(ts), ts[i], key)
      {
        UnderKeyIff(ts, ts[i], key);
      }
    }
  }
}
