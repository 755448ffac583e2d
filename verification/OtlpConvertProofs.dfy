// Where the events of a trace and a session come in the output, and what parent
// references point at.
module OtlpConvertProofs {
  import opened OtlpConvert

  // ----- Accumulators --------------------------------------------------------

  predicate OfTrace(it: Item, t: string) {
    it.place.trace == t
  }

  // A trace is known when a span of it was accepted; its bounds are the first
  // start and the last end of its spans.
  lemma {:induction false} TraceBounds(items: seq<Item>, t: string)
    requires forall it :: it in items ==> it.start <= it.end
    ensures t in Traces(items) <==> exists it :: it in items && OfTrace(it, t)
    ensures t in Traces(items) ==>
              var a := Traces(items)[t];
              && (forall it :: it in items && OfTrace(it, t) ==> a.min <= it.start && it.end <= a.max)
              && (exists it :: it in items && OfTrace(it, t) && it.start == a.min)
              && (exists it :: it in items && OfTrace(it, t) && it.end == a.max)
  {
    if items != [] {
      var init, last := items[..|items| - 1], items[|items| - 1];
      assert items == init + [last];
      assert forall it :: it in items <==> it in init || it == last;
      TraceBounds(init, t);
      assert last in items;
    }
  }

  lemma {:induction false} SessionBounds(items: seq<Item>, k: string)
    ensures k in Sessions(items) <==> exists it :: it in items && it.session == k
    ensures k in Sessions(items) ==>
              && (forall it :: it in items && it.session == k ==> Sessions(items)[k].min <= it.start)
              && (exists it :: it in items && it.session == k && it.start == Sessions(items)[k].min)
  {
    if items != [] {
      var init, last := items[..|items| - 1], items[|items| - 1];
      assert items == init + [last];
      assert forall it :: it in items <==> it in init || it == last;
      SessionBounds(init, k);
      assert last in items;
    }
  }

  lemma {:induction false} ItemsInOrder(ts: seq<Tagged>, starts: map<Place, UInt64>, sessions: map<string, string>)
    ensures forall it :: it in Items(ts, starts, sessions) ==> it.start <= it.end
  {
    if ts != [] { ItemsInOrder(ts[..|ts| - 1], starts, sessions); }
  }

  // ----- What is in the output -----------------------------------------------

  lemma {:induction false} SpanEventsAre(items: seq<Item>)
    ensures forall e :: e in SpanEvents(items) <==> exists it :: it in items && (e == StartedEvent(it) || e == EndedEvent(it))
  {
    hide StartedEvent, EndedEvent;
    if items != [] {
      var init, last := items[..|items| - 1], items[|items| - 1];
      assert items == init + [last];
      SpanEventsAre(init);
      forall e
        ensures e in SpanEvents(items) <==> exists it :: it in items && (e == StartedEvent(it) || e == EndedEvent(it))
      {
        assert e in SpanEvents(items) <==> e in SpanEvents(init) || e == StartedEvent(last) || e == EndedEvent(last);
        if e == StartedEvent(last) || e == EndedEvent(last) { assert last in items; }
      }
    }
  }

  lemma {:induction false} TraceEventsAre(m: map<string, TraceAccum>, keys: seq<string>)
    requires forall k :: k in keys ==> k in m
    ensures forall e :: e in TraceEvents(m, keys) <==>
              exists k :: k in keys && (e == TraceStartedEvent(k, m[k]) || e == TraceCompletedEvent(k, m[k]))
  {
    hide TraceStartedEvent, TraceCompletedEvent;
    if keys != [] {
      var init, last := keys[..|keys| - 1], keys[|keys| - 1];
      assert keys == init + [last];
      TraceEventsAre(m, init);
      forall e
        ensures e in TraceEvents(m, keys) <==>
                exists k :: k in keys && (e == TraceStartedEvent(k, m[k]) || e == TraceCompletedEvent(k, m[k]))
      {
        assert e in TraceEvents(m, keys) <==>
               e in TraceEvents(m, init) || e == TraceStartedEvent(last, m[last]) || e == TraceCompletedEvent(last, m[last]);
        if e == TraceStartedEvent(last, m[last]) || e == TraceCompletedEvent(last, m[last]) { assert last in keys; }
      }
    }
  }

  lemma {:induction false} SessionEventsAre(m: map<string, SessionAccum>, keys: seq<string>)
    requires forall k :: k in keys ==> k in m
    ensures forall e :: e in SessionEvents(m, keys) <==> exists k :: k in keys && e == SessionStartedEvent(k, m[k])
  {
    hide SessionStartedEvent;
    if keys != [] {
      var init, last := keys[..|keys| - 1], keys[|keys| - 1];
      assert keys == init + [last];
      SessionEventsAre(m, init);
      forall e
        ensures e in SessionEvents(m, keys) <==> exists k :: k in keys && e == SessionStartedEvent(k, m[k])
      {
        assert e in SessionEvents(m, keys) <==> e in SessionEvents(m, init) || e == SessionStartedEvent(last, m[last]);
        if e == SessionStartedEvent(last, m[last]) { assert last in keys; }
      }
    }
  }

  predicate SpanEvent(e: Event) {
    e.kind.SpanStarted? || e.kind.SpanCompleted? || e.kind.SpanFailed?
  }

  // The output holds the events of the accepted spans, of their traces and of
  // their sessions, and no others.
  lemma OutputIs(text: Id -> string, rs: seq<Resource>, tks: seq<string>, sks: seq<string>, out: seq<Event>, e: Event)
    requires Converted(text, rs, tks, sks, out)
    ensures SpanEvent(e) ==>
              (e in out <==> exists it :: it in ItemsOf(rs) && (e == StartedEvent(it) || e == EndedEvent(it)))
    ensures e.kind.TraceStarted? ==>
              (e in out <==> e.trace in Traces(ItemsOf(rs)) && e == TraceStartedEvent(e.trace, Traces(ItemsOf(rs))[e.trace]))
    ensures e.kind.TraceCompleted? ==>
              (e in out <==> e.trace in Traces(ItemsOf(rs)) && e == TraceCompletedEvent(e.trace, Traces(ItemsOf(rs))[e.trace]))
    ensures e.kind.SessionStarted? ==>
              (e in out <==> e.session in Sessions(ItemsOf(rs)) && e == SessionStartedEvent(e.session, Sessions(ItemsOf(rs))[e.session]))
  {
    hide ItemsOf, Traces, Sessions, Sorted, SpanEvents, TraceEvents, SessionEvents;
    var items := ItemsOf(rs);
    var all := SpanEvents(items) + TraceEvents(Traces(items), tks) + SessionEvents(Sessions(items), sks);
    assert e in multiset(out) <==> e in multiset(all);
    assert e in all <==> e in SpanEvents(items) || e in TraceEvents(Traces(items), tks) || e in SessionEvents(Sessions(items), sks);
    SpanEventsAre(items);
    TraceEventsAre(Traces(items), tks);
    SessionEventsAre(Sessions(items), sks);
  }

  // Events that are ahead come first.
  lemma AheadComesFirst(text: Id -> string, out: seq<Event>, i: nat, j: nat)
    requires Sorted(text, out) && i < |out| && j < |out| && Ahead(text, out[i], out[j])
    ensures i < j
  {
    AheadIrreflexive(text, out[i], out[j]);
  }

  // ----- Traces --------------------------------------------------------------

  // The trace's started event comes before, and its completed event after,
  // every event of its spans.
  predicate Bracketed(out: seq<Event>, t: string) {
    && (forall i, j :: 0 <= i < |out| && 0 <= j < |out| && out[i].trace == t && out[j].trace == t && SpanEvent(out[j]) ==>
          out[i].kind.TraceStarted? ==> i < j)
    && (forall i, j :: 0 <= i < |out| && 0 <= j < |out| && out[i].trace == t && out[j].trace == t && SpanEvent(out[j]) ==>
          out[i].kind.TraceCompleted? ==> j < i)
  }

  // The times of a trace all lie on one side of 2^63.
  predicate OneSided(a: TraceAccum) {
    a.max < HALF || a.min >= HALF
  }

  lemma BracketsHold(text: Id -> string, rs: seq<Resource>, tks: seq<string>, sks: seq<string>, out: seq<Event>,
                     t: string, i: nat, j: nat)
    requires Converted(text, rs, tks, sks, out) && t in Traces(ItemsOf(rs)) && OneSided(Traces(ItemsOf(rs))[t])
    requires i < |out| && j < |out| && SpanEvent(out[j]) && out[i].trace == t && out[j].trace == t
    ensures out[i].kind.TraceStarted? ==> i < j
    ensures out[i].kind.TraceCompleted? ==> j < i
  {
    hide ItemsOf, Traces, Sessions, SpanEvents, TraceEvents, SessionEvents;
    var items := ItemsOf(rs);
    OutputIs(text, rs, tks, sks, out, out[i]);
    OutputIs(text, rs, tks, sks, out, out[j]);
    ItemsStart(rs);
    TraceBounds(items, t);
    var it :| it in items && (out[j] == StartedEvent(it) || out[j] == EndedEvent(it));
    assert OfTrace(it, t);
    if out[i].kind.TraceStarted? {
      AheadComesFirst(text, out, i, j);
    } else if out[i].kind.TraceCompleted? {
      AheadComesFirst(text, out, j, i);
    }
  }

  lemma ItemsStart(rs: seq<Resource>)
    ensures forall it :: it in ItemsOf(rs) ==> it.start <= it.end
  {
    ItemsInOrder(Flat(rs), Starts(Flat(rs)), TraceSessions(Flat(rs)));
  }

  lemma IndexOf(out: seq<Event>, e: Event) returns (i: nat)
    requires e in out
    ensures i < |out| && out[i] == e
  {
    i :| 0 <= i < |out| && out[i] == e;
  }

  // A trace brackets its spans exactly when its times lie on one side of 2^63:
  // they are compared as signed numbers.
  lemma TraceBracketsIff(text: Id -> string, rs: seq<Resource>, tks: seq<string>, sks: seq<string>,
                         out: seq<Event>, t: string)
    requires Converted(text, rs, tks, sks, out) && t in Traces(ItemsOf(rs))
    ensures Bracketed(out, t) <==> OneSided(Traces(ItemsOf(rs))[t])
  {
    hide ItemsOf, Traces, Sessions, SpanEvents, TraceEvents, SessionEvents;
    var items := ItemsOf(rs);
    var a := Traces(items)[t];
    if OneSided(a) {
      forall i, j | 0 <= i < |out| && 0 <= j < |out| && SpanEvent(out[j]) && out[i].trace == t && out[j].trace == t
        ensures (out[i].kind.TraceStarted? ==> i < j) && (out[i].kind.TraceCompleted? ==> j < i)
      {
        BracketsHold(text, rs, tks, sks, out, t, i, j);
      }
    } else {
      ItemsStart(rs);
      TraceBounds(items, t);
      var it :| it in items && OfTrace(it, t) && it.start == a.min;
      var e, f := TraceCompletedEvent(t, a), StartedEvent(it);
      OutputIs(text, rs, tks, sks, out, e);
      OutputIs(text, rs, tks, sks, out, f);
      var i := IndexOf(out, e);
      var j := IndexOf(out, f);
      AheadComesFirst(text, out, i, j);
      assert !Bracketed(out, t);
    }
  }

  // ----- Sessions ------------------------------------------------------------

  // The session's started event comes before every event of its spans.
  predicate Opened(out: seq<Event>, k: string) {
    forall i, j :: 0 <= i < |out| && 0 <= j < |out| && out[i].session == k && out[j].session == k && SpanEvent(out[j]) ==>
      out[i].kind.SessionStarted? ==> i < j
  }

  predicate SessionOneSided(items: seq<Item>, a: SessionAccum, k: string) {
    a.min >= HALF || forall it :: it in items && it.session == k ==> it.end < HALF
  }

  lemma OpeningHolds(text: Id -> string, rs: seq<Resource>, tks: seq<string>, sks: seq<string>, out: seq<Event>,
                     k: string, i: nat, j: nat)
    requires Converted(text, rs, tks, sks, out) && k in Sessions(ItemsOf(rs))
    requires SessionOneSided(ItemsOf(rs), Sessions(ItemsOf(rs))[k], k)
    requires i < |out| && j < |out| && out[i].kind.SessionStarted? && SpanEvent(out[j])
    requires out[i].session == k && out[j].session == k
    ensures i < j
  {
    hide ItemsOf, Traces, Sessions, SpanEvents, TraceEvents, SessionEvents;
    var items := ItemsOf(rs);
    OutputIs(text, rs, tks, sks, out, out[i]);
    OutputIs(text, rs, tks, sks, out, out[j]);
    ItemsStart(rs);
    SessionBounds(items, k);
    var it :| it in items && (out[j] == StartedEvent(it) || out[j] == EndedEvent(it));
    assert it.session == k;
    AheadComesFirst(text, out, i, j);
  }

  // A session opens its spans exactly when its times lie on one side of 2^63.
  lemma SessionOpensIff(text: Id -> string, rs: seq<Resource>, tks: seq<string>, sks: seq<string>, out: seq<Event>,
                        k: string)
    requires Converted(text, rs, tks, sks, out) && k in Sessions(ItemsOf(rs))
    ensures Opened(out, k) <==> SessionOneSided(ItemsOf(rs), Sessions(ItemsOf(rs))[k], k)
  {
    hide ItemsOf, Traces, Sessions, SpanEvents, TraceEvents, SessionEvents;
    var items := ItemsOf(rs);
    var a := Sessions(items)[k];
    if SessionOneSided(items, a, k) {
      forall i, j | 0 <= i < |out| && 0 <= j < |out| && out[i].kind.SessionStarted? && SpanEvent(out[j]) &&
                    out[i].session == k && out[j].session == k
        ensures i < j
      {
        OpeningHolds(text, rs, tks, sks, out, k, i, j);
      }
    } else {
      var it :| it in items && it.session == k && it.end >= HALF;
      var e, f := SessionStartedEvent(k, a), EndedEvent(it);
      OutputIs(text, rs, tks, sks, out, e);
      OutputIs(text, rs, tks, sks, out, f);
      var i := IndexOf(out, e);
      var j := IndexOf(out, f);
      AheadComesFirst(text, out, j, i);
      assert !Opened(out, k);
    }
  }

  // ----- Parents -------------------------------------------------------------

  // No two spans of the request share a place.
  predicate PlacesUnique(ts: seq<Tagged>) {
    forall i, j :: 0 <= i < j < |ts| && HexOk(ts[i].span) && HexOk(ts[j].span) ==> PlaceOf(ts[i].span) != PlaceOf(ts[j].span)
  }

  lemma {:induction false} StartsAre(ts: seq<Tagged>, i: nat)
    requires PlacesUnique(ts) && i < |ts| && HexOk(ts[i].span) && ts[i].span.start.Some?
    ensures PlaceOf(ts[i].span) in Starts(ts) && Starts(ts)[PlaceOf(ts[i].span)] == ts[i].span.start.value
  {
    hide HexOk, PlaceOf;
    var n := |ts| - 1;
    if i < n {
      assert ts[..n][i] == ts[i];
      assert PlacesUnique(ts[..n]);
      StartsAre(ts[..n], i);
    }
  }

  lemma {:induction false} ItemsFrom(ts: seq<Tagged>, starts: map<Place, UInt64>, sessions: map<string, string>)
    ensures forall it :: it in Items(ts, starts, sessions) ==>
              exists i :: 0 <= i < |ts| && Accepted(ts[i].span) && it == ItemOf(ts[i], starts, sessions)
    ensures forall i :: 0 <= i < |ts| && Accepted(ts[i].span) ==> ItemOf(ts[i], starts, sessions) in Items(ts, starts, sessions)
  {
    hide Accepted, ItemOf;
    if ts != [] {
      var n := |ts| - 1;
      ItemsFrom(ts[..n], starts, sessions);
      forall it | it in Items(ts, starts, sessions)
        ensures exists i :: 0 <= i < |ts| && Accepted(ts[i].span) && it == ItemOf(ts[i], starts, sessions)
      {
        if it in Items(ts[..n], starts, sessions) {
          var i :| 0 <= i < n && Accepted(ts[..n][i].span) && it == ItemOf(ts[..n][i], starts, sessions);
          assert ts[i] == ts[..n][i];
        } else {
          assert it == ItemOf(ts[n], starts, sessions);
        }
      }
      forall i | 0 <= i < |ts| && Accepted(ts[i].span)
        ensures ItemOf(ts[i], starts, sessions) in Items(ts, starts, sessions)
      {
        if i < n { assert ts[..n][i] == ts[i]; }
      }
    }
  }

  function ParentPlace(sp: Span): Place {
    Place(Lower(sp.trace), Lower(sp.parent))
  }

  // Some span of the request at a place was accepted.
  predicate AcceptedAt(ts: seq<Tagged>, p: Place) {
    exists i :: 0 <= i < |ts| && Accepted(ts[i].span) && PlaceOf(ts[i].span) == p
  }

  // Some span at a place has well-formed ids and a start time.
  predicate StartedAt(ts: seq<Tagged>, p: Place) {
    exists i :: 0 <= i < |ts| && HexOk(ts[i].span) && ts[i].span.start.Some? && PlaceOf(ts[i].span) == p
  }

  lemma {:induction false} StartsIff(ts: seq<Tagged>, p: Place)
    ensures p in Starts(ts) <==> StartedAt(ts, p)
  {
    hide HexOk, PlaceOf;
    if ts != [] {
      var n := |ts| - 1;
      StartsIff(ts[..n], p);
      if i :| 0 <= i < |ts| && HexOk(ts[i].span) && ts[i].span.start.Some? && PlaceOf(ts[i].span) == p {
        if i < n { assert ts[..n][i] == ts[i]; }
      }
      if i :| 0 <= i < n && HexOk(ts[..n][i].span) && ts[..n][i].span.start.Some? && PlaceOf(ts[..n][i].span) == p {
        assert ts[..n][i] == ts[i];
      }
    }
  }

  // A reference to an accepted parent, early or late in the request, is the
  // parent's own started event.
  lemma ParentsArePlaced(rs: seq<Resource>, c: nat, it: Item)
    requires PlacesUnique(Flat(rs)) && c < |Flat(rs)| && Accepted(Flat(rs)[c].span) && Flat(rs)[c].span.parent != ""
    requires it in ItemsOf(rs) && it.place == ParentPlace(Flat(rs)[c].span)
    ensures Parents(Flat(rs)[c].span, Starts(Flat(rs))) == [StartedEvent(it).id]
  {
    hide Items, Starts, TraceSessions, Flat, Lower, HexOk;
    var ts := Flat(rs);
    ItemsFrom(ts, Starts(ts), TraceSessions(ts));
    var i :| 0 <= i < |ts| && Accepted(ts[i].span) && it == ItemOf(ts[i], Starts(ts), TraceSessions(ts));
    StartsAre(ts, i);
  }

  // A span with a parent carries a reference exactly when some span at the
  // parent's place started well, and the reference names an event of the output
  // exactly when one was accepted there; in between it dangles.
  lemma ParentResolvesIff(text: Id -> string, rs: seq<Resource>, tks: seq<string>, sks: seq<string>,
                          out: seq<Event>, c: nat)
    requires Converted(text, rs, tks, sks, out) && PlacesUnique(Flat(rs))
    requires c < |Flat(rs)| && Accepted(Flat(rs)[c].span) && Flat(rs)[c].span.parent != ""
    ensures var sp := Flat(rs)[c].span;
            var parents := Parents(sp, Starts(Flat(rs)));
            && (parents == [] <==> !StartedAt(Flat(rs), ParentPlace(sp)))
            && |parents| <= 1
            && (parents != [] ==>
                  ((exists e :: e in out && e.id == parents[0]) <==> AcceptedAt(Flat(rs), ParentPlace(sp))))
  {
    hide Items, Starts, TraceSessions, Flat, Lower, HexOk, Sorted, Traces, Sessions, SpanEvents, TraceEvents,
      SessionEvents, StartedAt;
    var ts := Flat(rs);
    var sp := ts[c].span;
    var place := ParentPlace(sp);
    var parents := Parents(sp, Starts(ts));
    StartsIff(ts, place);
    ItemsFrom(ts, Starts(ts), TraceSessions(ts));
    if i :| 0 <= i < |ts| && Accepted(ts[i].span) && PlaceOf(ts[i].span) == place {
      var it := ItemOf(ts[i], Starts(ts), TraceSessions(ts));
      ParentsArePlaced(rs, c, it);
      OutputIs(text, rs, tks, sks, out, StartedEvent(it));
      assert StartedEvent(it) in out;
    }
    if parents != [] && exists e :: e in out && e.id == parents[0] {
      var e :| e in out && e.id == parents[0];
      OutputIs(text, rs, tks, sks, out, e);
      assert e.id.subject == SpanStart(place);
      assert SpanEvent(e);
      var it :| it in ItemsOf(rs) && (e == StartedEvent(it) || e == EndedEvent(it));
      assert it.place == place;
      var i :| 0 <= i < |ts| && Accepted(ts[i].span) && it == ItemOf(ts[i], Starts(ts), TraceSessions(ts));
      assert PlaceOf(ts[i].span) == place;
    }
  }

  // ----- Counting ------------------------------------------------------------

  lemma {:induction false} EventLengths(items: seq<Item>, m: map<string, TraceAccum>, tks: seq<string>,
                                        n: map<string, SessionAccum>, sks: seq<string>)
    requires (forall k :: k in tks ==> k in m) && (forall k :: k in sks ==> k in n)
    ensures |SpanEvents(items)| == 2 * |items| && |TraceEvents(m, tks)| == 2 * |tks| && |SessionEvents(n, sks)| == |sks|
    decreases |items| + |tks| + |sks|
  {
    if items != [] {
      EventLengths(items[..|items| - 1], m, tks, n, sks);
    } else if tks != [] {
      EventLengths(items, m, tks[..|tks| - 1], n, sks);
    } else if sks != [] {
      EventLengths(items, m, tks, n, sks[..|sks| - 1]);
    }
  }

  lemma {:induction false} ListLength<V>(keys: seq<string>, m: map<string, V>)
    requires Lists(keys, m)
    ensures |keys| == |m|
  {
    if keys == [] {
      assert m.Keys == {};
    } else {
      var last, init := keys[|keys| - 1], keys[..|keys| - 1];
      assert keys == init + [last];
      var rest := m - {last};
      assert m.Keys == rest.Keys + {last};
      forall i | 0 <= i < |init|
        ensures init[i] != last
      {
        assert keys[i] != keys[|keys| - 1];
      }
      ListLength(init, rest);
    }
  }

  // Every accepted span gives two events, every trace two and every session one.
  lemma EventsCounted(text: Id -> string, rs: seq<Resource>, tks: seq<string>, sks: seq<string>, out: seq<Event>)
    requires Converted(text, rs, tks, sks, out)
    ensures |out| == 2 * |ItemsOf(rs)| + 2 * |Traces(ItemsOf(rs))| + |Sessions(ItemsOf(rs))|
  {
    hide ItemsOf, Traces, Sessions, Sorted, SpanEvents, TraceEvents, SessionEvents;
    var items := ItemsOf(rs);
    var all := SpanEvents(items) + TraceEvents(Traces(items), tks) + SessionEvents(Sessions(items), sks);
    assert |multiset(out)| == |out| && |multiset(all)| == |all|;
    EventLengths(items, Traces(items), tks, Sessions(items), sks);
    ListLength(tks, Traces(items));
    ListLength(sks, Sessions(items));
  }

  // ----- Session keys --------------------------------------------------------

  // The first span of a trace that carries a session key.
  predicate FirstWithKey(ts: seq<Tagged>, t: string, i: nat) {
    && i < |ts| && HexOk(ts[i].span) && Lower(ts[i].span.trace) == t && ts[i].span.rawSession != ""
    && forall j :: 0 <= j < i && HexOk(ts[j].span) && Lower(ts[j].span.trace) == t ==> ts[j].span.rawSession == ""
  }

  lemma {:induction false} TraceSessionIs(ts: seq<Tagged>, t: string)
    ensures t in TraceSessions(ts) <==> exists i: nat :: FirstWithKey(ts, t, i)
    ensures forall i: nat :: FirstWithKey(ts, t, i) ==> t in TraceSessions(ts) && TraceSessions(ts)[t] == ts[i].span.rawSession
  {
    hide HexOk, Lower;
    if ts != [] {
      var n := |ts| - 1;
      var init := ts[..n];
      TraceSessionIs(init, t);
      assert forall i :: 0 <= i < n ==> init[i] == ts[i];
      forall i: nat | i < n
        ensures FirstWithKey(ts, t, i) <==> FirstWithKey(init, t, i)
      {
      }
      if t in TraceSessions(init) {
        var i: nat :| FirstWithKey(init, t, i);
        assert FirstWithKey(ts, t, i);
      } else if HexOk(ts[n].span) && Lower(ts[n].span.trace) == t && ts[n].span.rawSession != "" {
        NoneWithKey(init, t);
        assert FirstWithKey(ts, t, n);
      }
    }
  }

  lemma {:induction false} NoneWithKey(ts: seq<Tagged>, t: string)
    requires t !in TraceSessions(ts)
    ensures forall j :: 0 <= j < |ts| && HexOk(ts[j].span) && Lower(ts[j].span.trace) == t ==> ts[j].span.rawSession == ""
  {
    hide HexOk, Lower;
    if ts != [] {
      var init := ts[..|ts| - 1];
      NoneWithKey(init, t);
      assert forall i :: 0 <= i < |init| ==> init[i] == ts[i];
    }
  }

  // Spans without a session key of their own take the one that the first span
  // of their trace carries, wherever it is in the request; without any, the
  // trace is its own session.
  lemma SessionsAreTraceWide(ts: seq<Tagged>, i: nat)
    requires i < |ts| && Accepted(ts[i].span) && ts[i].span.session == ""
    ensures var t := Lower(ts[i].span.trace);
            var key := ItemOf(ts[i], Starts(ts), TraceSessions(ts)).session;
            && (forall k: nat :: FirstWithKey(ts, t, k) ==> key == ts[k].span.rawSession)
            && ((forall k: nat :: !FirstWithKey(ts, t, k)) ==> key == "otlp-trace-" + t)
  {
    hide Starts, TraceSessions, Lower, HexOk;
    TraceSessionIs(ts, Lower(ts[i].span.trace));
  }
}
