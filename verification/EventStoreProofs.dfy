// What the atomic batch append guarantees.
module EventStoreProofs {
  import opened Common
  import opened EventStore

  // ----- When a batch's own events are in order ------------------------------

  // Every id is set and no two are the same.
  predicate IdsOk(events: seq<Event>) {
    && (forall i :: 0 <= i < |events| ==> !Blank(events[i].id))
    && (forall i, j :: 0 <= i < j < |events| ==> events[i].id != events[j].id)
  }

  ghost predicate AllCompatible(es: seq<Event>) {
    forall s :: s != "" ==> Compatible(es, s)
  }

  lemma {:induction false} NoFaultMeans(events: seq<Event>, i: nat)
    requires i <= |events|
    ensures FirstFault(events, i).None? <==> forall k :: i <= k < |events| ==> Fault(events, k).None?
    decreases |events| - i
  {
    hide Fault;
    if i < |events| { NoFaultMeans(events, i + 1); }
  }

  lemma {:induction false} PrefixesOwned(events: seq<Event>, n: nat, s: string)
    requires n <= |events| && s != "" && forall k :: 0 <= k < |events| ==> Fault(events, k).None?
    ensures Owned(events[..n], s)
  {
    if n > 0 {
      PrefixesOwned(events, n - 1, s);
      assert Fault(events, n - 1).None?;
      assert events[..n][..n - 1] == events[..n - 1];
      if events[n - 1].session != s {
        forall k: Kind
          ensures Owner(events[..n], s, k).Some?
        {
          assert Owner(events[..n - 1], s, k).Some?;
        }
      }
    }
  }

  // A batch has no fault exactly when its ids are in order and no session's
  // claims conflict within it.
  lemma FaultlessIff(events: seq<Event>)
    ensures FirstFault(events, 0).None? <==> IdsOk(events) && AllCompatible(events)
  {
    NoFaultMeans(events, 0);
    if FirstFault(events, 0).None? {
      forall i | 0 <= i < |events|
        ensures !Blank(events[i].id)
      {
        assert Fault(events, i).None?;
      }
      forall i, j | 0 <= i < j < |events|
        ensures events[i].id != events[j].id
      {
        assert Fault(events, j).None?;
      }
      forall s | s != ""
        ensures Compatible(events, s)
      {
        PrefixesOwned(events, |events|, s);
        assert events[..|events|] == events;
        OwnedIffCompatible(events, s);
      }
    }
    if IdsOk(events) && AllCompatible(events) {
      forall k | 0 <= k < |events|
        ensures Fault(events, k).None?
      {
        if events[k].session != "" {
          assert Compatible(events, events[k].session);
          SomeCompatible(events[..k + 1], events, events[k].session);
          OwnedIffCompatible(events[..k + 1], events[k].session);
        }
        hide Owned;
      }
    }
  }

  // Fewer events conflict less.
  lemma SomeCompatible(a: seq<Event>, b: seq<Event>, s: string)
    requires forall e :: e in a ==> e in b
    requires Compatible(b, s)
    ensures Compatible(a, s)
  {
    forall i, j, k: Kind | 0 <= i < |a| && 0 <= j < |a| && a[i].session == s && a[j].session == s
      ensures Agree(Claim(a[i], k), Claim(a[j], k))
    {
      assert a[i] in b && a[j] in b;
      var m :| 0 <= m < |b| && b[m] == a[i];
      var n :| 0 <= n < |b| && b[n] == a[j];
      assert Agree(Claim(b[m], k), Claim(b[n], k));
    }
  }

  lemma AllSomeCompatible(a: seq<Event>, b: seq<Event>)
    requires (forall e :: e in a ==> e in b) && AllCompatible(b)
    ensures AllCompatible(a)
  {
    forall s | s != ""
      ensures Compatible(a, s)
    {
      SomeCompatible(a, b, s);
    }
  }

  // ----- Stored and incoming claims together ---------------------------------

  lemma MatchesIff(stored: seq<Event>, events: seq<Event>, s: string)
    requires Compatible(stored, s) && Compatible(events, s)
    ensures Matches(stored, events, s) <==> Compatible(stored + events, s)
  {
    OwnedIffCompatible(stored, s);
    OwnedIffCompatible(events, s);
    var all := stored + events;
    if Matches(stored, events, s) {
      forall i, j, k: Kind | 0 <= i < |all| && 0 <= j < |all| && all[i].session == s && all[j].session == s
        ensures Agree(Claim(all[i], k), Claim(all[j], k))
      {
        assert Agree(Owner(stored, s, k).value, Owner(events, s, k).value);
        OwnerIsClaim(stored, s, k);
        OwnerIsClaim(events, s, k);
        assert all[i] == if i < |stored| then stored[i] else events[i - |stored|];
        assert all[j] == if j < |stored| then stored[j] else events[j - |stored|];
      }
    }
    if Compatible(all, s) {
      forall k: Kind
        ensures Agree(Owner(stored, s, k).value, Owner(events, s, k).value)
      {
        OwnerIsClaim(stored, s, k);
        OwnerIsClaim(events, s, k);
        OwnersAgree(stored, events, s, k);
      }
    }
  }

  lemma OwnersAgree(stored: seq<Event>, events: seq<Event>, s: string, k: Kind)
    requires Compatible(stored + events, s) && Owner(stored, s, k).Some? && Owner(events, s, k).Some?
    ensures Agree(Owner(stored, s, k).value, Owner(events, s, k).value)
  {
    var all, a, b := stored + events, Owner(stored, s, k).value, Owner(events, s, k).value;
    OwnerIsClaim(stored, s, k);
    OwnerIsClaim(events, s, k);
    if a != "" && b != "" {
      var i :| 0 <= i < |stored| && stored[i].session == s && Claim(stored[i], k) == a;
      var j :| 0 <= j < |events| && events[j].session == s && Claim(events[j], k) == b;
      assert all[i] == stored[i] && all[|stored| + j] == events[j];
      assert Agree(Claim(all[i], k), Claim(all[|stored| + j], k));
    }
  }

  // The ownership check passes exactly when stored and incoming claims together
  // do not conflict.
  lemma OwnersMatchIff(rows: seq<Row>, events: seq<Event>)
    requires AllCompatible(EventsOf(rows)) && AllCompatible(events)
    ensures OwnersMatch(rows, events) <==> AllCompatible(EventsOf(rows) + events)
  {
    var stored := EventsOf(rows);
    hide Matches, Compatible, EventsOf;
    if OwnersMatch(rows, events) {
      forall s | s != ""
        ensures Compatible(stored + events, s)
      {
        assert Compatible(stored, s) && Compatible(events, s);
        if i :| 0 <= i < |events| && events[i].session == s {
          assert Matches(stored, events, events[i].session);
          MatchesIff(stored, events, s);
        } else {
          OtherSession(stored, events, s);
        }
      }
    }
    if AllCompatible(stored + events) {
      forall i | 0 <= i < |events| && events[i].session != ""
        ensures Matches(stored, events, events[i].session)
      {
        var s := events[i].session;
        assert Compatible(stored, s) && Compatible(events, s) && Compatible(stored + events, s);
        MatchesIff(stored, events, s);
      }
    }
  }

  lemma OtherSession(stored: seq<Event>, events: seq<Event>, s: string)
    requires Compatible(stored, s) && forall i :: 0 <= i < |events| ==> events[i].session != s
    ensures Compatible(stored + events, s)
  {
    var all := stored + events;
    assert forall i :: |stored| <= i < |all| ==> all[i] == events[i - |stored|];
    forall i, j, k: Kind | 0 <= i < |all| && 0 <= j < |all| && all[i].session == s && all[j].session == s
      ensures Agree(Claim(all[i], k), Claim(all[j], k))
    {
      assert Agree(Claim(stored[i], k), Claim(stored[j], k));
    }
  }

  // ----- The insert loop -----------------------------------------------------

  // The rows a batch adds: its events that are not stored, in order.
  function Added(marshal: Event -> string, rows: seq<Row>, events: seq<Event>): seq<Row> {
    if events == [] then []
    else
      (if Stored(rows, events[0].id) then [] else [Row(events[0], marshal(events[0]))]) + Added(marshal, rows, events[1..])
  }

  // Every stored event of the batch has the envelope it had.
  predicate SameEnvelopes(marshal: Event -> string, rows: seq<Row>, events: seq<Event>) {
    forall i :: 0 <= i < |events| && Stored(rows, events[i].id) ==> RawOf(rows, events[i].id) == marshal(events[i])
  }

  lemma {:induction false} RawStays(rows: seq<Row>, row: Row, id: string)
    requires Stored(rows, id)
    ensures Stored(rows + [row], id) && RawOf(rows + [row], id) == RawOf(rows, id)
  {
    var i :| 0 <= i < |rows| && rows[i].event.id == id;
    assert (rows + [row])[i] == rows[i];
    if rows[0].event.id != id {
      StoredLater(rows, id);
      assert (rows + [row])[1..] == rows[1..] + [row];
      RawStays(rows[1..], row, id);
    }
  }

  lemma OtherStored(rows: seq<Row>, row: Row, id: string)
    requires row.event.id != id
    ensures Stored(rows + [row], id) <==> Stored(rows, id)
    ensures Stored(rows, id) ==> RawOf(rows + [row], id) == RawOf(rows, id)
  {
    if Stored(rows, id) { RawStays(rows, row, id); }
    if Stored(rows + [row], id) {
      var i :| 0 <= i < |rows + [row]| && (rows + [row])[i].event.id == id;
      assert rows[i].event.id == id;
    }
  }

  lemma {:induction false} AddedStays(marshal: Event -> string, rows: seq<Row>, row: Row, events: seq<Event>)
    requires forall i :: 0 <= i < |events| ==> events[i].id != row.event.id
    ensures Added(marshal, rows + [row], events) == Added(marshal, rows, events)
    ensures SameEnvelopes(marshal, rows + [row], events) <==> SameEnvelopes(marshal, rows, events)
  {
    hide Stored, RawOf;
    if events != [] {
      OtherStored(rows, row, events[0].id);
      AddedStays(marshal, rows, row, events[1..]);
      FirstEnvelope(marshal, rows, events);
      FirstEnvelope(marshal, rows + [row], events);
    }
  }

  lemma FirstEnvelope(marshal: Event -> string, rows: seq<Row>, events: seq<Event>)
    requires events != []
    ensures SameEnvelopes(marshal, rows, events) <==>
            (Stored(rows, events[0].id) ==> RawOf(rows, events[0].id) == marshal(events[0])) &&
            SameEnvelopes(marshal, rows, events[1..])
  {
    hide Stored, RawOf;
    if SameEnvelopes(marshal, rows, events) {
      forall i | 0 <= i < |events[1..]| && Stored(rows, events[1..][i].id)
        ensures RawOf(rows, events[1..][i].id) == marshal(events[1..][i])
      {
        assert events[1..][i] == events[i + 1];
      }
    }
    if SameEnvelopes(marshal, rows, events[1..]) {
      assert forall i :: 0 < i < |events| ==> events[i] == events[1..][i - 1];
    }
  }

  predicate Stops(events: seq<Event>, i: nat, stop: Option<nat>) {
    stop.Some? && i <= stop.value < |events|
  }

  // The insert loop adds every event that is not stored, in order, and counts
  // each event once; it refuses a stored event with another envelope.
  lemma {:induction false} InsertsAre(marshal: Event -> string, o: Outcome, events: seq<Event>, i: nat,
                                      stop: Option<nat>)
    requires i <= |events| && forall j, k :: 0 <= j < k < |events| ==> events[j].id != events[k].id
    ensures var r := Inserts(marshal, o, events, i, stop);
            && (r.Ok? <==> !Stops(events, i, stop) && SameEnvelopes(marshal, o.rows, events[i..]))
            && (r.Ok? ==>
                  var added := Added(marshal, o.rows, events[i..]);
                  |added| <= |events| - i &&
                  r.value == Outcome(o.rows + added, o.inserted + |added|, o.existing + (|events| - i - |added|)))
    decreases |events| - i
  {
    hide Stored, RawOf, SameEnvelopes;
    if i == |events| {
      assert events[i..] == [] && o.rows + [] == o.rows;
      NoEnvelopes(marshal, o.rows);
    } else if stop != Some(i) {
      var e, rest := events[i], events[i + 1..];
      assert events[i..][0] == e && events[i..][1..] == rest;
      FirstEnvelope(marshal, o.rows, events[i..]);
      if Stored(o.rows, e.id) {
        InsertsAre(marshal, o.(existing := o.existing + 1), events, i + 1, stop);
      } else {
        var row := Row(e, marshal(e));
        InsertsAre(marshal, Outcome(o.rows + [row], o.inserted + 1, o.existing), events, i + 1, stop);
        assert forall j :: 0 <= j < |rest| ==> rest[j] == events[i + 1 + j];
        AddedStays(marshal, o.rows, row, rest);
        var more := Added(marshal, o.rows, rest);
        assert (o.rows + [row]) + more == o.rows + ([row] + more);
      }
    }
  }

  lemma NoEnvelopes(marshal: Event -> string, rows: seq<Row>)
    ensures SameEnvelopes(marshal, rows, [])
  {
  }

  // ----- The append as a whole -----------------------------------------------

  // A batch the store takes.
  ghost predicate Acceptable(marshal: Event -> string, rows: seq<Row>, events: seq<Event>, stop: Option<nat>) {
    && IdsOk(events) && AllCompatible(EventsOf(rows) + events)
    && SameEnvelopes(marshal, rows, events) && !Stops(events, 0, stop)
  }

  lemma PartsCompatible(a: seq<Event>, b: seq<Event>)
    requires AllCompatible(a + b)
    ensures AllCompatible(a) && AllCompatible(b)
  {
    assert forall i :: 0 <= i < |b| ==> b[i] == (a + b)[|a| + i];
    hide AllCompatible;
    AllSomeCompatible(a, a + b);
    AllSomeCompatible(b, a + b);
  }

  // A batch is appended exactly when its ids are set and distinct, its claims
  // conflict neither with each other nor with stored ones, its stored events
  // have the envelopes they had, and nothing stops it. Then the new events
  // follow the stored rows in order, and each event is counted once.
  lemma AppendIff(marshal: Event -> string, rows: seq<Row>, events: seq<Event>, stop: Option<nat>)
    requires Valid(marshal, rows)
    ensures Append(marshal, rows, events, stop).Ok? <==> Acceptable(marshal, rows, events, stop)
    ensures Append(marshal, rows, events, stop).Ok? ==>
              var r, added := Append(marshal, rows, events, stop).value, Added(marshal, rows, events);
              r.rows == rows + added && r.inserted == |added| && r.inserted + r.existing == |events|
  {
    hide FirstFault, OwnersMatch, Inserts, EventsOf, Compatible, SameEnvelopes, Added, Blank;
    FaultlessIff(events);
    assert AllCompatible(EventsOf(rows));
    if IdsOk(events) && AllCompatible(events) {
      OwnersMatchIff(rows, events);
      InsertsAre(marshal, Outcome(rows, 0, 0), events, 0, stop);
      assert events[0..] == events;
    }
    if AllCompatible(EventsOf(rows) + events) { PartsCompatible(EventsOf(rows), events); }
  }

  lemma {:induction false} AddedAre(marshal: Event -> string, rows: seq<Row>, events: seq<Event>)
    ensures forall r :: r in Added(marshal, rows, events) ==>
              r.event in events && r.raw == marshal(r.event) && !Stored(rows, r.event.id)
    ensures forall e :: e in events && !Stored(rows, e.id) ==> Row(e, marshal(e)) in Added(marshal, rows, events)
  {
    hide Stored;
    if events != [] { AddedAre(marshal, rows, events[1..]); }
  }

  predicate DistinctRows(rows: seq<Row>) {
    forall i, j :: 0 <= i < j < |rows| ==> rows[i].event.id != rows[j].event.id
  }

  lemma PrependDistinct(row: Row, rows: seq<Row>)
    requires DistinctRows(rows) && forall r :: r in rows ==> r.event.id != row.event.id
    ensures DistinctRows([row] + rows)
  {
    var all := [row] + rows;
    assert forall j :: 0 < j < |all| ==> all[j] == rows[j - 1] && all[j] in rows;
  }

  lemma {:induction false} AddedDistinct(marshal: Event -> string, rows: seq<Row>, events: seq<Event>)
    requires forall i, j :: 0 <= i < j < |events| ==> events[i].id != events[j].id
    ensures DistinctRows(Added(marshal, rows, events))
  {
    hide Stored, DistinctRows;
    if events == [] {
      NoRowsDistinct();
    } else {
      var more := Added(marshal, rows, events[1..]);
      AddedDistinct(marshal, rows, events[1..]);
      AddedAre(marshal, rows, events[1..]);
      if Stored(rows, events[0].id) {
        assert [] + more == more;
      } else {
        forall r | r in more
          ensures r.event.id != events[0].id
        {
          var k :| 0 <= k < |events[1..]| && events[1..][k] == r.event;
          assert events[k + 1] == r.event;
        }
        PrependDistinct(Row(events[0], marshal(events[0])), more);
      }
    }
  }

  lemma NoRowsDistinct()
    ensures DistinctRows([])
  {
  }

  // The events stored afterwards are the stored ones and the batch's.
  lemma EventsAfter(marshal: Event -> string, rows: seq<Row>, events: seq<Event>)
    ensures forall e :: e in EventsOf(rows + Added(marshal, rows, events)) ==> e in EventsOf(rows) + events
  {
    AddedAre(marshal, rows, events);
    hide Stored, Added;
    var all := rows + Added(marshal, rows, events);
    forall i | 0 <= i < |all|
      ensures EventsOf(all)[i] in EventsOf(rows) + events
    {
      if i < |rows| {
        assert EventsOf(all)[i] == EventsOf(rows)[i];
      } else {
        assert all[i] in Added(marshal, rows, events);
      }
    }
  }

  // Every append keeps the store valid, and earlier rows as they were.
  lemma AppendKeepsValid(marshal: Event -> string, rows: seq<Row>, events: seq<Event>, stop: Option<nat>)
    requires Valid(marshal, rows) && Append(marshal, rows, events, stop).Ok?
    ensures Valid(marshal, Append(marshal, rows, events, stop).value.rows)
    ensures rows <= Append(marshal, rows, events, stop).value.rows
  {
    AppendIff(marshal, rows, events, stop);
    hide Append, Stored, Compatible, EventsOf, Added, SameEnvelopes;
    var added := Added(marshal, rows, events);
    var after := rows + added;
    AddedAre(marshal, rows, events);
    AddedDistinct(marshal, rows, events);
    EventsAfter(marshal, rows, events);
    AllSomeCompatible(EventsOf(after), EventsOf(rows) + events);
    forall i, j | 0 <= i < j < |after|
      ensures after[i].event.id != after[j].event.id
    {
      IdsApart(rows, added, i, j);
    }
    forall i | 0 <= i < |after|
      ensures after[i].raw == marshal(after[i].event)
    {
      if i >= |rows| { assert after[i] in added; }
    }
  }

  lemma IdsApart(rows: seq<Row>, added: seq<Row>, i: nat, j: nat)
    requires i < j < |rows + added|
    requires DistinctRows(rows) && DistinctRows(added)
    requires forall r :: r in added ==> !Stored(rows, r.event.id)
    ensures (rows + added)[i].event.id != (rows + added)[j].event.id
  {
    if j >= |rows| {
      assert (rows + added)[j] == added[j - |rows|] && added[j - |rows|] in added;
      if i >= |rows| { assert (rows + added)[i] == added[i - |rows|]; }
    }
  }

  // ----- Every run -----------------------------------------------------------

  // The rows after a series of batches, each stopped somewhere or not; a
  // refused batch leaves the rows as they were.
  function After(marshal: Event -> string, rows: seq<Row>, batches: seq<(seq<Event>, Option<nat>)>): seq<Row>
    decreases |batches|
  {
    if batches == [] then rows
    else
      var r := Append(marshal, rows, batches[0].0, batches[0].1);
      After(marshal, if r.Ok? then r.value.rows else rows, batches[1..])
  }

  // In a store built by batches alone, rows never change or go, and any two
  // rows of a session agree on every claim they both make.
  lemma {:induction false} RunsKeepOwnership(marshal: Event -> string, rows: seq<Row>, batches: seq<(seq<Event>,
                                             Option<nat>)>)
    requires Valid(marshal, rows)
    ensures Valid(marshal, After(marshal, rows, batches)) && rows <= After(marshal, rows, batches)
    decreases |batches|
  {
    hide Valid, Append;
    if batches != [] {
      var r := Append(marshal, rows, batches[0].0, batches[0].1);
      if r.Ok? {
        AppendKeepsValid(marshal, rows, batches[0].0, batches[0].1);
        RunsKeepOwnership(marshal, r.value.rows, batches[1..]);
      } else {
        RunsKeepOwnership(marshal, rows, batches[1..]);
      }
    }
  }

  // After any batches from an empty store, two rows of one session that both
  // claim a workstream, a provider or a native session claim the same.
  lemma OneOwner(marshal: Event -> string, batches: seq<(seq<Event>, Option<nat>)>, i: nat, j: nat, k: Kind)
    requires var rows := After(marshal, [], batches);
             i < |rows| && j < |rows| && rows[i].event.session == rows[j].event.session != ""
    ensures var a, b := After(marshal, [], batches)[i].event, After(marshal, [], batches)[j].event;
            Claim(a, k) != "" && Claim(b, k) != "" ==> Claim(a, k) == Claim(b, k)
  {
    hide Append;
    assert Valid(marshal, []);
    RunsKeepOwnership(marshal, [], batches);
    var es := EventsOf(After(marshal, [], batches));
    assert Compatible(es, es[i].session);
    assert Agree(Claim(es[i], k), Claim(es[j], k));
  }

  // ----- Replay --------------------------------------------------------------

  lemma StoredAfter(marshal: Event -> string, rows: seq<Row>, events: seq<Event>, e: Event)
    requires e in events
    ensures Stored(rows + Added(marshal, rows, events), e.id)
  {
    var added := Added(marshal, rows, events);
    AddedAre(marshal, rows, events);
    hide Added;
    if Stored(rows, e.id) {
      var i :| 0 <= i < |rows| && rows[i].event.id == e.id;
      assert (rows + added)[i] == rows[i];
    } else {
      var i :| 0 <= i < |added| && added[i] == Row(e, marshal(e));
      assert (rows + added)[|rows| + i] == added[i];
    }
  }

  // In a valid store an id's envelope is that of any row with the id.
  lemma {:induction false} RawIs(rows: seq<Row>, i: nat)
    requires i < |rows| && forall k, m :: 0 <= k < m < |rows| ==> rows[k].event.id != rows[m].event.id
    ensures Stored(rows, rows[i].event.id) && RawOf(rows, rows[i].event.id) == rows[i].raw
  {
    if i > 0 {
      assert rows[0].event.id != rows[i].event.id;
      RawIs(rows[1..], i - 1);
      assert rows[1..][i - 1] == rows[i];
    }
  }

  lemma {:induction false} NothingAdded(marshal: Event -> string, rows: seq<Row>, events: seq<Event>)
    requires forall e :: e in events ==> Stored(rows, e.id)
    ensures Added(marshal, rows, events) == []
  {
    hide Stored;
    if events != [] {
      assert events[0] in events;
      NothingAdded(marshal, rows, events[1..]);
    }
  }

  lemma EnvelopesAfter(marshal: Event -> string, rows: seq<Row>, events: seq<Event>)
    requires SameEnvelopes(marshal, rows, events) && Valid(marshal, rows)
    requires Valid(marshal, rows + Added(marshal, rows, events))
    ensures SameEnvelopes(marshal, rows + Added(marshal, rows, events), events)
  {
    var added := Added(marshal, rows, events);
    var after := rows + added;
    AddedAre(marshal, rows, events);
    hide Added, RawOf, Compatible;
    forall i | 0 <= i < |events|
      ensures Stored(after, events[i].id) ==> RawOf(after, events[i].id) == marshal(events[i])
    {
      var e := events[i];
      if Stored(rows, e.id) {
        var k :| 0 <= k < |rows| && rows[k].event.id == e.id;
        RawIs(rows, k);
        assert after[k] == rows[k];
        RawIs(after, k);
      } else {
        var k :| 0 <= k < |added| && added[k] == Row(e, marshal(e));
        assert after[|rows| + k] == added[k];
        RawIs(after, |rows| + k);
      }
    }
  }

  // Appending a committed batch again inserts nothing and changes nothing.
  lemma ReplayInsertsNothing(marshal: Event -> string, rows: seq<Row>, events: seq<Event>, stop: Option<nat>)
    requires Valid(marshal, rows) && Append(marshal, rows, events, stop).Ok?
    ensures var after := Append(marshal, rows, events, stop).value.rows;
            Append(marshal, after, events, None) == Ok(Outcome(after, 0, |events|))
  {
    hide Append, Stored, EventsOf, Added, SameEnvelopes, Valid, AllCompatible;
    AppendIff(marshal, rows, events, stop);
    AppendKeepsValid(marshal, rows, events, stop);
    var after := rows + Added(marshal, rows, events);
    EnvelopesAfter(marshal, rows, events);
    EventsAfter(marshal, rows, events);
    AllSomeCompatible(EventsOf(after) + events, EventsOf(rows) + events);
    forall e | e in events
      ensures Stored(after, e.id)
    {
      StoredAfter(marshal, rows, events, e);
    }
    NothingAdded(marshal, after, events);
    AppendIff(marshal, after, events, None);
    assert after + [] == after;
  }

  predicate SameClaims(x: Event, y: Event) {
    x.session == y.session && forall k: Kind :: Claim(x, k) == Claim(y, k)
  }

  // An envelope tells the claims of its event.
  ghost predicate Telling(marshal: Event -> string) {
    forall x, y :: marshal(x) == marshal(y) ==> SameClaims(x, y)
  }

  // Events that claim what others do conflict no more than those.
  lemma MirroredCompatible(a: seq<Event>, b: seq<Event>, s: string)
    requires forall e :: e in a ==> exists m :: 0 <= m < |b| && SameClaims(e, b[m])
    requires Compatible(b, s)
    ensures Compatible(a, s)
  {
    forall i, j, k: Kind | 0 <= i < |a| && 0 <= j < |a| && a[i].session == s && a[j].session == s
      ensures Agree(Claim(a[i], k), Claim(a[j], k))
    {
      assert a[i] in a && a[j] in a;
      var m :| 0 <= m < |b| && SameClaims(a[i], b[m]);
      var n :| 0 <= n < |b| && SameClaims(a[j], b[n]);
      assert Agree(Claim(b[m], k), Claim(b[n], k));
    }
  }

  // The row that a committed event has, then and later.
  lemma RowOf(marshal: Event -> string, rows: seq<Row>, later: seq<Row>, events: seq<Event>, e: Event) returns (k: nat)
    requires Valid(marshal, rows) && Valid(marshal, later) && rows <= later
    requires e in events && Stored(rows, e.id) && SameEnvelopes(marshal, rows, events)
    ensures k < |later| && later[k].event.id == e.id && later[k].raw == marshal(e)
    ensures Stored(later, e.id) && RawOf(later, e.id) == marshal(e)
  {
    hide Compatible, RawOf;
    k :| 0 <= k < |rows| && rows[k].event.id == e.id;
    RawIs(rows, k);
    assert later[k] == rows[k];
    RawIs(later, k);
  }

  // Appending a committed batch again inserts nothing and changes nothing,
  // whatever batches came in between.
  lemma LaterReplayInsertsNothing(marshal: Event -> string, rows: seq<Row>, events: seq<Event>, stop: Option<nat>,
                                  between: seq<(seq<Event>, Option<nat>)>)
    requires Valid(marshal, rows) && Telling(marshal) && Append(marshal, rows, events, stop).Ok?
    ensures var later := After(marshal, Append(marshal, rows, events, stop).value.rows, between);
            Append(marshal, later, events, None) == Ok(Outcome(later, 0, |events|))
  {
    hide Append, After, Stored, Added, SameEnvelopes, Valid, AllCompatible, RawOf, SameClaims;
    AppendIff(marshal, rows, events, stop);
    AppendKeepsValid(marshal, rows, events, stop);
    var first := rows + Added(marshal, rows, events);
    var later := After(marshal, first, between);
    EnvelopesAfter(marshal, rows, events);
    RunsKeepOwnership(marshal, first, between);
    forall e | e in events
      ensures Stored(later, e.id) && RawOf(later, e.id) == marshal(e)
      ensures exists m :: 0 <= m < |EventsOf(later)| && SameClaims(e, EventsOf(later)[m])
    {
      StoredAfter(marshal, rows, events, e);
      var k := RowOf(marshal, first, later, events, e);
      RowEnvelope(marshal, later, k);
      assert SameClaims(e, EventsOf(later)[k]);
    }
    ReplayedCompatible(marshal, later, events);
    SameAfterAll(marshal, later, events);
    NothingAdded(marshal, later, events);
    AppendIff(marshal, later, events, None);
    assert later + [] == later;
  }

  lemma RowEnvelope(marshal: Event -> string, rows: seq<Row>, k: nat)
    requires Valid(marshal, rows) && k < |rows|
    ensures rows[k].raw == marshal(rows[k].event) && |EventsOf(rows)| == |rows| && EventsOf(rows)[k] == rows[k].event
  {
    hide Compatible;
  }

  lemma SameAfterAll(marshal: Event -> string, rows: seq<Row>, events: seq<Event>)
    requires forall e :: e in events ==> Stored(rows, e.id) && RawOf(rows, e.id) == marshal(e)
    ensures SameEnvelopes(marshal, rows, events)
  {
    hide Stored, RawOf;
  }

  lemma ReplayedCompatible(marshal: Event -> string, rows: seq<Row>, events: seq<Event>)
    requires Valid(marshal, rows)
    requires forall e :: e in events ==> exists m :: 0 <= m < |EventsOf(rows)| && SameClaims(e, EventsOf(rows)[m])
    ensures AllCompatible(EventsOf(rows) + events)
  {
    hide Compatible, EventsOf, SameClaims;
    var es := EventsOf(rows);
    forall e | e in es + events
      ensures exists m :: 0 <= m < |es| && SameClaims(e, es[m])
    {
      if e in es {
        var m :| 0 <= m < |es| && es[m] == e;
        ClaimsItself(e);
      }
    }
    forall s | s != ""
      ensures Compatible(es + events, s)
    {
      MirroredCompatible(es + events, es, s);
    }
  }

  lemma ClaimsItself(e: Event)
    ensures SameClaims(e, e)
  {
  }

  // ----- Appending in parts --------------------------------------------------

  lemma {:induction false} AddedInParts(marshal: Event -> string, rows: seq<Row>, a: seq<Event>, b: seq<Event>)
    ensures Added(marshal, rows, a + b) == Added(marshal, rows, a) + Added(marshal, rows, b)
    ensures SameEnvelopes(marshal, rows, a + b) <==> SameEnvelopes(marshal, rows, a) && SameEnvelopes(marshal, rows, b)
  {
    hide Stored, RawOf, SameEnvelopes;
    if a == [] {
      assert a + b == b;
      NoEnvelopes(marshal, rows);
    } else {
      assert (a + b)[1..] == a[1..] + b;
      AddedInParts(marshal, rows, a[1..], b);
      FirstEnvelope(marshal, rows, a);
      FirstEnvelope(marshal, rows, a + b);
    }
  }

  lemma {:induction false} AddedStaysAll(marshal: Event -> string, rows: seq<Row>, more: seq<Row>, events: seq<Event>)
    requires forall r, e :: r in more && e in events ==> e.id != r.event.id
    ensures Added(marshal, rows + more, events) == Added(marshal, rows, events)
    ensures SameEnvelopes(marshal, rows + more, events) <==> SameEnvelopes(marshal, rows, events)
    decreases |more|
  {
    hide Added, SameEnvelopes;
    if more == [] {
      assert rows + more == rows;
    } else {
      assert rows + more == (rows + [more[0]]) + more[1..];
      assert more[0] in more;
      AddedStaysAll(marshal, rows + [more[0]], more[1..], events);
      AddedStays(marshal, rows, more[0], events);
    }
  }

  // A batch the store takes can as well be appended in two parts.
  lemma AppendInParts(marshal: Event -> string, rows: seq<Row>, a: seq<Event>, b: seq<Event>)
    requires Valid(marshal, rows) && Append(marshal, rows, a + b, None).Ok?
    ensures Append(marshal, rows, a, None).Ok?
    ensures var first := Append(marshal, rows, a, None).value;
            var whole := Append(marshal, rows, a + b, None).value;
            first.inserted <= whole.inserted && first.existing <= whole.existing &&
            Append(marshal, first.rows, b, None) ==
            Ok(Outcome(whole.rows, whole.inserted - first.inserted, whole.existing - first.existing))
  {
    hide Append, Stored, EventsOf, Added, SameEnvelopes, Valid, AllCompatible, Blank;
    AppendIff(marshal, rows, a + b, None);
    AddedInParts(marshal, rows, a, b);
    IdsInParts(a, b);
    CompatibleParts(EventsOf(rows), a, b);
    AppendIff(marshal, rows, a, None);
    AppendKeepsValid(marshal, rows, a, None);
    var added := Added(marshal, rows, a);
    var middle := rows + added;
    EventsAfter(marshal, rows, a);
    AddedAre(marshal, rows, a);
    AddedStaysAll(marshal, rows, added, b);
    AllSomeCompatible(EventsOf(middle) + b, EventsOf(rows) + (a + b));
    AppendIff(marshal, middle, b, None);
    assert middle + Added(marshal, rows, b) == rows + (added + Added(marshal, rows, b));
  }

  lemma IdsInParts(a: seq<Event>, b: seq<Event>)
    requires IdsOk(a + b)
    ensures IdsOk(a) && IdsOk(b)
    ensures forall x, y :: x in a && y in b ==> y.id != x.id
  {
    var all := a + b;
    hide Blank;
    assert forall i :: 0 <= i < |a| ==> all[i] == a[i];
    assert forall i :: 0 <= i < |b| ==> all[|a| + i] == b[i];
    forall x, y | x in a && y in b
      ensures y.id != x.id
    {
      var i :| 0 <= i < |a| && a[i] == x;
      var j :| 0 <= j < |b| && b[j] == y;
      assert all[i].id != all[|a| + j].id;
    }
    forall i, j | 0 <= i < j < |b|
      ensures b[i].id != b[j].id
    {
      assert all[|a| + i].id != all[|a| + j].id;
    }
  }

  lemma CompatibleParts(stored: seq<Event>, a: seq<Event>, b: seq<Event>)
    requires AllCompatible(stored + (a + b))
    ensures AllCompatible(stored + a)
  {
    hide AllCompatible;
    AllSomeCompatible(stored + a, stored + (a + b));
  }
}