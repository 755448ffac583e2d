// The event log and its atomic batch append: immutable envelopes, and for each
// session at most one workstream, provider and native session.
module EventStore {
  import opened Common

  datatype Event = Event(id: string, session: string, workstream: string, provider: string, native: string,
                         body: string)

  // The claims an event makes about its session; blank ones claim nothing.
  datatype Kind = Workstream | Provider | Native

  function Claim(e: Event, k: Kind): string {
    match k
    case Workstream => e.workstream
    case Provider => e.provider
    case Native => e.native
  }

  // A stored event and its raw envelope.
  datatype Row = Row(event: Event, raw: string)

  datatype Error = BlankId | DuplicateId | OwnershipConflict | EventConflict | Cancelled

  // ----- Ownership -----------------------------------------------------------

  predicate Agree(a: string, b: string) {
    a == "" || b == "" || a == b
  }

  // mergeOwnership on one field.
  function Join(a: string, b: string): Option<string> {
    if !Agree(a, b) then None else Some(if a == "" then b else a)
  }

  // The claim the events of a session add up to; nothing when they conflict.
  function Owner(es: seq<Event>, session: string, k: Kind): Option<string> {
    if es == [] then Some("")
    else
      var before, last := Owner(es[..|es| - 1], session, k), es[|es| - 1];
      if last.session != session then before
      else if before.None? then None
      else Join(before.value, Claim(last, k))
  }

  predicate Owned(es: seq<Event>, session: string) {
    forall k: Kind :: Owner(es, session, k).Some?
  }

  // No two events of the session make different claims.
  predicate Compatible(es: seq<Event>, session: string) {
    forall i, j, k: Kind :: 0 <= i < |es| && 0 <= j < |es| && es[i].session == session && es[j].session == session ==>
      Agree(Claim(es[i], k), Claim(es[j], k))
  }

  // A joined claim is one of the events', and agrees with all of them.
  lemma {:induction false} OwnerIsClaim(es: seq<Event>, session: string, k: Kind)
    ensures Owner(es, session, k).Some? ==>
              var c := Owner(es, session, k).value;
              && (c != "" ==> exists i :: 0 <= i < |es| && es[i].session == session && Claim(es[i], k) == c)
              && (forall i :: 0 <= i < |es| && es[i].session == session && Claim(es[i], k) != "" ==> Claim(es[i], k) == c)
  {
    if es != [] {
      var init := es[..|es| - 1];
      OwnerIsClaim(init, session, k);
      assert forall i :: 0 <= i < |init| ==> init[i] == es[i];
      if Owner(es, session, k).Some? && Owner(es, session, k).value != "" {
        var c := Owner(es, session, k).value;
        if Owner(init, session, k) == Some(c) {
          var i :| 0 <= i < |init| && init[i].session == session && Claim(init[i], k) == c;
          assert es[i].session == session && Claim(es[i], k) == c;
        } else {
          assert es[|es| - 1].session == session && Claim(es[|es| - 1], k) == c;
        }
      }
    }
  }

  lemma {:induction false} OwnedIfCompatible(es: seq<Event>, session: string, k: Kind)
    requires Compatible(es, session)
    ensures Owner(es, session, k).Some?
  {
    if es != [] {
      var init, last := es[..|es| - 1], es[|es| - 1];
      assert Compatible(init, session);
      OwnedIfCompatible(init, session, k);
      OwnerIsClaim(init, session, k);
      var c := Owner(init, session, k).value;
      if last.session == session && c != "" {
        var i :| 0 <= i < |init| && init[i].session == session && Claim(init[i], k) == c;
        assert es[i] == init[i];
        assert Agree(Claim(es[i], k), Claim(es[|es| - 1], k));
      }
    }
  }

  // A session's claims join exactly when no two of them differ.
  lemma OwnedIffCompatible(es: seq<Event>, session: string)
    ensures Owned(es, session) <==> Compatible(es, session)
  {
    if Compatible(es, session) {
      forall k: Kind
        ensures Owner(es, session, k).Some?
      {
        OwnedIfCompatible(es, session, k);
      }
    }
    if Owned(es, session) {
      forall i, j, k: Kind | 0 <= i < |es| && 0 <= j < |es| && es[i].session == session && es[j].session == session
        ensures Agree(Claim(es[i], k), Claim(es[j], k))
      {
        OwnerIsClaim(es, session, k);
      }
    }
  }

  // ----- The batch append ----------------------------------------------------

  predicate Blank(s: string) {
    forall i :: 0 <= i < |s| ==> IsSpace(s[i])
  }

  // prepareEventBatch's check of event i.
  function Fault(events: seq<Event>, i: nat): Option<Error>
    requires i < |events|
  {
    if Blank(events[i].id) then Some(BlankId)
    else if exists j :: 0 <= j < i && events[j].id == events[i].id then Some(DuplicateId)
    else if events[i].session != "" && !Owned(events[..i + 1], events[i].session) then Some(OwnershipConflict)
    else None
  }

  // The first fault from event i on.
  function FirstFault(events: seq<Event>, i: nat): Option<Error>
    requires i <= |events|
    decreases |events| - i
  {
    if i == |events| then None
    else if Fault(events, i).Some? then Fault(events, i) else FirstFault(events, i + 1)
  }

  function EventsOf(rows: seq<Row>): seq<Event> {
    seq(|rows|, i requires 0 <= i < |rows| => rows[i].event)
  }

  // compareOwnership: the stored claims and the batch's agree.
  predicate Matches(stored: seq<Event>, events: seq<Event>, session: string) {
    && Owned(stored, session)
    && forall k: Kind ::
         Owner(stored, session, k).Some? && Owner(events, session, k).Some? ==>
           Agree(Owner(stored, session, k).value, Owner(events, session, k).value)
  }

  // validateStoredOwnership over the sessions of the batch. A session with no
  // stored rows owns nothing.
  predicate OwnersMatch(rows: seq<Row>, events: seq<Event>) {
    forall i :: 0 <= i < |events| && events[i].session != "" ==> Matches(EventsOf(rows), events, events[i].session)
  }

  // The row that has an event id.
  predicate Stored(rows: seq<Row>, id: string) {
    exists i :: 0 <= i < |rows| && rows[i].event.id == id
  }

  function RawOf(rows: seq<Row>, id: string): string
    requires Stored(rows, id)
  {
    if rows[0].event.id == id then rows[0].raw
    else
      assert Stored(rows[1..], id) by { StoredLater(rows, id); }
      RawOf(rows[1..], id)
  }

  lemma StoredLater(rows: seq<Row>, id: string)
    requires Stored(rows, id) && rows[0].event.id != id
    ensures Stored(rows[1..], id)
  {
    var i :| 0 <= i < |rows| && rows[i].event.id == id;
    assert rows[1..][i - 1] == rows[i];
  }

  datatype Outcome = Outcome(rows: seq<Row>, inserted: nat, existing: nat)

  // The insert loop from event i on. `stop` is where the caller gives up.
  function Inserts(marshal: Event -> string, o: Outcome, events: seq<Event>, i: nat,
                   stop: Option<nat>): Result<Outcome, Error>
    requires i <= |events|
    decreases |events| - i
  {
    if i == |events| then Ok(o)
    else if stop == Some(i) then Err(Cancelled)
    else
      var e := events[i];
      if Stored(o.rows, e.id) then
        if RawOf(o.rows, e.id) != marshal(e) then Err(EventConflict)
        else Inserts(marshal, o.(existing := o.existing + 1), events, i + 1, stop)
      else
        Inserts(marshal, Outcome(o.rows + [Row(e, marshal(e))], o.inserted + 1, o.existing), events, i + 1, stop)
  }

  // AppendEventsAtomic on the stored rows.
  function Append(marshal: Event -> string, rows: seq<Row>, events: seq<Event>, stop: Option<nat>): Result<Outcome,
                  Error> {
    var fault := FirstFault(events, 0);
    if fault.Some? then Err(fault.value)
    else if !OwnersMatch(rows, events) then Err(OwnershipConflict)
    else Inserts(marshal, Outcome(rows, 0, 0), events, 0, stop)
  }

  // ----- What every store keeps ----------------------------------------------

  // Ids are unique, every row holds its event's envelope, and no session has
  // two different claims of a kind.
  ghost predicate Valid(marshal: Event -> string, rows: seq<Row>) {
    && (forall i, j :: 0 <= i < j < |rows| ==> rows[i].event.id != rows[j].event.id)
    && (forall i :: 0 <= i < |rows| ==> rows[i].raw == marshal(rows[i].event))
    && (forall s :: s != "" ==> Compatible(EventsOf(rows), s))
  }
}
