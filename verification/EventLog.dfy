// The store as it changes: one writer transaction per batch.
module EventLog {
  import opened Common
  import opened EventStore

  // A session's joined claims while a batch is prepared.
  datatype Claims = Claims(workstream: string, provider: string, native: string)

  function ClaimOf(c: Claims, k: Kind): string {
    match k
    case Workstream => c.workstream
    case Provider => c.provider
    case Native => c.native
  }

  // mergeOwnership: field by field, refusing two different claims.
  method MergeOwnership(current: Claims, e: Event) returns (r: Option<Claims>)
    ensures r.Some? <==> forall k: Kind :: Join(ClaimOf(current, k), Claim(e, k)).Some?
    ensures r.Some? ==> forall k: Kind :: Some(ClaimOf(r.value, k)) == Join(ClaimOf(current, k), Claim(e, k))
  {
    var c := current;
    if e.workstream != "" {
      if c.workstream == "" {
        c := c.(workstream := e.workstream);
      } else if c.workstream != e.workstream {
        assert Join(ClaimOf(current, Workstream), Claim(e, Workstream)).None?;
        return None;
      }
    }
    if e.provider != "" {
      if c.provider == "" {
        c := c.(provider := e.provider);
      } else if c.provider != e.provider {
        assert Join(ClaimOf(current, Provider), Claim(e, Provider)).None?;
        return None;
      }
    }
    if e.native != "" {
      if c.native == "" {
        c := c.(native := e.native);
      } else if c.native != e.native {
        assert Join(ClaimOf(current, Native), Claim(e, Native)).None?;
        return None;
      }
    }
    return Some(c);
  }

  // compareOwnership: blank claims never conflict.
  method CompareOwnership(existing: Claims, incoming: Claims) returns (ok: bool)
    ensures ok == forall k: Kind :: Agree(ClaimOf(existing, k), ClaimOf(incoming, k))
  {
    if !Agree(ClaimOf(existing, Workstream), ClaimOf(incoming, Workstream)) { return false; }
    if !Agree(ClaimOf(existing, Provider), ClaimOf(incoming, Provider)) { return false; }
    if !Agree(ClaimOf(existing, Native), ClaimOf(incoming, Native)) { return false; }
    forall k: Kind
      ensures Agree(ClaimOf(existing, k), ClaimOf(incoming, k))
    {
      match k
      case Workstream =>
      case Provider =>
      case Native =>
    }
    return true;
  }

  // The claims a session's events add up to.
  predicate Holds(c: Claims, es: seq<Event>, session: string) {
    forall k: Kind :: Owner(es, session, k) == Some(ClaimOf(c, k))
  }

  lemma OwnerStep(es: seq<Event>, e: Event, session: string, k: Kind)
    ensures Owner(es + [e], session, k) ==
            if e.session != session then Owner(es, session, k)
            else if Owner(es, session, k).None? then None
            else Join(Owner(es, session, k).value, Claim(e, k))
  {
    assert (es + [e])[..|es|] == es;
  }

  // storedSessionOwnership: one pass over the session's rows.
  method StoredOwnership(es: seq<Event>, session: string) returns (r: Option<Claims>)
    ensures r.Some? <==> Owned(es, session)
    ensures r.Some? ==> Holds(r.value, es, session)
  {
    var c := Claims("", "", "");
    for i := 0 to |es|
      invariant Holds(c, es[..i], session)
    {
      assert es[..i + 1] == es[..i] + [es[i]];
      forall k: Kind { OwnerStep(es[..i], es[i], session, k); }
      if es[i].session == session {
        var m := MergeOwnership(c, es[i]);
        if m.None? {
          var k: Kind :| Join(ClaimOf(c, k), Claim(es[i], k)).None?;
          assert Owner(es[..i + 1], session, k).None?;
          NeverAgain(es, i + 1, session, k);
          return None;
        }
        c := m.value;
      }
    }
    assert es[..|es|] == es;
    return Some(c);
  }

  // A conflict stays one.
  lemma {:induction false} NeverAgain(es: seq<Event>, n: nat, session: string, k: Kind)
    requires n <= |es| && Owner(es[..n], session, k).None?
    ensures Owner(es, session, k).None?
    decreases |es| - n
  {
    if n == |es| {
      assert es[..n] == es;
    } else {
      assert es[..n + 1] == es[..n] + [es[n]];
      OwnerStep(es[..n], es[n], session, k);
      NeverAgain(es, n + 1, session, k);
    }
  }

  // The claims of every session of the batch so far.
  ghost predicate Tracks(bySession: map<string, Claims>, es: seq<Event>) {
    && (forall i :: 0 <= i < |es| && es[i].session != "" ==> es[i].session in bySession)
    && (forall s :: s in bySession ==> s != "" && Holds(bySession[s], es, s) && exists i :: 0 <= i < |es| && es[i].session == s)
  }

  lemma NoneYet(es: seq<Event>, session: string, k: Kind)
    requires forall i :: 0 <= i < |es| ==> es[i].session != session
    ensures Owner(es, session, k) == Some("")
  {
    if es != [] { NoneYet(es[..|es| - 1], session, k); }
  }

  // The claims of a session with one more event.
  method TrackEvent(bySession: map<string, Claims>, ghost es: seq<Event>, e: Event)
    returns (r: Option<map<string, Claims>>)
    requires Tracks(bySession, es)
    ensures r.Some? <==> e.session == "" || Owned(es + [e], e.session)
    ensures r.Some? ==> Tracks(r.value, es + [e])
  {
    forall s, k: Kind { OwnerStep(es, e, s, k); }
    if e.session == "" {
      TracksStep(bySession, es, e);
      return Some(bySession);
    }
    var current := if e.session in bySession then bySession[e.session] else Claims("", "", "");
    if e.session !in bySession { forall k: Kind { NoneYet(es, e.session, k); } }
    assert Holds(current, es, e.session);
    var merged := MergeOwnership(current, e);
    if merged.None? {
      var k: Kind :| Join(ClaimOf(current, k), Claim(e, k)).None?;
      assert Owner(es + [e], e.session, k).None?;
      return None;
    }
    assert Holds(merged.value, es + [e], e.session);
    TracksStep(bySession[e.session := merged.value], es, e);
    return Some(bySession[e.session := merged.value]);
  }

  // prepareEventBatch
  method Prepare(events: seq<Event>) returns (fault: Option<Error>, bySession: map<string, Claims>)
    ensures fault == FirstFault(events, 0)
    ensures fault.None? ==> Tracks(bySession, events)
  {
    hide Blank, FirstFault, Owned, Tracks;
    var seen: set<string> := {};
    fault, bySession := None, map[];
    assert events[..0] == [];
    NothingTracked();
    for i := 0 to |events|
      invariant FirstFault(events, i) == FirstFault(events, 0)
      invariant forall id :: id in seen <==> exists j :: 0 <= j < i && events[j].id == id
      invariant Tracks(bySession, events[..i])
    {
      var e := events[i];
      FaultStep(events, i);
      if Blank(e.id) { return Some(BlankId), map[]; }
      if e.id in seen { return Some(DuplicateId), map[]; }
      seen := seen + {e.id};
      assert events[..i + 1] == events[..i] + [e];
      var next := TrackEvent(bySession, events[..i], e);
      if next.None? { return Some(OwnershipConflict), map[]; }
      bySession := next.value;
    }
    assert events[..|events|] == events;
    EndOfBatch(events);
  }

  lemma NothingTracked()
    ensures Tracks(map[], [])
  {
  }

  lemma FaultStep(events: seq<Event>, i: nat)
    requires i < |events|
    ensures FirstFault(events, i) == if Fault(events, i).Some? then Fault(events, i) else FirstFault(events, i + 1)
  {
  }

  lemma EndOfBatch(events: seq<Event>)
    ensures FirstFault(events, |events|).None?
  {
  }

  lemma TracksStep(bySession: map<string, Claims>, es: seq<Event>, e: Event)
    requires forall i :: 0 <= i < |es| && es[i].session != "" ==> es[i].session in bySession
    requires e.session != "" ==> e.session in bySession
    requires forall s :: s in bySession ==> s != "" && Holds(bySession[s], es + [e], s)
    requires forall s :: s in bySession && s != e.session ==> exists i :: 0 <= i < |es| && es[i].session == s
    ensures Tracks(bySession, es + [e])
  {
    var all := es + [e];
    hide Holds;
    forall s | s in bySession
      ensures exists i :: 0 <= i < |all| && all[i].session == s
    {
      if s == e.session {
        assert all[|es|].session == s;
      } else {
        var i :| 0 <= i < |es| && es[i].session == s;
        assert all[i].session == s;
      }
    }
  }

  // validateStoredOwnership: every session of the batch against the store.
  method ValidateOwnership(rows: seq<Row>, events: seq<Event>, bySession: map<string, Claims>) returns (ok: bool)
    requires Tracks(bySession, events)
    ensures ok == OwnersMatch(rows, events)
  {
    var stored := EventsOf(rows);
    var todo := bySession.Keys;
    while todo != {}
      invariant todo <= bySession.Keys
      invariant forall s :: s in bySession && s !in todo ==> Matches(stored, events, s)
      decreases |todo|
    {
      var s :| s in todo;
      var existing := StoredOwnership(stored, s);
      ghost var i :| 0 <= i < |events| && events[i].session == s;
      if existing.None? {
        assert !Matches(stored, events, events[i].session);
        return false;
      }
      var same := CompareOwnership(existing.value, bySession[s]);
      assert same == Matches(stored, events, s);
      if !same {
        assert !Matches(stored, events, events[i].session);
        return false;
      }
      todo := todo - {s};
    }
    return true;
  }

  class Log {
    var rows: seq<Row>

    constructor ()
      ensures rows == []
    {
      rows := [];
    }

    // The envelope stored under an id.
    method Find(id: string) returns (raw: Option<string>)
      ensures raw.Some? <==> Stored(rows, id)
      ensures raw.Some? ==> raw.value == RawOf(rows, id)
    {
      var i := 0;
      assert rows[0..] == rows;
      while i < |rows|
        invariant i <= |rows| && (Stored(rows[i..], id) <==> Stored(rows, id))
        invariant Stored(rows, id) ==> RawOf(rows[i..], id) == RawOf(rows, id)
      {
        assert rows[i..][0] == rows[i] && rows[i..][1..] == rows[i + 1..];
        if rows[i].event.id == id {
          return Some(rows[i].raw);
        }
        LaterRows(rows[i..], id);
        i := i + 1;
      }
      return None;
    }

    // The writer transaction: a failure anywhere rolls every insert back.
    method AppendEventsAtomic(marshal: Event -> string, events: seq<Event>, stop: Option<nat>)
      returns (r: Result<(nat, nat), Error>)
      modifies this
      ensures var spec := Append(marshal, old(rows), events, stop);
              && (spec.Err? ==> r == Err(spec.error) && rows == old(rows))
              && (spec.Ok? ==> r == Ok((spec.value.inserted, spec.value.existing)) && rows == spec.value.rows)
    {
      hide FirstFault, OwnersMatch, Stored, RawOf;
      var fault, bySession := Prepare(events);
      if fault.Some? { return Err(fault.value); }
      var begun := rows;
      var owned := ValidateOwnership(rows, events, bySession);
      if !owned { return Err(OwnershipConflict); }
      var inserted, existing := 0, 0;
      for i := 0 to |events|
        invariant Inserts(marshal, Outcome(rows, inserted, existing), events, i, stop) ==
                  Inserts(marshal, Outcome(old(rows), 0, 0), events, 0, stop)
        invariant inserted >= 0 && existing >= 0
      {
        if stop == Some(i) {
          rows := begun;
          return Err(Cancelled);
        }
        var e := events[i];
        var raw := Find(e.id);
        if raw.Some? {
          if raw.value != marshal(e) {
            rows := begun;
            return Err(EventConflict);
          }
          existing := existing + 1;
        } else {
          rows := rows + [Row(e, marshal(e))];
          inserted := inserted + 1;
        }
      }
      return Ok((inserted, existing));
    }
  }

  lemma LaterRows(rows: seq<Row>, id: string)
    requires rows != [] && rows[0].event.id != id
    ensures Stored(rows[1..], id) <==> Stored(rows, id)
  {
    if Stored(rows, id) { StoredLater(rows, id); }
    if Stored(rows[1..], id) {
      var i :| 0 <= i < |rows[1..]| && rows[1..][i].event.id == id;
      assert rows[i + 1].event.id == id;
    }
  }
}
