// When the batch append takes a batch, what it stores and what it refuses first, in
// terms of the events alone.
module EventStoreMeaning {
  import opened Common
  import opened EventStore
  import opened EventStoreProofs

  // ----- Claims --------------------------------------------------------------

  predicate SameOrBlank(a: string, b: string) {
    a != "" && b != "" ==> a == b
  }

  // Two events that may stand beside each other: those of one session do not claim
  // different workstreams, providers or native sessions for it.
  predicate Beside(a: Event, b: Event) {
    a.session == b.session != "" ==>
      && SameOrBlank(a.workstream, b.workstream)
      && SameOrBlank(a.provider, b.provider)
      && SameOrBlank(a.native, b.native)
  }

  predicate AllBeside(es: seq<Event>) {
    forall i, j :: 0 <= i < j < |es| ==> Beside(es[i], es[j])
  }

  lemma AgreeMeans(a: Event, b: Event)
    requires a.session == b.session != ""
    ensures Beside(a, b) <==> forall k: Kind :: Agree(Claim(a, k), Claim(b, k))
  {
    assert Claim(a, Workstream) == a.workstream && Claim(b, Workstream) == b.workstream;
    assert Claim(a, Provider) == a.provider && Claim(b, Provider) == b.provider;
    assert Claim(a, Native) == a.native && Claim(b, Native) == b.native;
  }

  lemma CompatibleMeans(es: seq<Event>)
    ensures AllCompatible(es) <==> AllBeside(es)
  {
    hide Claim, Agree, Beside;
    if AllCompatible(es) {
      forall i, j | 0 <= i < j < |es|
        ensures Beside(es[i], es[j])
      {
        if es[i].session == es[j].session != "" {
          assert Compatible(es, es[i].session);
          AgreeMeans(es[i], es[j]);
        } else {
          OtherSessions(es[i], es[j]);
        }
      }
    }
    if AllBeside(es) {
      forall s | s != ""
        ensures Compatible(es, s)
      {
        forall i, j, k: Kind | 0 <= i < |es| && 0 <= j < |es| && es[i].session == s && es[j].session == s
          ensures Agree(Claim(es[i], k), Claim(es[j], k))
        {
          if i < j { AgreeMeans(es[i], es[j]); }
          if j < i { AgreeMeans(es[j], es[i]); AgreesBack(Claim(es[j], k), Claim(es[i], k)); }
          if i == j { AgreesBack(Claim(es[i], k), Claim(es[i], k)); }
        }
      }
    }
  }

  lemma OtherSessions(a: Event, b: Event)
    requires !(a.session == b.session != "")
    ensures Beside(a, b)
  {
  }

  lemma AgreesBack(a: string, b: string)
    ensures Agree(a, b) ==> Agree(b, a)
    ensures Agree(a, a)
  {
  }

  // ----- What a batch adds ---------------------------------------------------

  predicate IsStored(rows: seq<Row>, id: string) {
    exists i :: 0 <= i < |rows| && rows[i].event.id == id
  }

  // Rows that are the events at some places of a batch, in order: all that were not
  // stored.
  predicate Picked(marshal: Event -> string, rows: seq<Row>, events: seq<Event>, added: seq<Row>, at: seq<nat>) {
    && |at| == |added| && (forall k, m :: 0 <= k < m < |at| ==> at[k] < at[m])
    && (forall k :: 0 <= k < |at| ==> at[k] < |events| && added[k] == Row(events[at[k]], marshal(events[at[k]])))
    && (forall i :: 0 <= i < |events| ==> (i in at <==> !IsStored(rows, events[i].id)))
  }

  lemma {:induction false} AddedIsPicked(marshal: Event -> string, rows: seq<Row>, events: seq<Event>)
    returns (at: seq<nat>)
    ensures Picked(marshal, rows, events, Added(marshal, rows, events), at)
  {
    hide IsStored, Stored;
    at := [];
    if events != [] {
      hide Picked;
      var rest := AddedIsPicked(marshal, rows, events[1..]);
      var more := Added(marshal, rows, events[1..]);
      SameStored(rows, events[0].id);
      if Stored(rows, events[0].id) {
        at := Shifted(rest);
        assert [] + more == more;
        PickedLater(marshal, rows, events, more, rest);
      } else {
        at := Behind(rest);
        PickedFirst(marshal, rows, events, more, rest);
      }
    }
  }

  lemma PickedLater(marshal: Event -> string, rows: seq<Row>, events: seq<Event>, more: seq<Row>, rest: seq<nat>)
    requires events != [] && IsStored(rows, events[0].id) && Picked(marshal, rows, events[1..], more, rest)
    ensures Picked(marshal, rows, events, more, Shifted(rest))
  {
    hide IsStored;
    forall i | 0 <= i < |events|
      ensures i in Shifted(rest) <==> !IsStored(rows, events[i].id)
    {
      ShiftedIn(rest, i);
      if i > 0 { assert events[i] == events[1..][i - 1]; }
    }
  }

  // The same places behind a first one.
  function Behind(at: seq<nat>): (r: seq<nat>)
    ensures |r| == |at| + 1 && r[0] == 0 && forall k :: 0 < k < |r| ==> r[k] == at[k - 1] + 1
  {
    seq(|at| + 1, k requires 0 <= k <= |at| => if k == 0 then 0 else at[k - 1] + 1)
  }

  lemma BehindIn(at: seq<nat>, i: nat)
    ensures i in Behind(at) <==> i == 0 || i - 1 in at
  {
    hide Behind;
    var r := Behind(at);
    if i == 0 {
      assert r[0] == i;
    } else if i - 1 in at {
      var k :| 0 <= k < |at| && at[k] == i - 1;
      assert r[k + 1] == i;
    }
  }

  lemma PickedFirst(marshal: Event -> string, rows: seq<Row>, events: seq<Event>, more: seq<Row>, rest: seq<nat>)
    requires events != [] && !IsStored(rows, events[0].id) && Picked(marshal, rows, events[1..], more, rest)
    ensures Picked(marshal, rows, events, [Row(events[0], marshal(events[0]))] + more, Behind(rest))
  {
    hide IsStored, Behind;
    forall i | 0 <= i < |events|
      ensures i in Behind(rest) <==> !IsStored(rows, events[i].id)
    {
      BehindIn(rest, i);
      if i > 0 { assert events[i] == events[1..][i - 1]; }
    }
  }

  lemma SameStored(rows: seq<Row>, id: string)
    ensures Stored(rows, id) <==> IsStored(rows, id)
  {
  }

  function Shifted(at: seq<nat>): (r: seq<nat>)
    ensures |r| == |at| && forall k :: 0 <= k < |at| ==> r[k] == at[k] + 1
  {
    seq(|at|, k requires 0 <= k < |at| => at[k] + 1)
  }

  lemma ShiftedIn(at: seq<nat>, i: nat)
    ensures i in Shifted(at) <==> i > 0 && i - 1 in at
  {
    if i > 0 && i - 1 in at {
      var k :| 0 <= k < |at| && at[k] == i - 1;
      assert Shifted(at)[k] == i;
    }
  }

  // ----- When a batch is taken -----------------------------------------------

  predicate Named(id: string) {
    exists i :: 0 <= i < |id| && !IsSpace(id[i])
  }

  // A batch in order by itself: named and distinct events beside each other.
  predicate InOrder(events: seq<Event>) {
    && (forall i :: 0 <= i < |events| ==> Named(events[i].id))
    && (forall i, j :: 0 <= i < j < |events| ==> events[i].id != events[j].id)
    && AllBeside(events)
  }

  // Every stored event of the batch has the envelope that it has in the batch.
  predicate Unchanged(marshal: Event -> string, rows: seq<Row>, events: seq<Event>) {
    forall i, k :: 0 <= i < |events| && 0 <= k < |rows| && rows[k].event.id == events[i].id ==>
      rows[k].raw == marshal(events[i])
  }

  predicate StopsWithin(stop: Option<nat>, n: nat) {
    stop.Some? && stop.value < n
  }

  lemma InOrderMeans(events: seq<Event>)
    ensures InOrder(events) <==> IdsOk(events) && AllCompatible(events)
  {
    hide AllCompatible, AllBeside;
    CompatibleMeans(events);
    forall i | 0 <= i < |events|
      ensures Named(events[i].id) <==> !Blank(events[i].id)
    {
    }
  }

  lemma UnchangedMeans(marshal: Event -> string, rows: seq<Row>, events: seq<Event>)
    requires Valid(marshal, rows)
    ensures Unchanged(marshal, rows, events) <==> SameEnvelopes(marshal, rows, events)
  {
    hide Compatible, EventsOf, RawOf;
    forall i | 0 <= i < |rows| { RawIs(rows, i); }
    if SameEnvelopes(marshal, rows, events) {
      forall i, k | 0 <= i < |events| && 0 <= k < |rows| && rows[k].event.id == events[i].id
        ensures rows[k].raw == marshal(events[i])
      {
        RawIs(rows, k);
      }
    }
    if Unchanged(marshal, rows, events) {
      forall i | 0 <= i < |events| && Stored(rows, events[i].id)
        ensures RawOf(rows, events[i].id) == marshal(events[i])
      {
        var k :| 0 <= k < |rows| && rows[k].event.id == events[i].id;
        RawIs(rows, k);
      }
    }
  }

  // A batch is taken exactly when it is in order, stands beside what is stored, changes
  // no stored envelope and is not stopped. Then its new events follow the stored rows.
  lemma AppendMeans(marshal: Event -> string, rows: seq<Row>, events: seq<Event>, stop: Option<nat>)
    requires Valid(marshal, rows)
    ensures Append(marshal, rows, events, stop).Ok? <==>
              && InOrder(events) && AllBeside(EventsOf(rows) + events) && Unchanged(marshal, rows, events)
              && !StopsWithin(stop, |events|)
    ensures Append(marshal, rows, events, stop).Ok? ==>
              var r := Append(marshal, rows, events, stop).value;
              && rows <= r.rows && (exists at :: Picked(marshal, rows, events, r.rows[|rows|..], at))
              && r.inserted == |r.rows| - |rows| && r.inserted + r.existing == |events|
  {
    hide Append, Valid, AllBeside, AllCompatible, EventsOf, SameEnvelopes, Unchanged, IdsOk, InOrder, Added, Picked;
    AppendIff(marshal, rows, events, stop);
    InOrderMeans(events);
    CompatibleMeans(EventsOf(rows) + events);
    UnchangedMeans(marshal, rows, events);
    if AllCompatible(EventsOf(rows) + events) { PartsCompatible(EventsOf(rows), events); }
    var at := AddedIsPicked(marshal, rows, events);
    assert (rows + Added(marshal, rows, events))[|rows|..] == Added(marshal, rows, events);
  }

  // ----- What a refusal names ------------------------------------------------

  // The first event after which a batch is no longer in order.
  predicate BreaksAt(events: seq<Event>, n: nat) {
    n < |events| && InOrder(events[..n]) && !InOrder(events[..n + 1])
  }

  lemma {:induction false} FaultAt(events: seq<Event>, i: nat, n: nat)
    requires i <= n < |events| && Fault(events, n).Some? && forall k :: i <= k < n ==> Fault(events, k).None?
    ensures FirstFault(events, i) == Fault(events, n)
    decreases n - i
  {
    hide Fault;
    if i < n { FaultAt(events, i + 1, n); }
  }

  lemma FaultsOfPrefix(events: seq<Event>, n: nat)
    requires n <= |events|
    ensures InOrder(events[..n]) <==> forall k :: 0 <= k < n ==> Fault(events, k).None?
  {
    hide InOrder, IdsOk, AllCompatible;
    InOrderMeans(events[..n]);
    FaultlessIff(events[..n]);
    NoFaultMeans(events[..n], 0);
    forall k | 0 <= k < n
      ensures Fault(events[..n], k) == Fault(events, k)
    {
      assert events[..n][..k + 1] == events[..k + 1];
      hide Owned, Blank;
    }
  }

  // A batch that is not in order is refused for the event that breaks it: for its name,
  // or else its repeated id, or else its claims.
  lemma BrokenIsRefused(marshal: Event -> string, rows: seq<Row>, events: seq<Event>, stop: Option<nat>, n: nat)
    requires BreaksAt(events, n)
    ensures Append(marshal, rows, events, stop) ==
            Err(if !Named(events[n].id) then BlankId
                else if exists j :: 0 <= j < n && events[j].id == events[n].id then DuplicateId
                else OwnershipConflict)
  {
    hide InOrder, OwnersMatch, Inserts;
    FaultsOfPrefix(events, n);
    FaultsOfPrefix(events, n + 1);
    FaultAt(events, 0, n);
    assert Named(events[n].id) <==> !Blank(events[n].id);
  }

  // A batch in order that does not stand beside what is stored is refused for its
  // claims.
  lemma StrangerIsRefused(marshal: Event -> string, rows: seq<Row>, events: seq<Event>, stop: Option<nat>)
    requires Valid(marshal, rows) && InOrder(events) && !AllBeside(EventsOf(rows) + events)
    ensures Append(marshal, rows, events, stop) == Err(OwnershipConflict)
  {
    hide InOrder, AllBeside, OwnersMatch, Inserts, EventsOf, IdsOk, Compatible;
    InOrderMeans(events);
    FaultlessIff(events);
    CompatibleMeans(EventsOf(rows) + events);
    OwnersMatchIff(rows, events);
  }

  // Where the insert loop gives up: the caller's stop, or a stored event with another
  // envelope.
  predicate Halts(marshal: Event -> string, rows: seq<Row>, events: seq<Event>, stop: Option<nat>, n: nat) {
    n < |events| && (stop == Some(n) || !Unchanged(marshal, rows, [events[n]]))
  }

  lemma OneUnchanged(marshal: Event -> string, rows: seq<Row>, e: Event)
    requires Valid(marshal, rows)
    ensures Unchanged(marshal, rows, [e]) <==> (Stored(rows, e.id) ==> RawOf(rows, e.id) == marshal(e))
  {
    hide Valid;
    UnchangedMeans(marshal, rows, [e]);
    assert [e][0] == e;
  }

  lemma {:induction false} InsertsHalt(marshal: Event -> string, rows: seq<Row>, o: Outcome, events: seq<Event>, i: nat,
                                       stop: Option<nat>, n: nat)
    requires Valid(marshal, rows) && i <= n < |events| && forall j, k :: 0 <= j < k < |events| ==> events[j].id != events[k].id
    requires Halts(marshal, rows, events, stop, n) && forall k :: i <= k < n ==> !Halts(marshal, rows, events, stop, k)
    requires forall k :: i <= k < |events| ==>
               (Stored(o.rows, events[k].id) <==> Stored(rows, events[k].id))
               && (Stored(rows, events[k].id) ==> RawOf(o.rows, events[k].id) == RawOf(rows, events[k].id))
    ensures Inserts(marshal, o, events, i, stop) == Err(if stop == Some(n) then Cancelled else EventConflict)
    decreases n - i
  {
    hide Valid, Stored, RawOf, Unchanged;
    var e := events[i];
    OneUnchanged(marshal, rows, e);
    if i < n {
      assert !Halts(marshal, rows, events, stop, i);
      if Stored(o.rows, e.id) {
        InsertsHalt(marshal, rows, o.(existing := o.existing + 1), events, i + 1, stop, n);
      } else {
        var row := Row(e, marshal(e));
        forall k | i + 1 <= k < |events| { OtherStored(o.rows, row, events[k].id); }
        InsertsHalt(marshal, rows, Outcome(o.rows + [row], o.inserted + 1, o.existing), events, i + 1, stop, n);
      }
    }
  }

  // Any other batch is refused where the insert loop first gives up.
  lemma HaltIsRefused(marshal: Event -> string, rows: seq<Row>, events: seq<Event>, stop: Option<nat>, n: nat)
    requires Valid(marshal, rows) && InOrder(events) && AllBeside(EventsOf(rows) + events)
    requires Halts(marshal, rows, events, stop, n) && forall k :: 0 <= k < n ==> !Halts(marshal, rows, events, stop, k)
    ensures Append(marshal, rows, events, stop) == Err(if stop == Some(n) then Cancelled else EventConflict)
  {
    hide InOrder, AllBeside, OwnersMatch, Inserts, EventsOf, Compatible, Halts, Stored, RawOf;
    InOrderMeans(events);
    FaultlessIff(events);
    CompatibleMeans(EventsOf(rows) + events);
    OwnersMatchIff(rows, events);
    HaltInside(marshal, rows, events, stop, n);
    InsertsHalt(marshal, rows, Outcome(rows, 0, 0), events, 0, stop, n);
  }

  lemma HaltInside(marshal: Event -> string, rows: seq<Row>, events: seq<Event>, stop: Option<nat>, n: nat)
    requires Halts(marshal, rows, events, stop, n)
    ensures n < |events|
  {
  }
}
