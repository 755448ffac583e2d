// Exception groups: the failures that share a workstream and a signature.
module ExceptionGroups {
  import opened TextOrder
  import opened SpanFacts
  import opened Coalescing

  // The facts of the log, and the library functions that reduce a failure to
  // its signature. The hash is printed in hexadecimal.
  datatype Env = Env(
    bySpan: map<string, Facts>, bySession: map<string, Facts>,
    template: string -> string, frame: string -> string, hash: (string, string, string) -> string)

  const UNKNOWN := Facts(Import, false, "", "", "", "", "", false)

  function FactsFor(env: Env, r: Row): Facts {
    if r.span in env.bySpan then env.bySpan[r.span]
    else if r.session in env.bySession then env.bySession[r.session]
    else UNKNOWN
  }

  // The error type, message template and top frame of a failure.
  datatype Signature = Signature(errorType: string, template: string, frame: string)

  function FirstSet(a: string, b: string, c: string): string {
    if a != "" then a else if b != "" then b else c
  }

  function SignatureOf(env: Env, r: Row): Signature {
    var f := FactsFor(env, r);
    Signature(FirstSet(f.errorType, r.errorType, "error"),
              env.template(FirstSet(f.exceptionMessage, f.statusMessage, r.name)),
              env.frame(f.topFrame))
  }

  function HashOf(env: Env, r: Row): string {
    var s := SignatureOf(env, r);
    env.hash(s.errorType, s.template, s.frame)
  }

  datatype Key = Key(workstream: string, hash: string)

  function KeyOf(env: Env, r: Row): Key {
    Key(r.workstream, HashOf(env, r))
  }

  // A failure that no stronger pipeline also reported.
  predicate Counted(r: Row) {
    r.failed && !r.shadowed
  }

  function Members(env: Env, rows: seq<Row>, k: Key): seq<Row> {
    if rows == [] then []
    else
      var before, last := Members(env, rows[..|rows| - 1], k), rows[|rows| - 1];
      if Counted(last) && KeyOf(env, last) == k then before + [last] else before
  }

  datatype ExceptionGroup = ExceptionGroup(key: Key, signature: Signature, first: int, last: int, count: nat,
                                           sample: string)

  // A group holds its members' number, their first and last start, the least
  // of their span ids and the signature of one of them.
  predicate Describes(env: Env, g: ExceptionGroup, ms: seq<Row>) {
    && g.count == |ms| > 0
    && (exists m :: m in ms && SignatureOf(env, m) == g.signature)
    && (forall m :: m in ms ==> KeyOf(env, m) == g.key && g.first <= m.started <= g.last && !Before(m.span, g.sample))
    && (exists m :: m in ms && m.started == g.first) && (exists m :: m in ms && m.started == g.last)
    && (exists m :: m in ms && m.span == g.sample)
  }

  function NewGroup(env: Env, r: Row): ExceptionGroup {
    ExceptionGroup(KeyOf(env, r), SignatureOf(env, r), r.started, r.started, 1, r.span)
  }

  lemma NewGroupDescribes(env: Env, r: Row)
    ensures Describes(env, NewGroup(env, r), [r])
  {
    hide SignatureOf, KeyOf;
    NotBeforeSelf(r.span);
    assert r in [r];
  }

  // A group with one more member.
  method Absorb(env: Env, g: ExceptionGroup, r: Row, ghost ms: seq<Row>) returns (h: ExceptionGroup)
    requires Describes(env, g, ms) && KeyOf(env, r) == g.key
    ensures Describes(env, h, ms + [r])
    ensures h.key == g.key
  {
    hide SignatureOf, KeyOf;
    h := g.(count := g.count + 1);
    if r.started < h.first { h := h.(first := r.started); }
    if r.started > h.last { h := h.(last := r.started); }
    if Before(r.span, h.sample) { h := h.(sample := r.span); }
    ghost var all := ms + [r];
    assert r in all && forall m :: m in ms ==> m in all;
    forall m | m in all
      ensures !Before(m.span, h.sample)
    {
      NotBeforeSelf(r.span);
      if m in ms && h.sample == r.span && Before(m.span, r.span) && Before(r.span, g.sample) {
        Transitive(m.span, r.span, g.sample);
      }
    }
  }

  // ----- The order of the groups ---------------------------------------------

  // More members first, then by workstream and hash.
  predicate Ahead(a: ExceptionGroup, b: ExceptionGroup) {
    if a.count != b.count then a.count > b.count
    else if a.key.workstream != b.key.workstream then Before(a.key.workstream, b.key.workstream)
    else Before(a.key.hash, b.key.hash)
  }

  lemma AheadTotal(a: ExceptionGroup, b: ExceptionGroup)
    ensures a.key != b.key ==> Ahead(a, b) || Ahead(b, a)
    ensures !(Ahead(a, b) && Ahead(b, a))
  {
    Total(a.key.workstream, b.key.workstream);
    Total(a.key.hash, b.key.hash);
  }

  lemma AheadTransitive(a: ExceptionGroup, b: ExceptionGroup, c: ExceptionGroup)
    requires Ahead(a, b) && Ahead(b, c)
    ensures Ahead(a, c)
  {
    if a.count == b.count == c.count {
      if a.key.workstream == b.key.workstream == c.key.workstream {
        Transitive(a.key.hash, b.key.hash, c.key.hash);
      } else if a.key.workstream != b.key.workstream && b.key.workstream != c.key.workstream {
        Transitive(a.key.workstream, b.key.workstream, c.key.workstream);
        Total(a.key.workstream, b.key.workstream);
      }
    }
  }

  predicate Ordered(gs: seq<ExceptionGroup>) {
    forall i, j :: 0 <= i < j < |gs| ==> Ahead(gs[i], gs[j])
  }

  lemma OrderedKeys(gs: seq<ExceptionGroup>, i: nat, j: nat)
    requires Ordered(gs) && i < j < |gs| && gs[i].count == gs[j].count
    ensures gs[i].key != gs[j].key
  {
    NotBeforeSelf(gs[i].key.hash);
  }

  // Two orderings of the same groups are the same.
  lemma {:induction false} OrderUnique(a: seq<ExceptionGroup>, b: seq<ExceptionGroup>)
    requires Ordered(a) && Ordered(b) && forall g :: g in a <==> g in b
    ensures a == b
  {
    assert a != [] ==> a[0] in a;
    assert b != [] ==> b[0] in b;
    if a != [] && b != [] {
      assert a[0] in b && b[0] in a;
      var i :| 0 <= i < |b| && b[i] == a[0];
      var j :| 0 <= j < |a| && a[j] == b[0];
      AheadTotal(a[0], b[0]);
      assert a[0] == b[0];
      forall g
        ensures g in a[1..] <==> g in b[1..]
      {
        RestMember(a, g);
        RestMember(b, g);
      }
      OrderUnique(a[1..], b[1..]);
      assert a == [a[0]] + a[1..] && b == [b[0]] + b[1..];
    }
  }

  lemma RestMember(a: seq<ExceptionGroup>, g: ExceptionGroup)
    requires a != [] && Ordered(a)
    ensures g in a[1..] <==> g in a && g != a[0]
  {
    assert a == [a[0]] + a[1..];
    if g in a[1..] {
      var i :| 0 <= i < |a[1..]| && a[1..][i] == g;
      assert Ahead(a[0], a[i + 1]);
      AheadTotal(a[0], a[0]);
    }
  }

  // ----- The passes ----------------------------------------------------------

  // The groups of the rows read so far.
  ghost predicate Tallies(env: Env, agg: map<Key, ExceptionGroup>, rows: seq<Row>) {
    && (forall k :: k in agg ==> agg[k].key == k && Describes(env, agg[k], Members(env, rows, k)))
    && (forall k :: k !in agg ==> Members(env, rows, k) == [])
  }

  lemma MembersStep(env: Env, rows: seq<Row>, r: Row, k: Key)
    ensures Members(env, rows + [r], k) ==
            if Counted(r) && KeyOf(env, r) == k then Members(env, rows, k) + [r] else Members(env, rows, k)
  {
    hide KeyOf;
    assert (rows + [r])[..|rows|] == rows;
  }

  // The counting pass of groupExceptions.
  method Tally(env: Env, rows: seq<Row>) returns (agg: map<Key, ExceptionGroup>)
    ensures Tallies(env, agg, rows)
  {
    agg := map[];
    hide KeyOf, SignatureOf, Describes;
    for i := 0 to |rows|
      invariant Tallies(env, agg, rows[..i])
    {
      var r := rows[i];
      assert rows[..i + 1] == rows[..i] + [r];
      forall k { MembersStep(env, rows[..i], r, k); }
      if r.failed && !r.shadowed {
        var key := KeyOf(env, r);
        if key in agg {
          var g := Absorb(env, agg[key], r, Members(env, rows[..i], key));
          agg := agg[key := g];
        } else {
          NewGroupDescribes(env, r);
          assert [] + [r] == [r];
          agg := agg[key := NewGroup(env, r)];
          assert agg[key].key == key by { NewGroupKey(env, r); }
        }
      }
    }
    assert rows[..|rows|] == rows;
  }

  lemma NewGroupKey(env: Env, r: Row)
    ensures NewGroup(env, r).key == KeyOf(env, r)
  {
  }

  // The output of groupExceptions for some rows: each key's group once, in order.
  ghost predicate GroupsAre(env: Env, rows: seq<Row>, out: seq<ExceptionGroup>) {
    && Ordered(out)
    && (forall g :: g in out ==> Describes(env, g, Members(env, rows, g.key)))
    && (forall k :: Members(env, rows, k) != [] ==> exists g :: g in out && g.key == k)
  }

  function Placed(gs: seq<ExceptionGroup>, i: nat, g: ExceptionGroup): seq<ExceptionGroup>
    requires i <= |gs|
  {
    gs[..i] + [g] + gs[i..]
  }

  method PlaceFor(gs: seq<ExceptionGroup>, g: ExceptionGroup) returns (i: nat)
    requires Ordered(gs) && forall x :: x in gs ==> x.key != g.key
    ensures i <= |gs| && Ordered(Placed(gs, i, g))
    ensures forall x :: x in Placed(gs, i, g) <==> x in gs || x == g
  {
    hide Ahead;
    i := 0;
    while i < |gs| && Ahead(gs[i], g)
      invariant i <= |gs| && forall k :: 0 <= k < i ==> Ahead(gs[k], g)
    {
      i := i + 1;
    }
    forall k | i <= k < |gs|
      ensures Ahead(g, gs[k])
    {
      assert gs[i] in gs;
      AheadTotal(g, gs[i]);
      if k > i { AheadTransitive(g, gs[i], gs[k]); }
    }
    assert gs == gs[..i] + gs[i..];
  }

  // groupExceptions
  method GroupExceptions(env: Env, rows: seq<Row>) returns (out: seq<ExceptionGroup>)
    ensures GroupsAre(env, rows, out)
  {
    var agg := Tally(env, rows);
    out := [];
    var todo := agg.Keys;
    hide Describes, Ahead;
    while todo != {}
      invariant todo <= agg.Keys && Ordered(out)
      invariant forall g :: g in out ==> g.key in agg && g == agg[g.key] && g.key !in todo
      invariant forall k :: k in agg && k !in todo ==> agg[k] in out
      decreases |todo|
    {
      var k :| k in todo;
      assert forall x :: x in out ==> x.key != agg[k].key;
      var i := PlaceFor(out, agg[k]);
      out, todo := Placed(out, i, agg[k]), todo - {k};
    }
    forall k | Members(env, rows, k) != []
      ensures exists g :: g in out && g.key == k
    {
      assert k in agg && agg[k] in out;
    }
  }

  // ----- What the groups add up to -------------------------------------------

  function CountTotal(gs: seq<ExceptionGroup>): nat {
    if gs == [] then 0 else gs[0].count + CountTotal(gs[1..])
  }

  function CountedRows(rows: seq<Row>): nat {
    if rows == [] then 0
    else CountedRows(rows[..|rows| - 1]) + (if Counted(rows[|rows| - 1]) then 1 else 0)
  }

  // The members of the groups' keys, all together.
  function Sum(env: Env, rows: seq<Row>, gs: seq<ExceptionGroup>): nat {
    if gs == [] then 0 else |Members(env, rows, gs[0].key)| + Sum(env, rows, gs[1..])
  }

  predicate KeysDistinct(gs: seq<ExceptionGroup>) {
    forall i, j :: 0 <= i < j < |gs| ==> gs[i].key != gs[j].key
  }

  predicate HasKey(gs: seq<ExceptionGroup>, k: Key) {
    exists i :: 0 <= i < |gs| && gs[i].key == k
  }

  lemma {:induction false} SumOfNone(env: Env, gs: seq<ExceptionGroup>)
    ensures Sum(env, [], gs) == 0
  {
    if gs != [] { SumOfNone(env, gs[1..]); }
  }

  // A row adds one to one key.
  lemma {:induction false} SumStep(env: Env, rows: seq<Row>, r: Row, gs: seq<ExceptionGroup>)
    requires KeysDistinct(gs)
    ensures Sum(env, rows + [r], gs) ==
            Sum(env, rows, gs) + (if Counted(r) && HasKey(gs, KeyOf(env, r)) then 1 else 0)
  {
    hide KeyOf, Members;
    if gs != [] {
      var k := KeyOf(env, r);
      assert KeysDistinct(gs[1..]);
      SumStep(env, rows, r, gs[1..]);
      MembersStep(env, rows, r, gs[0].key);
      if HasKey(gs[1..], k) {
        var i :| 0 <= i < |gs[1..]| && gs[1..][i].key == k;
        assert gs[i + 1].key == k && gs[0].key != gs[i + 1].key;
      }
      if gs[0].key == k { assert HasKey(gs, k); }
      if HasKey(gs, k) && gs[0].key != k {
        var i :| 0 <= i < |gs| && gs[i].key == k;
        assert gs[1..][i - 1].key == k;
      }
    }
  }

  lemma {:induction false} SumIsAll(env: Env, rows: seq<Row>, gs: seq<ExceptionGroup>)
    requires KeysDistinct(gs) && forall r :: r in rows && Counted(r) ==> HasKey(gs, KeyOf(env, r))
    ensures Sum(env, rows, gs) == CountedRows(rows)
  {
    hide KeyOf, Members, KeysDistinct;
    if rows == [] {
      SumOfNone(env, gs);
    } else {
      var init, last := rows[..|rows| - 1], rows[|rows| - 1];
      assert rows == init + [last];
      SumIsAll(env, init, gs);
      SumStep(env, init, last, gs);
    }
  }

  lemma {:induction false} CountsAreSizes(env: Env, rows: seq<Row>, gs: seq<ExceptionGroup>)
    requires forall g :: g in gs ==> Describes(env, g, Members(env, rows, g.key))
    ensures CountTotal(gs) == Sum(env, rows, gs)
  {
    if gs != [] {
      assert gs[0] in gs;
      CountsAreSizes(env, rows, gs[1..]);
    }
  }

  lemma {:induction false} CountedIsMember(env: Env, rows: seq<Row>, r: Row)
    requires r in rows && Counted(r)
    ensures r in Members(env, rows, KeyOf(env, r))
  {
    hide KeyOf;
    var init, last := rows[..|rows| - 1], rows[|rows| - 1];
    assert rows == init + [last];
    if r in init { CountedIsMember(env, init, r); }
  }

  lemma GroupKeysDistinct(env: Env, rows: seq<Row>, out: seq<ExceptionGroup>)
    requires GroupsAre(env, rows, out)
    ensures KeysDistinct(out)
  {
    forall i, j | 0 <= i < j < |out|
      ensures out[i].key != out[j].key
    {
      if out[i].key == out[j].key {
        assert out[i] in out && out[j] in out;
        assert out[i].count == out[j].count;
        OrderedKeys(out, i, j);
      }
    }
  }

  // The counts of the groups add up to the failures that count.
  lemma CountsConserved(env: Env, rows: seq<Row>, out: seq<ExceptionGroup>)
    requires GroupsAre(env, rows, out)
    ensures CountTotal(out) == CountedRows(rows)
  {
    GroupKeysDistinct(env, rows, out);
    CountsAreSizes(env, rows, out);
    hide KeyOf, Describes, Ordered;
    forall r | r in rows && Counted(r)
      ensures HasKey(out, KeyOf(env, r))
    {
      CountedIsMember(env, rows, r);
      var g :| g in out && g.key == KeyOf(env, r);
      var i :| 0 <= i < |out| && out[i] == g;
      assert out[i].key == KeyOf(env, r);
    }
    SumIsAll(env, rows, out);
  }

  // ----- Order does not matter -----------------------------------------------

  // Different signatures have different hashes.
  ghost predicate Injective(env: Env) {
    forall a, b, c, x, y, z :: env.hash(a, b, c) == env.hash(x, y, z) ==> a == x && b == y && c == z
  }

  lemma {:induction false} MembersOf(env: Env, rows: seq<Row>, k: Key)
    ensures multiset(Members(env, rows, k)) <= multiset(rows)
    ensures forall r :: multiset(Members(env, rows, k))[r] ==
                        if Counted(r) && KeyOf(env, r) == k then multiset(rows)[r] else 0
  {
    hide KeyOf;
    if rows != [] {
      var init, last := rows[..|rows| - 1], rows[|rows| - 1];
      assert rows == init + [last];
      MembersOf(env, init, k);
    }
  }

  lemma MembersOfShuffle(env: Env, a: seq<Row>, b: seq<Row>, k: Key)
    requires multiset(a) == multiset(b)
    ensures multiset(Members(env, a, k)) == multiset(Members(env, b, k))
  {
    MembersOf(env, a, k);
    MembersOf(env, b, k);
  }

  // A group is fixed by the rows it stands for.
  lemma DescriptionUnique(env: Env, g: ExceptionGroup, h: ExceptionGroup, a: seq<Row>, b: seq<Row>)
    requires Injective(env) && Describes(env, g, a) && Describes(env, h, b) && multiset(a) == multiset(b)
    ensures g == h
  {
    assert |multiset(a)| == |a| && |multiset(b)| == |b|;
    forall m
      ensures m in a <==> m in b
    {
      assert m in multiset(a) <==> m in multiset(b);
    }
    Total(g.sample, h.sample);
    var x :| x in a && SignatureOf(env, x) == g.signature;
    var y :| y in b && SignatureOf(env, y) == h.signature;
    assert KeyOf(env, x) == g.key && KeyOf(env, y) == g.key;
  }

  // A shuffled log gives the same exception groups in the same order.
  lemma GroupsIgnoreOrder(env: Env, a: seq<Row>, b: seq<Row>, x: seq<ExceptionGroup>, y: seq<ExceptionGroup>)
    requires Injective(env) && multiset(a) == multiset(b) && GroupsAre(env, a, x) && GroupsAre(env, b, y)
    ensures x == y
  {
    hide Ordered, KeyOf, Injective;
    forall g
      ensures g in x <==> g in y
    {
      if g in x { SameGroup(env, a, b, x, y, g); }
      if g in y { SameGroup(env, b, a, y, x, g); }
    }
    OrderUnique(x, y);
  }

  lemma SameGroup(env: Env, a: seq<Row>, b: seq<Row>, x: seq<ExceptionGroup>, y: seq<ExceptionGroup>, g: ExceptionGroup)
    requires Injective(env) && multiset(a) == multiset(b) && GroupsAre(env, a, x) && GroupsAre(env, b, y) && g in x
    ensures g in y
  {
    hide Ordered, KeyOf, Injective;
    MembersOfShuffle(env, a, b, g.key);
    assert |multiset(Members(env, a, g.key))| == |Members(env, a, g.key)|;
    assert |multiset(Members(env, b, g.key))| == |Members(env, b, g.key)|;
    assert Members(env, b, g.key) != [];
    var h :| h in y && h.key == g.key;
    DescriptionUnique(env, g, h, Members(env, a, g.key), Members(env, b, g.key));
  }

  // ----- What the order and the signatures say -------------------------------

  // Groups of more failures come first; of as many, by workstream and then by hash.
  lemma OrderMeans(env: Env, rows: seq<Row>, out: seq<ExceptionGroup>, i: nat, j: nat)
    requires GroupsAre(env, rows, out) && i < j < |out|
    ensures out[i].count >= out[j].count
    ensures out[i].count == out[j].count ==>
              || Before(out[i].key.workstream, out[j].key.workstream)
              || (out[i].key.workstream == out[j].key.workstream && Before(out[i].key.hash, out[j].key.hash))
  {
    hide Before, Describes, Members;
    assert Ahead(out[i], out[j]);
  }

  // What is known of a failure: what was reported of its span, and only without that
  // what was reported of its session.
  predicate KnownOf(env: Env, r: Row, f: Facts) {
    && (r.span in env.bySpan ==> f == env.bySpan[r.span])
    && (r.span !in env.bySpan && r.session in env.bySession ==> f == env.bySession[r.session])
    && (r.span !in env.bySpan && r.session !in env.bySession ==>
          f.errorType == "" && f.exceptionMessage == "" && f.statusMessage == "" && f.topFrame == "")
  }

  // The signature takes a reported error type before the failure's own, and an
  // exception's message before a status message before the failure's name.
  lemma SignatureMeans(env: Env, r: Row) returns (f: Facts)
    ensures KnownOf(env, r, f)
    ensures var s := SignatureOf(env, r);
            && (f.errorType != "" ==> s.errorType == f.errorType)
            && (f.errorType == "" && r.errorType != "" ==> s.errorType == r.errorType)
            && (f.errorType == "" && r.errorType == "" ==> s.errorType == "error")
            && (f.exceptionMessage != "" ==> s.template == env.template(f.exceptionMessage))
            && (f.exceptionMessage == "" && f.statusMessage != "" ==> s.template == env.template(f.statusMessage))
            && (f.exceptionMessage == "" && f.statusMessage == "" ==> s.template == env.template(r.name))
            && s.frame == env.frame(f.topFrame)
  {
    f := FactsFor(env, r);
  }

  // ----- Which failures a group counts ---------------------------------------

  // A failure of a workstream with a signature that no stronger source also saw.
  predicate FailureOf(env: Env, r: Row, workstream: string, hash: string) {
    r.failed && !r.shadowed && r.workstream == workstream && HashOf(env, r) == hash
  }

  function FailuresOf(env: Env, rows: seq<Row>, workstream: string, hash: string): set<nat> {
    set i: nat | i < |rows| && FailureOf(env, rows[i], workstream, hash)
  }

  lemma FailureMeans(env: Env, r: Row, k: Key)
    ensures FailureOf(env, r, k.workstream, k.hash) <==> Counted(r) && KeyOf(env, r) == k
  {
    hide HashOf;
  }

  lemma {:induction false} MembersCounted(env: Env, rows: seq<Row>, k: Key)
    ensures |Members(env, rows, k)| == |FailuresOf(env, rows, k.workstream, k.hash)|
  {
    hide HashOf, FailuresOf;
    FailuresStep(env, rows, k);
    if rows != [] { MembersCounted(env, rows[..|rows| - 1], k); }
  }

  lemma FailuresStep(env: Env, rows: seq<Row>, k: Key)
    ensures rows == [] ==> FailuresOf(env, rows, k.workstream, k.hash) == {}
    ensures rows != [] ==>
              |FailuresOf(env, rows, k.workstream, k.hash)| ==
              |FailuresOf(env, rows[..|rows| - 1], k.workstream, k.hash)| +
              (if Counted(rows[|rows| - 1]) && KeyOf(env, rows[|rows| - 1]) == k then 1 else 0)
  {
    hide FailureOf, Counted, KeyOf;
    if rows != [] {
      var n := |rows| - 1;
      FailureMeans(env, rows[n], k);
      assert FailuresOf(env, rows, k.workstream, k.hash) ==
             FailuresOf(env, rows[..n], k.workstream, k.hash) +
             (if FailureOf(env, rows[n], k.workstream, k.hash) then {n} else {});
    }
  }

  // A group counts exactly those failures, and there is a group for each of them.
  lemma GroupsCountFailures(env: Env, rows: seq<Row>, out: seq<ExceptionGroup>)
    requires GroupsAre(env, rows, out)
    ensures forall g :: g in out ==> g.count == |FailuresOf(env, rows, g.key.workstream, g.key.hash)| > 0
    ensures forall i :: 0 <= i < |rows| && rows[i].failed && !rows[i].shadowed ==>
              exists g :: g in out && g.key == Key(rows[i].workstream, HashOf(env, rows[i]))
  {
    hide Members, Ordered, FailuresOf, HashOf;
    forall g | g in out
      ensures g.count == |FailuresOf(env, rows, g.key.workstream, g.key.hash)| > 0
    {
      MembersCounted(env, rows, g.key);
    }
    forall i | 0 <= i < |rows| && rows[i].failed && !rows[i].shadowed
      ensures exists g :: g in out && g.key == Key(rows[i].workstream, HashOf(env, rows[i]))
    {
      CountedIsMember(env, rows, rows[i]);
    }
  }
}
