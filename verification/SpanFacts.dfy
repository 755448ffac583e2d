// The facts that events report of spans and sessions.
module SpanFacts {
  import opened Common
  import opened TextOrder

  datatype Signal = Import | Sdk | Hook | Native

  function Precedence(s: Signal): nat {
    match s
    case Native => 3
    case Hook => 2
    case Sdk => 1
    case Import => 0
  }

  datatype Facts = Facts(
    signal: Signal, declared: bool, nativeSession: string, errorType: string,
    exceptionMessage: string, statusMessage: string, topFrame: string, hasUsage: bool)

  // A declared source outranks a heuristic one; between equals the stronger wins.
  predicate Outranks(a: Facts, b: Facts) {
    if a.declared != b.declared then a.declared else Precedence(a.signal) > Precedence(b.signal)
  }

  // spanFacts.merge
  function Merge(f: Facts, o: Facts): Facts {
    Facts(if Outranks(o, f) then o.signal else f.signal,
          f.declared || o.declared,
          Least(f.nativeSession, o.nativeSession),
          Least(f.errorType, o.errorType),
          Least(f.exceptionMessage, o.exceptionMessage),
          Least(f.statusMessage, o.statusMessage),
          Least(f.topFrame, o.topFrame),
          f.hasUsage || o.hasUsage)
  }

  lemma MergeCommutes(a: Facts, b: Facts)
    ensures Merge(a, b) == Merge(b, a)
  {
    hide Least;
    LeastCommutes(a.nativeSession, b.nativeSession);
    LeastCommutes(a.errorType, b.errorType);
    LeastCommutes(a.exceptionMessage, b.exceptionMessage);
    LeastCommutes(a.statusMessage, b.statusMessage);
    LeastCommutes(a.topFrame, b.topFrame);
  }

  lemma MergeAssociates(a: Facts, b: Facts, c: Facts)
    ensures Merge(Merge(a, b), c) == Merge(a, Merge(b, c))
  {
    hide Least;
    LeastAssociates(a.nativeSession, b.nativeSession, c.nativeSession);
    LeastAssociates(a.errorType, b.errorType, c.errorType);
    LeastAssociates(a.exceptionMessage, b.exceptionMessage, c.exceptionMessage);
    LeastAssociates(a.statusMessage, b.statusMessage, c.statusMessage);
    LeastAssociates(a.topFrame, b.topFrame, c.topFrame);
  }

  lemma MergeIdempotent(a: Facts)
    ensures Merge(a, a) == a
  {
    NotBeforeSelf(a.nativeSession);
    NotBeforeSelf(a.errorType);
    NotBeforeSelf(a.exceptionMessage);
    NotBeforeSelf(a.statusMessage);
    NotBeforeSelf(a.topFrame);
  }

  // ----- Facts of an event log -----------------------------------------------

  // What one event reports: its span, its session if any, and its facts.
  datatype Report = Report(span: string, session: string, facts: Facts)

  // The merged facts of the reports a key selects.
  function Merged(reports: seq<Report>, key: Report -> bool): Option<Facts> {
    if reports == [] then None
    else
      var rest, last := Merged(reports[..|reports| - 1], key), reports[|reports| - 1];
      if !key(last) then rest
      else if rest.None? then Some(last.facts)
      else Some(Merge(rest.value, last.facts))
  }

  function Joined(a: Option<Facts>, b: Option<Facts>): Option<Facts> {
    if a.None? then b else if b.None? then a else Some(Merge(a.value, b.value))
  }

  function Alone(r: Report, key: Report -> bool): Option<Facts> {
    if key(r) then Some(r.facts) else None
  }

  lemma JoinedCommutes(a: Option<Facts>, b: Option<Facts>)
    ensures Joined(a, b) == Joined(b, a)
  {
    if a.Some? && b.Some? { MergeCommutes(a.value, b.value); }
  }

  lemma JoinedAssociates(a: Option<Facts>, b: Option<Facts>, c: Option<Facts>)
    ensures Joined(Joined(a, b), c) == Joined(a, Joined(b, c))
  {
    if a.Some? && b.Some? && c.Some? { MergeAssociates(a.value, b.value, c.value); }
  }

  lemma {:induction false} MergedConcat(a: seq<Report>, b: seq<Report>, key: Report -> bool)
    ensures Merged(a + b, key) == Joined(Merged(a, key), Merged(b, key))
  {
    hide Merge;
    if b == [] {
      assert a + b == a;
    } else {
      var init, last := b[..|b| - 1], b[|b| - 1];
      assert (a + b)[..|a + b| - 1] == a + init;
      MergedConcat(a, init, key);
      JoinedAssociates(Merged(a, key), Merged(init, key), Alone(last, key));
    }
  }

  // A report can be read before the ones in front of it.
  lemma MergedMoved(a: seq<Report>, r: Report, b: seq<Report>, key: Report -> bool)
    ensures Merged(a + [r] + b, key) == Merged([r] + (a + b), key)
  {
    hide Merged, Merge;
    var x, y, z := Merged(a, key), Merged([r], key), Merged(b, key);
    MergedConcat(a + [r], b, key);
    MergedConcat(a, [r], key);
    MergedConcat([r], a + b, key);
    MergedConcat(a, b, key);
    JoinedCommutes(x, y);
    JoinedAssociates(y, x, z);
  }

  // A shuffled event log reports the same facts of every span and session.
  lemma {:induction false} FactsOfShuffle(a: seq<Report>, b: seq<Report>, key: Report -> bool)
    requires multiset(a) == multiset(b)
    ensures Merged(a, key) == Merged(b, key)
  {
    hide Merged, Merge;
    if a == [] {
      assert |multiset(b)| == |b|;
    } else {
      var i := FirstInShuffle(a, b);
      FactsOfShuffle(a[1..], b[..i] + b[i + 1..], key);
      ShuffleStep(a, b, i, key);
    }
  }

  lemma ShuffleStep(a: seq<Report>, b: seq<Report>, i: nat, key: Report -> bool)
    requires a != [] && i < |b| && b == b[..i] + [a[0]] + b[i + 1..]
    requires Merged(a[1..], key) == Merged(b[..i] + b[i + 1..], key)
    ensures Merged(a, key) == Merged(b, key)
  {
    hide Merged, Merge;
    assert a == [a[0]] + a[1..];
    MergedMoved(b[..i], a[0], b[i + 1..], key);
    MergedConcat([a[0]], a[1..], key);
    MergedConcat([a[0]], b[..i] + b[i + 1..], key);
  }

  // Reports read twice change nothing.
  lemma FactsOfRepeat(a: seq<Report>, key: Report -> bool)
    ensures Merged(a + a, key) == Merged(a, key)
  {
    MergedConcat(a, a, key);
    if Merged(a, key).Some? { MergeIdempotent(Merged(a, key).value); }
  }

  // mergeInto
  method MergeInto(m: map<string, Facts>, key: string, f: Facts) returns (r: map<string, Facts>)
    ensures r == m[key := if key in m then Merge(m[key], f) else f]
  {
    if key !in m { return m[key := f]; }
    var cur := m[key];
    if f.declared && !cur.declared {
      cur := cur.(signal := f.signal, declared := true);
    } else if f.declared == cur.declared && Precedence(f.signal) > Precedence(cur.signal) {
      cur := cur.(signal := f.signal);
    }
    cur := cur.(nativeSession := Least(cur.nativeSession, f.nativeSession),
                errorType := Least(cur.errorType, f.errorType),
                exceptionMessage := Least(cur.exceptionMessage, f.exceptionMessage),
                statusMessage := Least(cur.statusMessage, f.statusMessage),
                topFrame := Least(cur.topFrame, f.topFrame),
                hasUsage := cur.hasUsage || f.hasUsage);
    return m[key := cur];
  }

  function OfSpan(span: string): Report -> bool {
    (r: Report) => r.span == span
  }

  function OfSession(session: string): Report -> bool {
    (r: Report) => r.session == session
  }

  // An index of facts holds, for every key, the merged facts of its reports.
  ghost predicate Indexes(m: map<string, Facts>, reports: seq<Report>, key: string -> (Report -> bool)) {
    forall k :: Merged(reports, key(k)) == if k in m then Some(m[k]) else None
  }

  // collectFacts: one pass over the log. Reports without a session go to the
  // span index only.
  method CollectFacts(reports: seq<Report>) returns (bySpan: map<string, Facts>, bySession: map<string, Facts>)
    ensures Indexes(bySpan, reports, OfSpan)
    ensures forall k :: k != "" ==> Merged(reports, OfSession(k)) == if k in bySession then Some(bySession[k]) else None
    ensures "" !in bySession
  {
    hide Merge;
    bySpan, bySession := map[], map[];
    for i := 0 to |reports|
      invariant Indexes(bySpan, reports[..i], OfSpan)
      invariant forall k :: k != "" ==>
                  Merged(reports[..i], OfSession(k)) == if k in bySession then Some(bySession[k]) else None
      invariant "" !in bySession
    {
      var r := reports[i];
      assert reports[..i + 1][..i] == reports[..i];
      bySpan := MergeInto(bySpan, r.span, r.facts);
      if r.session != "" {
        bySession := MergeInto(bySession, r.session, r.facts);
      }
    }
    assert reports[..|reports|] == reports;
  }

  // ----- What merged facts say -----------------------------------------------

  // The sources in order: imported, from an SDK, from a hook, native.
  predicate Stronger(a: Signal, b: Signal) {
    match b
    case Import => !a.Import?
    case Sdk => a.Hook? || a.Native?
    case Hook => a.Native?
    case Native => false
  }

  lemma StrongerMeans(a: Signal, b: Signal)
    ensures Precedence(a) > Precedence(b) <==> Stronger(a, b)
    ensures a == b <==> !Stronger(a, b) && !Stronger(b, a)
  {
  }

  // A text that some of the reports give: the first of those set, blank when none is.
  ghost predicate FirstOf(reports: seq<Report>, key: Report -> bool, field: Facts -> string, s: string) {
    && (forall i :: 0 <= i < |reports| && key(reports[i]) && field(reports[i].facts) != "" ==>
          s != "" && !Before(field(reports[i].facts), s))
    && (s != "" ==> exists i :: 0 <= i < |reports| && key(reports[i]) && field(reports[i].facts) == s)
  }

  // A source is declared when some report declares one, and then it is the strongest
  // declared one; otherwise it is the strongest of all.
  ghost predicate SourceOf(reports: seq<Report>, key: Report -> bool, f: Facts) {
    && (forall i :: 0 <= i < |reports| && key(reports[i]) && reports[i].facts.declared ==> f.declared)
    && (exists i :: 0 <= i < |reports| && key(reports[i]) && reports[i].facts.signal == f.signal
                    && reports[i].facts.declared == f.declared)
    && (forall i :: 0 <= i < |reports| && key(reports[i]) && reports[i].facts.declared == f.declared ==>
          !Stronger(reports[i].facts.signal, f.signal))
  }

  lemma {:induction false} MergedSource(reports: seq<Report>, key: Report -> bool)
    ensures Merged(reports, key).Some? <==> exists i :: 0 <= i < |reports| && key(reports[i])
    ensures Merged(reports, key).Some? ==> SourceOf(reports, key, Merged(reports, key).value)
    ensures Merged(reports, key).Some? ==>
              (Merged(reports, key).value.hasUsage <==>
               exists i :: 0 <= i < |reports| && key(reports[i]) && reports[i].facts.hasUsage)
  {
    hide Least;
    if reports != [] {
      var init, last := reports[..|reports| - 1], reports[|reports| - 1];
      MergedSource(init, key);
      assert forall i :: 0 <= i < |init| ==> reports[i] == init[i];
    }
  }

  lemma {:induction false} MergedText(reports: seq<Report>, key: Report -> bool, field: Facts -> string)
    requires forall f, o :: field(Merge(f, o)) == Least(field(f), field(o))
    ensures Merged(reports, key).Some? ==> FirstOf(reports, key, field, field(Merged(reports, key).value))
  {
    hide Least, Before, Merge, FirstOf;
    if reports != [] {
      var init, last := reports[..|reports| - 1], reports[|reports| - 1];
      MergedText(init, key, field);
      MergedSource(init, key);
      if Merged(init, key).Some? {
        FirstOfMore(reports, key, field, field(Merged(init, key).value));
      } else if key(last) {
        FirstOfOne(reports, key, field);
      }
    }
  }

  lemma FirstOfMore(reports: seq<Report>, key: Report -> bool, field: Facts -> string, a: string)
    requires reports != [] && FirstOf(reports[..|reports| - 1], key, field, a)
    ensures var last := reports[|reports| - 1];
            FirstOf(reports, key, field, if key(last) then Least(a, field(last.facts)) else a)
  {
    hide Least, Before;
    var init, last := reports[..|reports| - 1], reports[|reports| - 1];
    assert forall i :: 0 <= i < |init| ==> reports[i] == init[i];
    if key(last) {
      LeastMeans(a, field(last.facts));
      LeastKeeps(init, key, field, a, field(last.facts));
    }
  }

  lemma FirstOfOne(reports: seq<Report>, key: Report -> bool, field: Facts -> string)
    requires reports != [] && key(reports[|reports| - 1])
    requires forall r :: r in reports[..|reports| - 1] ==> !key(r)
    ensures FirstOf(reports, key, field, field(reports[|reports| - 1].facts))
  {
    var init := reports[..|reports| - 1];
    assert forall i :: 0 <= i < |init| ==> reports[i] == init[i] && init[i] in init;
    NotBeforeSelf(field(reports[|reports| - 1].facts));
  }

  lemma LeastKeeps(reports: seq<Report>, key: Report -> bool, field: Facts -> string, a: string, b: string)
    requires FirstOf(reports, key, field, a)
    ensures forall i :: 0 <= i < |reports| && key(reports[i]) && field(reports[i].facts) != "" ==>
              !Before(field(reports[i].facts), Least(a, b))
  {
    forall i | 0 <= i < |reports| && key(reports[i]) && field(reports[i].facts) != ""
      ensures !Before(field(reports[i].facts), Least(a, b))
    {
      var x := field(reports[i].facts);
      if Before(x, b) && Before(b, a) { Transitive(x, b, a); }
    }
  }

  // What the reports of a span or a session add up to: the first of the texts that any
  // of them gives, and the strongest source, declared ones before others.
  lemma MergedMeans(reports: seq<Report>, key: Report -> bool)
    requires exists i :: 0 <= i < |reports| && key(reports[i])
    ensures Merged(reports, key).Some?
    ensures var f := Merged(reports, key).value;
            && SourceOf(reports, key, f)
            && (f.hasUsage <==> exists i :: 0 <= i < |reports| && key(reports[i]) && reports[i].facts.hasUsage)
            && FirstOf(reports, key, (x: Facts) => x.nativeSession, f.nativeSession)
            && FirstOf(reports, key, (x: Facts) => x.errorType, f.errorType)
            && FirstOf(reports, key, (x: Facts) => x.exceptionMessage, f.exceptionMessage)
            && FirstOf(reports, key, (x: Facts) => x.statusMessage, f.statusMessage)
            && FirstOf(reports, key, (x: Facts) => x.topFrame, f.topFrame)
  {
    hide FirstOf, SourceOf, Least;
    MergedSource(reports, key);
    MergedText(reports, key, (x: Facts) => x.nativeSession);
    MergedText(reports, key, (x: Facts) => x.errorType);
    MergedText(reports, key, (x: Facts) => x.exceptionMessage);
    MergedText(reports, key, (x: Facts) => x.statusMessage);
    MergedText(reports, key, (x: Facts) => x.topFrame);
  }
}
