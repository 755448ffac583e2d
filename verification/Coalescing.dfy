// Coalescing the observations several pipelines made of one session.
module Coalescing {
  import opened TextOrder
  import opened SpanFacts

  // An observation row; canonical and shadowed are the verdicts.
  datatype Row = Row(
    span: string, session: string, workstream: string, kind: string, name: string, tool: string,
    started: int, failed: bool, errorType: string, signal: Signal, coalesceKey: string,
    canonical: string, shadowed: bool)

  // ----- Keys ----------------------------------------------------------------

  function DigitChar(d: nat): char
    requires d < 10
  {
    ('0' as int + d) as char
  }

  function Digits(n: nat): (s: string)
    ensures s != "" && forall i :: 0 <= i < |s| ==> '0' <= s[i] <= '9'
    ensures |s| == 1 <==> n < 10
  {
    if n < 10 then [DigitChar(n)] else Digits(n / 10) + [DigitChar(n % 10)]
  }

  // strconv.FormatInt in base 10.
  function FormatInt(n: int): string {
    if n < 0 then "-" + Digits(-n) else Digits(n)
  }

  // The key of a session across pipelines; none without a native session id.
  function CoalesceKey(provider: string, session: string): string {
    if session == "" then "" else Digits(|provider|) + (":" + (provider + (":" + session)))
  }

  const GRANULARITY := 1_000_000

  // Go's integer division, towards zero.
  function Quotient(a: int, b: int): int
    requires b > 0
  {
    if a >= 0 then a / b else -((-a) / b)
  }

  const SEP := "\0"

  // logicalSpanKey; `lower` is strings.ToLower.
  function LogicalKey(lower: string -> string, r: Row): string {
    r.coalesceKey + (SEP + (lower(r.kind) + (SEP + (lower(r.name) + (SEP + (lower(r.tool) + (SEP +
    FormatInt(Quotient(r.started, GRANULARITY)))))))))
  }

  // ----- The verdicts --------------------------------------------------------

  predicate Has(r: Row, key: string) {
    r.coalesceKey == key
  }

  // The strongest source among the rows of a key.
  predicate Strongest(rows: seq<Row>, key: string, p: nat) {
    && (exists r :: r in rows && Has(r, key) && Precedence(r.signal) == p)
    && (forall r :: r in rows && Has(r, key) ==> Precedence(r.signal) <= p)
  }

  predicate Leader(r: Row, key: string, p: nat) {
    Has(r, key) && Precedence(r.signal) == p
  }

  // The least session id that the strongest rows of a key carry, blank only
  // when they carry none.
  predicate Canonical(rows: seq<Row>, key: string, p: nat, s: string) {
    if s == "" then forall r :: r in rows && Leader(r, key, p) ==> r.session == ""
    else
      && (exists r :: r in rows && Leader(r, key, p) && r.session == s)
      && (forall r :: r in rows && Leader(r, key, p) && r.session != "" ==> !Before(r.session, s))
  }

  // A stronger source saw the same logical span.
  predicate Outseen(lower: string -> string, rows: seq<Row>, row: Row) {
    exists r :: r in rows && r.coalesceKey != "" && LogicalKey(lower, r) == LogicalKey(lower, row) &&
                Precedence(r.signal) > Precedence(row.signal)
  }

  // What coalescing makes of one of the rows.
  ghost predicate Verdict(lower: string -> string, rows: seq<Row>, row: Row, after: Row) {
    if row.coalesceKey == "" then after == row
    else
      && after == row.(canonical := after.canonical, shadowed := after.shadowed)
      && (exists p: nat :: Strongest(rows, row.coalesceKey, p) && Canonical(rows, row.coalesceKey, p, after.canonical))
      && (after.shadowed <==> Outseen(lower, rows, row))
  }

  // ----- What the verdicts mean ----------------------------------------------

  lemma CanonicalUnique(a: seq<Row>, b: seq<Row>, key: string, p: nat, q: nat, s: string, t: string)
    requires forall r :: r in a <==> r in b
    requires Strongest(a, key, p) && Canonical(a, key, p, s) && Strongest(b, key, q) && Canonical(b, key, q, t)
    ensures p == q && s == t
  {
    var r :| r in a && Has(r, key) && Precedence(r.signal) == p;
    var r' :| r' in b && Has(r', key) && Precedence(r'.signal) == q;
    assert r in b && r' in a;
    assert Leader(r, key, p) && Leader(r', key, q);
    Total(s, t);
    if s != "" {
      var x :| x in a && Leader(x, key, p) && x.session == s;
      assert x in b;
    }
    if t != "" {
      var y :| y in b && Leader(y, key, q) && y.session == t;
      assert y in a;
    }
  }

  // The verdict on a row does not depend on the order of the rows.
  lemma VerdictsIgnoreOrder(lower: string -> string, a: seq<Row>, b: seq<Row>, row: Row, x: Row, y: Row)
    requires multiset(a) == multiset(b)
    requires Verdict(lower, a, row, x) && Verdict(lower, b, row, y)
    ensures x == y
  {
    forall r
      ensures r in a <==> r in b
    {
      assert r in multiset(a) <==> r in multiset(b);
    }
    hide LogicalKey, Strongest, Canonical, Precedence;
    if row.coalesceKey != "" {
      var p: nat :| Strongest(a, row.coalesceKey, p) && Canonical(a, row.coalesceKey, p, x.canonical);
      var q: nat :| Strongest(b, row.coalesceKey, q) && Canonical(b, row.coalesceKey, q, y.canonical);
      CanonicalUnique(a, b, row.coalesceKey, p, q, x.canonical, y.canonical);
      assert Outseen(lower, a, row) <==> Outseen(lower, b, row);
    }
  }

  // All rows of a key record the same canonical session.
  lemma SharedSession(lower: string -> string, rows: seq<Row>, r: Row, s: Row, x: Row, y: Row)
    requires r.coalesceKey == s.coalesceKey != ""
    requires Verdict(lower, rows, r, x) && Verdict(lower, rows, s, y)
    ensures x.canonical == y.canonical
  {
    hide LogicalKey, Strongest, Canonical, Outseen;
    var p: nat :| Strongest(rows, r.coalesceKey, p) && Canonical(rows, r.coalesceKey, p, x.canonical);
    var q: nat :| Strongest(rows, r.coalesceKey, q) && Canonical(rows, r.coalesceKey, q, y.canonical);
    CanonicalUnique(rows, rows, r.coalesceKey, p, q, x.canonical, y.canonical);
  }

  // Of the rows of a logical span, one of the strongest.
  lemma {:induction false} StrongestSeen(lower: string -> string, rows: seq<Row>, key: string) returns (i: nat)
    requires exists r :: r in rows && r.coalesceKey != "" && LogicalKey(lower, r) == key
    ensures i < |rows| && rows[i].coalesceKey != "" && LogicalKey(lower, rows[i]) == key
    ensures forall r :: r in rows && r.coalesceKey != "" && LogicalKey(lower, r) == key ==>
              Precedence(r.signal) <= Precedence(rows[i].signal)
  {
    hide LogicalKey;
    var init, last := rows[..|rows| - 1], rows[|rows| - 1];
    assert forall r :: r in rows <==> r in init || r == last by {
      assert rows == init + [last];
    }
    if exists r :: r in init && r.coalesceKey != "" && LogicalKey(lower, r) == key {
      i := StrongestSeen(lower, init, key);
      if last.coalesceKey != "" && LogicalKey(lower, last) == key && Precedence(last.signal) > Precedence(init[i].signal) {
        i := |rows| - 1;
      }
    } else {
      i := |rows| - 1;
    }
  }

  // Shadowing never hides every row of a logical span.
  lemma SpanStaysVisible(lower: string -> string, rows: seq<Row>, after: seq<Row>, i: nat)
    requires i < |rows| == |after| && rows[i].coalesceKey != ""
    requires forall k :: 0 <= k < |rows| ==> Verdict(lower, rows, rows[k], after[k])
    ensures exists j :: 0 <= j < |rows| && LogicalKey(lower, rows[j]) == LogicalKey(lower, rows[i]) && !after[j].shadowed
  {
    hide LogicalKey, Strongest, Canonical;
    var j := StrongestSeen(lower, rows, LogicalKey(lower, rows[i]));
    assert Verdict(lower, rows, rows[j], after[j]);
    assert !Outseen(lower, rows, rows[j]);
  }

  // ----- Keys identify -------------------------------------------------------

  lemma {:induction false} SplitAt(a: string, b: string, c: string, d: string, sep: char)
    requires sep !in a && sep !in c && a + ([sep] + b) == c + ([sep] + d)
    ensures a == c && b == d
  {
    var s, t := a + ([sep] + b), c + ([sep] + d);
    var first, rest := s[0], s[1..];
    assert first == t[0] && rest == t[1..];
    if a != "" && c != "" {
      assert rest == a[1..] + ([sep] + b) == c[1..] + ([sep] + d);
      SplitAt(a[1..], b, c[1..], d, sep);
      assert a == [first] + a[1..] && c == [first] + c[1..];
    } else {
      assert first != sep || rest == b;
      assert first != sep || rest == d;
    }
  }

  lemma {:induction false} DigitsDiffer(m: nat, n: nat)
    requires Digits(m) == Digits(n)
    ensures m == n
    decreases m
  {
    var a, b := Digits(m), Digits(n);
    assert a[|a| - 1] == DigitChar(m % 10) && b[|b| - 1] == DigitChar(n % 10);
    if m >= 10 {
      assert a[..|a| - 1] == Digits(m / 10) && b[..|b| - 1] == Digits(n / 10);
      DigitsDiffer(m / 10, n / 10);
    }
  }

  // Two sessions have one key only when they have one provider and one native id.
  lemma KeysIdentify(provider: string, session: string, provider': string, session': string)
    requires session != "" && session' != "" && CoalesceKey(provider, session) == CoalesceKey(provider', session')
    ensures provider == provider' && session == session'
  {
    var a, b := Digits(|provider|), Digits(|provider'|);
    SplitAt(a, provider + (":" + session), b, provider' + (":" + session'), ':');
    DigitsDiffer(|provider|, |provider'|);
    var s, t := provider + (":" + session), provider' + (":" + session');
    assert provider == s[..|provider|] == t[..|provider|] == provider';
    assert session == s[|provider| + 1..] == t[|provider| + 1..] == session';
  }

  lemma IntegersDiffer(m: int, n: int)
    requires FormatInt(m) == FormatInt(n)
    ensures m == n
  {
    hide Digits;
    assert FormatInt(m)[0] == FormatInt(n)[0];
    if m < 0 && n < 0 {
      assert FormatInt(m)[1..] == Digits(-m) && FormatInt(n)[1..] == Digits(-n);
      DigitsDiffer(-m, -n);
    } else if m >= 0 && n >= 0 {
      DigitsDiffer(m, n);
    }
  }

  predicate NoNul(s: string) {
    '\0' !in s
  }

  predicate Plain(lower: string -> string, r: Row) {
    NoNul(r.coalesceKey) && NoNul(lower(r.kind)) && NoNul(lower(r.name)) && NoNul(lower(r.tool))
  }

  function Nuls(s: string): nat {
    if s == "" then 0 else (if s[0] == '\0' then 1 else 0) + Nuls(s[1..])
  }

  lemma {:induction false} NulsJoin(a: string, b: string)
    ensures Nuls(a + b) == Nuls(a) + Nuls(b)
  {
    if a == "" {
      assert a + b == b;
    } else {
      assert (a + b)[1..] == a[1..] + b;
      NulsJoin(a[1..], b);
    }
  }

  lemma {:induction false} NoNulIff(s: string)
    ensures NoNul(s) <==> Nuls(s) == 0
  {
    if s != "" {
      NoNulIff(s[1..]);
      assert s == [s[0]] + s[1..];
    }
  }

  lemma NumbersPlain(n: int)
    ensures NoNul(FormatInt(n))
  {
  }

  // The NULs of a key are its four separators and those of its texts.
  lemma KeyNuls(lower: string -> string, r: Row)
    ensures Nuls(LogicalKey(lower, r)) ==
            4 + Nuls(r.coalesceKey) + Nuls(lower(r.kind)) + Nuls(lower(r.name)) + Nuls(lower(r.tool))
    ensures Nuls(LogicalKey(lower, r)) == 4 <==> Plain(lower, r)
  {
    hide FormatInt, Quotient, Nuls;
    var n := FormatInt(Quotient(r.started, GRANULARITY));
    assert Nuls(SEP) == 1 by { OneNul(); }
    NumbersPlain(Quotient(r.started, GRANULARITY));
    NoNulIff(n);
    var c := lower(r.tool) + (SEP + n);
    var b := lower(r.name) + (SEP + c);
    var a := lower(r.kind) + (SEP + b);
    NulsJoin(SEP, n);
    NulsJoin(lower(r.tool), SEP + n);
    NulsJoin(SEP, c);
    NulsJoin(lower(r.name), SEP + c);
    NulsJoin(SEP, b);
    NulsJoin(lower(r.kind), SEP + b);
    NulsJoin(SEP, a);
    NulsJoin(r.coalesceKey, SEP + a);
    NoNulIff(r.coalesceKey);
    NoNulIff(lower(r.kind));
    NoNulIff(lower(r.name));
    NoNulIff(lower(r.tool));
  }

  lemma OneNul()
    ensures Nuls(SEP) == 1
  {
    assert SEP[1..] == "";
  }

  // A row whose texts hold no NUL has one logical span with another exactly when
  // they agree on the session, the kind, name and tool but for case, and the
  // millisecond they started in.
  lemma LogicalKeysIdentify(lower: string -> string, r: Row, s: Row)
    requires Plain(lower, r) || Plain(lower, s)
    ensures LogicalKey(lower, r) == LogicalKey(lower, s) <==>
            && r.coalesceKey == s.coalesceKey && lower(r.kind) == lower(s.kind)
            && lower(r.name) == lower(s.name) && lower(r.tool) == lower(s.tool)
            && Quotient(r.started, GRANULARITY) == Quotient(s.started, GRANULARITY)
  {
    if LogicalKey(lower, r) == LogicalKey(lower, s) {
      KeyNuls(lower, r);
      KeyNuls(lower, s);
      PlainKeysIdentify(lower, r, s);
    }
  }

  lemma PlainKeysIdentify(lower: string -> string, r: Row, s: Row)
    requires Plain(lower, r) && Plain(lower, s) && LogicalKey(lower, r) == LogicalKey(lower, s)
    ensures r.coalesceKey == s.coalesceKey && lower(r.kind) == lower(s.kind)
    ensures lower(r.name) == lower(s.name) && lower(r.tool) == lower(s.tool)
    ensures Quotient(r.started, GRANULARITY) == Quotient(s.started, GRANULARITY)
  {
    hide FormatInt, Quotient;
    var a4, b4 := FormatInt(Quotient(r.started, GRANULARITY)), FormatInt(Quotient(s.started, GRANULARITY));
    var a3, b3 := lower(r.tool) + (SEP + a4), lower(s.tool) + (SEP + b4);
    var a2, b2 := lower(r.name) + (SEP + a3), lower(s.name) + (SEP + b3);
    var a1, b1 := lower(r.kind) + (SEP + a2), lower(s.kind) + (SEP + b2);
    SplitAt(r.coalesceKey, a1, s.coalesceKey, b1, '\0');
    SplitAt(lower(r.kind), a2, lower(s.kind), b2, '\0');
    SplitAt(lower(r.name), a3, lower(s.name), b3, '\0');
    SplitAt(lower(r.tool), a4, lower(s.tool), b4, '\0');
    IntegersDiffer(Quotient(r.started, GRANULARITY), Quotient(s.started, GRANULARITY));
  }

  // With NULs in both rows the separators can be misread: a row is shadowed by a
  // stronger one of another session, and nothing of its own session outranks it.
  lemma NulsCollide(lower: string -> string, row: Row) returns (weak: Row, strong: Row)
    requires lower("k") == "k" && lower("n") == "n" && lower("m") == "m" && lower("t") == "t" && lower("m\0t") == "m\0t"
    ensures weak.coalesceKey == CoalesceKey("p", "x\0k") && strong.coalesceKey == CoalesceKey("p", "x")
    ensures weak.coalesceKey != strong.coalesceKey && weak.name != strong.name
    ensures LogicalKey(lower, weak) == LogicalKey(lower, strong) && Outseen(lower, [weak, strong], weak)
  {
    weak := row.(coalesceKey := CoalesceKey("p", "x\0k"), kind := "n", name := "m", tool := "t", signal := Import);
    strong := row.(coalesceKey := CoalesceKey("p", "x"), kind := "k", name := "n", tool := "m\0t", signal := Native);
    assert Digits(1) == "1";
    assert weak.coalesceKey == "1:p:x\0k" && strong.coalesceKey == "1:p:x";
    var n := FormatInt(Quotient(row.started, GRANULARITY));
    assert LogicalKey(lower, weak) == "1:p:x\0k\0n\0m\0t\0" + n;
    assert LogicalKey(lower, strong) == "1:p:x\0k\0n\0m\0t\0" + n;
    assert strong in [weak, strong];
  }

  // ----- The passes ----------------------------------------------------------

  datatype Group = Group(best: nat, session: string)

  // The groups of the rows read so far.
  ghost predicate Grouped(groups: map<string, Group>, rows: seq<Row>) {
    && (forall k :: k in groups ==>
          k != "" && Strongest(rows, k, groups[k].best) && Canonical(rows, k, groups[k].best, groups[k].session))
    && (forall r :: r in rows && r.coalesceKey != "" ==> r.coalesceKey in groups)
  }

  // A group with one more row of its key.
  method JoinGroup(g: Group, ghost rows: seq<Row>, r: Row) returns (h: Group)
    requires Strongest(rows, r.coalesceKey, g.best) && Canonical(rows, r.coalesceKey, g.best, g.session)
    ensures Strongest(rows + [r], r.coalesceKey, h.best) && Canonical(rows + [r], r.coalesceKey, h.best, h.session)
  {
    h := g;
    ghost var key := r.coalesceKey;
    var p := Precedence(r.signal);
    assert r in rows + [r];
    assert forall x :: x in rows ==> x in rows + [r];
    if p > g.best {
      h := Group(p, r.session);
      NotBeforeSelf(r.session);
    } else if p == g.best && r.session != "" && (g.session == "" || Before(r.session, g.session)) {
      h := Group(g.best, r.session);
      NotBeforeSelf(r.session);
      if g.session != "" {
        forall x | x in rows && Leader(x, key, p) && x.session != ""
          ensures !Before(x.session, r.session)
        {
          if Before(x.session, r.session) { Transitive(x.session, r.session, g.session); }
        }
      }
    } else {
      KeepsGroup(g, rows, r);
    }
  }

  lemma KeepsGroup(g: Group, rows: seq<Row>, r: Row)
    requires Strongest(rows, r.coalesceKey, g.best) && Canonical(rows, r.coalesceKey, g.best, g.session)
    requires Precedence(r.signal) <= g.best
    requires Precedence(r.signal) == g.best && r.session != "" ==> g.session != "" && !Before(r.session, g.session)
    ensures Strongest(rows + [r], r.coalesceKey, g.best) && Canonical(rows + [r], r.coalesceKey, g.best, g.session)
  {
    assert forall x :: x in rows ==> x in rows + [r];
  }

  // A row of another key changes nothing for a key.
  lemma OtherKey(rows: seq<Row>, r: Row, key: string, p: nat, s: string)
    requires r.coalesceKey != key && Strongest(rows, key, p) && Canonical(rows, key, p, s)
    ensures Strongest(rows + [r], key, p) && Canonical(rows + [r], key, p, s)
  {
    assert forall x :: x in rows ==> x in rows + [r];
  }

  // The first pass: the canonical source and session of every key.
  method FindGroups(rows: seq<Row>) returns (groups: map<string, Group>)
    ensures Grouped(groups, rows)
  {
    hide Strongest, Canonical, Precedence;
    groups := map[];
    for i := 0 to |rows|
      invariant Grouped(groups, rows[..i])
    {
      var r := rows[i];
      var key := r.coalesceKey;
      assert rows[..i + 1] == rows[..i] + [r];
      forall k | k in groups && k != key
        ensures Strongest(rows[..i + 1], k, groups[k].best) && Canonical(rows[..i + 1], k, groups[k].best, groups[k].session)
      {
        OtherKey(rows[..i], r, k, groups[k].best, groups[k].session);
      }
      if key != "" {
        if key in groups {
          var g := JoinGroup(groups[key], rows[..i], r);
          groups := groups[key := g];
        } else {
          groups := groups[key := Group(Precedence(r.signal), r.session)];
          FirstOfKey(rows[..i], r);
        }
      }
    }
    assert rows[..|rows|] == rows;
  }

  lemma FirstOfKey(rows: seq<Row>, r: Row)
    requires forall x :: x in rows ==> x.coalesceKey != r.coalesceKey
    ensures Strongest(rows + [r], r.coalesceKey, Precedence(r.signal))
    ensures Canonical(rows + [r], r.coalesceKey, Precedence(r.signal), r.session)
  {
    assert r in rows + [r];
    NotBeforeSelf(r.session);
  }

  // The best source of every logical span; none counts as the weakest.
  ghost predicate Best(best: map<string, nat>, lower: string -> string, rows: seq<Row>) {
    forall key :: (var b := if key in best then best[key] else 0;
                   && (forall r :: r in rows && r.coalesceKey != "" && LogicalKey(lower, r) == key ==> Precedence(r.signal) <= b)
                   && (b > 0 ==> exists r :: r in rows && r.coalesceKey != "" && LogicalKey(lower, r) == key && Precedence(r.signal) == b))
  }

  // The second pass: the best source of every logical span.
  method FindBest(lower: string -> string, rows: seq<Row>) returns (best: map<string, nat>)
    ensures Best(best, lower, rows)
  {
    hide LogicalKey;
    best := map[];
    for i := 0 to |rows|
      invariant Best(best, lower, rows[..i])
    {
      var r := rows[i];
      assert rows[..i + 1] == rows[..i] + [r];
      assert r in rows[..i + 1] && forall x :: x in rows[..i] ==> x in rows[..i + 1];
      if r.coalesceKey != "" {
        var key, p := LogicalKey(lower, r), Precedence(r.signal);
        if p > (if key in best then best[key] else 0) { best := best[key := p]; }
      }
    }
    assert rows[..|rows|] == rows;
  }

  // The verdict on one row.
  method Judge(lower: string -> string, ghost all: seq<Row>, r: Row, groups: map<string, Group>, best: map<string, nat>)
    returns (x: Row)
    requires Grouped(groups, all) && Best(best, lower, all) && r in all
    ensures Verdict(lower, all, r, x)
  {
    x := r;
    hide LogicalKey, Strongest, Canonical;
    if r.coalesceKey != "" {
      var key, p := LogicalKey(lower, r), Precedence(r.signal);
      var b := if key in best then best[key] else 0;
      assert p < b <==> Outseen(lower, all, r);
      x := r.(canonical := groups[r.coalesceKey].session, shadowed := p < b);
    }
  }

  // coalesce: the verdicts on all rows, in place.
  method Coalesce(lower: string -> string, rows: array<Row>)
    modifies rows
    ensures forall i :: 0 <= i < rows.Length ==> Verdict(lower, old(rows[..]), old(rows[i]), rows[i])
  {
    hide Verdict, Grouped, Best;
    ghost var all := rows[..];
    var groups := FindGroups(rows[..]);
    var best := FindBest(lower, rows[..]);
    for i := 0 to rows.Length
      invariant forall k :: i <= k < rows.Length ==> rows[k] == all[k]
      invariant forall k :: 0 <= k < i ==> Verdict(lower, all, all[k], rows[k])
    {
      assert rows[i] == all[i] && all[i] in all;
      rows[i] := Judge(lower, all, rows[i], groups, best);
    }
  }

  // ----- What shadows a row --------------------------------------------------

  // The millisecond of a time: whole milliseconds from zero towards it.
  lemma QuotientMeans(t: int)
    ensures var ms := Quotient(t, GRANULARITY);
            && (t >= 0 ==> ms * 1_000_000 <= t < (ms + 1) * 1_000_000)
            && (t <= 0 ==> (ms - 1) * 1_000_000 < t <= ms * 1_000_000)
  {
  }

  // A row is outseen by a row of a stronger source in its session, of its kind, name
  // and tool, that started in its millisecond; provided its own texts hold no NUL.
  lemma OutseenMeans(lower: string -> string, rows: seq<Row>, row: Row)
    requires Plain(lower, row) && row.coalesceKey != ""
    ensures Outseen(lower, rows, row) <==> exists r ::
              && r in rows && Stronger(r.signal, row.signal) && r.coalesceKey == row.coalesceKey
              && lower(r.kind) == lower(row.kind) && lower(r.name) == lower(row.name)
              && lower(r.tool) == lower(row.tool)
              && Quotient(r.started, GRANULARITY) == Quotient(row.started, GRANULARITY)
  {
    hide LogicalKey, Plain, Quotient, Precedence, Stronger;
    forall r | r in rows
      ensures Precedence(r.signal) > Precedence(row.signal) <==> Stronger(r.signal, row.signal)
      ensures LogicalKey(lower, r) == LogicalKey(lower, row) <==>
                && r.coalesceKey == row.coalesceKey && lower(r.kind) == lower(row.kind)
                && lower(r.name) == lower(row.name) && lower(r.tool) == lower(row.tool)
                && Quotient(r.started, GRANULARITY) == Quotient(row.started, GRANULARITY)
    {
      LogicalKeysIdentify(lower, r, row);
      StrongerMeans(r.signal, row.signal);
    }
  }
}
