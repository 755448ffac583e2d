// The text-edit engine of the Codex hook installer: a set of replacements made
// on one text, rightmost first.
module TextEdits {
  import opened Common

  datatype Edit = Edit(start: int, end: int, replacement: string)

  predicate InBounds(text: string, edits: seq<Edit>) {
    forall i :: 0 <= i < |edits| ==> 0 <= edits[i].start <= edits[i].end <= |text|
  }

  predicate Apart(a: Edit, b: Edit) {
    a.end <= b.start || b.end <= a.start
  }

  // No two edits share a byte of the text.
  predicate AllApart(edits: seq<Edit>) {
    forall i, j :: 0 <= i < j < |edits| ==> Apart(edits[i], edits[j])
  }

  // The order edits are applied in.
  predicate After(a: Edit, b: Edit) {
    a.start > b.start || (a.start == b.start && a.end >= b.end)
  }

  predicate Descending(edits: seq<Edit>) {
    forall i, j :: 0 <= i < j < |edits| ==> After(edits[i], edits[j])
  }

  // Each edit ends where the one before it in the list starts, or earlier.
  predicate Chain(edits: seq<Edit>) {
    forall i, j :: 0 <= i < j < |edits| ==> edits[j].end <= edits[i].start
  }

  predicate EndsBy(edits: seq<Edit>, upto: int) {
    forall i :: 0 <= i < |edits| ==> 0 <= edits[i].start <= edits[i].end <= upto
  }

  // All edits at once: the untouched gaps and the replacements, in text order.
  // `edits` lists them from the last to the first.
  function Splice(text: string, upto: nat, edits: seq<Edit>): string
    requires upto <= |text| && EndsBy(edits, upto) && Chain(edits)
  {
    if edits == [] then text[..upto]
    else Splice(text, edits[0].start, edits[1..]) + edits[0].replacement + text[edits[0].end..upto]
  }

  // Nothing before the first edit in the text moves.
  lemma {:induction false} SplicePrefix(text: string, upto: nat, edits: seq<Edit>, b: nat)
    requires upto <= |text| && EndsBy(edits, upto) && Chain(edits)
    requires b <= upto && forall i :: 0 <= i < |edits| ==> b <= edits[i].start
    ensures |Splice(text, upto, edits)| >= b && Splice(text, upto, edits)[..b] == text[..b]
  {
    if edits != [] {
      SplicePrefix(text, edits[0].start, edits[1..], b);
    }
  }

  lemma Extended(edits: seq<Edit>, upto: int, e: Edit)
    requires EndsBy(edits, upto) && Chain(edits) && 0 <= e.start <= e.end <= upto
    requires forall i :: 0 <= i < |edits| ==> e.end <= edits[i].start
    ensures EndsBy(edits + [e], upto) && Chain(edits + [e])
  {
  }

  // One more edit, made on the text the later ones gave.
  lemma {:induction false} SpliceOneMore(text: string, upto: nat, edits: seq<Edit>, e: Edit)
    requires upto <= |text| && EndsBy(edits, upto) && Chain(edits) && 0 <= e.start <= e.end <= upto
    requires forall i :: 0 <= i < |edits| ==> e.end <= edits[i].start
    ensures EndsBy(edits + [e], upto) && Chain(edits + [e])
    ensures var before := Splice(text, upto, edits);
            && e.end <= |before|
            && Splice(text, upto, edits + [e]) == before[..e.start] + e.replacement + before[e.end..]
  {
    Extended(edits, upto, e);
    SplicePrefix(text, upto, edits, e.end);
    if edits == [] {
      assert edits + [e] == [e] && [e][1..] == [];
      assert text[..upto][..e.start] == text[..e.start] && text[..upto][e.end..] == text[e.end..upto];
    } else {
      var d, rest := edits[0], edits[1..];
      assert (edits + [e])[1..] == rest + [e] && (edits + [e])[0] == d;
      SpliceOneMore(text, d.start, rest, e);
      var x, y := Splice(text, d.start, rest), Splice(text, d.start, rest + [e]);
      assert Splice(text, upto, edits) == x + d.replacement + text[d.end..upto];
      assert Splice(text, upto, edits + [e]) == y + d.replacement + text[d.end..upto];
      SpliceInside(x, d.replacement, text[d.end..upto], e);
    }
  }

  // An edit inside the first part of a text leaves the other parts alone.
  lemma SpliceInside(x: string, r: string, t: string, e: Edit)
    requires 0 <= e.start <= e.end <= |x|
    ensures (x + r + t)[..e.start] + e.replacement + (x + r + t)[e.end..] ==
            x[..e.start] + e.replacement + x[e.end..] + r + t
  {
    var all := x + r + t;
    assert all[e.end..] == x[e.end..] + r + t;
    assert all[..e.start] == x[..e.start];
  }

  lemma DescendingChains(text: string, edits: seq<Edit>)
    requires Descending(edits) && InBounds(text, edits)
    ensures AllApart(edits) <==> Chain(edits)
  {
  }

  // A permutation of some edits, as far as the engine is concerned.
  ghost predicate Rearranged(text: string, a: seq<Edit>, b: seq<Edit>) {
    && multiset(a) == multiset(b)
    && (InBounds(text, a) <==> InBounds(text, b))
    && (AllApart(a) <==> AllApart(b))
    && (forall e :: e in a <==> e in b)
  }

  function Inserted(s: seq<Edit>, i: nat, e: Edit): (t: seq<Edit>)
    requires i <= |s|
    ensures |t| == |s| + 1
    ensures forall k :: 0 <= k < |t| ==> t[k] == if k < i then s[k] else if k == i then e else s[k - 1]
  {
    s[..i] + [e] + s[i..]
  }

  lemma InsertMembers(s: seq<Edit>, i: nat, e: Edit)
    requires i <= |s|
    ensures multiset(Inserted(s, i, e)) == multiset(s) + multiset{e}
    ensures forall x :: x in Inserted(s, i, e) <==> x in s || x == e
  {
    assert s == s[..i] + s[i..];
  }

  lemma InsertBounds(text: string, s: seq<Edit>, i: nat, e: Edit)
    requires i <= |s|
    ensures InBounds(text, Inserted(s, i, e)) <==> InBounds(text, s) && 0 <= e.start <= e.end <= |text|
  {
    var t := Inserted(s, i, e);
    assert t[i] == e;
    if InBounds(text, t) {
      forall k | 0 <= k < |s|
        ensures 0 <= s[k].start <= s[k].end <= |text|
      {
        assert s[k] == t[if k < i then k else k + 1];
      }
    }
  }

  lemma InsertApart(s: seq<Edit>, i: nat, e: Edit)
    requires i <= |s|
    ensures AllApart(Inserted(s, i, e)) <==> AllApart(s) && forall x :: x in s ==> Apart(x, e)
  {
    var t := Inserted(s, i, e);
    if AllApart(t) {
      forall k, m | 0 <= k < m < |s|
        ensures Apart(s[k], s[m])
      {
        assert Apart(t[if k < i then k else k + 1], t[if m < i then m else m + 1]);
      }
      forall x | x in s
        ensures Apart(x, e)
      {
        var k :| 0 <= k < |s| && s[k] == x;
        if k < i {
          assert Apart(t[k], t[i]);
        } else {
          assert Apart(t[i], t[k + 1]);
        }
      }
    }
    if AllApart(s) && forall x :: x in s ==> Apart(x, e) {
      forall k, m | 0 <= k < m < |t|
        ensures Apart(t[k], t[m])
      {
        if k == i {
          assert t[m] in s;
        } else if m == i {
          assert t[k] in s;
        } else {
          assert Apart(s[if k < i then k else k - 1], s[if m < i then m else m - 1]);
        }
      }
    }
  }

  lemma RearrangedInsert(text: string, a: seq<Edit>, b: seq<Edit>, i: nat, e: Edit)
    requires Rearranged(text, a, b) && i <= |b|
    ensures Rearranged(text, a + [e], Inserted(b, i, e))
  {
    assert Inserted(a, |a|, e) == a + [e];
    InsertMembers(a, |a|, e);
    InsertMembers(b, i, e);
    InsertBounds(text, a, |a|, e);
    InsertBounds(text, b, i, e);
    InsertApart(a, |a|, e);
    InsertApart(b, i, e);
  }

  // The place of an edit among sorted ones.
  method PlaceFor(sorted: seq<Edit>, e: Edit) returns (i: nat)
    requires Descending(sorted)
    ensures i <= |sorted| && Descending(Inserted(sorted, i, e))
  {
    i := 0;
    while i < |sorted| && After(sorted[i], e)
      invariant i <= |sorted|
      invariant forall k :: 0 <= k < i ==> After(sorted[k], e)
    {
      i := i + 1;
    }
    assert forall k :: i <= k < |sorted| ==> After(sorted[i], sorted[k]) || k == i;
    assert forall k :: i <= k < |sorted| ==> After(e, sorted[k]);
  }

  lemma NothingToSort(text: string, edits: seq<Edit>)
    ensures Descending([]) && Rearranged(text, edits[..0], [])
  {
  }

  // The library sort, last edit first.
  method Sorted(ghost text: string, edits: seq<Edit>) returns (sorted: seq<Edit>)
    ensures Rearranged(text, edits, sorted) && Descending(sorted)
  {
    hide Descending, Inserted;
    sorted := [];
    assert Descending(sorted) && Rearranged(text, edits[..0], sorted) by { NothingToSort(text, edits); }
    for n := 0 to |edits|
      invariant Rearranged(text, edits[..n], sorted) && Descending(sorted)
    {
      hide Rearranged;
      assert edits[..n + 1] == edits[..n] + [edits[n]];
      var i := PlaceFor(sorted, edits[n]);
      RearrangedInsert(text, edits[..n], sorted, i, edits[n]);
      sorted := Inserted(sorted, i, edits[n]);
    }
    assert edits[..|edits|] == edits;
  }

  // Applies the edits, or refuses when one is out of bounds or two overlap.
  method ApplyTextEdits(text: string, edits: seq<Edit>) returns (r: Option<string>, ghost order: seq<Edit>)
    ensures r.Some? <==> InBounds(text, edits) && AllApart(edits)
    ensures multiset(order) == multiset(edits) && Descending(order)
    ensures r.Some? ==>
              EndsBy(order, |text|) && Chain(order) && r.value == Splice(text, |text|, order)
  {
    var sorted := Sorted(text, edits);
    order := sorted;
    r := ApplyDescending(text, sorted);
    if InBounds(text, sorted) { DescendingChains(text, sorted); }
  }

  method ApplyDescending(text: string, sorted: seq<Edit>) returns (r: Option<string>)
    requires Descending(sorted)
    ensures r.Some? <==> EndsBy(sorted, |text|) && Chain(sorted)
    ensures r.Some? ==> r.value == Splice(text, |text|, sorted)
  {
    var out, boundary := text, |text|;
    for i := 0 to |sorted|
      invariant EndsBy(sorted[..i], |text|) && Chain(sorted[..i])
      invariant forall k :: 0 <= k < i ==> boundary <= sorted[k].start
      invariant boundary == if i == 0 then |text| else sorted[i - 1].start
      invariant boundary <= |out| && out == Splice(text, |text|, sorted[..i])
    {
      var e := sorted[i];
      var done := sorted[..i];
      assert sorted[..i + 1] == done + [e];
      if e.start < 0 || e.end < e.start || e.end > |out| || e.end > boundary {
        assert !(EndsBy(sorted, |text|) && Chain(sorted)) by {
          if i > 0 { assert sorted[i - 1].start == boundary; }
        }
        return None;
      }
      assert forall k :: 0 <= k < i ==> done[k] == sorted[k];
      SpliceOneMore(text, |text|, done, e);
      out := out[..e.start] + e.replacement + out[e.end..];
      boundary := e.start;
    }
    assert sorted[..|sorted|] == sorted;
    return Some(out);
  }

  // ----- Undoing insertions --------------------------------------------------

  predicate PureInsertions(edits: seq<Edit>) {
    forall i :: 0 <= i < |edits| ==> edits[i].start == edits[i].end
  }

  function Added(edits: seq<Edit>): nat {
    if edits == [] then 0 else |edits[0].replacement| + Added(edits[1..])
  }

  // The ranges the inserted texts occupy afterwards, last first.
  function Removals(edits: seq<Edit>): seq<Edit> {
    if edits == [] then []
    else
      var start := edits[0].start + Added(edits[1..]);
      [Edit(start, start + |edits[0].replacement|, "")] + Removals(edits[1..])
  }

  // Splicing reads only the text before its bound.
  lemma {:induction false} SpliceReadsPrefix(a: string, b: string, upto: nat, edits: seq<Edit>)
    requires upto <= |a| && upto <= |b| && a[..upto] == b[..upto]
    requires EndsBy(edits, upto) && Chain(edits)
    ensures Splice(a, upto, edits) == Splice(b, upto, edits)
  {
    if edits != [] {
      var e := edits[0];
      assert a[..e.start] == a[..upto][..e.start] == b[..upto][..e.start] == b[..e.start];
      SpliceReadsPrefix(a, b, e.start, edits[1..]);
      assert a[e.end..upto] == a[..upto][e.end..] == b[..upto][e.end..] == b[e.end..upto];
    }
  }

  lemma {:induction false} RemovalsFit(text: string, upto: nat, edits: seq<Edit>)
    requires upto <= |text| && EndsBy(edits, upto) && Chain(edits) && PureInsertions(edits)
    ensures |Splice(text, upto, edits)| == upto + Added(edits)
    ensures EndsBy(Removals(edits), upto + Added(edits)) && Chain(Removals(edits))
  {
    if edits != [] {
      RemovalsFit(text, edits[0].start, edits[1..]);
      var r, rest := Removals(edits), Removals(edits[1..]);
      assert forall i :: 0 < i < |r| ==> r[i] == rest[i - 1];
    }
  }

  lemma ThreeParts(a: string, b: string, c: string)
    ensures (a + b + c)[..|a|] == a && a[..|a|] == a && (a + b + c)[|a| + |b|..|a + b + c|] == c
  {
  }

  // Stripping what pure insertions added gives the original text back.
  lemma {:induction false} StrippingUndoesInsertions(text: string, upto: nat, edits: seq<Edit>)
    requires upto <= |text| && EndsBy(edits, upto) && Chain(edits) && PureInsertions(edits)
    ensures var out := Splice(text, upto, edits);
            && EndsBy(Removals(edits), |out|) && Chain(Removals(edits))
            && Splice(out, |out|, Removals(edits)) == text[..upto]
  {
    hide Splice, Added;
    RemovalsFit(text, upto, edits);
    var out := Splice(text, upto, edits);
    if edits == [] {
      SpliceNothing(text, upto);
      SpliceNothing(out, |out|);
      assert out[..|out|] == text[..upto];
    } else {
      var e, rest := edits[0], edits[1..];
      RemovalsFit(text, e.start, rest);
      StrippingUndoesInsertions(text, e.start, rest);
      SpliceFirst(text, upto, edits);
      var before := Splice(text, e.start, rest);
      var tail := text[e.end..upto];
      ThreeParts(before, e.replacement, tail);
      var d := Removals(edits)[0];
      assert Removals(edits)[1..] == Removals(rest);
      SpliceFirst(out, |out|, Removals(edits));
      SpliceReadsPrefix(out, before, |before|, Removals(rest));
      assert text[..e.start] + "" + tail == text[..upto];
    }
  }

  lemma SpliceNothing(text: string, upto: nat)
    requires upto <= |text|
    ensures Splice(text, upto, []) == text[..upto]
  {
  }

  lemma SpliceFirst(text: string, upto: nat, edits: seq<Edit>)
    requires edits != [] && upto <= |text| && EndsBy(edits, upto) && Chain(edits)
    ensures EndsBy(edits[1..], edits[0].start) && Chain(edits[1..])
    ensures Splice(text, upto, edits) ==
            Splice(text, edits[0].start, edits[1..]) + edits[0].replacement + text[edits[0].end..upto]
  {
  }

  // ----- Edits listed in text order ------------------------------------------

  // Replacements of non-empty ranges, each after the one before it.
  predicate Ascending(edits: seq<Edit>, lo: int, hi: int) {
    if edits == [] then 0 <= lo <= hi
    else 0 <= lo <= edits[0].start < edits[0].end && Ascending(edits[1..], edits[0].end, hi)
  }

  // The text from an offset on with the ranges replaced.
  function Rewritten(text: string, at: nat, edits: seq<Edit>): string
    requires Ascending(edits, at, |text|)
    decreases |edits|
  {
    AscendingFits(edits, at, |text|);
    if edits == [] then text[at..]
    else text[at..edits[0].start] + (edits[0].replacement + Rewritten(text, edits[0].end, edits[1..]))
  }

  lemma {:induction false} AscendingFits(edits: seq<Edit>, lo: int, hi: int)
    requires Ascending(edits, lo, hi)
    ensures 0 <= lo <= hi
    ensures forall i :: 0 <= i < |edits| ==> lo <= edits[i].start < edits[i].end <= hi
    ensures forall i, j :: 0 <= i < j < |edits| ==> edits[i].start < edits[i].end <= edits[j].start
  {
    if edits != [] {
      AscendingFits(edits[1..], edits[0].end, hi);
      assert forall i :: 0 < i < |edits| ==> edits[i] == edits[1..][i - 1];
    }
  }

  lemma {:induction false} AscendingInit(edits: seq<Edit>, lo: int, hi: int)
    requires edits != [] && Ascending(edits, lo, hi)
    ensures var x := edits[|edits| - 1];
            Ascending(edits[..|edits| - 1], lo, x.start) && x.start < x.end <= hi
  {
    if |edits| > 1 {
      AscendingInit(edits[1..], edits[0].end, hi);
      assert edits[..|edits| - 1][1..] == edits[1..][..|edits| - 2];
    } else {
      assert edits[1..] == [] && edits[..0] == [];
    }
  }

  // The last replacement can be split off.
  lemma {:induction false} RewrittenLast(text: string, at: nat, edits: seq<Edit>)
    requires edits != [] && Ascending(edits, at, |text|)
    ensures var x, init := edits[|edits| - 1], edits[..|edits| - 1];
            && 0 <= x.start < x.end <= |text| && Ascending(init, at, x.start)
            && Rewritten(text, at, edits) == Rewritten(text[..x.start], at, init) + (x.replacement + text[x.end..])
    decreases |edits|
  {
    AscendingInit(edits, at, |text|);
    AscendingFits(edits, at, |text|);
    if |edits| == 1 {
      assert edits[1..] == [] && edits[..0] == [];
      assert text[..edits[0].start][at..] == text[at..edits[0].start];
    } else {
      RewrittenLast(text, edits[0].end, edits[1..]);
      assert edits[..|edits| - 1][1..] == edits[1..][..|edits| - 2];
      RewrittenStep(text, at, edits);
    }
  }

  lemma RewrittenStep(text: string, at: nat, edits: seq<Edit>)
    requires |edits| > 1 && Ascending(edits, at, |text|)
    requires var x, init := edits[|edits| - 1], edits[..|edits| - 1];
             && 0 <= x.start < x.end <= |text| && Ascending(init, at, x.start)
             && Rewritten(text, edits[0].end, edits[1..]) ==
                Rewritten(text[..x.start], edits[0].end, init[1..]) + (x.replacement + text[x.end..])
    ensures var x, init := edits[|edits| - 1], edits[..|edits| - 1];
            Rewritten(text, at, edits) == Rewritten(text[..x.start], at, init) + (x.replacement + text[x.end..])
  {
    var x, init, e := edits[|edits| - 1], edits[..|edits| - 1], edits[0];
    AscendingFits(edits, at, |text|);
    var more := Rewritten(text[..x.start], e.end, init[1..]);
    assert text[..x.start][at..e.start] == text[at..e.start];
    assert Rewritten(text, at, edits) == text[at..e.start] + (e.replacement + (more + (x.replacement + text[x.end..])));
    assert Rewritten(text[..x.start], at, init) == text[at..e.start] + (e.replacement + more);
  }

  lemma SameMembers<T>(a: seq<T>, b: seq<T>, x: T)
    requires multiset(a) == multiset(b)
    ensures x in a <==> x in b
  {
    assert x in multiset(a) <==> x in multiset(b);
  }

  lemma RemoveEnds<T>(a: seq<T>, b: seq<T>)
    requires a != [] && b != [] && multiset(a) == multiset(b) && a[0] == b[|b| - 1]
    ensures multiset(a[1..]) == multiset(b[..|b| - 1])
  {
    assert a == [a[0]] + a[1..] && b == b[..|b| - 1] + [b[|b| - 1]];
    var x := a[0];
    assert multiset(a[1..]) == multiset(a) - multiset([x]);
    assert multiset(b[..|b| - 1]) == multiset(b) - multiset([x]);
  }

  // Sorting leaves no choice: the last edit comes first.
  lemma SortedLast(edits: seq<Edit>, order: seq<Edit>, hi: int)
    requires edits != [] && Ascending(edits, 0, hi)
    requires multiset(order) == multiset(edits) && Descending(order)
    ensures order != [] && order[0] == edits[|edits| - 1]
    ensures multiset(order[1..]) == multiset(edits[..|edits| - 1])
  {
    AscendingFits(edits, 0, hi);
    var n := |edits| - 1;
    hide Ascending;
    SameMembers(order, edits, edits[n]);
    var k :| 0 <= k < |order| && order[k] == edits[n];
    SameMembers(order, edits, order[0]);
    var m :| 0 <= m < |edits| && edits[m] == order[0];
    assert k == 0 || After(order[0], order[k]);
    assert edits[m].start >= edits[n].start;
    RemoveEnds(order, edits);
  }

  lemma {:induction false} SpliceIsRewriting(text: string, upto: nat, edits: seq<Edit>, order: seq<Edit>)
    requires upto <= |text| && Ascending(edits, 0, upto)
    requires multiset(order) == multiset(edits) && Descending(order) && EndsBy(order, upto) && Chain(order)
    ensures Splice(text, upto, order) == Rewritten(text[..upto], 0, edits)
    decreases |edits|
  {
    if edits == [] {
      assert |multiset(order)| == |order|;
      assert text[..upto][0..] == text[..upto];
    } else {
      SortedLast(edits, order, upto);
      RewrittenLast(text[..upto], 0, edits);
      var x := order[0];
      SpliceIsRewriting(text, x.start, edits[..|edits| - 1], order[1..]);
      assert text[..upto][..x.start] == text[..x.start] && text[..upto][x.end..] == text[x.end..upto];
    }
  }

  // Replacements of separate ranges always apply.
  method Rewrite(text: string, edits: seq<Edit>) returns (r: string)
    requires Ascending(edits, 0, |text|)
    ensures r == Rewritten(text, 0, edits)
  {
    AscendingFits(edits, 0, |text|);
    var out, order := ApplyTextEdits(text, edits);
    assert text[..|text|] == text;
    SpliceIsRewriting(text, |text|, edits, order);
    r := out.value;
  }
}