// The lexicographic order of text.
module TextOrder {

  // a comes strictly before b.
  predicate Before(a: string, b: string) {
    if b == "" then false
    else if a == "" then true
    else if a[0] != b[0] then a[0] < b[0]
    else Before(a[1..], b[1..])
  }

  lemma {:induction false} NotBeforeSelf(a: string)
    ensures !Before(a, a)
  {
    if a != "" { NotBeforeSelf(a[1..]); }
  }

  lemma {:induction false} Transitive(a: string, b: string, c: string)
    requires Before(a, b) && Before(b, c)
    ensures Before(a, c)
  {
    if a != "" && a[0] == b[0] == c[0] { Transitive(a[1..], b[1..], c[1..]); }
  }

  // Of two different texts exactly one comes first.
  lemma {:induction false} Total(a: string, b: string)
    ensures a == b || Before(a, b) || Before(b, a)
    ensures !(Before(a, b) && Before(b, a))
  {
    if a != "" && b != "" && a[0] == b[0] {
      Total(a[1..], b[1..]);
      assert a == [a[0]] + a[1..] && b == [b[0]] + b[1..];
    }
  }

  // mergeStr: a set value beats a blank one, and of two set values the first
  // in order is taken.
  function Least(a: string, b: string): string {
    if a == "" then b
    else if b == "" then a
    else if Before(b, a) then b else a
  }

  lemma LeastCommutes(a: string, b: string)
    ensures Least(a, b) == Least(b, a)
  {
    Total(a, b);
  }

  lemma LeastAssociates(a: string, b: string, c: string)
    ensures Least(Least(a, b), c) == Least(a, Least(b, c))
  {
    if a != "" && b != "" && c != "" {
      Total(a, b);
      Total(b, c);
      Total(a, c);
      if Before(b, a) && Before(c, b) { Transitive(c, b, a); }
      if Before(a, b) && Before(b, c) { Transitive(a, b, c); }
    }
  }

  // Two texts agree up to a place where the first has the smaller character.
  predicate SmallerAt(a: string, b: string, i: nat) {
    i < |a| && i < |b| && a[..i] == b[..i] && a[i] < b[i]
  }

  lemma SmallerShifts(a: string, b: string, i: nat)
    requires a != "" && b != "" && a[0] == b[0]
    ensures SmallerAt(a, b, i + 1) <==> SmallerAt(a[1..], b[1..], i)
    ensures !SmallerAt(a, b, 0)
  {
    if i < |a| - 1 && i < |b| - 1 {
      assert a[..i + 1] == [a[0]] + a[1..][..i] && b[..i + 1] == [b[0]] + b[1..][..i];
      assert a[..i + 1][1..] == a[1..][..i] && b[..i + 1][1..] == b[1..][..i];
    }
  }

  lemma FirstDiffers(a: string, b: string)
    requires a != "" && b != "" && a[0] != b[0]
    ensures forall i: nat :: SmallerAt(a, b, i) ==> i == 0
    ensures SmallerAt(a, b, 0) <==> a[0] < b[0]
    ensures !(a <= b)
  {
    assert a[..0] == b[..0];
    forall i: nat | 0 < i < |a| && i < |b|
      ensures a[..i] != b[..i]
    {
      assert a[..i][0] == a[0] && b[..i][0] == b[0];
    }
  }

  // Where two texts first differ the smaller character comes first, and a text comes
  // before its continuations.
  lemma {:induction false} BeforeMeans(a: string, b: string)
    ensures Before(a, b) <==> a < b || exists i: nat :: SmallerAt(a, b, i)
  {
    hide SmallerAt;
    if a == "" || b == "" {
      NowhereSmaller(a, b);
    } else if a[0] != b[0] {
      FirstDiffers(a, b);
    } else {
      BeforeMeans(a[1..], b[1..]);
      assert a == [a[0]] + a[1..] && b == [b[0]] + b[1..];
      assert a < b <==> a[1..] < b[1..];
      SmallerShifts(a, b, 0);
      forall i: nat { SmallerShifts(a, b, i); }
      if i: nat :| SmallerAt(a, b, i) { assert SmallerAt(a[1..], b[1..], i - 1); }
    }
  }

  lemma NowhereSmaller(a: string, b: string)
    requires a == "" || b == ""
    ensures forall i: nat :: !SmallerAt(a, b, i)
  {
  }

  // Of two texts the least is one of them, blank only when both are, and no other set
  // one comes before it.
  lemma LeastMeans(a: string, b: string)
    ensures Least(a, b) == a || Least(a, b) == b
    ensures Least(a, b) == "" <==> a == "" && b == ""
    ensures forall x :: x in {a, b} && x != "" ==> !Before(x, Least(a, b))
  {
    Total(a, b);
    NotBeforeSelf(a);
    NotBeforeSelf(b);
  }
}
