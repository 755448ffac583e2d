// UTF-8 by section 3 of RFC 3629, and what a reader that repairs makes of other
// bytes.
module Utf8 {
  import opened Common

  predicate Continuation(b: Byte) {
    0x80 <= b < 0xC0
  }

  predicate Follows(s: seq<Byte>, i: nat, lo: nat, hi: nat) {
    i < |s| && lo <= s[i] <= hi
  }

  // The length of the character at the front; zero when there is none.
  function CharLen(s: seq<Byte>): (n: nat)
    ensures n <= |s| && (n > 0 ==> !Continuation(s[0]))
    ensures forall i :: 0 < i < n ==> Continuation(s[i])
  {
    if s == [] then 0
    else
      var b := s[0];
      if b < 0x80 then 1
      else if 0xC2 <= b <= 0xDF then (if Follows(s, 1, 0x80, 0xBF) then 2 else 0)
      else if 0xE0 <= b <= 0xEF then
        var lo, hi := if b == 0xE0 then 0xA0 else 0x80, if b == 0xED then 0x9F else 0xBF;
        if Follows(s, 1, lo, hi) && Follows(s, 2, 0x80, 0xBF) then 3 else 0
      else if 0xF0 <= b <= 0xF4 then
        var lo, hi := if b == 0xF0 then 0x90 else 0x80, if b == 0xF4 then 0x8F else 0xBF;
        if Follows(s, 1, lo, hi) && Follows(s, 2, 0x80, 0xBF) && Follows(s, 3, 0x80, 0xBF) then 4 else 0
      else 0
  }

  predicate ValidUtf8(s: seq<Byte>)
    decreases |s|
  {
    s == [] || (CharLen(s) > 0 && ValidUtf8(s[CharLen(s)..]))
  }

  lemma CharLenLocal(a: seq<Byte>, b: seq<Byte>)
    requires CharLen(a) > 0
    ensures CharLen(a + b) == CharLen(a)
  {
    var s := a + b;
    assert forall i :: 0 <= i < |a| ==> s[i] == a[i];
  }

  lemma {:induction false} ValidConcat(a: seq<Byte>, b: seq<Byte>)
    requires ValidUtf8(a) && ValidUtf8(b)
    ensures ValidUtf8(a + b)
    decreases |a|
  {
    if a == [] {
      assert a + b == b;
    } else {
      var n := CharLen(a);
      CharLenLocal(a, b);
      assert (a + b)[n..] == a[n..] + b;
      ValidConcat(a[n..], b);
    }
  }

  // Valid text splits at the start of any character.
  lemma {:induction false} ValidSplit(s: seq<Byte>, k: nat)
    requires ValidUtf8(s) && k <= |s| && (k < |s| ==> !Continuation(s[k]))
    ensures ValidUtf8(s[..k]) && ValidUtf8(s[k..])
    decreases |s|
  {
    if k == 0 {
      assert s[..0] == [] && s[0..] == s;
    } else {
      var n := CharLen(s);
      assert s[n..] == [] || n < |s|;
      ValidSplit(s[n..], k - n);
      assert s[n..][k - n..] == s[k..];
      assert s[..k] == s[..n] + s[n..][..k - n];
      FirstCharValid(s);
      ValidConcat(s[..n], s[n..][..k - n]);
    }
  }

  lemma FirstCharValid(s: seq<Byte>)
    requires CharLen(s) > 0
    ensures ValidUtf8(s[..CharLen(s)])
  {
    var n := CharLen(s);
    var c := s[..n];
    assert forall i :: 0 <= i < n ==> c[i] == s[i];
    assert CharLen(c) == n;
    assert c[n..] == [];
  }

  lemma {:induction false} AsciiValid(s: seq<Byte>)
    requires forall i :: 0 <= i < |s| ==> s[i] < 0x80
    ensures ValidUtf8(s)
  {
    if s != [] {
      assert CharLen(s) == 1;
      AsciiValid(s[1..]);
    }
  }

  // ----- Repairing -----------------------------------------------------------

  // U+FFFD
  const REPLACEMENT: seq<Byte> := [0xEF, 0xBF, 0xBD]

  // encoding/json on a string: every byte that starts no character becomes a
  // replacement character.
  function Repaired(s: seq<Byte>): seq<Byte>
    decreases |s|
  {
    if s == [] then []
    else if CharLen(s) > 0 then s[..CharLen(s)] + Repaired(s[CharLen(s)..])
    else REPLACEMENT + Repaired(s[1..])
  }

  lemma {:induction false} RepairedIsValid(s: seq<Byte>)
    ensures ValidUtf8(Repaired(s))
    decreases |s|
  {
    if s != [] {
      var n := CharLen(s);
      if n > 0 {
        FirstCharValid(s);
        RepairedIsValid(s[n..]);
        ValidConcat(s[..n], Repaired(s[n..]));
      } else {
        assert CharLen(REPLACEMENT) == 3 && REPLACEMENT[3..] == [];
        RepairedIsValid(s[1..]);
        ValidConcat(REPLACEMENT, Repaired(s[1..]));
      }
    }
  }

  lemma {:induction false} ValidStays(s: seq<Byte>)
    requires ValidUtf8(s)
    ensures Repaired(s) == s
    decreases |s|
  {
    if s != [] {
      ValidStays(s[CharLen(s)..]);
      assert s == s[..CharLen(s)] + s[CharLen(s)..];
    }
  }
}
