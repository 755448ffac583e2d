// The bound on the continuation prompt: cut at a character boundary, keeping
// the instruction at its end.
module Prompt {
  import opened Common
  import opened Utf8

  type Text = seq<Byte>

  const MAX_PROMPT := 12000

  function Ascii(s: string): (t: Text)
    ensures |t| == |s| && forall i :: 0 <= i < |t| ==> t[i] < 0x80
  {
    seq(|s|, i requires 0 <= i < |s| => if s[i] < '\U{0080}' then s[i] as int else 63)
  }

  const MARKER := Ascii("\n(prompt body truncated to fit the size limit)\n")
  const HEADING := Ascii("\n## Instruction\n\n")

  // ----- Cutting -------------------------------------------------------------

  // The longest prefix of at most n bytes that ends before a character start.
  function Utf8Prefix(s: Text, n: int): (p: Text)
    ensures p <= s && (n >= 0 ==> |p| <= n)
  {
    if n <= 0 then []
    else if |s| <= n then s
    else if Continuation(s[n]) then Utf8Prefix(s, n - 1)
    else s[..n]
  }

  method CutAt(s: Text, n: int) returns (p: Text)
    ensures p == Utf8Prefix(s, n)
  {
    if n <= 0 { return []; }
    if |s| <= n { return s; }
    var k := n;
    while k > 0 && Continuation(s[k])
      invariant 0 <= k <= n && Utf8Prefix(s, k) == Utf8Prefix(s, n)
    {
      k := k - 1;
    }
    return s[..k];
  }

  lemma {:induction false} PrefixValid(s: Text, n: int)
    requires ValidUtf8(s)
    ensures ValidUtf8(Utf8Prefix(s, n))
    decreases if n < 0 then 0 else n
  {
    if 0 < n < |s| {
      if Continuation(s[n]) { PrefixValid(s, n - 1); } else { ValidSplit(s, n); }
    }
  }

  // A prefix that was cut is cut by less than one character.
  lemma {:induction false} PrefixLength(s: Text, n: nat)
    requires ValidUtf8(s) && n < |s|
    ensures n < 4 || |Utf8Prefix(s, n)| > n - 4
    decreases |s|
  {
    var c := CharLen(s);
    if n >= 4 {
      assert c < |s|;
      if n - c >= 4 {
        PrefixLength(s[c..], n - c);
        PrefixFromChar(s, n, c);
      } else {
        ShortStep(s, n);
      }
    }
  }

  lemma {:induction false} PrefixFromChar(s: Text, n: nat, c: nat)
    requires 0 < c < n < |s| && c == CharLen(s) && ValidUtf8(s)
    ensures |Utf8Prefix(s, n)| >= c + |Utf8Prefix(s[c..], n - c)|
  {
    assert s[c..][n - c] == s[n];
    if Continuation(s[n]) && n - c > 1 { PrefixFromChar(s, n - 1, c); }
  }

  lemma ShortStep(s: Text, n: nat)
    requires ValidUtf8(s) && 4 <= n < |s| && n - CharLen(s) < 4
    ensures |Utf8Prefix(s, n)| > n - 4
  {
    assert s[CharLen(s)..] != [];
    var c := CharLen(s);
    assert !Continuation(s[c]) by { assert CharLen(s[c..]) > 0 && s[c..][0] == s[c]; }
    BackTo(s, n, c);
  }

  lemma {:induction false} BackTo(s: Text, n: nat, c: nat)
    requires 0 < c <= n < |s| && !Continuation(s[c])
    ensures |Utf8Prefix(s, n)| >= c
  {
    if n > c && Continuation(s[n]) { BackTo(s, n - 1, c); }
  }

  predicate OccursAt(s: Text, part: Text, k: nat) {
    k + |part| <= |s| && s[k..k + |part|] == part
  }

  // Where a text last occurs in another, at n or before.
  function LastIndex(s: Text, part: Text, n: nat): (r: Option<nat>)
    ensures r.Some? ==> OccursAt(s, part, r.value) && r.value <= n
    ensures forall k: nat :: OccursAt(s, part, k) && k <= n ==> r.Some? && k <= r.value
  {
    if OccursAt(s, part, n) then Some(n) else if n == 0 then None else LastIndex(s, part, n - 1)
  }

  function HardTruncate(s: Text, max: nat): Text {
    if |s| <= max then s
    else if max < |MARKER| then Utf8Prefix(s, max)
    else
      var at := LastIndex(s, HEADING, |s|);
      if at.Some? && |s| - at.value + |MARKER| <= max
      then Utf8Prefix(s[..at.value], max - |MARKER| - (|s| - at.value)) + (MARKER + s[at.value..])
      else Utf8Prefix(s, max - |MARKER|) + MARKER
  }

  // The prompt never exceeds the limit.
  lemma TruncatedFits(s: Text, max: nat)
    ensures |HardTruncate(s, max)| <= max
  {
  }

  // Valid text stays valid.
  lemma TruncatedIsValid(s: Text, max: nat)
    requires ValidUtf8(s)
    ensures ValidUtf8(HardTruncate(s, max))
  {
    hide *;
    var marker, at := MARKER, LastIndex(s, HEADING, |s|);
    PrefixValid(s, max);
    PrefixValid(s, max - |marker|);
    MarkerValid();
    ValidConcat(Utf8Prefix(s, max - |marker|), marker);
    if at.Some? {
      var n := at.value;
      HeadingStarts(s, n);
      ValidSplit(s, n);
      PrefixValid(s[..n], max - |marker| - (|s| - n));
      ValidConcat(marker, s[n..]);
      ValidConcat(Utf8Prefix(s[..n], max - |marker| - (|s| - n)), marker + s[n..]);
    }
    TruncateCases(s, max, at);
  }

  lemma MarkerValid()
    ensures ValidUtf8(MARKER)
  {
    AsciiValid(MARKER);
  }

  // The three outcomes of truncating.
  lemma TruncateCases(s: Text, max: nat, at: Option<nat>)
    requires at == LastIndex(s, HEADING, |s|)
    ensures at.Some? ==> at.value <= |s|
    ensures var r := HardTruncate(s, max);
            || r == s || r == Utf8Prefix(s, max) || r == Utf8Prefix(s, max - |MARKER|) + MARKER
            || (at.Some? && r == Utf8Prefix(s[..at.value], max - |MARKER| - (|s| - at.value)) + (MARKER + s[at.value..]))
  {
    hide MARKER, HEADING, LastIndex, Utf8Prefix;
  }

  lemma HeadingStarts(s: Text, at: nat)
    requires LastIndex(s, HEADING, |s|) == Some(at)
    ensures at < |s| && !Continuation(s[at])
  {
    assert OccursAt(s, HEADING, at);
    assert s[at] == s[at..at + |HEADING|][0] == HEADING[0];
  }

  // The text ends with another.
  predicate EndsWith(s: Text, tail: Text) {
    |tail| <= |s| && s[|s| - |tail|..] == tail
  }

  // The instruction section, from its last heading on, is kept whole whenever
  // it fits next to the marker.
  lemma InstructionKept(s: Text, max: nat, at: nat)
    requires LastIndex(s, HEADING, |s|) == Some(at) && at <= |s| && |s| - at + |MARKER| <= max
    ensures EndsWith(HardTruncate(s, max), s[at..])
  {
    hide *;
    TruncateTail(s, max, at);
    if |s| > max {
      TailIsEnd(Utf8Prefix(s[..at], max - |MARKER| - (|s| - at)), MARKER, s[at..]);
    } else {
      TailIsEnd(s[..at], [], s[at..]);
      assert s[..at] + ([] + s[at..]) == s;
    }
  }

  lemma TruncateTail(s: Text, max: nat, at: nat)
    requires LastIndex(s, HEADING, |s|) == Some(at) && at <= |s| && |s| - at + |MARKER| <= max
    ensures HardTruncate(s, max) ==
            if |s| <= max then s else Utf8Prefix(s[..at], max - |MARKER| - (|s| - at)) + (MARKER + s[at..])
  {
    hide MARKER, HEADING, LastIndex, Utf8Prefix;
  }

  lemma TailIsEnd(head: Text, middle: Text, tail: Text)
    ensures EndsWith(head + (middle + tail), tail)
  {
    assert head + (middle + tail) == (head + middle) + tail;
  }

  // ----- Fields --------------------------------------------------------------

  // What a rune takes at the front of a text: a character, or one byte of what
  // is none.
  function RuneLen(s: Text): (n: nat)
    requires s != []
    ensures 1 <= n <= |s|
  {
    if CharLen(s) > 0 then CharLen(s) else 1
  }

  function Runes(s: Text): (n: nat)
    ensures n <= |s|
    decreases |s|
  {
    if s == [] then 0 else 1 + Runes(s[RuneLen(s)..])
  }

  // The first n runes of a text.
  function FirstRunes(s: Text, n: nat): (p: Text)
    ensures p <= s
    decreases |s|
  {
    if n == 0 || s == [] then [] else s[..RuneLen(s)] + FirstRunes(s[RuneLen(s)..], n - 1)
  }

  const DOTS := Ascii("...")

  // clampRunes. Cutting to a number of runes writes them anew, repaired.
  function ClampRunes(s: Text, max: int): Text {
    if max <= 0 then []
    else if Runes(s) <= max && |s| <= max then s
    else Utf8Prefix(if Runes(s) > max then Repaired(FirstRunes(s, max)) else s, max) + DOTS
  }

  lemma FirstRune(s: Text, n: nat)
    requires s != [] && ValidUtf8(s) && n > 0
    ensures 0 < CharLen(s) <= |s| && ValidUtf8(s[CharLen(s)..]) && ValidUtf8(s[..CharLen(s)])
    ensures FirstRunes(s, n) == s[..CharLen(s)] + FirstRunes(s[CharLen(s)..], n - 1)
    ensures !Continuation(s[0])
  {
    FirstCharValid(s);
  }

  lemma NoRunes(s: Text, n: nat)
    requires (s == [] || n == 0) && ValidUtf8(s)
    ensures FirstRunes(s, n) == [] && ValidUtf8([]) && (s != [] ==> !Continuation(s[0]))
  {
  }

  lemma {:induction false} FirstRunesValid(s: Text, n: nat)
    requires ValidUtf8(s)
    ensures ValidUtf8(FirstRunes(s, n))
    ensures |FirstRunes(s, n)| < |s| ==> |FirstRunes(s, n)| >= n && !Continuation(s[|FirstRunes(s, n)|])
    decreases |s|
  {
    hide ValidUtf8, CharLen, FirstRunes, Continuation;
    if s == [] || n == 0 {
      NoRunes(s, n);
    } else {
      FirstRune(s, n);
      var k := CharLen(s);
      var rest := FirstRunes(s[k..], n - 1);
      FirstRunesValid(s[k..], n - 1);
      ValidConcat(s[..k], rest);
      if |rest| < |s[k..]| {
        assert s[k..][|rest|] == s[k + |rest|];
      }
    }
  }

  // Before a character start, a prefix cuts where the whole text would.
  lemma {:induction false} PrefixOfPrefix(s: Text, p: Text, n: nat)
    requires p <= s && n <= |p| && (|p| < |s| ==> !Continuation(s[|p|]))
    ensures Utf8Prefix(p, n) == Utf8Prefix(s, n)
  {
    if 0 < n < |p| && Continuation(s[n]) { PrefixOfPrefix(s, p, n - 1); }
  }

  // A field within the budget is kept, and a longer one is its longest prefix
  // within it and three dots; the budget in runes never cuts shorter than the
  // one in bytes.
  lemma ClampIs(s: Text, max: int)
    requires ValidUtf8(s) && max > 0
    ensures ClampRunes(s, max) == if |s| <= max then s else Utf8Prefix(s, max) + DOTS
    ensures ValidUtf8(ClampRunes(s, max)) && |ClampRunes(s, max)| <= max + 3
  {
    hide Utf8Prefix, Repaired, ValidUtf8;
    PrefixValid(s, max);
    if Runes(s) > max {
      var p := FirstRunes(s, max);
      FirstRunesValid(s, max);
      ValidStays(p);
      if |p| < |s| { PrefixOfPrefix(s, p, max); } else { assert p == s; }
    }
    AsciiValid(DOTS);
    ValidConcat(Utf8Prefix(s, max), DOTS);
  }

  // ----- Rendering -----------------------------------------------------------

  // A prompt is made of texts as they are and of fields cut to a budget.
  datatype Piece = Whole(text: Text) | Clamped(field: Text, max: int)

  function PieceText(p: Piece): Text {
    match p
    case Whole(text) => text
    case Clamped(field, max) => ClampRunes(field, max)
  }

  function Rendered(ps: seq<Piece>): Text {
    if ps == [] then [] else PieceText(ps[0]) + Rendered(ps[1..])
  }

  predicate PieceValid(p: Piece) {
    ValidUtf8(if p.Whole? then p.text else p.field)
  }

  lemma {:induction false} RenderedValid(ps: seq<Piece>)
    requires forall p :: p in ps ==> PieceValid(p)
    ensures ValidUtf8(Rendered(ps))
  {
    hide ValidUtf8, ClampRunes;
    if ps == [] {
      AsciiValid([]);
    } else {
      var p := ps[0];
      assert PieceValid(p);
      if p.Clamped? && p.max > 0 { ClampIs(p.field, p.max); }
      if p.Clamped? && p.max <= 0 { NothingClamped(p.field, p.max); }
      RenderedValid(ps[1..]);
      ValidConcat(PieceText(p), Rendered(ps[1..]));
    }
  }

  lemma NothingClamped(s: Text, max: int)
    requires max <= 0
    ensures ClampRunes(s, max) == [] && ValidUtf8([])
  {
  }

  // RenderForAgent: the first rendering that fits, with ever shorter lists, or
  // the shortest one cut. `render` gives the prompt with a list cap.
  function FirstFit(render: nat -> seq<Piece>, cap: nat): Text {
    if cap == 0 then HardTruncate(Rendered(render(1)), MAX_PROMPT)
    else if |Rendered(render(cap))| <= MAX_PROMPT then Rendered(render(cap))
    else FirstFit(render, cap - 1)
  }

  method RenderForAgent(render: nat -> seq<Piece>) returns (prompt: Text)
    ensures prompt == FirstFit(render, 8)
  {
    var cap := 8;
    while cap >= 1
      invariant 0 <= cap <= 8 && FirstFit(render, cap) == FirstFit(render, 8)
    {
      var s := Rendered(render(cap));
      if |s| <= MAX_PROMPT { return s; }
      cap := cap - 1;
    }
    return HardTruncate(Rendered(render(1)), MAX_PROMPT);
  }

  // The prompt is bounded for every checkpoint, valid when every text and every
  // field in it is, and one of its renderings cut or whole.
  lemma {:induction false} PromptGuarantees(render: nat -> seq<Piece>, cap: nat)
    ensures |FirstFit(render, cap)| <= MAX_PROMPT
    ensures (forall c, p :: (1 <= c <= cap || c == 1) && p in render(c) ==> PieceValid(p)) ==> ValidUtf8(FirstFit(render, cap))
    ensures exists c :: (1 <= c <= cap || c == 1) && FirstFit(render, cap) == HardTruncate(Rendered(render(c)), MAX_PROMPT)
  {
    hide ValidUtf8, PieceValid, Rendered;
    var least := Rendered(render(1));
    TruncatedFits(least, MAX_PROMPT);
    if cap == 0 {
      if forall p :: p in render(1) ==> PieceValid(p) {
        RenderedValid(render(1));
        TruncatedIsValid(least, MAX_PROMPT);
      }
      assert FirstFit(render, cap) == HardTruncate(least, MAX_PROMPT);
    } else if |Rendered(render(cap))| <= MAX_PROMPT {
      if forall p :: p in render(cap) ==> PieceValid(p) { RenderedValid(render(cap)); }
      assert FirstFit(render, cap) == HardTruncate(Rendered(render(cap)), MAX_PROMPT);
    } else {
      PromptGuarantees(render, cap - 1);
      var c :| (1 <= c <= cap - 1 || c == 1) &&
               FirstFit(render, cap - 1) == HardTruncate(Rendered(render(c)), MAX_PROMPT);
      assert 1 <= c <= cap;
    }
  }

  // No rendering with lists longer than c, up to the cap, fits.
  predicate NoneLonger(render: nat -> seq<Piece>, c: nat, cap: nat) {
    forall k :: c < k <= cap ==> |Rendered(render(k))| > MAX_PROMPT
  }

  // The prompt is the rendering with the longest lists that fits, and only when none
  // does (c is 0) the shortest one cut.
  lemma {:induction false} LongestThatFits(render: nat -> seq<Piece>, cap: nat, c: nat)
    requires c <= cap && NoneLonger(render, c, cap) && (c > 0 ==> |Rendered(render(c))| <= MAX_PROMPT)
    ensures FirstFit(render, cap) ==
            if c > 0 then Rendered(render(c)) else HardTruncate(Rendered(render(1)), MAX_PROMPT)
    decreases cap
  {
    hide Rendered, HardTruncate;
    if cap > c { LongestThatFits(render, cap - 1, c); }
  }

  // A text that is cut says so, and loses less than a character more than it must: it
  // is a beginning of the text, the marker, and the instruction if that fits.
  lemma CutIsTight(s: Text, max: nat)
    requires ValidUtf8(s) && |MARKER| <= max < |s|
    ensures |HardTruncate(s, max)| > max - 4
    ensures exists n, k :: 0 <= n <= k <= |s| && HardTruncate(s, max) == s[..n] + (MARKER + s[k..])
                           && (k == |s| || LastIndex(s, HEADING, |s|) == Some(k))
  {
    hide *;
    var marker, at := MARKER, LastIndex(s, HEADING, |s|);
    CutCases(s, max, at);
    if at.Some? && |s| - at.value + |marker| <= max {
      var k, room := at.value, max - |marker| - (|s| - at.value);
      HeadingStarts(s, k);
      ValidSplit(s, k);
      PrefixTight(s[..k], room);
      var p := Utf8Prefix(s[..k], room);
      assert p == s[..|p|];
      assert HardTruncate(s, max) == s[..|p|] + (MARKER + s[k..]);
    } else {
      PrefixTight(s, max - |marker|);
      var p := Utf8Prefix(s, max - |marker|);
      assert p == s[..|p|];
      assert s[|s|..] == [];
      assert p + (MARKER + s[|s|..]) == p + MARKER;
      assert HardTruncate(s, max) == s[..|p|] + (MARKER + s[|s|..]);
    }
  }

  lemma PrefixTight(s: Text, n: nat)
    requires ValidUtf8(s) && n < |s|
    ensures Utf8Prefix(s, n) <= s && |Utf8Prefix(s, n)| <= n && |Utf8Prefix(s, n)| > n - 4
  {
    PrefixLength(s, n);
  }

  lemma CutCases(s: Text, max: nat, at: Option<nat>)
    requires at == LastIndex(s, HEADING, |s|) && |MARKER| <= max < |s|
    ensures at.Some? ==> at.value <= |s|
    ensures HardTruncate(s, max) ==
            if at.Some? && |s| - at.value + |MARKER| <= max
            then Utf8Prefix(s[..at.value], max - |MARKER| - (|s| - at.value)) + (MARKER + s[at.value..])
            else Utf8Prefix(s, max - |MARKER|) + MARKER
  {
    hide MARKER, HEADING, Utf8Prefix;
  }
}
