// Table headers with bare keys, however they are spaced and commented, are read as
// the path they spell.
module CodexHeaders {
  import opened Common
  import opened Strings
  import opened CodexLines
  import opened CodexBlocks

  predicate Blanks(s: string) {
    forall i :: 0 <= i < |s| ==> s[i] == ' ' || s[i] == '\t'
  }

  // A bare key of section "Keys" of TOML.
  predicate BareKey(s: string) {
    s != "" && forall i :: 0 <= i < |s| ==>
      'a' <= s[i] <= 'z' || 'A' <= s[i] <= 'Z' || '0' <= s[i] <= '9' || s[i] == '_' || s[i] == '-'
  }

  // A key with the blanks around it.
  datatype Spaced = Spaced(before: string, key: string, after: string)

  predicate Spelled(p: Spaced) {
    Blanks(p.before) && BareKey(p.key) && Blanks(p.after)
  }

  function SpacedText(p: Spaced): string {
    p.before + (p.key + p.after)
  }

  function Dotted(ps: seq<Spaced>): string
    requires ps != []
  {
    if |ps| == 1 then SpacedText(ps[0]) else SpacedText(ps[0]) + ("." + Dotted(ps[1..]))
  }

  function Keys(ps: seq<Spaced>): (r: seq<string>)
    ensures |r| == |ps| && forall i :: 0 <= i < |ps| ==> r[i] == ps[i].key
  {
    seq(|ps|, i requires 0 <= i < |ps| => ps[i].key)
  }

  // ----- Trimming ------------------------------------------------------------

  lemma {:induction false} BlanksOff(a: string, s: string)
    requires Blanks(a) && s != "" && !IsSpace(s[0])
    ensures TrimLeft(a + s) == s
  {
    if a == "" {
      assert a + s == s;
    } else {
      assert (a + s)[0] == a[0] && (a + s)[1..] == a[1..] + s;
      BlanksOff(a[1..], s);
    }
  }

  lemma {:induction false} BlanksOffRight(s: string, b: string)
    requires Blanks(b) && s != "" && !IsSpace(s[|s| - 1])
    ensures TrimRight(s + b) == s
  {
    if b == "" {
      assert s + b == s;
    } else {
      var n := |b| - 1;
      assert (s + b)[|s + b| - 1] == b[n] && (s + b)[..|s + b| - 1] == s + b[..n];
      BlanksOffRight(s, b[..n]);
    }
  }

  lemma Trimmed(a: string, s: string, b: string)
    requires Blanks(a) && Blanks(b) && s != "" && !IsSpace(s[0]) && !IsSpace(s[|s| - 1])
    ensures TrimSpace(a + (s + b)) == s
  {
    BlanksOff(a, s + b);
    BlanksOffRight(s, b);
  }

  // ----- The path ------------------------------------------------------------

  lemma KeyPlain(k: string)
    requires BareKey(k)
    ensures '.' !in k && PlainText(k) && !IsSpace(k[0]) && !IsSpace(k[|k| - 1])
  {
  }

  lemma BlanksPlain(s: string)
    requires Blanks(s)
    ensures '.' !in s && PlainText(s)
  {
  }

  lemma SpacedPlain(p: Spaced)
    requires Spelled(p)
    ensures '.' !in SpacedText(p) && PlainText(SpacedText(p)) && TrimSpace(SpacedText(p)) == p.key && SpacedText(p) != ""
  {
    hide TrimSpace;
    KeyPlain(p.key);
    BlanksPlain(p.before);
    BlanksPlain(p.after);
    Trimmed(p.before, p.key, p.after);
    assert forall c :: c in SpacedText(p) ==> c in p.before || c in p.key || c in p.after;
    PlainJoin(p.key, p.after);
    PlainJoin(p.before, p.key + p.after);
  }

  lemma PlainJoin(a: string, b: string)
    requires PlainText(a) && PlainText(b)
    ensures PlainText(a + b)
  {
  }

  lemma {:induction false} DottedSplits(ps: seq<Spaced>)
    requires ps != [] && forall i :: 0 <= i < |ps| ==> Spelled(ps[i])
    ensures PlainText(Dotted(ps)) && Dotted(ps) != ""
    ensures TrimAll(Split(Dotted(ps), '.')) == Keys(ps)
  {
    hide TrimSpace, Split, SpacedText, PlainText, Spelled;
    SpacedPlain(ps[0]);
    var first := SpacedText(ps[0]);
    if |ps| == 1 {
      SplitNothing(first, '.');
      assert TrimAll([first]) == Keys(ps);
    } else {
      DottedSplits(ps[1..]);
      var rest := Dotted(ps[1..]);
      SplitFirst(first, rest, '.');
      assert "." == ['.'];
      PlainDot();
      PlainJoin(".", rest);
      PlainJoin(first, "." + rest);
      assert TrimAll([first] + Split(rest, '.')) == [TrimSpace(first)] + TrimAll(Split(rest, '.'));
      assert Keys(ps) == [ps[0].key] + Keys(ps[1..]);
    }
  }

  lemma PlainDot()
    ensures PlainText(".") && PlainText("[[") && PlainText("]]") && PlainText("[") && PlainText("]")
  {
  }

  // ----- The line ------------------------------------------------------------

  // The keys of a header, without blanks at its ends.
  predicate Path(ps: seq<Spaced>) {
    && ps != [] && (forall i :: 0 <= i < |ps| ==> Spelled(ps[i]))
    && ps[0].before == "" && ps[|ps| - 1].after == ""
  }

  lemma {:induction false} DottedEnd(ps: seq<Spaced>)
    requires ps != [] && (forall i :: 0 <= i < |ps| ==> Spelled(ps[i])) && ps[|ps| - 1].after == ""
    ensures Dotted(ps) != "" && !IsSpace(Dotted(ps)[|Dotted(ps)| - 1])
  {
    hide Spelled;
    if |ps| == 1 {
      LastKey(ps[0]);
    } else {
      DottedEnd(ps[1..]);
    }
  }

  lemma LastKey(p: Spaced)
    requires Spelled(p) && p.after == ""
    ensures SpacedText(p) != "" && !IsSpace(SpacedText(p)[|SpacedText(p)| - 1])
  {
    KeyPlain(p.key);
    assert p.key + "" == p.key;
  }

  lemma DottedStart(ps: seq<Spaced>)
    requires Path(ps)
    ensures Dotted(ps) != "" && !IsSpace(Dotted(ps)[0])
  {
    assert Spelled(ps[0]);
    KeyPlain(ps[0].key);
    assert "" + (ps[0].key + ps[0].after) == ps[0].key + ps[0].after;
  }

  // The header in its brackets, with blanks inside them.
  function Bracketed(isArray: bool, x: string, ps: seq<Spaced>, y: string): string
    requires ps != []
  {
    var inner := x + (Dotted(ps) + y);
    if isArray then "[[" + (inner + "]]") else "[" + (inner + "]")
  }

  lemma InnerReads(x: string, ps: seq<Spaced>, y: string)
    requires Blanks(x) && Blanks(y) && Path(ps)
    ensures var inner := x + (Dotted(ps) + y);
            PlainText(inner) && HeaderPath(TrimSpace(inner)) == Some(Keys(ps)) && |inner| > 0
  {
    hide TrimSpace, Split, Dotted, PlainText, TrimAll;
    DottedSplits(ps);
    DottedStart(ps);
    DottedEnd(ps);
    Trimmed(x, Dotted(ps), y);
    BlanksPlain(x);
    BlanksPlain(y);
    PlainJoin(Dotted(ps), y);
    PlainJoin(x, Dotted(ps) + y);
    forall i | 0 <= i < |ps|
      ensures Keys(ps)[i] != ""
    {
      assert Spelled(ps[i]);
    }
  }

  lemma BracketsRead(isArray: bool, x: string, ps: seq<Spaced>, y: string)
    requires Blanks(x) && Blanks(y) && Path(ps)
    ensures var t := Bracketed(isArray, x, ps, y);
            && PlainText(t) && |t| >= 2 && t[0] == '[' && t[|t| - 1] == ']'
            && (isArray <==> |t| >= 4 && t[..2] == "[[" && t[|t| - 2..] == "]]")
            && HeaderPath(TrimSpace(if isArray then t[2..|t| - 2] else t[1..|t| - 1])) == Some(Keys(ps))
  {
    hide TrimSpace, HeaderPath, PlainText, Dotted;
    var inner := x + (Dotted(ps) + y);
    InnerReads(x, ps, y);
    PlainDot();
    PlainJoin(inner, if isArray then "]]" else "]");
    PlainJoin(if isArray then "[[" else "[", inner + (if isArray then "]]" else "]"));
    var t := Bracketed(isArray, x, ps, y);
    if isArray {
      Between("[[", inner, "]]");
    } else {
      Between("[", inner, "]");
      NoBracket(x, ps, y);
      assert t[1] == inner[0];
    }
  }

  lemma Between(a: string, s: string, b: string)
    ensures var t := a + (s + b); t[|a|..|t| - |b|] == s && t[..|a|] == a && t[|t| - |b|..] == b
  {
    var t := a + (s + b);
    assert t[|a|..] == s + b;
    assert t[|a|..|t| - |b|] == t[|a|..][..|s|];
  }

  lemma NoBracket(x: string, ps: seq<Spaced>, y: string)
    requires Blanks(x) && Path(ps)
    ensures var inner := x + (Dotted(ps) + y); inner != "" && inner[0] != '['
  {
    if x == "" {
      assert Spelled(ps[0]);
      assert "" + (ps[0].key + ps[0].after) == ps[0].key + ps[0].after;
      assert Dotted(ps)[0] == ps[0].key[0];
    }
  }

  // A header line is read as its keys, whatever blanks are around them and around the
  // brackets, and whatever comment follows.
  lemma HeaderReads(a: string, isArray: bool, x: string, ps: seq<Spaced>, y: string, b: string, comment: string)
    requires Blanks(a) && Blanks(x) && Blanks(y) && Blanks(b) && Path(ps)
    requires comment == "" || comment[0] == '#'
    ensures ParseHeader(a + (Bracketed(isArray, x, ps, y) + b) + comment) == Some(Header(isArray, Keys(ps)))
  {
    hide TrimSpace, HeaderPath, PlainText, Bracketed, Keys;
    var t := Bracketed(isArray, x, ps, y);
    BracketsRead(isArray, x, ps, y);
    BlanksPlain(a);
    BlanksPlain(b);
    PlainJoin(t, b);
    PlainJoin(a, t + b);
    CodeBefore(a + (t + b), comment);
    Trimmed(a, t, b);
  }

  lemma CodeBefore(p: string, comment: string)
    requires PlainText(p) && (comment == "" || comment[0] == '#')
    ensures Code(p + comment) == p
  {
    PlainHasNoComment(p, comment);
    assert (p + comment)[..|p|] == p;
  }
}
