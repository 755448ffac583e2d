// When a quoted command reads back as itself: the installer quotes with Go's
// rules and the config is read with those of TOML, section "String", where v1.1.0
// has two escapes that v1.0.0 has not.
module CodexQuote {
  import opened Common
  import opened TomlTokens
  import opened CodexBlocks

  function HexDigitValue(c: char): Option<nat> {
    if '0' <= c <= '9' then Some(c as int - '0' as int)
    else if 'a' <= c <= 'f' then Some(c as int - 'a' as int + 10)
    else if 'A' <= c <= 'F' then Some(c as int - 'A' as int + 10)
    else None
  }

  function HexValue(s: string): Option<nat> {
    if s == "" then Some(0)
    else
      var high, low := HexValue(s[..|s| - 1]), HexDigitValue(s[|s| - 1]);
      if high.None? || low.None? then None else Some(16 * high.value + low.value)
  }

  // The character of a code point, if it is a Unicode scalar value.
  function Scalar(n: Option<nat>): Option<char> {
    if n.Some? && (n.value < 0xD800 || 0xE000 <= n.value < 0x11_0000) then Some(n.value as char) else None
  }

  predicate Control(c: char) {
    (c < ' ' && c != '\t') || c == '\U{007F}'
  }

  datatype Version = V10 | V11

  // What the short escapes of a basic string stand for.
  function ShortEscape(v: Version, c: char): Option<char> {
    match c
    case 'e' => if v.V11? then Some('\U{001B}') else None
    case 'b' => Some('\U{0008}')
    case 't' => Some('\t')
    case 'n' => Some('\n')
    case 'f' => Some('\U{000C}')
    case 'r' => Some('\r')
    case '"' => Some('"')
    case '\\' => Some('\\')
    case _ => None
  }

  // How many digits follow an escape of a code point.
  function EscapeDigits(v: Version, letter: char): Option<nat> {
    match letter
    case 'u' => Some(4)
    case 'U' => Some(8)
    case 'x' => if v.V11? then Some(2) else None
    case _ => None
  }

  // The first character of a basic string's content, and how much text it took.
  function FirstChar(v: Version, s: string): (r: Option<(char, nat)>)
    requires s != ""
    ensures r.Some? ==> 1 <= r.value.1 <= |s|
  {
    if s[0] == '"' || (Control(s[0]) && s[0] != '\\') then None
    else if s[0] != '\\' then Some((s[0], 1))
    else if |s| == 1 then None
    else if EscapeDigits(v, s[1]).Some? then
      var n := 2 + EscapeDigits(v, s[1]).value;
      if |s| < n then None
      else
        var c := Scalar(HexValue(s[2..n]));
        if c.None? then None else Some((c.value, n))
    else
      var c := ShortEscape(v, s[1]);
      if c.None? then None else Some((c.value, 2))
  }

  // The value of a basic string's content.
  function Unquote(v: Version, s: string): Option<string> {
    if s == "" then Some("")
    else
      var first := FirstChar(v, s);
      if first.None? then None
      else
        var rest := Unquote(v, s[first.value.1..]);
        if rest.None? then None else Some([first.value.0] + rest.value)
  }

  // Characters that print as themselves are not control characters.
  ghost predicate Printing(printable: char -> bool) {
    forall c :: printable(c) ==> !Control(c) && c != '\t'
  }

  // Go quotes these as \a and \v, which no TOML has.
  predicate Bell(c: char) {
    c == '\U{0007}' || c == '\U{000B}'
  }

  // Go quotes these as \x and two digits.
  predicate Hexed(printable: char -> bool, c: char) {
    && !printable(c) && c as int < 0x80 && !Bell(c)
    && c !in "\"\\\n\r\t" && c != '\U{0008}' && c != '\U{000C}'
  }

  // What the quoted form of a character has no escape for in a version of TOML.
  predicate Foreign(v: Version, printable: char -> bool, c: char) {
    (!printable(c) && Bell(c)) || (v.V10? && Hexed(printable, c))
  }

  predicate Quotable(v: Version, printable: char -> bool, s: string) {
    forall i :: 0 <= i < |s| ==> !Foreign(v, printable, s[i])
  }

  function Power16(k: nat): nat {
    if k == 0 then 1 else 16 * Power16(k - 1)
  }

  function HexText(n: nat, k: nat): string {
    if k == 0 then "" else HexText(n / 16, k - 1) + [HexDigit(n % 16)]
  }

  lemma {:induction false} HexTextValue(n: nat, k: nat)
    requires n < Power16(k)
    ensures |HexText(n, k)| == k && HexValue(HexText(n, k)) == Some(n)
  {
    if k > 0 {
      HexTextValue(n / 16, k - 1);
      assert HexText(n, k)[..k - 1] == HexText(n / 16, k - 1);
      DigitValue(n % 16);
    }
  }

  lemma DigitValue(d: nat)
    requires d < 16
    ensures HexDigitValue(HexDigit(d)) == Some(d)
  {
  }

  lemma {:induction false} UnitsJoin(a: seq<Unit>, b: seq<Unit>)
    ensures UnitsText('"', a + b) == UnitsText('"', a) + UnitsText('"', b)
  {
    if a == [] {
      assert a + b == b;
    } else {
      assert (a + b)[1..] == a[1..] + b;
      UnitsJoin(a[1..], b);
    }
  }

  lemma {:induction false} HexUnitsText(n: nat, k: nat)
    ensures UnitsText('"', HexUnits(n, k)) == HexText(n, k)
  {
    if k > 0 {
      HexUnitsText(n / 16, k - 1);
      UnitsJoin(HexUnits(n / 16, k - 1), [Char(HexDigit(n % 16))]);
      OneUnit(Char(HexDigit(n % 16)));
    }
  }

  lemma OneUnit(u: Unit)
    ensures UnitsText('"', [u]) == UnitText('"', u)
  {
    assert [u][1..] == [];
  }

  // The text of a quoted character.
  function QuotedChar(printable: char -> bool, c: char): string {
    UnitsText('"', QuoteChar(printable, c))
  }

  lemma CodePointRead(v: Version, letter: char, k: nat, c: char, rest: string)
    requires EscapeDigits(v, letter) == Some(k) && c as int < Power16(k)
    ensures FirstChar(v, ['\\', letter] + HexText(c as int, k) + rest) == Some((c, 2 + k))
  {
    HexTextValue(c as int, k);
    var s := ['\\', letter] + HexText(c as int, k) + rest;
    assert s[2..2 + k] == HexText(c as int, k);
  }

  lemma Powers()
    ensures Power16(2) == 0x100 && Power16(4) == 0x10000 && Power16(8) == 0x1_0000_0000
  {
    assert Power16(2) == 256 && Power16(4) == 65536 && Power16(6) == 16777216;
  }

  lemma EscapedUnits(e: char, hex: seq<Unit>)
    ensures UnitsText('"', [Escaped(e)] + hex) == ['\\', e] + UnitsText('"', hex)
  {
    assert ([Escaped(e)] + hex)[1..] == hex;
  }

  // The escape letter of a character that Go quotes by its code point, and how
  // many digits follow it.
  function CodePointForm(c: char): (char, nat) {
    if c as int < 0x80 then ('x', 2) else if c as int < 0x10000 then ('u', 4) else ('U', 8)
  }

  lemma CodePointQuoted(printable: char -> bool, c: char)
    requires Hexed(printable, c) || (c as int >= 0x80 && !printable(c))
    ensures var (letter, k) := CodePointForm(c); QuotedChar(printable, c) == ['\\', letter] + HexText(c as int, k)
  {
    hide UnitsText, HexUnits, HexText;
    var (letter, k) := CodePointForm(c);
    HexUnitsText(c as int, k);
    EscapedUnits(letter, HexUnits(c as int, k));
  }

  // A quoted character reads as itself, or not at all.
  lemma QuotedCharRead(v: Version, printable: char -> bool, c: char, rest: string)
    requires Printing(printable)
    ensures QuotedChar(printable, c) != ""
    ensures FirstChar(v, QuotedChar(printable, c) + rest) ==
            if Foreign(v, printable, c) then None else Some((c, |QuotedChar(printable, c)|))
  {
    hide QuotedChar, FirstChar, HexText, Power16;
    if Foreign(v, printable, c) {
      ForeignChar(v, printable, c, rest);
    } else if Hexed(printable, c) || (c as int >= 0x80 && !printable(c)) {
      var (letter, k) := CodePointForm(c);
      Powers();
      CodePointQuoted(printable, c);
      HexTextValue(c as int, k);
      CodePointRead(v, letter, k, c, rest);
    } else {
      ShortChar(v, printable, c, rest);
    }
  }

  lemma ForeignChar(v: Version, printable: char -> bool, c: char, rest: string)
    requires Foreign(v, printable, c)
    ensures QuotedChar(printable, c) != "" && FirstChar(v, QuotedChar(printable, c) + rest) == None
  {
    var q := QuotedChar(printable, c);
    if Bell(c) {
      OneUnit(Escaped(if c == '\U{0007}' then 'a' else 'v'));
    } else {
      EscapedUnits('x', HexUnits(c as int, 2));
    }
    assert q[0] == '\\' && (if Bell(c) then q[1] in "av" else q[1] == 'x');
    assert (q + rest)[0] == q[0] && (q + rest)[1] == q[1];
  }

  lemma ShortChar(v: Version, printable: char -> bool, c: char, rest: string)
    requires Printing(printable) && !(!printable(c) && Bell(c)) && !Hexed(printable, c)
    requires c as int < 0x80 || printable(c)
    ensures QuotedChar(printable, c) != ""
    ensures FirstChar(v, QuotedChar(printable, c) + rest) == Some((c, |QuotedChar(printable, c)|))
  {
    var q := QuotedChar(printable, c);
    if c in "\"\\" {
      OneUnit(Escaped(c));
    } else if c == '\n' {
      OneUnit(Escaped('n'));
    } else if printable(c) {
      OneUnit(Char(c));
    } else {
      OneUnit(Escaped(if c == '\r' then 'r' else if c == '\t' then 't' else if c == '\U{0008}' then 'b' else 'f'));
    }
    assert (q + rest)[..|q|] == q;
    assert (q + rest)[0] == q[0] && (|q| == 2 ==> (q + rest)[1] == q[1]);
  }

  // A quoted command reads back as itself exactly when every one of its
  // characters has an escape in that version of TOML or prints as itself;
  // otherwise it does not read.
  lemma {:induction false} QuoteReadsBack(v: Version, printable: char -> bool, s: string)
    requires Printing(printable)
    ensures Unquote(v, UnitsText('"', QuoteUnits(printable, s))) == if Quotable(v, printable, s) then Some(s) else None
  {
    if s != "" {
      var q, more := QuotedChar(printable, s[0]), UnitsText('"', QuoteUnits(printable, s[1..]));
      hide Foreign, Quotable, UnitsText, QuoteChar;
      UnitsJoin(QuoteChar(printable, s[0]), QuoteUnits(printable, s[1..]));
      QuotedCharRead(v, printable, s[0], more);
      QuoteReadsBack(v, printable, s[1..]);
      QuotableStep(v, printable, s);
      assert (q + more)[|q|..] == more && [s[0]] + s[1..] == s;
    } else {
      assert Quotable(v, printable, s);
    }
  }

  lemma QuotableStep(v: Version, printable: char -> bool, s: string)
    requires s != ""
    ensures Quotable(v, printable, s) <==> !Foreign(v, printable, s[0]) && Quotable(v, printable, s[1..])
  {
    hide Foreign;
    if !Foreign(v, printable, s[0]) && Quotable(v, printable, s[1..]) {
      forall i | 0 <= i < |s|
        ensures !Foreign(v, printable, s[i])
      {
        if i > 0 { assert s[i] == s[1..][i - 1]; }
      }
    }
    if Quotable(v, printable, s) {
      forall i | 0 <= i < |s[1..]|
        ensures !Foreign(v, printable, s[1..][i])
      {
        assert s[1..][i] == s[i + 1];
      }
    }
  }

  // TOML v1.1.0 leaves only the bell and the vertical tab.
  lemma QuotableIff(printable: char -> bool, s: string)
    requires Printing(printable)
    ensures Quotable(V11, printable, s) <==> '\U{0007}' !in s && '\U{000B}' !in s
  {
    if '\U{0007}' !in s && '\U{000B}' !in s {
      assert forall i :: 0 <= i < |s| ==> s[i] in s;
    }
    if Quotable(V11, printable, s) {
      forall i | 0 <= i < |s|
        ensures !Bell(s[i])
      {
        assert !Foreign(V11, printable, s[i]);
      }
    }
  }
}
