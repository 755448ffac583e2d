// Attribute values in the JSON form of protobuf: how a tree is written, and the
// decoder that reads it.
module ProtoJson {
  import opened Common
  import opened Utf8
  import opened ProtoWire
  import opened ProtoValues

  // A parsed JSON text. Strings are the bytes between their quotes, with the
  // escapes taken out, and numbers are their bytes.
  datatype Node =
    | Null
    | Boolean(b: bool)
    | Num(text: Bytes)
    | Quoted(s: Bytes)
    | Arr(items: seq<Node>)
    | Obj(members: seq<Member>)

  datatype Member = Member(key: string, value: Node)

  // The library codecs for byte strings and floating-point numbers.
  datatype Library = Library(
    base64: Bytes -> Bytes,
    unbase64: Bytes -> Option<Bytes>,
    floatText: nat -> Bytes,
    parseFloat: Bytes -> Option<nat>)

  // Infinities and NaNs have an exponent of ones.
  predicate Finite(bits: nat) {
    bits / 0x10_0000_0000_0000 % 2048 != 2047
  }

  predicate IsAscii(s: Bytes) {
    forall i :: 0 <= i < |s| ==> s[i] < 0x80
  }

  ghost predicate Faithful(lib: Library) {
    && (forall b :: lib.unbase64(lib.base64(b)) == Some(b) && IsAscii(lib.base64(b)))
    && (forall bits: nat :: bits < UINT64 && Finite(bits) ==> lib.parseFloat(lib.floatText(bits)) == Some(bits))
  }

  // ----- Decimal integers ----------------------------------------------------

  function Digits(n: nat): (s: Bytes)
    ensures s != [] && forall i :: 0 <= i < |s| ==> 48 <= s[i] <= 57
  {
    if n < 10 then [48 + n] else Digits(n / 10) + [48 + n % 10]
  }

  function Decimal(i: int): Bytes {
    if i < 0 then [45] + Digits(-i) else Digits(i)
  }

  function DigitsValue(s: Bytes): nat
    requires forall i :: 0 <= i < |s| ==> 48 <= s[i] <= 57
  {
    if s == [] then 0 else 10 * DigitsValue(s[..|s| - 1]) + (s[|s| - 1] - 48)
  }

  predicate AllDigits(s: Bytes) {
    s != [] && forall i :: 0 <= i < |s| ==> 48 <= s[i] <= 57
  }

  // strconv.ParseInt in base 10 with 64 bits.
  function ParseInt(s: Bytes): Option<int> {
    var signed := s != [] && (s[0] == 43 || s[0] == 45);
    var digits := if signed then s[1..] else s;
    if !AllDigits(digits) then None
    else
      var n: int := if signed && s[0] == 45 then -(DigitsValue(digits) as int) else DigitsValue(digits);
      if -INT64 <= n < INT64 then Some(n) else None
  }

  lemma {:induction false} DigitsReadBack(n: nat)
    ensures AllDigits(Digits(n)) && DigitsValue(Digits(n)) == n
  {
    if n >= 10 {
      DigitsReadBack(n / 10);
      assert Digits(n)[..|Digits(n)| - 1] == Digits(n / 10);
    }
  }

  lemma DecimalReadsBack(i: int)
    requires -INT64 <= i < INT64
    ensures ParseInt(Decimal(i)) == Some(i)
  {
    if i < 0 {
      DigitsReadBack(-i);
      assert Decimal(i)[1..] == Digits(-i);
    } else {
      DigitsReadBack(i);
    }
  }

  // ----- Reading -------------------------------------------------------------

  // The one key of an object, and its last value.
  function OnlyMember(members: seq<Member>): Option<Member> {
    if members != [] && forall i :: 0 <= i < |members| ==> members[i].key == members[0].key
    then Some(members[|members| - 1]) else None
  }

  // The last value of a key of an object decoded into a struct; null without one.
  function Lookup(members: seq<Member>, key: string): (v: Node)
    ensures v.Null? || exists i :: 0 <= i < |members| && members[i].value == v
  {
    if members == [] then Null
    else if members[|members| - 1].key == key then members[|members| - 1].value
    else Lookup(members[..|members| - 1], key)
  }

  // Decoding into a string: null leaves it empty, and bytes that are not UTF-8
  // are replaced.
  function TextOf(j: Node): Option<Bytes> {
    match j
    case Quoted(s) => Some(Repaired(s))
    case Null => Some([])
    case _ => None
  }

  function NumberOf(lib: Library, text: Bytes): Option<Value> {
    var i := ParseInt(text);
    if i.Some? then Some(Int(i.value))
    else
      var f := lib.parseFloat(text);
      if f.Some? then Some(Double(f.value)) else None
  }

  // UnmarshalJSON
  function FromNode(lib: Library, j: Node): Option<Value>
    decreases j, 1
  {
    match j
    case Quoted(s) => Some(Text(Repaired(s)))
    case Boolean(b) => Some(Flag(b))
    case Null => Some(Nil)
    case Num(text) => NumberOf(lib, text)
    case Arr(items) =>
      var vs := FromNodes(lib, items);
      if vs.Some? then Some(List(vs.value)) else None
    case Obj(members) =>
      var one := OnlyMember(members);
      if one.None? then None else FromOneof(lib, one.value)
  }

  function FromNodes(lib: Library, items: seq<Node>): Option<seq<Value>>
    decreases items
  {
    if items == [] then Some([])
    else
      var first, rest := FromNode(lib, items[0]), FromNodes(lib, items[1..]);
      if first.None? || rest.None? then None else Some([first.value] + rest.value)
  }

  // An array field of a struct; null and absence leave it unset.
  function FromArray(lib: Library, members: seq<Member>, key: string): Option<Option<seq<Value>>>
    decreases members
  {
    var v := Lookup(members, key);
    if v.Null? then Some(None)
    else if !v.Arr? then None
    else
      var vs := FromNodes(lib, v.items);
      if vs.Some? then Some(Some(vs.value)) else None
  }

  // The object form: one key that names the field of the oneof.
  function FromOneof(lib: Library, m: Member): Option<Value>
    decreases m, 1
  {
    if m.key == "stringValue" then
      var s := TextOf(m.value);
      if s.Some? then Some(Text(s.value)) else None
    else if m.key == "boolValue" then
      if m.value.Boolean? then Some(Flag(m.value.b)) else if m.value.Null? then Some(Flag(false)) else None
    else if m.key == "intValue" then
      var s := TextOf(m.value);
      if s.Some? then
        var i := ParseInt(s.value);
        if i.Some? then Some(Int(i.value)) else None
      else
        var v := FromNode(lib, m.value);
        if v.Some? && (v.value.Int? || v.value.Double?) then v else None
    else if m.key == "doubleValue" then
      if m.value.Null? then Some(Double(0))
      else if m.value.Num? then
        var f := lib.parseFloat(m.value.text);
        if f.Some? then Some(Double(f.value)) else None
      else None
    else if m.key == "bytesValue" then
      var s := TextOf(m.value);
      if s.None? then None
      else
        var b := lib.unbase64(s.value);
        if b.Some? then Some(Blob(b.value)) else None
    else if m.key == "arrayValue" then
      if m.value.Null? then Some(List([]))
      else if !m.value.Obj? then None
      else
        var values := FromArray(lib, m.value.members, "values");
        var elements := FromArray(lib, m.value.members, "elements");
        if values.None? || elements.None? then None
        else
          var items := if values.value.Some? then values.value else elements.value;
          Some(List(if items.Some? then items.value else []))
    else if m.key == "kvlistValue" then
      if m.value.Null? then Some(Map(map[]))
      else if !m.value.Obj? then None
      else
        var v := Lookup(m.value.members, "values");
        if v.Null? then Some(Map(map[]))
        else if !v.Arr? then None
        else
          var kvs := FromPairs(lib, v.items, map[]);
          if kvs.Some? then Some(Map(kvs.value)) else None
    else None
  }

  // Key-value objects, entered in order.
  function FromPairs(lib: Library, items: seq<Node>, before: map<Bytes, Value>): Option<map<Bytes, Value>>
    decreases items
  {
    if items == [] then Some(before)
    else
      var kv := FromPair(lib, items[0]);
      if kv.None? then None else FromPairs(lib, items[1..], before[kv.value.0 := kv.value.1])
  }

  function FromPair(lib: Library, j: Node): Option<(Bytes, Value)>
    decreases j, 1
  {
    match j
    case Null => Some(([], Nil))
    case Obj(members) =>
      var key := TextOf(Lookup(members, "key"));
      var v := Lookup(members, "value");
      var value := if v.Null? then Some(Nil) else FromNode(lib, v);
      if key.None? || value.None? then None else Some((key.value, value.value))
    case _ => None
  }

  // How deep arrays and objects nest.
  function Nesting(j: Node): nat
    decreases j
  {
    match j
    case Arr(items) => 1 + DeepestItem(items)
    case Obj(members) => 1 + DeepestMember(members)
    case _ => 0
  }

  function DeepestItem(items: seq<Node>): nat
    decreases items
  {
    if items == [] then 0 else Max(Nesting(items[0]), DeepestItem(items[1..]))
  }

  function DeepestMember(members: seq<Member>): nat
    decreases members
  {
    if members == [] then 0 else Max(Nesting(members[0].value), DeepestMember(members[1..]))
  }

  const MAX_NESTING := 10000

  // Reading a value with some arrays and objects open around it; encoding/json
  // refuses text that nests too deep before any of it is decoded.
  function Read(lib: Library, open: nat, j: Node): Option<Value> {
    if open + Nesting(j) > MAX_NESTING then None else FromNode(lib, j)
  }

  // ----- Writing -------------------------------------------------------------

  function One(key: string, value: Node): Node {
    Obj([Member(key, value)])
  }

  // NaN and the infinities have no JSON number.
  function FloatNode(lib: Library, bits: nat): Node {
    if Finite(bits) then Num(lib.floatText(bits))
    else if bits % 0x10_0000_0000_0000 != 0 then Quoted([78, 97, 78])
    else if bits < INT64 then Quoted([73, 110, 102, 105, 110, 105, 116, 121])
    else Quoted([45, 73, 110, 102, 105, 110, 105, 116, 121])
  }

  function ToNode(lib: Library, t: Tree): Node
    decreases t
  {
    match t
    case Str(s) => One("stringValue", Quoted(s))
    case Bool(b) => One("boolValue", Boolean(b))
    case Integer(i) => One("intValue", Quoted(Decimal(i)))
    case Float(bits) => One("doubleValue", FloatNode(lib, bits))
    case Raw(raw) => One("bytesValue", Quoted(lib.base64(raw)))
    case Items(items) => One("arrayValue", One("values", Arr(ToNodes(lib, items))))
    case Pairs(pairs) => One("kvlistValue", One("values", Arr(PairNodes(lib, pairs))))
  }

  function ToNodes(lib: Library, items: seq<Tree>): seq<Node>
    decreases items
  {
    if items == [] then [] else [ToNode(lib, items[0])] + ToNodes(lib, items[1..])
  }

  function PairNodes(lib: Library, pairs: seq<Pair>): seq<Node>
    decreases pairs
  {
    if pairs == [] then []
    else
      [Obj([Member("key", Quoted(pairs[0].key)), Member("value", ToNode(lib, pairs[0].value))])] +
      PairNodes(lib, pairs[1..])
  }

  // ----- Reading what was written --------------------------------------------

  predicate AllFinite(t: Tree)
    decreases t
  {
    match t
    case Float(bits) => Finite(bits)
    case Items(items) => forall i :: 0 <= i < |items| ==> AllFinite(items[i])
    case Pairs(pairs) => forall i :: 0 <= i < |pairs| ==> AllFinite(pairs[i].value)
    case _ => true
  }

  lemma OneRead(lib: Library, key: string, value: Node)
    ensures FromNode(lib, One(key, value)) == FromOneof(lib, Member(key, value))
    ensures One(key, value).members == [Member(key, value)]
  {
    hide FromOneof;
    assert OnlyMember([Member(key, value)]) == Some(Member(key, value));
  }

  lemma LookupOne(key: string, value: Node, other: string)
    ensures Lookup([Member(key, value)], other) == if other == key then value else Null
  {
    assert [Member(key, value)][..0] == [];
  }

  lemma ArrayRead(lib: Library, items: seq<Node>)
    ensures FromNode(lib, One("arrayValue", One("values", Arr(items)))) ==
            var vs := FromNodes(lib, items); if vs.Some? then Some(List(vs.value)) else None
  {
    var inner := One("values", Arr(items));
    OneRead(lib, "arrayValue", inner);
    LookupOne("values", Arr(items), "values");
    LookupOne("values", Arr(items), "elements");
    hide FromNodes, Lookup, FromNode;
    assert FromArray(lib, inner.members, "elements") == Some(None);
  }

  lemma PairsRead(lib: Library, items: seq<Node>)
    ensures FromNode(lib, One("kvlistValue", One("values", Arr(items)))) ==
            var kvs := FromPairs(lib, items, map[]); if kvs.Some? then Some(Map(kvs.value)) else None
  {
    var inner := One("values", Arr(items));
    OneRead(lib, "kvlistValue", inner);
    LookupOne("values", Arr(items), "values");
    hide FromPairs, Lookup, FromNode;
  }

  lemma PairRead(lib: Library, key: Bytes, value: Node)
    requires !value.Null?
    ensures FromPair(lib, Obj([Member("key", Quoted(key)), Member("value", value)])) ==
            var v := FromNode(lib, value); if v.None? then None else Some((Repaired(key), v.value))
  {
    var ms := [Member("key", Quoted(key)), Member("value", value)];
    assert ms[..1] == [Member("key", Quoted(key))];
    LookupOne("key", Quoted(key), "key");
    assert Lookup(ms, "key") == Quoted(key) && Lookup(ms, "value") == value;
    hide FromNode;
  }

  lemma FloatRead(lib: Library, bits: nat)
    requires Faithful(lib) && bits < UINT64
    ensures FromNode(lib, One("doubleValue", FloatNode(lib, bits))) == if Finite(bits) then Some(Double(bits)) else None
  {
    OneRead(lib, "doubleValue", FloatNode(lib, bits));
    hide FromNode;
  }

  // A tree as the JSON reader understands it: strings and keys that are not
  // UTF-8 are repaired.
  function Mended(t: Tree): Tree
    decreases t
  {
    match t
    case Str(s) => Str(Repaired(s))
    case Items(items) => Items(MendedItems(items))
    case Pairs(pairs) => Pairs(MendedPairs(pairs))
    case _ => t
  }

  function MendedItems(items: seq<Tree>): seq<Tree>
    decreases items
  {
    if items == [] then [] else [Mended(items[0])] + MendedItems(items[1..])
  }

  function MendedPairs(pairs: seq<Pair>): seq<Pair>
    decreases pairs
  {
    if pairs == [] then []
    else [Pair(Repaired(pairs[0].key), Mended(pairs[0].value))] + MendedPairs(pairs[1..])
  }

  lemma AsciiStays(s: Bytes)
    requires IsAscii(s)
    ensures Repaired(s) == s
  {
    AsciiValid(s);
    ValidStays(s);
  }

  // What a tree's JSON form decodes to: the meaning of the mended tree, when all
  // its doubles are finite.
  lemma {:induction false} NodeDecodes(lib: Library, t: Tree)
    requires Faithful(lib) && Sound(t)
    ensures FromNode(lib, ToNode(lib, t)) == if AllFinite(t) then Some(Meaning(Mended(t))) else None
    decreases t, 1
  {
    hide FromNode, FromNodes, FromPairs, Meanings, Entries, ToNodes, PairNodes, Finite, FloatNode, MendedItems,
      MendedPairs, Repaired;
    match t
    case Str(s) => OneRead(lib, "stringValue", Quoted(s));
    case Bool(b) => OneRead(lib, "boolValue", Boolean(b));
    case Integer(i) =>
      OneRead(lib, "intValue", Quoted(Decimal(i)));
      AsciiStays(Decimal(i));
      DecimalReadsBack(i);
    case Float(bits) => FloatRead(lib, bits);
    case Raw(raw) =>
      OneRead(lib, "bytesValue", Quoted(lib.base64(raw)));
      AsciiStays(lib.base64(raw));
    case Items(items) =>
      ArrayRead(lib, ToNodes(lib, items));
      ItemsRead(lib, items);
    case Pairs(pairs) =>
      PairsRead(lib, PairNodes(lib, pairs));
      EntriesRead(lib, pairs, map[]);
  }

  lemma {:induction false} ItemsRead(lib: Library, items: seq<Tree>)
    requires Faithful(lib) && forall i :: 0 <= i < |items| ==> Sound(items[i])
    ensures FromNodes(lib, ToNodes(lib, items)) ==
            if forall i :: 0 <= i < |items| ==> AllFinite(items[i]) then Some(Meanings(MendedItems(items))) else None
    decreases items, 0
  {
    hide FromNode, ToNode, AllFinite, Sound, Meaning, Mended;
    if items != [] {
      NodeDecodes(lib, items[0]);
      ItemsRead(lib, items[1..]);
      var ns := ToNodes(lib, items);
      assert ns[1..] == ToNodes(lib, items[1..]);
      assert MendedItems(items)[1..] == MendedItems(items[1..]);
      assert forall i :: 0 < i < |items| ==> items[i] == items[1..][i - 1];
    }
  }

  lemma {:induction false} EntriesRead(lib: Library, pairs: seq<Pair>, before: map<Bytes, Value>)
    requires Faithful(lib) && forall i :: 0 <= i < |pairs| ==> Sound(pairs[i].value)
    ensures FromPairs(lib, PairNodes(lib, pairs), before) ==
            if forall i :: 0 <= i < |pairs| ==> AllFinite(pairs[i].value)
            then Some(Entries(before, MendedPairs(pairs))) else None
    decreases pairs, 0
  {
    hide FromNode, ToNode, AllFinite, Sound, Meaning, FromPair, Mended, Repaired;
    if pairs != [] {
      NodeDecodes(lib, pairs[0].value);
      NodeNotNull(lib, pairs[0].value);
      PairRead(lib, pairs[0].key, ToNode(lib, pairs[0].value));
      var ns := PairNodes(lib, pairs);
      assert ns[1..] == PairNodes(lib, pairs[1..]);
      assert MendedPairs(pairs)[1..] == MendedPairs(pairs[1..]);
      EntriesRead(lib, pairs[1..], before[Repaired(pairs[0].key) := Meaning(Mended(pairs[0].value))]);
      assert forall i :: 0 < i < |pairs| ==> pairs[i] == pairs[1..][i - 1];
    }
  }

  lemma NodeNotNull(lib: Library, t: Tree)
    ensures !ToNode(lib, t).Null?
  {
  }
}
