// When the two decoders of attribute values agree.
module ProtoAgreement {
  import opened Common
  import opened Utf8
  import opened ProtoWire
  import opened ProtoValues
  import opened ProtoJson

  // Every string and key is UTF-8, as the span sanitizer demands.
  predicate Clean(v: Value)
    decreases v
  {
    match v
    case Text(s) => ValidUtf8(s)
    case List(items) => forall i :: 0 <= i < |items| ==> Clean(items[i])
    case Map(entries) => forall k :: k in entries ==> ValidUtf8(k) && Clean(entries[k])
    case _ => true
  }

  // ----- What the JSON reader hands on ---------------------------------------

  lemma TextIsValid(j: Node)
    ensures TextOf(j).Some? ==> ValidUtf8(TextOf(j).value)
  {
    if j.Quoted? { RepairedIsValid(j.s); }
  }

  // Whatever the JSON reader accepts is UTF-8, so the sanitizer never rejects a
  // span over the text of its JSON attributes.
  lemma {:induction false} JsonIsClean(lib: Library, j: Node)
    ensures FromNode(lib, j).Some? ==> Clean(FromNode(lib, j).value)
    decreases j, 1
  {
    hide FromOneof, FromNodes, Repaired;
    match j
    case Quoted(s) => RepairedIsValid(s);
    case Arr(items) => ItemsAreClean(lib, items);
    case Obj(members) =>
      if OnlyMember(members).Some? { OneofIsClean(lib, OnlyMember(members).value); }
    case _ =>
  }

  lemma {:induction false} ItemsAreClean(lib: Library, items: seq<Node>)
    ensures FromNodes(lib, items).Some? ==>
              forall i :: 0 <= i < |FromNodes(lib, items).value| ==> Clean(FromNodes(lib, items).value[i])
    decreases items
  {
    hide FromNode, Clean;
    if items != [] {
      JsonIsClean(lib, items[0]);
      ItemsAreClean(lib, items[1..]);
    }
  }

  lemma {:induction false} OneofIsClean(lib: Library, m: Member)
    ensures FromOneof(lib, m).Some? ==> Clean(FromOneof(lib, m).value)
    decreases m, 1
  {
    hide FromNode, FromNodes, FromPairs, FromArray, Lookup, Clean;
    TextIsValid(m.value);
    CleanLeaves();
    if m.key == "intValue" && TextOf(m.value).None? {
      JsonIsClean(lib, m.value);
    } else if m.key == "arrayValue" && m.value.Obj? {
      ArrayIsClean(lib, m.value.members, "values");
      ArrayIsClean(lib, m.value.members, "elements");
    } else if m.key == "kvlistValue" && m.value.Obj? {
      var values := Lookup(m.value.members, "values");
      if values.Arr? { PairsAreClean(lib, values.items, map[]); }
    }
  }

  lemma CleanLeaves()
    ensures forall s :: ValidUtf8(s) ==> Clean(Text(s))
    ensures forall b :: Clean(Flag(b))
    ensures forall i :: Clean(Int(i))
    ensures forall n: nat :: Clean(Double(n))
    ensures forall b :: Clean(Blob(b))
    ensures Clean(List([])) && Clean(Map(map[]))
  {
  }

  lemma {:induction false} ArrayIsClean(lib: Library, members: seq<Member>, key: string)
    ensures var vs := FromArray(lib, members, key); vs.Some? && vs.value.Some? ==> Clean(List(vs.value.value))
    decreases members
  {
    hide FromNodes, Lookup;
    var v := Lookup(members, key);
    if v.Arr? { ItemsAreClean(lib, v.items); }
  }

  lemma {:induction false} PairsAreClean(lib: Library, items: seq<Node>, before: map<Bytes, Value>)
    requires Clean(Map(before))
    ensures FromPairs(lib, items, before).Some? ==> Clean(Map(FromPairs(lib, items, before).value))
    decreases items
  {
    hide FromPair;
    if items != [] {
      PairIsClean(lib, items[0]);
      var kv := FromPair(lib, items[0]);
      if kv.Some? { PairsAreClean(lib, items[1..], before[kv.value.0 := kv.value.1]); }
    }
  }

  lemma {:induction false} PairIsClean(lib: Library, j: Node)
    ensures FromPair(lib, j).Some? ==> ValidUtf8(FromPair(lib, j).value.0) && Clean(FromPair(lib, j).value.1)
    decreases j, 1
  {
    hide FromNode, Lookup, TextOf;
    if j.Obj? {
      TextIsValid(Lookup(j.members, "key"));
      var v := Lookup(j.members, "value");
      if !v.Null? { JsonIsClean(lib, v); }
    }
  }

  // ----- Mending -------------------------------------------------------------

  lemma {:induction false} MendedIsClean(t: Tree)
    ensures Clean(Meaning(Mended(t)))
    decreases t, 1
  {
    hide Repaired, Meanings, Entries;
    match t
    case Str(s) => RepairedIsValid(s);
    case Items(items) => MendedItemsAreClean(items);
    case Pairs(pairs) => MendedPairsAreClean(pairs, map[]);
    case _ =>
  }

  lemma {:induction false} MendedItemsAreClean(items: seq<Tree>)
    ensures forall i :: 0 <= i < |Meanings(MendedItems(items))| ==> Clean(Meanings(MendedItems(items))[i])
    decreases items
  {
    hide Meaning, Mended, Clean;
    if items != [] {
      MendedIsClean(items[0]);
      MendedItemsAreClean(items[1..]);
      assert MendedItems(items)[1..] == MendedItems(items[1..]);
    }
  }

  lemma {:induction false} MendedPairsAreClean(pairs: seq<Pair>, before: map<Bytes, Value>)
    requires Clean(Map(before))
    ensures Clean(Map(Entries(before, MendedPairs(pairs))))
    decreases pairs
  {
    hide Meaning, Mended, Repaired;
    if pairs != [] {
      var k, v := Repaired(pairs[0].key), Meaning(Mended(pairs[0].value));
      RepairedIsValid(pairs[0].key);
      MendedIsClean(pairs[0].value);
      MendedPairsAreClean(pairs[1..], before[k := v]);
      assert MendedPairs(pairs)[1..] == MendedPairs(pairs[1..]);
    }
  }

  // Mending keeps the meaning of a tree exactly when that meaning is clean: a
  // pair that a later one with its key replaces may hold any bytes.
  lemma {:induction false} MendedIff(t: Tree)
    ensures Meaning(Mended(t)) == Meaning(t) <==> Clean(Meaning(t))
  {
    MendedIsClean(t);
    if Clean(Meaning(t)) { CleanStays(t); }
  }

  lemma {:induction false} CleanStays(t: Tree)
    requires Clean(Meaning(t))
    ensures Meaning(Mended(t)) == Meaning(t)
    decreases t, 1
  {
    hide Repaired, Meanings, Entries, MendedItems, MendedPairs;
    match t
    case Str(s) => ValidStays(s);
    case Items(items) => CleanItemsStay(items);
    case Pairs(pairs) => CleanPairsStay(pairs, map[], map[]);
    case _ =>
  }

  lemma {:induction false} CleanItemsStay(items: seq<Tree>)
    requires forall i :: 0 <= i < |Meanings(items)| ==> Clean(Meanings(items)[i])
    ensures Meanings(MendedItems(items)) == Meanings(items)
    decreases items
  {
    hide Meaning, Mended, Clean;
    if items != [] {
      var rest := Meanings(items[1..]);
      assert Meanings(items)[0] == Meaning(items[0]);
      assert forall i :: 0 <= i < |rest| ==> rest[i] == Meanings(items)[i + 1];
      CleanStays(items[0]);
      CleanItemsStay(items[1..]);
      assert MendedItems(items)[1..] == MendedItems(items[1..]);
    }
  }

  predicate HasKey(pairs: seq<Pair>, key: Bytes) {
    exists i :: 0 <= i < |pairs| && pairs[i].key == key
  }

  // Two maps that differ only at keys that the pairs set again.
  ghost predicate SameApart(a: map<Bytes, Value>, b: map<Bytes, Value>, pairs: seq<Pair>) {
    forall k :: (k in a || k in b) && !HasKey(pairs, k) ==> k in a && k in b && a[k] == b[k]
  }

  lemma {:induction false} CleanPairsStay(pairs: seq<Pair>, a: map<Bytes, Value>, b: map<Bytes, Value>)
    requires Clean(Map(Entries(b, pairs))) && SameApart(a, b, pairs)
    ensures Entries(a, MendedPairs(pairs)) == Entries(b, pairs)
    decreases pairs
  {
    hide Meaning, Mended, Repaired;
    if pairs == [] {
      assert forall k :: k in a || k in b ==> !HasKey(pairs, k);
      assert a == b;
    } else {
      var k, v, rest := pairs[0].key, pairs[0].value, pairs[1..];
      KeyIsClean(pairs, b);
      ValidStays(k);
      var a', b' := a[k := Meaning(Mended(v))], b[k := Meaning(v)];
      if !HasKey(rest, k) {
        OtherPairs(b', rest, k);
        CleanStays(v);
      }
      forall x | (x in a' || x in b') && !HasKey(rest, x)
        ensures x in a' && x in b' && a'[x] == b'[x]
      {
        KeyFromRest(pairs, x);
      }
      CleanPairsStay(rest, a', b');
      assert MendedPairs(pairs)[1..] == MendedPairs(rest);
    }
  }

  lemma KeyFromRest(pairs: seq<Pair>, x: Bytes)
    requires pairs != []
    ensures HasKey(pairs, x) ==> x == pairs[0].key || HasKey(pairs[1..], x)
  {
    if i :| 0 <= i < |pairs| && pairs[i].key == x {
      if i > 0 { assert pairs[1..][i - 1].key == x; }
    }
  }

  // The first pair's key is an entry.
  lemma KeyIsClean(pairs: seq<Pair>, before: map<Bytes, Value>)
    requires pairs != [] && Clean(Map(Entries(before, pairs)))
    ensures ValidUtf8(pairs[0].key)
  {
    KeysStay(before[pairs[0].key := Meaning(pairs[0].value)], pairs[1..], pairs[0].key);
  }

  lemma {:induction false} KeysStay(before: map<Bytes, Value>, pairs: seq<Pair>, key: Bytes)
    requires key in before
    ensures key in Entries(before, pairs)
    decreases |pairs|
  {
    if pairs != [] { KeysStay(before[pairs[0].key := Meaning(pairs[0].value)], pairs[1..], key); }
  }

  // ----- Nesting -------------------------------------------------------------

  // How deep the JSON form of a tree nests.
  function TreeNesting(t: Tree): nat
    decreases t
  {
    match t
    case Items(items) => 3 + DeepestTree(items)
    case Pairs(pairs) => 3 + DeepestPair(pairs)
    case _ => 1
  }

  function DeepestTree(items: seq<Tree>): nat
    decreases items
  {
    if items == [] then 0 else Max(TreeNesting(items[0]), DeepestTree(items[1..]))
  }

  function DeepestPair(pairs: seq<Pair>): nat
    decreases pairs
  {
    if pairs == [] then 0 else Max(1 + TreeNesting(pairs[0].value), DeepestPair(pairs[1..]))
  }

  lemma NestingOne(key: string, value: Node)
    ensures Nesting(One(key, value)) == 1 + Nesting(value)
  {
    var ms := [Member(key, value)];
    assert ms[1..] == [];
    assert DeepestMember(ms) == Max(Nesting(value), 0);
  }

  lemma {:induction false} NodeNesting(lib: Library, t: Tree)
    ensures Nesting(ToNode(lib, t)) == TreeNesting(t)
    decreases t, 1
  {
    hide Nesting, DeepestItem, ToNodes, PairNodes, One;
    match t
    case Str(s) => NestingOne("stringValue", Quoted(s)); FlatNesting(Quoted(s));
    case Bool(b) => NestingOne("boolValue", Boolean(b)); FlatNesting(Boolean(b));
    case Integer(i) => NestingOne("intValue", Quoted(Decimal(i))); FlatNesting(Quoted(Decimal(i)));
    case Float(bits) => NestingOne("doubleValue", FloatNode(lib, bits)); FlatNesting(FloatNode(lib, bits));
    case Raw(raw) => NestingOne("bytesValue", Quoted(lib.base64(raw))); FlatNesting(Quoted(lib.base64(raw)));
    case Items(items) =>
      var ns := ToNodes(lib, items);
      NestingOne("values", Arr(ns));
      NestingOne("arrayValue", One("values", Arr(ns)));
      FlatNesting(Arr(ns));
      ItemsNesting(lib, items);
    case Pairs(pairs) =>
      var ns := PairNodes(lib, pairs);
      NestingOne("values", Arr(ns));
      NestingOne("kvlistValue", One("values", Arr(ns)));
      FlatNesting(Arr(ns));
      PairsNesting(lib, pairs);
  }

  lemma FlatNesting(j: Node)
    ensures j.Arr? ==> Nesting(j) == 1 + DeepestItem(j.items)
    ensures !j.Arr? && !j.Obj? ==> Nesting(j) == 0
  {
  }

  lemma {:induction false} ItemsNesting(lib: Library, items: seq<Tree>)
    ensures DeepestItem(ToNodes(lib, items)) == DeepestTree(items)
    decreases items
  {
    hide Nesting, TreeNesting, ToNode;
    if items != [] {
      NodeNesting(lib, items[0]);
      ItemsNesting(lib, items[1..]);
      assert ToNodes(lib, items)[1..] == ToNodes(lib, items[1..]);
    }
  }

  lemma {:induction false} PairsNesting(lib: Library, pairs: seq<Pair>)
    ensures DeepestItem(PairNodes(lib, pairs)) == DeepestPair(pairs)
    decreases pairs
  {
    hide TreeNesting, ToNode;
    if pairs != [] {
      NodeNesting(lib, pairs[0].value);
      PairsNesting(lib, pairs[1..]);
      PairNesting(pairs[0].key, ToNode(lib, pairs[0].value));
      assert PairNodes(lib, pairs)[1..] == PairNodes(lib, pairs[1..]);
    }
  }

  lemma PairNesting(key: Bytes, value: Node)
    ensures Nesting(Obj([Member("key", Quoted(key)), Member("value", value)])) == 1 + Nesting(value)
  {
    var ms := [Member("key", Quoted(key)), Member("value", value)];
    assert ms[1..] == [Member("value", value)] && ms[1..][1..] == [];
    assert DeepestMember(ms[1..]) == Max(Nesting(value), DeepestMember([]));
    assert DeepestMember(ms) == Max(0, DeepestMember(ms[1..]));
  }

  // The protobuf limit keeps the JSON form shallow.
  lemma {:induction false} NestingBound(t: Tree)
    ensures TreeNesting(t) <= 1 + 2 * Height(t)
    decreases t, 1
  {
    match t
    case Items(items) => ItemsBound(items);
    case Pairs(pairs) => PairsBound(pairs);
    case _ =>
  }

  lemma {:induction false} ItemsBound(items: seq<Tree>)
    ensures DeepestTree(items) <= 2 * ItemsHeight(items)
    decreases items
  {
    if items != [] {
      NestingBound(items[0]);
      ItemsBound(items[1..]);
    }
  }

  lemma {:induction false} PairsBound(pairs: seq<Pair>)
    ensures DeepestPair(pairs) <= 2 * PairsHeight(pairs)
    decreases pairs
  {
    if pairs != [] {
      NestingBound(pairs[0].value);
      PairsBound(pairs[1..]);
    }
  }

  // ----- Agreement -----------------------------------------------------------

  // A tree's JSON form, with some arrays and objects open around it, decodes
  // exactly when its doubles are finite and it does not nest too deep, and then
  // to the meaning of the mended tree.
  lemma JsonDecodes(lib: Library, open: nat, t: Tree)
    requires Faithful(lib) && Sound(t)
    ensures Read(lib, open, ToNode(lib, t)) ==
            if AllFinite(t) && open + TreeNesting(t) <= MAX_NESTING then Some(Meaning(Mended(t))) else None
  {
    hide FromNode, ToNode, Meaning, Mended, AllFinite, Nesting, TreeNesting;
    NodeDecodes(lib, t);
    NodeNesting(lib, t);
  }

  // Both decoders give a tree its meaning exactly when it is within the nesting
  // limits of both, counted with the messages, or the arrays and objects, around
  // it, its doubles are finite, and its text is UTF-8 wherever the meaning keeps it.
  lemma DecodersAgree(lib: Library, depth: nat, open: nat, t: Tree)
    requires Faithful(lib) && Sound(t) && |AnyBytes(t)| < UINT64
    ensures DecodeAny(AnyBytes(t), depth) == Ok(Meaning(t)) && Read(lib, open, ToNode(lib, t)) == Some(Meaning(t)) <==>
            && depth + Height(t) <= MAX_DEPTH && open + TreeNesting(t) <= MAX_NESTING
            && AllFinite(t) && Clean(Meaning(t))
  {
    hide DecodeAny, AnyBytes, Read, ToNode, Meaning, Mended, Clean, AllFinite, TreeNesting, Height;
    TreeDecodes(t, depth);
    JsonDecodes(lib, open, t);
    MendedIff(t);
  }

  // Where a request holds attributes.
  datatype Site = OfResource | OfSpan | OfEvent

  // The depth at which the protobuf decoder reads an attribute's value: below the
  // resource spans, which are at depth 1, the messages down to the key-value pair.
  function SiteDepth(site: Site): nat {
    match site
    case OfResource => 4
    case OfSpan => 5
    case OfEvent => 6
  }

  // The arrays and objects open around an attribute's value in the JSON form: an
  // object and an array for each repeated message, and one more for a resource.
  function SiteOpen(site: Site): nat {
    match site
    case OfResource => 6
    case OfSpan => 9
    case OfEvent => 11
  }

  // In a request the protobuf limit is the one that counts.
  lemma AttributesAgree(lib: Library, site: Site, t: Tree)
    requires Faithful(lib) && Sound(t) && |AnyBytes(t)| < UINT64
    ensures DecodeAny(AnyBytes(t), SiteDepth(site)) == Ok(Meaning(t)) &&
            Read(lib, SiteOpen(site), ToNode(lib, t)) == Some(Meaning(t)) <==>
            SiteDepth(site) + Height(t) <= MAX_DEPTH && AllFinite(t) && Clean(Meaning(t))
  {
    hide DecodeAny, AnyBytes, Read, ToNode, Meaning, Clean, AllFinite, TreeNesting, Height;
    DecodersAgree(lib, SiteDepth(site), SiteOpen(site), t);
    NestingBound(t);
  }

  // ----- Where they differ ---------------------------------------------------

  // One byte that is no UTF-8: the protobuf reader keeps it, for the sanitizer to
  // reject, and the JSON reader replaces it.
  lemma InvalidTextDiffers(lib: Library, depth: nat, open: nat)
    requires Faithful(lib) && depth <= MAX_DEPTH && open < MAX_NESTING
    ensures var t := Str([0xFF]);
            && DecodeAny(AnyBytes(t), depth) == Ok(Text([0xFF])) && !Clean(Text([0xFF]))
            && Read(lib, open, ToNode(lib, t)) == Some(Text(REPLACEMENT)) && Clean(Text(REPLACEMENT))
  {
    var t := Str([0xFF]);
    assert Repaired([0xFF]) == REPLACEMENT by {
      assert CharLen([0xFF]) == 0 && ([0xFF as Byte])[1..] == [];
    }
    RepairedIsValid([0xFF]);
    ShortField();
    hide DecodeAny, AnyBytes, FromNode, ToNode, Repaired;
    TreeDecodes(t, depth);
    JsonDecodes(lib, open, t);
  }

  lemma ShortField()
    ensures |AnyBytes(Str([0xFF]))| < UINT64
  {
    assert Varint(1) == [1] && Varint(10) == [10];
  }

  // An array in an array in an array.
  function Nested(n: nat): (t: Tree)
    ensures Sound(t)
  {
    if n == 0 then Bool(true) else Items([Nested(n - 1)])
  }

  lemma {:induction false} NestedIs(n: nat)
    ensures Height(Nested(n)) == 2 * n && TreeNesting(Nested(n)) == 3 * n + 1
    ensures AllFinite(Nested(n)) && Clean(Meaning(Nested(n)))
  {
    if n > 0 {
      NestedIs(n - 1);
      var items := [Nested(n - 1)];
      assert items[1..] == [];
      assert ItemsHeight(items) == Max(1 + Height(items[0]), ItemsHeight([]));
      assert DeepestTree(items) == Max(TreeNesting(items[0]), DeepestTree([]));
      assert Meanings(items) == [Meaning(items[0])] + Meanings([]);
    }
  }

  lemma {:induction false} VarintShort(v: nat)
    ensures |Varint(v)| <= v + 1
  {
    if v >= 128 { VarintShort(v / 128); }
  }

  function Power4(n: nat): nat {
    if n == 0 then 1 else 4 * Power4(n - 1)
  }

  lemma DataFieldShort(num: nat, data: Bytes)
    requires num < 16
    ensures |FieldBytes(Field(num, Data(data)))| <= 2 * |data| + 2
  {
    assert |Varint(num * 8 + 2)| == 1;
    VarintShort(|data|);
  }

  lemma OneItemShort(t: Tree)
    requires Sound(t)
    ensures Sound(Items([t])) && |AnyBytes(Items([t]))| <= 4 * |AnyBytes(t)| + 6
  {
    hide FieldBytes;
    var items := [t];
    assert items[1..] == [];
    var inner := AnyBytes(t);
    assert ItemsBytes(items) == FieldBytes(Field(1, Data(inner))) + ItemsBytes([]);
    DataFieldShort(1, inner);
    DataFieldShort(5, ItemsBytes(items));
  }

  lemma BoolShort()
    ensures |AnyBytes(Bool(true))| == 2
  {
    assert AnyBytes(Bool(true)) == Varint(16) + Varint(1) && |Varint(16)| == 1 && |Varint(1)| == 1;
  }

  lemma {:induction false} NestedShort(n: nat)
    ensures |AnyBytes(Nested(n))| + 2 <= 4 * Power4(n)
  {
    hide AnyBytes, Sound;
    if n == 0 {
      BoolShort();
    } else {
      NestedShort(n - 1);
      OneItemShort(Nested(n - 1));
    }
  }

  // Where the messages around a value and those in it exceed the protobuf limit,
  // the protobuf reader refuses what the JSON reader takes.
  lemma NestedDiffers(lib: Library, depth: nat, open: nat, n: nat)
    requires Faithful(lib) && depth + 2 * n > MAX_DEPTH && open + 3 * n + 1 <= MAX_NESTING && 4 * Power4(n) < UINT64
    ensures DecodeAny(AnyBytes(Nested(n)), depth) == Err(Depth)
    ensures Read(lib, open, ToNode(lib, Nested(n))) == Some(Meaning(Nested(n)))
  {
    hide DecodeAny, AnyBytes, Read, ToNode, Meaning, Mended, Clean, AllFinite, TreeNesting, Height, Nested, Power4;
    NestedIs(n);
    NestedShort(n);
    TreeDecodes(Nested(n), depth);
    JsonDecodes(lib, open, Nested(n));
    MendedIff(Nested(n));
  }

  // Fourteen arrays around a boolean are within the limit by themselves, and
  // beyond it as a span's attribute: the whole request is refused in one form and
  // read in the other.
  lemma DeepAttributeDiffers(lib: Library) returns (t: Tree)
    requires Faithful(lib)
    ensures Sound(t) && Height(t) == 28 && AllFinite(t) && Clean(Meaning(t))
    ensures DecodeAny(AnyBytes(t), SiteDepth(OfSpan)) == Err(Depth)
    ensures Read(lib, SiteOpen(OfSpan), ToNode(lib, t)) == Some(Meaning(t))
  {
    var n: nat :| n == 14;
    assert 4 * Power4(n) < UINT64 by { assert Power4(7) == 16384 && Power4(14) == 0x1000_0000; }
    hide DecodeAny, AnyBytes, Read, ToNode, Meaning, Clean, AllFinite, TreeNesting, Height, Nested, Power4;
    t := Nested(n);
    NestedIs(n);
    NestedDiffers(lib, SiteDepth(OfSpan), SiteOpen(OfSpan), n);
  }
}
