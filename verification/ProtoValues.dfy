// Attribute values: their protobuf form and the decoders that read it.
module ProtoValues {
  import opened Common
  import opened ProtoWire

  const MAX_DEPTH := 32
  const INT64 := 0x8000_0000_0000_0000

  // A decoded value. Doubles are their 64 bits.
  datatype Value =
    | Nil
    | Text(s: Bytes)
    | Flag(b: bool)
    | Int(i: int)
    | Double(bits: nat)
    | Blob(raw: Bytes)
    | List(items: seq<Value>)
    | Map(entries: map<Bytes, Value>)

  // int64(v) of an unsigned 64-bit number, and back.
  function Signed(v: nat): int {
    if v < INT64 then v else v - UINT64
  }

  function Unsigned(i: int): nat
    requires -INT64 <= i < INT64
  {
    if i >= 0 then i else i + UINT64
  }

  // ----- Decoding ------------------------------------------------------------

  function DecodeAny(buf: Bytes, depth: nat): Result<Value, Error>
    decreases |buf|, 2
  {
    if depth > MAX_DEPTH then Err(Depth) else AnyFrom(buf, depth, Nil)
  }

  // The rest of an AnyValue, later fields winning.
  function AnyFrom(s: Bytes, depth: nat, v: Value): Result<Value, Error>
    decreases |s|, 1
  {
    if s == [] then Ok(v)
    else
      var f := FieldFrom(s);
      if f.Err? then Err(f.error)
      else
        var next := AnyField(f.value.0, depth, v, |s|);
        if next.Err? then next else AnyFrom(s[f.value.1..], depth, next.value)
  }

  function AnyField(f: Field, depth: nat, v: Value, ghost size: nat): Result<Value, Error>
    requires f.payload.Data? ==> |f.payload.data| < size
    decreases size, 0
  {
    match f.num
    case 1 => if f.payload.Data? then Ok(Text(f.payload.data)) else Err(WireType)
    case 2 => if f.payload.Number? then Ok(Flag(f.payload.v != 0)) else Err(WireType)
    case 3 => if f.payload.Number? then Ok(Int(Signed(f.payload.v))) else Err(WireType)
    case 4 => if f.payload.Fixed64? then Ok(Double(f.payload.v)) else Err(WireType)
    case 5 => if f.payload.Data? then DecodeArray(f.payload.data, depth + 1) else Err(WireType)
    case 6 => if f.payload.Data? then DecodeKeyValueList(f.payload.data, depth + 1) else Err(WireType)
    case 7 => if f.payload.Data? then Ok(Blob(f.payload.data)) else Err(WireType)
    case _ => Ok(v)
  }

  function DecodeArray(buf: Bytes, depth: nat): Result<Value, Error>
    decreases |buf|, 4
  {
    if depth > MAX_DEPTH then Err(Depth) else ArrayFrom(buf, depth, [])
  }

  function ArrayFrom(s: Bytes, depth: nat, items: seq<Value>): Result<Value, Error>
    decreases |s|, 3
  {
    if s == [] then Ok(List(items))
    else
      var f := FieldFrom(s);
      if f.Err? then Err(f.error)
      else if f.value.0.num != 1 then ArrayFrom(s[f.value.1..], depth, items)
      else if !f.value.0.payload.Data? then Err(WireType)
      else
        var v := DecodeAny(f.value.0.payload.data, depth + 1);
        if v.Err? then v else ArrayFrom(s[f.value.1..], depth, items + [v.value])
  }

  function DecodeKeyValueList(buf: Bytes, depth: nat): Result<Value, Error>
    decreases |buf|, 4
  {
    if depth > MAX_DEPTH then Err(Depth) else ListFrom(buf, depth, map[])
  }

  function ListFrom(s: Bytes, depth: nat, entries: map<Bytes, Value>): Result<Value, Error>
    decreases |s|, 3
  {
    if s == [] then Ok(Map(entries))
    else
      var f := FieldFrom(s);
      if f.Err? then Err(f.error)
      else if f.value.0.num != 1 then ListFrom(s[f.value.1..], depth, entries)
      else if !f.value.0.payload.Data? then Err(WireType)
      else
        var kv := DecodeKeyValue(f.value.0.payload.data, depth + 1);
        if kv.Err? then Err(kv.error) else ListFrom(s[f.value.1..], depth, entries[kv.value.0 := kv.value.1])
  }

  function DecodeKeyValue(buf: Bytes, depth: nat): Result<(Bytes, Value), Error>
    decreases |buf|, 4
  {
    if depth > MAX_DEPTH then Err(Depth) else KeyValueFrom(buf, depth, [], Nil)
  }

  function KeyValueFrom(s: Bytes, depth: nat, key: Bytes, v: Value): Result<(Bytes, Value), Error>
    decreases |s|, 3
  {
    if s == [] then Ok((key, v))
    else
      var f := FieldFrom(s);
      if f.Err? then Err(f.error)
      else if f.value.0.num != 1 && f.value.0.num != 2 then KeyValueFrom(s[f.value.1..], depth, key, v)
      else if !f.value.0.payload.Data? then Err(WireType)
      else if f.value.0.num == 1 then KeyValueFrom(s[f.value.1..], depth, f.value.0.payload.data, v)
      else
        var av := DecodeAny(f.value.0.payload.data, depth + 1);
        if av.Err? then Err(av.error) else KeyValueFrom(s[f.value.1..], depth, key, av.value)
  }

  // ----- Attribute trees and their encoding ----------------------------------

  // An attribute value with something set at every node.
  datatype Tree =
    | Str(s: Bytes)
    | Bool(b: bool)
    | Integer(i: int)
    | Float(bits: nat)
    | Raw(raw: Bytes)
    | Items(items: seq<Tree>)
    | Pairs(pairs: seq<Pair>)

  datatype Pair = Pair(key: Bytes, value: Tree)

  predicate Sound(t: Tree) {
    match t
    case Integer(i) => -INT64 <= i < INT64
    case Float(bits) => bits < UINT64
    case Items(items) => forall i :: 0 <= i < |items| ==> Sound(items[i])
    case Pairs(pairs) => forall i :: 0 <= i < |pairs| ==> Sound(pairs[i].value)
    case _ => true
  }

  // The value a tree stands for; of pairs with one key the last wins.
  function Meaning(t: Tree): Value
    decreases t
  {
    match t
    case Str(s) => Text(s)
    case Bool(b) => Flag(b)
    case Integer(i) => Int(i)
    case Float(bits) => Double(bits)
    case Raw(raw) => Blob(raw)
    case Items(items) => List(Meanings(items))
    case Pairs(pairs) => Map(Entries(map[], pairs))
  }

  function Meanings(items: seq<Tree>): seq<Value>
    decreases items
  {
    if items == [] then [] else [Meaning(items[0])] + Meanings(items[1..])
  }

  function Entries(before: map<Bytes, Value>, pairs: seq<Pair>): map<Bytes, Value>
    decreases pairs
  {
    if pairs == [] then before else Entries(before[pairs[0].key := Meaning(pairs[0].value)], pairs[1..])
  }

  function AnyBytes(t: Tree): Bytes
    requires Sound(t)
    decreases t, 1
  {
    FieldBytes(AnyFieldOf(t))
  }

  function AnyFieldOf(t: Tree): Field
    requires Sound(t)
    decreases t, 0
  {
    match t
    case Str(s) => Field(1, Data(s))
    case Bool(b) => Field(2, Number(if b then 1 else 0))
    case Integer(i) => Field(3, Number(Unsigned(i)))
    case Float(bits) => Field(4, Fixed64(bits))
    case Items(items) => Field(5, Data(ItemsBytes(items)))
    case Pairs(pairs) => Field(6, Data(PairsBytes(pairs)))
    case Raw(raw) => Field(7, Data(raw))
  }

  function ItemsBytes(items: seq<Tree>): Bytes
    requires forall i :: 0 <= i < |items| ==> Sound(items[i])
    decreases items
  {
    if items == [] then [] else FieldBytes(Field(1, Data(AnyBytes(items[0])))) + ItemsBytes(items[1..])
  }

  function PairBytes(p: Pair): Bytes
    requires Sound(p.value)
    decreases p
  {
    FieldBytes(Field(1, Data(p.key))) + FieldBytes(Field(2, Data(AnyBytes(p.value))))
  }

  function PairsBytes(pairs: seq<Pair>): Bytes
    requires forall i :: 0 <= i < |pairs| ==> Sound(pairs[i].value)
    decreases pairs
  {
    if pairs == [] then [] else FieldBytes(Field(1, Data(PairBytes(pairs[0])))) + PairsBytes(pairs[1..])
  }

  // How many message levels lie below a tree's own.
  function Height(t: Tree): nat
    decreases t
  {
    match t
    case Items(items) => 1 + ItemsHeight(items)
    case Pairs(pairs) => 1 + PairsHeight(pairs)
    case _ => 0
  }

  function Max(a: nat, b: nat): nat {
    if a < b then b else a
  }

  function ItemsHeight(items: seq<Tree>): nat
    decreases items
  {
    if items == [] then 0 else Max(1 + Height(items[0]), ItemsHeight(items[1..]))
  }

  function PairsHeight(pairs: seq<Pair>): nat
    decreases pairs
  {
    if pairs == [] then 0 else Max(2 + Height(pairs[0].value), PairsHeight(pairs[1..]))
  }

  // Of the pairs with one key, the last gives the entry.
  lemma {:induction false} LastPairWins(before: map<Bytes, Value>, pairs: seq<Pair>, i: nat)
    requires i < |pairs| && forall j :: i < j < |pairs| ==> pairs[j].key != pairs[i].key
    ensures pairs[i].key in Entries(before, pairs)
    ensures Entries(before, pairs)[pairs[i].key] == Meaning(pairs[i].value)
    decreases |pairs|
  {
    var next := before[pairs[0].key := Meaning(pairs[0].value)];
    if i == 0 {
      OtherPairs(next, pairs[1..], pairs[0].key);
    } else {
      LastPairWins(next, pairs[1..], i - 1);
    }
  }

  lemma {:induction false} OtherPairs(before: map<Bytes, Value>, pairs: seq<Pair>, key: Bytes)
    requires forall j :: 0 <= j < |pairs| ==> pairs[j].key != key
    ensures key in Entries(before, pairs) <==> key in before
    ensures key in before ==> Entries(before, pairs)[key] == before[key]
    decreases |pairs|
  {
    if pairs != [] {
      OtherPairs(before[pairs[0].key := Meaning(pairs[0].value)], pairs[1..], key);
    }
  }

  // ----- Decoding what was encoded -------------------------------------------

  // A field after which the rest of a message is read.
  lemma FieldThen(f: Field, rest: Bytes)
    requires Legal(f)
    ensures FieldFrom(FieldBytes(f) + rest) == Ok((f, |FieldBytes(f)|))
    ensures (FieldBytes(f) + rest)[|FieldBytes(f)|..] == rest && FieldBytes(f) + rest != []
  {
    FieldReadsBack(f, rest);
    hide FieldFrom, FieldBytes;
    assert |FieldBytes(f)| >= 1 by { FieldNotEmpty(f); }
  }

  lemma FieldNotEmpty(f: Field)
    ensures |FieldBytes(f)| >= 1
    ensures f.payload.Data? ==> |f.payload.data| < |FieldBytes(f)|
  {
    hide Varint;
  }

  // The trees inside a tree that can be written can be written.
  lemma SmallerItems(items: seq<Tree>)
    requires items != [] && forall i :: 0 <= i < |items| ==> Sound(items[i])
    ensures |AnyBytes(items[0])| < |ItemsBytes(items)| && |ItemsBytes(items[1..])| <= |ItemsBytes(items)|
  {
    hide FieldBytes, AnyFieldOf;
    FieldNotEmpty(Field(1, Data(AnyBytes(items[0]))));
  }

  lemma SmallerPairs(pairs: seq<Pair>)
    requires pairs != [] && forall i :: 0 <= i < |pairs| ==> Sound(pairs[i].value)
    ensures |PairBytes(pairs[0])| < |PairsBytes(pairs)| && |PairsBytes(pairs[1..])| <= |PairsBytes(pairs)|
    ensures |pairs[0].key| < |PairBytes(pairs[0])| && |AnyBytes(pairs[0].value)| < |PairBytes(pairs[0])|
  {
    hide FieldBytes, AnyBytes;
    FieldNotEmpty(Field(1, Data(PairBytes(pairs[0]))));
    FieldNotEmpty(Field(1, Data(pairs[0].key)));
    FieldNotEmpty(Field(2, Data(AnyBytes(pairs[0].value))));
  }

  lemma TreeFieldLegal(t: Tree)
    requires Sound(t) && |AnyBytes(t)| < UINT64
    ensures Legal(AnyFieldOf(t))
  {
    FieldNotEmpty(AnyFieldOf(t));
    hide FieldBytes, ItemsBytes, PairsBytes;
  }

  // What decoding one field of a tree gives.
  lemma AnyOneField(t: Tree, depth: nat)
    requires Sound(t) && |AnyBytes(t)| < UINT64 && depth <= MAX_DEPTH
    ensures DecodeAny(AnyBytes(t), depth) == AnyField(AnyFieldOf(t), depth, Nil, |AnyBytes(t)|)
  {
    TreeFieldLegal(t);
    var f := AnyFieldOf(t);
    var s := AnyBytes(t);
    hide FieldFrom, FieldBytes, AnyFieldOf, AnyField, Legal;
    assert s == FieldBytes(f) + [];
    FieldThen(f, []);
    FieldNotEmpty(f);
    AnyFromOne(s, f, depth);
  }

  lemma AnyFromOne(s: Bytes, f: Field, depth: nat)
    requires s != [] && FieldFrom(s) == Ok((f, |s|))
    requires f.payload.Data? ==> |f.payload.data| < |s|
    ensures AnyFrom(s, depth, Nil) == AnyField(f, depth, Nil, |s|)
  {
    hide FieldFrom, AnyField;
    assert s[|s|..] == [];
  }

  // Decoding a tree is decoding what its one field holds.
  lemma TreeCases(t: Tree, depth: nat)
    requires Sound(t) && |AnyBytes(t)| < UINT64 && depth <= MAX_DEPTH
    ensures t.Items? ==> |ItemsBytes(t.items)| < UINT64
    ensures t.Pairs? ==> |PairsBytes(t.pairs)| < UINT64
    ensures DecodeAny(AnyBytes(t), depth) ==
            if t.Items? then DecodeArray(ItemsBytes(t.items), depth + 1)
            else if t.Pairs? then DecodeKeyValueList(PairsBytes(t.pairs), depth + 1)
            else Ok(Meaning(t))
  {
    hide DecodeAny, AnyBytes, ItemsBytes, PairsBytes, DecodeArray, DecodeKeyValueList;
    AnyOneField(t, depth);
    TreeFieldLegal(t);
  }

  lemma TooDeep(buf: Bytes, depth: nat)
    requires depth > MAX_DEPTH
    ensures DecodeAny(buf, depth) == Err(Depth)
  {
  }

  // A tree's protobuf form decodes to its meaning exactly when its messages
  // nest within the limit.
  lemma {:induction false} TreeDecodes(t: Tree, depth: nat)
    requires Sound(t) && |AnyBytes(t)| < UINT64
    ensures DecodeAny(AnyBytes(t), depth) == if depth + Height(t) <= MAX_DEPTH then Ok(Meaning(t)) else Err(Depth)
    decreases t, 2
  {
    hide DecodeAny, AnyBytes, ItemsBytes, PairsBytes, DecodeArray, DecodeKeyValueList, ItemsHeight, PairsHeight,
      Meanings, Entries;
    if depth <= MAX_DEPTH {
      TreeCases(t, depth);
      match t
      case Items(items) =>
        ItemsDecode(items, depth + 1);
      case Pairs(pairs) =>
        PairsDecode(pairs, depth + 1);
      case _ =>
    } else {
      TooDeep(AnyBytes(t), depth);
    }
  }

  lemma {:induction false} ItemsDecode(items: seq<Tree>, depth: nat)
    requires forall i :: 0 <= i < |items| ==> Sound(items[i])
    requires |ItemsBytes(items)| < UINT64
    ensures DecodeArray(ItemsBytes(items), depth) ==
            if depth + ItemsHeight(items) <= MAX_DEPTH then Ok(List(Meanings(items))) else Err(Depth)
    decreases items, 1
  {
    hide ItemsBytes, ItemsHeight, Meanings, ArrayFrom;
    assert [] + Meanings(items) == Meanings(items);
    if depth <= MAX_DEPTH { ItemsDecodeFrom(items, depth, []); }
  }

  lemma ArrayStep(data: Bytes, rest: Bytes, depth: nat, acc: seq<Value>)
    requires |data| < UINT64
    ensures ArrayFrom(FieldBytes(Field(1, Data(data))) + rest, depth, acc) ==
            var v := DecodeAny(data, depth + 1);
            if v.Err? then v else ArrayFrom(rest, depth, acc + [v.value])
  {
    FieldThen(Field(1, Data(data)), rest);
    hide FieldFrom, FieldBytes, DecodeAny;
  }

  lemma {:induction false} ItemsDecodeFrom(items: seq<Tree>, depth: nat, acc: seq<Value>)
    requires forall i :: 0 <= i < |items| ==> Sound(items[i])
    requires |ItemsBytes(items)| < UINT64 && depth <= MAX_DEPTH
    ensures ArrayFrom(ItemsBytes(items), depth, acc) ==
            if depth + ItemsHeight(items) <= MAX_DEPTH then Ok(List(acc + Meanings(items))) else Err(Depth)
    decreases items, 0
  {
    hide FieldFrom, FieldBytes, DecodeAny, AnyBytes, Height, Meaning;
    if items == [] {
      assert acc + [] == acc;
    } else {
      var rest := ItemsBytes(items[1..]);
      SmallerItems(items);
      TreeDecodes(items[0], depth + 1);
      ArrayStep(AnyBytes(items[0]), rest, depth, acc);
      if depth + 1 + Height(items[0]) <= MAX_DEPTH {
        var v := Meaning(items[0]);
        ItemsDecodeFrom(items[1..], depth, acc + [v]);
        assert (acc + [v]) + Meanings(items[1..]) == acc + ([v] + Meanings(items[1..]));
      }
    }
  }

  lemma {:induction false} PairsDecode(pairs: seq<Pair>, depth: nat)
    requires forall i :: 0 <= i < |pairs| ==> Sound(pairs[i].value)
    requires |PairsBytes(pairs)| < UINT64
    ensures DecodeKeyValueList(PairsBytes(pairs), depth) ==
            if depth + PairsHeight(pairs) <= MAX_DEPTH then Ok(Map(Entries(map[], pairs))) else Err(Depth)
    decreases pairs, 1
  {
    if depth <= MAX_DEPTH { PairsDecodeFrom(pairs, depth, map[]); }
  }

  lemma ListStep(data: Bytes, rest: Bytes, depth: nat, acc: map<Bytes, Value>)
    requires |data| < UINT64
    ensures ListFrom(FieldBytes(Field(1, Data(data))) + rest, depth, acc) ==
            var kv := DecodeKeyValue(data, depth + 1);
            if kv.Err? then Err(kv.error) else ListFrom(rest, depth, acc[kv.value.0 := kv.value.1])
  {
    FieldThen(Field(1, Data(data)), rest);
    hide FieldFrom, FieldBytes, DecodeKeyValue;
  }

  // A pair decodes to its key and what its value decodes to.
  lemma PairStep(p: Pair, depth: nat)
    requires Sound(p.value) && |PairBytes(p)| < UINT64 && depth <= MAX_DEPTH
    requires |p.key| < UINT64 && |AnyBytes(p.value)| < UINT64
    ensures DecodeKeyValue(PairBytes(p), depth) ==
            var v := DecodeAny(AnyBytes(p.value), depth + 1);
            if v.Err? then Err(v.error) else Ok((p.key, v.value))
  {
    var k, av := Field(1, Data(p.key)), Field(2, Data(AnyBytes(p.value)));
    hide FieldFrom, FieldBytes, DecodeAny, AnyBytes;
    FieldThen(k, FieldBytes(av));
    FieldThen(av, []);
    assert FieldBytes(av) + [] == FieldBytes(av);
    KeyThenValue(PairBytes(p), FieldBytes(av), p.key, AnyBytes(p.value), |FieldBytes(k)|, depth);
  }

  lemma KeyThenValue(s: Bytes, rest: Bytes, key: Bytes, data: Bytes, n: nat, depth: nat)
    requires s != [] && FieldFrom(s) == Ok((Field(1, Data(key)), n)) && s[n..] == rest
    requires rest != [] && FieldFrom(rest) == Ok((Field(2, Data(data)), |rest|))
    ensures KeyValueFrom(s, depth, [], Nil) ==
            var v := DecodeAny(data, depth + 1);
            if v.Err? then Err(v.error) else Ok((key, v.value))
  {
    hide FieldFrom, DecodeAny;
    assert rest[|rest|..] == [];
    assert KeyValueFrom(s, depth, [], Nil) == KeyValueFrom(rest, depth, key, Nil);
  }

  lemma {:induction false} PairsDecodeFrom(pairs: seq<Pair>, depth: nat, acc: map<Bytes, Value>)
    requires forall i :: 0 <= i < |pairs| ==> Sound(pairs[i].value)
    requires |PairsBytes(pairs)| < UINT64 && depth <= MAX_DEPTH
    ensures ListFrom(PairsBytes(pairs), depth, acc) ==
            if depth + PairsHeight(pairs) <= MAX_DEPTH then Ok(Map(Entries(acc, pairs))) else Err(Depth)
    decreases pairs, 0
  {
    hide FieldFrom, FieldBytes, DecodeAny, AnyBytes, Height, Meaning, PairBytes;
    if pairs != [] {
      SmallerPairs(pairs);
      ListStep(PairBytes(pairs[0]), PairsBytes(pairs[1..]), depth, acc);
      if depth + 1 <= MAX_DEPTH {
        PairStep(pairs[0], depth + 1);
        TreeDecodes(pairs[0].value, depth + 2);
        if depth + 2 + Height(pairs[0].value) <= MAX_DEPTH {
          PairsDecodeFrom(pairs[1..], depth, acc[pairs[0].key := Meaning(pairs[0].value)]);
        }
      } else {
        assert DecodeKeyValue(PairBytes(pairs[0]), depth + 1) == Err(Depth);
      }
    }
  }
}
