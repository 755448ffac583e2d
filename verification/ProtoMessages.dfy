// Attribute values in messages of any fields: later fields win, unknown ones are
// skipped, and one that cannot be read refuses the whole.
module ProtoMessages {
  import opened Common
  import opened ProtoWire
  import opened ProtoValues

  predicate AllLegal(fs: seq<Field>) {
    forall i :: 0 <= i < |fs| ==> Legal(fs[i])
  }

  // The fields of an AnyValue that hold a value.
  predicate Known(f: Field) {
    1 <= f.num <= 7
  }

  // No later field holds a value.
  predicate LastKnown(fs: seq<Field>, i: nat)
    requires i < |fs|
  {
    Known(fs[i]) && forall k :: i < k < |fs| ==> !Known(fs[k])
  }

  lemma AnyStep(f: Field, rest: Bytes, depth: nat, v: Value)
    requires Legal(f)
    ensures f.payload.Data? ==> |f.payload.data| < |FieldBytes(f)|
    ensures AnyFrom(FieldBytes(f) + rest, depth, v) ==
            var next := AnyField(f, depth, v, |FieldBytes(f)|);
            if next.Err? then next else AnyFrom(rest, depth, next.value)
  {
    FieldThen(f, rest);
    FieldNotEmpty(f);
    hide FieldFrom, FieldBytes, DecodeArray, DecodeKeyValueList;
  }

  lemma AnyAlone(f: Field, depth: nat)
    requires Legal(f) && depth <= MAX_DEPTH
    ensures f.payload.Data? ==> |f.payload.data| < |FieldBytes(f)|
    ensures DecodeAny(FieldBytes(f), depth) == AnyField(f, depth, Nil, |FieldBytes(f)|)
  {
    hide FieldBytes, AnyField;
    AnyStep(f, [], depth, Nil);
    assert FieldBytes(f) + [] == FieldBytes(f);
  }

  lemma FieldOverrides(f: Field, depth: nat, v: Value, size: nat)
    requires f.payload.Data? ==> |f.payload.data| < size
    ensures AnyField(f, depth, v, size) == if Known(f) then AnyField(f, depth, Nil, size) else Ok(v)
  {
    hide DecodeArray, DecodeKeyValueList;
  }

  lemma {:induction false} AnyMeansFrom(fs: seq<Field>, depth: nat, v: Value)
    requires AllLegal(fs) && depth <= MAX_DEPTH
    ensures var r := AnyFrom(FieldsBytes(fs), depth, v);
            && (r.Ok? <==> forall i :: 0 <= i < |fs| ==> DecodeAny(FieldBytes(fs[i]), depth).Ok?)
            && (r.Ok? ==> forall i :: 0 <= i < |fs| && LastKnown(fs, i) ==> Ok(r.value) == DecodeAny(FieldBytes(fs[i]), depth))
            && (r.Ok? && (forall i :: 0 <= i < |fs| ==> !Known(fs[i])) ==> r.value == v)
  {
    hide FieldBytes, DecodeAny, AnyFrom, Legal, Known;
    if fs == [] {
      NoFields(depth, v);
    } else {
      var f, rest := fs[0], fs[1..];
      AnyFieldStep(f, FieldsBytes(rest), depth, v);
      assert forall i :: 0 < i < |fs| ==> fs[i] == rest[i - 1];
      var alone := DecodeAny(FieldBytes(f), depth);
      if alone.Ok? {
        AnyMeansFrom(rest, depth, if Known(f) then alone.value else v);
        KnownShift(fs);
      }
    }
  }

  lemma AnyFieldStep(f: Field, rest: Bytes, depth: nat, v: Value)
    requires Legal(f) && depth <= MAX_DEPTH
    ensures var r, alone := AnyFrom(FieldBytes(f) + rest, depth, v), DecodeAny(FieldBytes(f), depth);
            if alone.Err? then r.Err? else r == AnyFrom(rest, depth, if Known(f) then alone.value else v)
  {
    hide FieldBytes, DecodeAny, AnyField, AnyFrom, Legal;
    AnyStep(f, rest, depth, v);
    AnyAlone(f, depth);
    FieldOverrides(f, depth, v, |FieldBytes(f)|);
    FieldOverrides(f, depth, Nil, |FieldBytes(f)|);
  }

  lemma KnownShift(fs: seq<Field>)
    requires fs != []
    ensures forall i :: 0 < i < |fs| && LastKnown(fs, i) ==> LastKnown(fs[1..], i - 1)
    ensures LastKnown(fs, 0) ==> forall i :: 0 <= i < |fs[1..]| ==> !Known(fs[1..][i])
  {
    assert forall i :: 0 <= i < |fs[1..]| ==> fs[1..][i] == fs[i + 1];
  }

  lemma NoFields(depth: nat, v: Value)
    ensures AnyFrom(FieldsBytes([]), depth, v) == Ok(v)
  {
  }

  // An AnyValue of any fields is what the last one that holds a value says by itself,
  // and nothing without one, when each can be read by itself.
  lemma AnyMeans(fs: seq<Field>, depth: nat)
    requires AllLegal(fs) && depth <= MAX_DEPTH
    ensures var r := DecodeAny(FieldsBytes(fs), depth);
            && (r.Ok? <==> forall i :: 0 <= i < |fs| ==> DecodeAny(FieldBytes(fs[i]), depth).Ok?)
            && (r.Ok? ==> forall i :: 0 <= i < |fs| && LastKnown(fs, i) ==> r == DecodeAny(FieldBytes(fs[i]), depth))
            && (r.Ok? && (forall i :: 0 <= i < |fs| ==> !Known(fs[i])) ==> r.value == Nil)
  {
    hide FieldBytes, FieldsBytes, AnyFrom, Legal;
    AnyMeansFrom(fs, depth, Nil);
  }

  // ----- Pairs ---------------------------------------------------------------

  // The last field with a number.
  predicate LastOf(fs: seq<Field>, i: nat, num: nat)
    requires i < |fs|
  {
    fs[i].num == num && forall k :: i < k < |fs| ==> fs[k].num != num
  }

  // A field of a pair that can be read by itself.
  predicate PairFieldOk(f: Field, depth: nat) {
    && (f.num == 1 || f.num == 2 ==> f.payload.Data?)
    && (f.num == 2 ==> DecodeAny(f.payload.data, depth + 1).Ok?)
  }

  lemma PairFieldStep(f: Field, rest: Bytes, depth: nat, key: Bytes, v: Value)
    requires Legal(f)
    ensures var r := KeyValueFrom(FieldBytes(f) + rest, depth, key, v);
            if !PairFieldOk(f, depth) then r.Err?
            else r == KeyValueFrom(rest, depth, if f.num == 1 then f.payload.data else key,
                                   if f.num == 2 then DecodeAny(f.payload.data, depth + 1).value else v)
  {
    FieldThen(f, rest);
    hide FieldFrom, FieldBytes, DecodeAny;
  }

  lemma {:induction false} PairMeansFrom(fs: seq<Field>, depth: nat, key: Bytes, v: Value)
    requires AllLegal(fs)
    ensures var r := KeyValueFrom(FieldsBytes(fs), depth, key, v);
            && (r.Ok? <==> forall i :: 0 <= i < |fs| ==> PairFieldOk(fs[i], depth))
            && (r.Ok? ==> forall i :: 0 <= i < |fs| && LastOf(fs, i, 1) ==> r.value.0 == fs[i].payload.data)
            && (r.Ok? ==> forall i :: 0 <= i < |fs| && LastOf(fs, i, 2) ==>
                            Ok(r.value.1) == DecodeAny(fs[i].payload.data, depth + 1))
            && (r.Ok? && (forall i :: 0 <= i < |fs| ==> fs[i].num != 1) ==> r.value.0 == key)
            && (r.Ok? && (forall i :: 0 <= i < |fs| ==> fs[i].num != 2) ==> r.value.1 == v)
  {
    hide FieldBytes, DecodeAny, Legal;
    if fs != [] {
      var f, rest := fs[0], fs[1..];
      PairFieldStep(f, FieldsBytes(rest), depth, key, v);
      assert forall i :: 0 < i < |fs| ==> fs[i] == rest[i - 1];
      if PairFieldOk(f, depth) {
        PairMeansFrom(rest, depth, if f.num == 1 then f.payload.data else key,
                      if f.num == 2 then DecodeAny(f.payload.data, depth + 1).value else v);
        LastsShift(fs, 1);
        LastsShift(fs, 2);
      }
    }
  }

  lemma LastsShift(fs: seq<Field>, num: nat)
    requires fs != []
    ensures forall i :: 0 < i < |fs| && LastOf(fs, i, num) ==> LastOf(fs[1..], i - 1, num)
    ensures LastOf(fs, 0, num) ==> forall i :: 0 <= i < |fs[1..]| ==> fs[1..][i].num != num
  {
    assert forall i :: 0 <= i < |fs[1..]| ==> fs[1..][i] == fs[i + 1];
  }

  // A pair of any fields, in any order: the last key and the last value.
  lemma PairMeans(fs: seq<Field>, depth: nat)
    requires AllLegal(fs) && depth <= MAX_DEPTH
    ensures var r := DecodeKeyValue(FieldsBytes(fs), depth);
            && (r.Ok? <==> forall i :: 0 <= i < |fs| ==> PairFieldOk(fs[i], depth))
            && (r.Ok? ==> forall i :: 0 <= i < |fs| && LastOf(fs, i, 1) ==> r.value.0 == fs[i].payload.data)
            && (r.Ok? ==> forall i :: 0 <= i < |fs| && LastOf(fs, i, 2) ==>
                            Ok(r.value.1) == DecodeAny(fs[i].payload.data, depth + 1))
            && (r.Ok? && (forall i :: 0 <= i < |fs| ==> fs[i].num != 1) ==> r.value.0 == [])
            && (r.Ok? && (forall i :: 0 <= i < |fs| ==> fs[i].num != 2) ==> r.value.1 == Nil)
  {
    hide FieldBytes, FieldsBytes, KeyValueFrom, Legal, DecodeAny;
    PairMeansFrom(fs, depth, [], Nil);
  }

  // ----- Lists ---------------------------------------------------------------

  function Numbered(fs: seq<Field>, num: nat): seq<Field> {
    if fs == [] then [] else (if fs[0].num == num then [fs[0]] else []) + Numbered(fs[1..], num)
  }

  lemma ListsSkip(f: Field, rest: Bytes, depth: nat, items: seq<Value>, entries: map<Bytes, Value>)
    requires Legal(f) && f.num != 1
    ensures ArrayFrom(FieldBytes(f) + rest, depth, items) == ArrayFrom(rest, depth, items)
    ensures ListFrom(FieldBytes(f) + rest, depth, entries) == ListFrom(rest, depth, entries)
  {
    FieldThen(f, rest);
    hide FieldFrom, FieldBytes, DecodeAny, DecodeKeyValue;
  }

  lemma ListsTake(f: Field, rest: Bytes, depth: nat, items: seq<Value>, entries: map<Bytes, Value>)
    requires Legal(f) && f.num == 1
    ensures ArrayFrom(FieldBytes(f) + rest, depth, items) ==
            if !f.payload.Data? then Err(WireType)
            else
              var v := DecodeAny(f.payload.data, depth + 1);
              if v.Err? then v else ArrayFrom(rest, depth, items + [v.value])
    ensures ListFrom(FieldBytes(f) + rest, depth, entries) ==
            if !f.payload.Data? then Err(WireType)
            else
              var kv := DecodeKeyValue(f.payload.data, depth + 1);
              if kv.Err? then Err(kv.error) else ListFrom(rest, depth, entries[kv.value.0 := kv.value.1])
  {
    FieldThen(f, rest);
    hide FieldFrom, FieldBytes, DecodeAny, DecodeKeyValue;
  }

  lemma NumberedFirst(f: Field, rest: seq<Field>)
    requires f.num == 1
    ensures FieldsBytes([f] + rest) == FieldBytes(f) + FieldsBytes(rest)
  {
    hide FieldBytes;
    assert ([f] + rest)[1..] == rest;
  }

  lemma {:induction false} ListsRead(fs: seq<Field>, depth: nat, items: seq<Value>, entries: map<Bytes, Value>)
    requires AllLegal(fs)
    ensures ArrayFrom(FieldsBytes(fs), depth, items) == ArrayFrom(FieldsBytes(Numbered(fs, 1)), depth, items)
    ensures ListFrom(FieldsBytes(fs), depth, entries) == ListFrom(FieldsBytes(Numbered(fs, 1)), depth, entries)
    decreases |fs|
  {
    hide FieldBytes, DecodeAny, DecodeKeyValue, Legal, ArrayFrom, ListFrom;
    if fs != [] {
      var f, rest := fs[0], fs[1..];
      var more, left := FieldsBytes(rest), FieldsBytes(Numbered(rest, 1));
      ListsRead(rest, depth, items, entries);
      if f.num != 1 {
        ListsSkip(f, more, depth, items, entries);
        assert [] + Numbered(rest, 1) == Numbered(rest, 1);
      } else {
        ListsTake(f, more, depth, items, entries);
        ListsTake(f, left, depth, items, entries);
        NumberedFirst(f, Numbered(rest, 1));
        if f.payload.Data? {
          var v, kv := DecodeAny(f.payload.data, depth + 1), DecodeKeyValue(f.payload.data, depth + 1);
          ListsRead(rest, depth, if v.Ok? then items + [v.value] else [],
                    if kv.Ok? then entries[kv.value.0 := kv.value.1] else map[]);
        }
      }
    }
  }

  // Arrays and key lists skip every field but their items.
  lemma ListsSkipOthers(fs: seq<Field>, depth: nat)
    requires AllLegal(fs)
    ensures DecodeArray(FieldsBytes(fs), depth) == DecodeArray(FieldsBytes(Numbered(fs, 1)), depth)
    ensures DecodeKeyValueList(FieldsBytes(fs), depth) == DecodeKeyValueList(FieldsBytes(Numbered(fs, 1)), depth)
  {
    hide FieldsBytes, ArrayFrom, ListFrom, Legal;
    ListsRead(fs, depth, [], map[]);
  }
}
