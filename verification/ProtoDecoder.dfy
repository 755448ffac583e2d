// The decoders as passes over the fields of a message, nested messages decoded
// by calls.
module ProtoDecoder {
  import opened Common
  import opened ProtoWire
  import opened ProtoReader
  import opened ProtoValues

  // The next field of a message and where the rest of it starts.
  method NextField(reader: Reader) returns (r: Result<Field, Error>)
    requires reader.Valid() && reader.pos < |reader.buf|
    modifies reader`pos
    ensures reader.Valid()
    ensures var spec := FieldFrom(old(reader.Rest()));
            (spec.Err? ==> r == Err(spec.error)) &&
            (spec.Ok? ==> r == Ok(spec.value.0) && old(reader.pos) < reader.pos &&
                          reader.Rest() == old(reader.Rest())[spec.value.1..])
    ensures r.Ok? && r.value.payload.Data? ==> |r.value.payload.data| < |old(reader.Rest())|
  {
    hide FieldFrom;
    r := reader.Next();
  }

  method DecodeAnyValue(buf: Bytes, depth: nat) returns (r: Result<Value, Error>)
    ensures r == DecodeAny(buf, depth)
    decreases |buf|, 1
  {
    if depth > MAX_DEPTH { return Err(Depth); }
    hide FieldFrom, DecodeArray, DecodeKeyValueList;
    var reader := new Reader(buf);
    var v: Value := Nil;
    assert reader.Rest() == buf;
    while reader.pos < |reader.buf|
      invariant reader.Valid() && fresh(reader) && reader.buf == buf
      invariant AnyFrom(reader.Rest(), depth, v) == AnyFrom(buf, depth, Nil)
      decreases |reader.buf| - reader.pos
    {
      var next := NextField(reader);
      if next.Err? { return Err(next.error); }
      var f := next.value;
      match f.num {
        case 1 =>
          if !f.payload.Data? { return Err(WireType); }
          v := Text(f.payload.data);
        case 2 =>
          if !f.payload.Number? { return Err(WireType); }
          v := Flag(f.payload.v != 0);
        case 3 =>
          if !f.payload.Number? { return Err(WireType); }
          v := Int(Signed(f.payload.v));
        case 4 =>
          if !f.payload.Fixed64? { return Err(WireType); }
          v := Double(f.payload.v);
        case 5 =>
          if !f.payload.Data? { return Err(WireType); }
          var items := DecodeArrayValue(f.payload.data, depth + 1);
          if items.Err? { return items; }
          v := items.value;
        case 6 =>
          if !f.payload.Data? { return Err(WireType); }
          var entries := DecodeKeyValues(f.payload.data, depth + 1);
          if entries.Err? { return entries; }
          v := entries.value;
        case 7 =>
          if !f.payload.Data? { return Err(WireType); }
          v := Blob(f.payload.data);
        case _ =>
      }
    }
    assert reader.Rest() == [];
    return Ok(v);
  }

  method DecodeArrayValue(buf: Bytes, depth: nat) returns (r: Result<Value, Error>)
    ensures r == DecodeArray(buf, depth)
    decreases |buf|, 2
  {
    if depth > MAX_DEPTH { return Err(Depth); }
    hide FieldFrom, DecodeAny;
    var reader := new Reader(buf);
    var items: seq<Value> := [];
    assert reader.Rest() == buf;
    while reader.pos < |reader.buf|
      invariant reader.Valid() && fresh(reader) && reader.buf == buf
      invariant ArrayFrom(reader.Rest(), depth, items) == ArrayFrom(buf, depth, [])
      decreases |reader.buf| - reader.pos
    {
      var next := NextField(reader);
      if next.Err? { return Err(next.error); }
      var f := next.value;
      if f.num == 1 {
        if !f.payload.Data? { return Err(WireType); }
        var v := DecodeAnyValue(f.payload.data, depth + 1);
        if v.Err? { return v; }
        items := items + [v.value];
      }
    }
    assert reader.Rest() == [];
    return Ok(List(items));
  }

  method DecodeKeyValues(buf: Bytes, depth: nat) returns (r: Result<Value, Error>)
    ensures r == DecodeKeyValueList(buf, depth)
    decreases |buf|, 2
  {
    if depth > MAX_DEPTH { return Err(Depth); }
    hide FieldFrom, DecodeKeyValue;
    var reader := new Reader(buf);
    var entries: map<Bytes, Value> := map[];
    assert reader.Rest() == buf;
    while reader.pos < |reader.buf|
      invariant reader.Valid() && fresh(reader) && reader.buf == buf
      invariant ListFrom(reader.Rest(), depth, entries) == ListFrom(buf, depth, map[])
      decreases |reader.buf| - reader.pos
    {
      var next := NextField(reader);
      if next.Err? { return Err(next.error); }
      var f := next.value;
      if f.num == 1 {
        if !f.payload.Data? { return Err(WireType); }
        var kv := DecodePair(f.payload.data, depth + 1);
        if kv.Err? { return Err(kv.error); }
        entries := entries[kv.value.0 := kv.value.1];
      }
    }
    assert reader.Rest() == [];
    return Ok(Map(entries));
  }

  // decodeKeyValue
  method DecodePair(buf: Bytes, depth: nat) returns (r: Result<(Bytes, Value), Error>)
    ensures r == DecodeKeyValue(buf, depth)
    decreases |buf|, 2
  {
    if depth > MAX_DEPTH { return Err(Depth); }
    hide FieldFrom, DecodeAny;
    var reader := new Reader(buf);
    var key: Bytes, v: Value := [], Nil;
    assert reader.Rest() == buf;
    while reader.pos < |reader.buf|
      invariant reader.Valid() && fresh(reader) && reader.buf == buf
      invariant KeyValueFrom(reader.Rest(), depth, key, v) == KeyValueFrom(buf, depth, [], Nil)
      decreases |reader.buf| - reader.pos
    {
      var next := NextField(reader);
      if next.Err? { return Err(next.error); }
      var f := next.value;
      if f.num == 1 {
        if !f.payload.Data? { return Err(WireType); }
        key := f.payload.data;
      } else if f.num == 2 {
        if !f.payload.Data? { return Err(WireType); }
        var av := DecodeAnyValue(f.payload.data, depth + 1);
        if av.Err? { return Err(av.error); }
        v := av.value;
      }
    }
    assert reader.Rest() == [];
    return Ok((key, v));
  }
}
