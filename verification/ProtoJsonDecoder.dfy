// The JSON decoder as its passes over arrays and key lists.
module ProtoJsonDecoder {
  import opened Common
  import opened Utf8
  import opened ProtoWire
  import opened ProtoValues
  import opened ProtoJson

  method UnmarshalValue(lib: Library, j: Node) returns (r: Option<Value>)
    ensures r == FromNode(lib, j)
    decreases j, 1
  {
    match j
    case Quoted(s) => return Some(Text(Repaired(s)));
    case Boolean(b) => return Some(Flag(b));
    case Null => return Some(Nil);
    case Num(text) => return NumberOf(lib, text);
    case Arr(items) =>
      var vs := UnmarshalItems(lib, items);
      return if vs.Some? then Some(List(vs.value)) else None;
    case Obj(members) =>
      var one := OnlyMember(members);
      if one.None? { return None; }
      r := DecodeOneof(lib, one.value);
  }

  method UnmarshalItems(lib: Library, items: seq<Node>) returns (r: Option<seq<Value>>)
    ensures r == FromNodes(lib, items)
    decreases items
  {
    var out: seq<Value> := [];
    var i := 0;
    assert items[0..] == items;
    assert FromNodes(lib, items).Some? ==> out + FromNodes(lib, items).value == FromNodes(lib, items).value;
    while i < |items|
      invariant i <= |items|
      invariant FromNodes(lib, items) ==
                (var rest := FromNodes(lib, items[i..]); if rest.None? then None else Some(out + rest.value))
    {
      hide FromNode;
      assert items[i..][1..] == items[i + 1..];
      var v := UnmarshalValue(lib, items[i]);
      if v.None? { return None; }
      ghost var rest := FromNodes(lib, items[i + 1..]);
      assert rest.Some? ==> out + ([v.value] + rest.value) == (out + [v.value]) + rest.value;
      out, i := out + [v.value], i + 1;
    }
    assert out + [] == out;
    return Some(out);
  }

  // The array of a struct field, when it is set.
  method UnmarshalArray(lib: Library, members: seq<Member>, key: string) returns (r: Option<Option<seq<Value>>>)
    ensures r == FromArray(lib, members, key)
    decreases members
  {
    var v := Lookup(members, key);
    if v.Null? { return Some(None); }
    if !v.Arr? { return None; }
    var vs := UnmarshalItems(lib, v.items);
    return if vs.Some? then Some(Some(vs.value)) else None;
  }

  // The object part of decodeNested.
  method DecodeOneof(lib: Library, m: Member) returns (r: Option<Value>)
    ensures r == FromOneof(lib, m)
    decreases m, 1
  {
    if m.key == "intValue" && TextOf(m.value).None? {
      var v := UnmarshalValue(lib, m.value);
      return if v.Some? && (v.value.Int? || v.value.Double?) then v else None;
    }
    if m.key == "arrayValue" && m.value.Obj? {
      var values := UnmarshalArray(lib, m.value.members, "values");
      var elements := UnmarshalArray(lib, m.value.members, "elements");
      if values.None? || elements.None? { return None; }
      var items := values.value;
      if items.None? { items := elements.value; }
      return Some(List(if items.Some? then items.value else []));
    }
    if m.key == "kvlistValue" && m.value.Obj? {
      var values := Lookup(m.value.members, "values");
      if values.Null? { return Some(Map(map[])); }
      if !values.Arr? { return None; }
      var kvs := UnmarshalPairs(lib, values.items);
      return if kvs.Some? then Some(Map(kvs.value)) else None;
    }
    r := DecodeScalar(lib, m);
  }

  // The oneof fields that hold no nested message.
  method DecodeScalar(lib: Library, m: Member) returns (r: Option<Value>)
    requires !(m.key == "intValue" && TextOf(m.value).None?)
    requires !(m.key == "arrayValue" && m.value.Obj?) && !(m.key == "kvlistValue" && m.value.Obj?)
    ensures r == FromOneof(lib, m)
  {
    var s := TextOf(m.value);
    if m.key == "stringValue" { return if s.Some? then Some(Text(s.value)) else None; }
    if m.key == "boolValue" {
      return if m.value.Boolean? then Some(Flag(m.value.b)) else if m.value.Null? then Some(Flag(false)) else None;
    }
    if m.key == "intValue" {
      var i := ParseInt(s.value);
      return if i.Some? then Some(Int(i.value)) else None;
    }
    if m.key == "doubleValue" {
      if m.value.Null? { return Some(Double(0)); }
      if !m.value.Num? { return None; }
      var f := lib.parseFloat(m.value.text);
      return if f.Some? then Some(Double(f.value)) else None;
    }
    if m.key == "bytesValue" {
      if s.None? { return None; }
      var b := lib.unbase64(s.value);
      return if b.Some? then Some(Blob(b.value)) else None;
    }
    if m.key == "arrayValue" { return if m.value.Null? then Some(List([])) else None; }
    if m.key == "kvlistValue" { return if m.value.Null? then Some(Map(map[])) else None; }
    return None;
  }

  method UnmarshalPairs(lib: Library, items: seq<Node>) returns (r: Option<map<Bytes, Value>>)
    ensures r == FromPairs(lib, items, map[])
    decreases items
  {
    var out: map<Bytes, Value> := map[];
    var i := 0;
    assert items[0..] == items;
    while i < |items|
      invariant i <= |items| && FromPairs(lib, items[i..], out) == FromPairs(lib, items, map[])
    {
      assert items[i..][1..] == items[i + 1..];
      var kv: Option<(Bytes, Value)> := None;
      match items[i] {
        case Null => kv := Some(([], Nil));
        case Obj(members) =>
          var key, v := TextOf(Lookup(members, "key")), Lookup(members, "value");
          var value := Some(Nil);
          if !v.Null? { value := UnmarshalValue(lib, v); }
          if key.Some? && value.Some? { kv := Some((key.value, value.value)); }
        case _ =>
      }
      if kv.None? { return None; }
      out, i := out[kv.value.0 := kv.value.1], i + 1;
    }
    return Some(out);
  }
}
