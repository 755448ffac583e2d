// The protobuf wire codec: varints, fields and field lists.
module ProtoWire {
  import opened Common

  type Bytes = seq<Byte>

  const UINT64 := 0x1_0000_0000_0000_0000
  const MAX_FIELD_NUMBER := 536870911

  datatype Error = Truncated | Overflow | Group | FieldNumber | WireType | Depth

  // ----- Varints -------------------------------------------------------------

  function Varint(v: nat): (s: Bytes)
    ensures s != []
  {
    if v < 128 then [v] else [v % 128 + 128] + Varint(v / 128)
  }

  // What bytes i.. of a ten-byte varint can still hold.
  function Bound(i: nat): (b: nat)
    requires i < 10
    ensures b > 0
    decreases 10 - i
  {
    if i == 9 then 2 else 128 * Bound(i + 1)
  }

  // A varint whose first i bytes are already read: its value and its length.
  function VarintFrom(s: Bytes, i: nat): (r: Result<(nat, nat), Error>)
    requires i <= 10
    ensures r.Ok? ==> i < 10 && r.value.0 < Bound(i) && 1 <= r.value.1 <= |s|
    decreases 10 - i
  {
    if i == 10 then Err(Overflow)
    else if s == [] then Err(Truncated)
    else if i == 9 && s[0] > 1 then Err(Overflow)
    else if s[0] < 128 then Ok((s[0], 1))
    else
      var rest := VarintFrom(s[1..], i + 1);
      if rest.Err? then rest else Ok((s[0] - 128 + 128 * rest.value.0, 1 + rest.value.1))
  }

  lemma WholeBound()
    ensures Bound(0) == UINT64
  {
    assert Bound(7) == 32768 && Bound(5) == 536870912 && Bound(3) == 0x800_0000_0000;
  }

  // A written varint reads back, whatever follows it.
  lemma {:induction false} VarintReadsBack(v: nat, rest: Bytes, i: nat)
    requires i < 10 && v < Bound(i)
    ensures VarintFrom(Varint(v) + rest, i) == Ok((v, |Varint(v)|))
    decreases 10 - i
  {
    var s := Varint(v) + rest;
    if v >= 128 {
      VarintReadsBack(v / 128, rest, i + 1);
      assert s[1..] == Varint(v / 128) + rest;
    }
  }

  lemma {:induction false} VarintExtended(s: Bytes, t: Bytes, i: nat)
    requires i <= 10 && VarintFrom(s, i).Ok?
    ensures VarintFrom(s + t, i) == VarintFrom(s, i)
    decreases 10 - i
  {
    assert (s + t)[0] == s[0];
    if s[0] >= 128 {
      assert (s + t)[1..] == s[1..] + t;
      VarintExtended(s[1..], t, i + 1);
    }
  }

  lemma {:induction false} VarintCut(s: Bytes, i: nat, k: nat)
    requires i <= 10 && VarintFrom(s, i).Ok? && k < VarintFrom(s, i).value.1
    ensures VarintFrom(s[..k], i) == Err(Truncated)
    decreases 10 - i
  {
    if k > 0 {
      assert s[..k][0] == s[0] && s[..k][1..] == s[1..][..k - 1];
      VarintCut(s[1..], i + 1, k - 1);
    }
  }

  // Bytes after a varint do not matter, and no shorter text holds it.
  lemma VarintIsLocal(s: Bytes, t: Bytes, i: nat)
    requires i <= 10 && VarintFrom(s, i).Ok?
    ensures VarintFrom(s + t, i) == VarintFrom(s, i)
    ensures forall k :: 0 <= k < VarintFrom(s, i).value.1 ==> VarintFrom(s[..k], i) == Err(Truncated)
  {
    hide VarintFrom;
    VarintExtended(s, t, i);
    forall k | 0 <= k < VarintFrom(s, i).value.1
      ensures VarintFrom(s[..k], i) == Err(Truncated)
    {
      VarintCut(s, i, k);
    }
  }

  // ----- Fixed-width integers ------------------------------------------------

  function LittleEndian(v: nat, n: nat): (s: Bytes)
    ensures |s| == n
  {
    if n == 0 then [] else [v % 256] + LittleEndian(v / 256, n - 1)
  }

  function FromLittleEndian(s: Bytes): nat {
    if s == [] then 0 else s[0] + 256 * FromLittleEndian(s[1..])
  }

  function Power256(n: nat): nat {
    if n == 0 then 1 else 256 * Power256(n - 1)
  }

  lemma {:induction false} FixedReadsBack(v: nat, n: nat)
    requires v < Power256(n)
    ensures FromLittleEndian(LittleEndian(v, n)) == v
  {
    if n > 0 {
      FixedReadsBack(v / 256, n - 1);
      assert LittleEndian(v, n)[1..] == LittleEndian(v / 256, n - 1);
    }
  }

  lemma FixedBounds()
    ensures Power256(4) == 0x1_0000_0000 && Power256(8) == UINT64
  {
    assert Power256(2) == 65536 && Power256(6) == 0x1_0000_0000_0000;
  }

  // ----- Fields --------------------------------------------------------------

  datatype Payload = Number(v: nat) | Fixed64(v: nat) | Fixed32(v: nat) | Data(data: Bytes)

  datatype Field = Field(num: nat, payload: Payload)

  function WireTypeOf(p: Payload): nat {
    match p
    case Number(_) => 0
    case Fixed64(_) => 1
    case Data(_) => 2
    case Fixed32(_) => 5
  }

  // What can be written: a legal field number and a value of its width.
  predicate Legal(f: Field) {
    && 1 <= f.num <= MAX_FIELD_NUMBER
    && match f.payload
       case Number(v) => v < UINT64
       case Fixed64(v) => v < UINT64
       case Fixed32(v) => v < 0x1_0000_0000
       case Data(data) => |data| < UINT64
  }

  function PayloadBytes(p: Payload): Bytes {
    match p
    case Number(v) => Varint(v)
    case Fixed64(v) => LittleEndian(v, 8)
    case Fixed32(v) => LittleEndian(v, 4)
    case Data(data) => Varint(|data|) + data
  }

  function FieldBytes(f: Field): Bytes {
    Varint(f.num * 8 + WireTypeOf(f.payload)) + PayloadBytes(f.payload)
  }

  // The payload of a wire type at the front of the rest of a message.
  function PayloadFrom(typ: nat, s: Bytes): (r: Result<(Payload, nat), Error>)
    ensures r.Ok? ==> r.value.1 <= |s|
    ensures r.Ok? && r.value.0.Data? ==> |r.value.0.data| < r.value.1
  {
    match typ
    case 0 =>
      var v := VarintFrom(s, 0);
      if v.Err? then Err(v.error) else Ok((Number(v.value.0), v.value.1))
    case 1 => if |s| < 8 then Err(Truncated) else Ok((Fixed64(FromLittleEndian(s[..8])), 8))
    case 5 => if |s| < 4 then Err(Truncated) else Ok((Fixed32(FromLittleEndian(s[..4])), 4))
    case 2 =>
      var n := VarintFrom(s, 0);
      if n.Err? then Err(n.error)
      else if n.value.0 > |s| - n.value.1 then Err(Truncated)
      else Ok((Data(s[n.value.1..n.value.1 + n.value.0]), n.value.1 + n.value.0))
    case 3 => Err(Group)
    case 4 => Err(Group)
    case _ => Err(WireType)
  }

  // One field at the front of a message, and how many bytes it takes.
  function FieldFrom(s: Bytes): (r: Result<(Field, nat), Error>)
    ensures r.Ok? ==> 1 <= r.value.1 <= |s|
    ensures r.Ok? && r.value.0.payload.Data? ==> |r.value.0.payload.data| < |s|
  {
    var tag := VarintFrom(s, 0);
    if tag.Err? then Err(tag.error)
    else
      var num, typ, n := tag.value.0 / 8, tag.value.0 % 8, tag.value.1;
      if num == 0 || num > MAX_FIELD_NUMBER then Err(FieldNumber)
      else
        var p := PayloadFrom(typ, s[n..]);
        if p.Err? then Err(p.error) else Ok((Field(num, p.value.0), n + p.value.1))
  }

  lemma PayloadReadsBack(p: Payload, rest: Bytes)
    requires Legal(Field(1, p))
    ensures PayloadFrom(WireTypeOf(p), PayloadBytes(p) + rest) == Ok((p, |PayloadBytes(p)|))
  {
    WholeBound();
    FixedBounds();
    hide Varint, VarintFrom, LittleEndian, FromLittleEndian, Bound, Power256;
    var s := PayloadBytes(p) + rest;
    match p
    case Number(v) => VarintReadsBack(v, rest, 0);
    case Fixed64(v) =>
      assert s[..8] == LittleEndian(v, 8);
      FixedReadsBack(v, 8);
    case Fixed32(v) =>
      assert s[..4] == LittleEndian(v, 4);
      FixedReadsBack(v, 4);
    case Data(data) =>
      assert s == Varint(|data|) + (data + rest);
      VarintReadsBack(|data|, data + rest, 0);
      assert s[|Varint(|data|)|..|Varint(|data|)| + |data|] == data;
  }

  // A written field reads back, whatever follows it.
  lemma FieldReadsBack(f: Field, rest: Bytes)
    requires Legal(f)
    ensures FieldFrom(FieldBytes(f) + rest) == Ok((f, |FieldBytes(f)|))
  {
    WholeBound();
    hide Varint, VarintFrom, Bound, PayloadFrom, PayloadBytes;
    var tag := f.num * 8 + WireTypeOf(f.payload);
    var s := FieldBytes(f) + rest;
    assert s == Varint(tag) + (PayloadBytes(f.payload) + rest);
    assert s[|Varint(tag)|..] == PayloadBytes(f.payload) + rest;
    VarintReadsBack(tag, PayloadBytes(f.payload) + rest, 0);
    PayloadReadsBack(f.payload, rest);
  }

  lemma PayloadIsLocal(typ: nat, s: Bytes, t: Bytes)
    requires PayloadFrom(typ, s).Ok?
    ensures PayloadFrom(typ, s + t) == PayloadFrom(typ, s)
    ensures forall k :: 0 <= k < PayloadFrom(typ, s).value.1 ==> PayloadFrom(typ, s[..k]) == Err(Truncated)
  {
    hide VarintFrom, FromLittleEndian;
    if typ == 1 {
      assert (s + t)[..8] == s[..8];
    } else if typ == 5 {
      assert (s + t)[..4] == s[..4];
    } else {
      VarintIsLocal(s, t, 0);
      if typ == 2 {
        var n := VarintFrom(s, 0).value;
        assert (s + t)[n.1..n.1 + n.0] == s[n.1..n.1 + n.0];
        forall k | 0 <= k < n.1 + n.0
          ensures PayloadFrom(typ, s[..k]) == Err(Truncated)
        {
          if k >= n.1 {
            VarintIsLocal(s[..n.1], s[n.1..k], 0) by { VarintOfPrefix(s, n.1); }
            VarintOfPrefix(s, n.1);
            assert s[..n.1] + s[n.1..k] == s[..k];
          }
        }
      }
    }
  }

  // The bytes a varint takes are enough to read it.
  lemma {:induction false} VarintOfPrefixFrom(s: Bytes, n: nat, i: nat)
    requires i <= 10 && VarintFrom(s, i).Ok? && VarintFrom(s, i).value.1 == n
    ensures VarintFrom(s[..n], i) == VarintFrom(s, i)
    decreases 10 - i
  {
    if s[0] >= 128 {
      assert s[..n][1..] == s[1..][..n - 1];
      VarintOfPrefixFrom(s[1..], n - 1, i + 1);
    }
  }

  lemma VarintOfPrefix(s: Bytes, n: nat)
    requires VarintFrom(s, 0).Ok? && VarintFrom(s, 0).value.1 == n
    ensures VarintFrom(s[..n], 0) == VarintFrom(s, 0)
  {
    VarintOfPrefixFrom(s, n, 0);
  }

  // Bytes after a field do not matter, and every strict prefix of one is
  // truncated, however the field was written.
  lemma FieldIsLocal(s: Bytes, t: Bytes)
    requires FieldFrom(s).Ok?
    ensures FieldFrom(s + t) == FieldFrom(s)
    ensures forall k :: 0 <= k < FieldFrom(s).value.1 ==> FieldFrom(s[..k]) == Err(Truncated)
  {
    hide VarintFrom, PayloadFrom;
    VarintIsLocal(s, t, 0);
    var tag, n := VarintFrom(s, 0).value.0, VarintFrom(s, 0).value.1;
    assert (s + t)[n..] == s[n..] + t;
    PayloadIsLocal(tag % 8, s[n..], t);
    forall k | 0 <= k < FieldFrom(s).value.1
      ensures FieldFrom(s[..k]) == Err(Truncated)
    {
      if k >= n {
        VarintOfPrefix(s, n);
        VarintIsLocal(s[..n], s[n..k], 0);
        assert s[..n] + s[n..k] == s[..k];
        assert s[..k][n..] == s[n..][..k - n];
      }
    }
  }

  // ----- Field lists ---------------------------------------------------------

  // Every field of a message.
  function FieldsFrom(s: Bytes): Result<seq<Field>, Error>
    decreases |s|
  {
    if s == [] then Ok([])
    else
      var first := FieldFrom(s);
      if first.Err? then Err(first.error)
      else
        var rest := FieldsFrom(s[first.value.1..]);
        if rest.Err? then rest else Ok([first.value.0] + rest.value)
  }

  function FieldsBytes(fs: seq<Field>): Bytes {
    if fs == [] then [] else FieldBytes(fs[0]) + FieldsBytes(fs[1..])
  }

  function Before(f: Field, rest: Result<seq<Field>, Error>): Result<seq<Field>, Error> {
    if rest.Err? then rest else Ok([f] + rest.value)
  }

  lemma FieldsStep(s: Bytes, f: Field, n: nat, rest: Bytes)
    requires FieldFrom(s) == Ok((f, n)) && rest == s[n..]
    ensures FieldsFrom(s) == Before(f, FieldsFrom(rest))
  {
    hide FieldFrom;
  }

  // A message followed by more bytes has its own fields and then theirs.
  lemma {:induction false} FieldsOfConcat(a: Bytes, b: Bytes)
    requires FieldsFrom(a).Ok?
    ensures FieldsFrom(a + b) ==
            if FieldsFrom(b).Err? then FieldsFrom(b) else Ok(FieldsFrom(a).value + FieldsFrom(b).value)
    decreases |a|
  {
    hide FieldFrom;
    if a == [] {
      assert a + b == b;
      if FieldsFrom(b).Ok? { assert [] + FieldsFrom(b).value == FieldsFrom(b).value; }
    } else {
      var f, n := FieldFrom(a).value.0, FieldFrom(a).value.1;
      FieldIsLocal(a, b);
      assert (a + b)[n..] == a[n..] + b;
      FieldsStep(a, f, n, a[n..]);
      FieldsStep(a + b, f, n, a[n..] + b);
      FieldsOfConcat(a[n..], b);
      if FieldsFrom(b).Ok? {
        assert ([f] + FieldsFrom(a[n..]).value) + FieldsFrom(b).value == [f] + (FieldsFrom(a[n..]).value + FieldsFrom(b).value);
      }
    }
  }

  lemma {:induction false} FieldsReadBack(fs: seq<Field>)
    requires forall i :: 0 <= i < |fs| ==> Legal(fs[i])
    ensures FieldsFrom(FieldsBytes(fs)) == Ok(fs)
  {
    hide FieldFrom, FieldBytes, Legal;
    if fs != [] {
      var first, rest := FieldBytes(fs[0]), FieldsBytes(fs[1..]);
      FieldReadsBack(fs[0], rest);
      assert (first + rest)[|first|..] == rest;
      FieldsStep(first + rest, fs[0], |first|, rest);
      FieldsReadBack(fs[1..]);
      assert [fs[0]] + fs[1..] == fs;
    }
  }

  // A message cut anywhere inside its last field is an error.
  lemma CutFieldIsError(fs: seq<Field>, f: Field, k: nat)
    requires Legal(f) && forall i :: 0 <= i < |fs| ==> Legal(fs[i])
    requires 0 < k < |FieldBytes(f)|
    ensures FieldsFrom(FieldsBytes(fs) + FieldBytes(f)[..k]) == Err(Truncated)
  {
    hide FieldFrom, FieldBytes, Legal;
    FieldsReadBack(fs);
    FieldReadsBack(f, []);
    assert FieldBytes(f) + [] == FieldBytes(f);
    FieldIsLocal(FieldBytes(f), []);
    FieldsOfConcat(FieldsBytes(fs), FieldBytes(f)[..k]);
  }
}
