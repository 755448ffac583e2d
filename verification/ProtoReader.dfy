// The reader that walks a message and the writers that append to a buffer.
module ProtoReader {
  import opened Common
  import opened ProtoWire

  // v << 7i
  function Shifted(v: nat, i: nat): nat {
    if i == 0 then v else 128 * Shifted(v, i - 1)
  }

  lemma {:induction false} ShiftedSum(d: nat, w: nat, i: nat)
    ensures Shifted(d + 128 * w, i) == Shifted(d, i) + Shifted(w, i + 1)
  {
    if i > 0 { ShiftedSum(d, w, i - 1); }
  }

  // A varint's result, given what its first i bytes contribute.
  function Continued(v: nat, i: nat, rest: Result<(nat, nat), Error>): Result<(nat, nat), Error> {
    if rest.Err? then rest else Ok((v + Shifted(rest.value.0, i), i + rest.value.1))
  }

  // What the next byte makes of a varint's result.
  lemma ContinuedStep(v: nat, i: nat, s: Bytes)
    requires i <= 10
    ensures var spec := Continued(v, i, VarintFrom(s, i));
            if i == 10 then spec == Err(Overflow)
            else if s == [] then spec == Err(Truncated)
            else if i == 9 && s[0] > 1 then spec == Err(Overflow)
            else if s[0] < 128 then spec == Ok((v + Shifted(s[0] % 128, i), i + 1))
            else spec == Continued(v + Shifted(s[0] % 128, i), i + 1, VarintFrom(s[1..], i + 1))
  {
    if i < 10 && s != [] && s[0] >= 128 && !(i == 9 && s[0] > 1) {
      var rest := VarintFrom(s[1..], i + 1);
      hide Shifted;
      assert s[0] % 128 == s[0] - 128;
      if i < 9 && rest.Ok? { ShiftedSum(s[0] - 128, rest.value.0, i); }
    }
  }

  lemma NoShift(r: Result<(nat, nat), Error>)
    ensures Continued(0, 0, r) == r
  {
  }

  class Reader {
    const buf: Bytes
    var pos: nat

    ghost predicate Valid()
      reads this
    {
      pos <= |buf|
    }

    // What is still to be read.
    function Rest(): Bytes
      reads this
      requires Valid()
    {
      buf[pos..]
    }

    constructor (message: Bytes)
      ensures Valid() && buf == message && pos == 0
    {
      buf, pos := message, 0;
    }

    method ReadVarint() returns (r: Result<nat, Error>)
      requires Valid()
      modifies this`pos
      ensures Valid() && old(pos) <= pos
      ensures var spec := VarintFrom(old(Rest()), 0);
              (spec.Err? ==> r == Err(spec.error)) &&
              (spec.Ok? ==> r == Ok(spec.value.0) && pos == old(pos) + spec.value.1)
    {
      hide Shifted, VarintFrom, Continued;
      var v: nat, i: nat := 0, 0;
      ghost var spec := VarintFrom(Rest(), 0);
      NoShift(spec);
      while i < 10
        invariant i <= 10 && Valid() && pos == old(pos) + i
        invariant Continued(v, i, VarintFrom(Rest(), i)) == spec
      {
        ContinuedStep(v, i, Rest());
        if pos >= |buf| { return Err(Truncated); }
        var b := buf[pos];
        assert Rest()[0] == b && Rest()[1..] == buf[pos + 1..];
        pos := pos + 1;
        if i == 9 && b > 1 { return Err(Overflow); }
        v := v + Shifted(b % 128, i);
        if b < 128 { return Ok(v); }
        i := i + 1;
      }
      ContinuedStep(v, i, Rest());
      return Err(Overflow);
    }

    // readFixed
    method ReadFixed(n: nat) returns (r: Result<nat, Error>)
      requires Valid() && (n == 4 || n == 8)
      modifies this`pos
      ensures Valid() && old(pos) <= pos
      ensures r == if |old(Rest())| < n then Err(Truncated) else Ok(FromLittleEndian(old(Rest())[..n]))
      ensures r.Ok? ==> pos == old(pos) + n
    {
      if |buf| - pos < n { return Err(Truncated); }
      assert buf[pos..pos + n] == Rest()[..n];
      var b := buf[pos..pos + n];
      pos := pos + n;
      return Ok(FromLittleEndian(b));
    }

    method ReadLenDelim() returns (r: Result<Bytes, Error>)
      requires Valid()
      modifies this`pos
      ensures Valid() && old(pos) <= pos
      ensures var spec := PayloadFrom(2, old(Rest()));
              (spec.Err? ==> r == Err(spec.error)) &&
              (spec.Ok? ==> r == Ok(spec.value.0.data) && pos == old(pos) + spec.value.1)
    {
      hide VarintFrom;
      ghost var start, whole := pos, Rest();
      var n := ReadVarint();
      if n.Err? { return Err(n.error); }
      if n.value > |buf| - pos { return Err(Truncated); }
      assert whole[pos - start..pos - start + n.value] == buf[pos..pos + n.value];
      var b := buf[pos..pos + n.value];
      pos := pos + n.value;
      return Ok(b);
    }

    // One field header and its payload.
    method Next() returns (r: Result<Field, Error>)
      requires Valid()
      modifies this`pos
      ensures Valid() && old(pos) <= pos
      ensures var spec := FieldFrom(old(Rest()));
              (spec.Err? ==> r == Err(spec.error)) &&
              (spec.Ok? ==> r == Ok(spec.value.0) && pos == old(pos) + spec.value.1)
    {
      hide VarintFrom, FromLittleEndian;
      ghost var start, whole := pos, Rest();
      var tag := ReadVarint();
      if tag.Err? { return Err(tag.error); }
      assert whole[pos - start..] == Rest();
      var num, typ := tag.value / 8, tag.value % 8;
      if num == 0 || num > MAX_FIELD_NUMBER { return Err(FieldNumber); }
      match typ {
        case 0 =>
          var v := ReadVarint();
          if v.Err? { return Err(v.error); }
          return Ok(Field(num, Number(v.value)));
        case 1 =>
          var v := ReadFixed(8);
          if v.Err? { return Err(v.error); }
          return Ok(Field(num, Fixed64(v.value)));
        case 5 =>
          var v := ReadFixed(4);
          if v.Err? { return Err(v.error); }
          return Ok(Field(num, Fixed32(v.value)));
        case 2 =>
          var b := ReadLenDelim();
          if b.Err? { return Err(b.error); }
          return Ok(Field(num, Data(b.value)));
        case 3 => return Err(Group);
        case 4 => return Err(Group);
        case _ => return Err(WireType);
      }
    }
  }

  // Every field of a message, as forEachField hands them out.
  method ReadFields(message: Bytes) returns (r: Result<seq<Field>, Error>)
    ensures r == FieldsFrom(message)
  {
    var reader := new Reader(message);
    var fs: seq<Field> := [];
    assert reader.Rest() == message;
    hide FieldsFrom, FieldFrom, Before;
    NothingBefore(FieldsFrom(message));
    while reader.pos < |reader.buf|
      invariant reader.Valid() && fresh(reader) && Behind(fs, FieldsFrom(reader.Rest())) == FieldsFrom(message)
      decreases |reader.buf| - reader.pos
    {
      ghost var s, at := reader.Rest(), reader.pos;
      FieldsFailure(s);
      var f := reader.Next();
      if f.Err? { return Err(f.error); }
      FieldsStep(s, f.value, reader.pos - at, reader.Rest());
      OneBehind(fs, f.value, FieldsFrom(reader.Rest()));
      fs := fs + [f.value];
    }
    NoFields(reader.Rest());
    assert fs + [] == fs;
    return Ok(fs);
  }

  // The rest of a reading, behind the fields already read.
  function Behind(fs: seq<Field>, rest: Result<seq<Field>, Error>): Result<seq<Field>, Error> {
    if rest.Err? then rest else Ok(fs + rest.value)
  }

  lemma NothingBefore(r: Result<seq<Field>, Error>)
    ensures Behind([], r) == r
  {
    if r.Ok? { assert [] + r.value == r.value; }
  }

  lemma OneBehind(fs: seq<Field>, f: Field, rest: Result<seq<Field>, Error>)
    ensures Behind(fs, Before(f, rest)) == Behind(fs + [f], rest)
  {
    if rest.Ok? { assert fs + ([f] + rest.value) == (fs + [f]) + rest.value; }
  }

  lemma FieldsFailure(s: Bytes)
    requires s != []
    ensures FieldFrom(s).Err? ==> FieldsFrom(s) == Err(FieldFrom(s).error)
  {
    hide FieldFrom;
  }

  lemma NoFields(s: Bytes)
    requires s == []
    ensures FieldsFrom(s) == Ok([])
  {
  }

  // ----- Writers -------------------------------------------------------------

  method AppendVarint(dst: Bytes, value: nat) returns (out: Bytes)
    ensures out == dst + Varint(value)
  {
    out := dst;
    var v := value;
    while v >= 128
      invariant out + Varint(v) == dst + Varint(value)
      decreases v
    {
      assert out + ([v % 128 + 128] + Varint(v / 128)) == (out + [v % 128 + 128]) + Varint(v / 128);
      out, v := out + [v % 128 + 128], v / 128;
    }
    out := out + [v];
  }

  method AppendTag(dst: Bytes, num: nat, typ: nat) returns (out: Bytes)
    ensures out == dst + Varint(num * 8 + typ)
  {
    out := AppendVarint(dst, num * 8 + typ);
  }

  // Length-delimited fields: messages, byte strings and text.
  method AppendLenDelim(dst: Bytes, num: nat, payload: Bytes) returns (out: Bytes)
    ensures out == dst + FieldBytes(Field(num, Data(payload)))
  {
    out := AppendTag(dst, num, 2);
    out := AppendVarint(out, |payload|);
    out := out + payload;
  }

  method AppendVarintField(dst: Bytes, num: nat, v: nat) returns (out: Bytes)
    ensures out == dst + FieldBytes(Field(num, Number(v)))
  {
    out := AppendTag(dst, num, 0);
    out := AppendVarint(out, v);
  }

  method AppendFixed64(dst: Bytes, num: nat, v: nat) returns (out: Bytes)
    ensures out == dst + FieldBytes(Field(num, Fixed64(v)))
  {
    out := AppendTag(dst, num, 1);
    out := out + LittleEndian(v, 8);
  }
}
