// The spellings of an attribute value that the JSON decoder accepts beside the one
// that protobuf's JSON mapping prescribes: plain values, bare numbers, the older
// name of an array's field, repeated keys. All of them mean the same.
module ProtoSpellings {
  import opened Common
  import opened Utf8
  import opened ProtoWire
  import opened ProtoValues
  import opened ProtoJson

  // ----- Numbers -------------------------------------------------------------

  // The texts of the 64-bit integers, and the other text of zero that JSON allows.
  ghost predicate SpellsInt(text: Bytes, i: int) {
    -INT64 <= i < INT64 && (text == Decimal(i) || (i == 0 && text == [45, 48]))
  }

  // No JSON number starts with a plus sign or with a zero before another digit.
  predicate Regular(text: Bytes) {
    && text != [] && text[0] != 43
    && var digits := if text[0] == 45 then text[1..] else text;
       |digits| > 1 && digits[0] == 48 ==> !(48 <= digits[1] <= 57)
  }

  lemma {:induction false} DigitsAgain(s: Bytes)
    requires AllDigits(s) && (s[0] == 48 ==> |s| == 1)
    ensures Digits(DigitsValue(s)) == s && (s[0] != 48 ==> DigitsValue(s) > 0)
  {
    var init, last := s[..|s| - 1], s[|s| - 1];
    if init == [] {
      assert DigitsValue(init) == 0;
      assert s == [last];
    } else {
      DigitsAgain(init);
      assert s == init + [last];
      var v := DigitsValue(init);
      assert DigitsValue(s) == 10 * v + (last - 48);
      TenTimes(v, last - 48);
    }
  }

  lemma TenTimes(v: nat, d: nat)
    requires d < 10
    ensures (10 * v + d) / 10 == v && (10 * v + d) % 10 == d
  {
  }

  // What ParseInt accepts of JSON's numbers.
  lemma ParsedIsSpelled(text: Bytes, i: int)
    requires Regular(text)
    ensures ParseInt(text) == Some(i) <==> SpellsInt(text, i)
  {
    hide Digits, DigitsValue;
    if SpellsInt(text, i) {
      DecimalReadsBack(i);
      ZeroValue();
    }
    if ParseInt(text) == Some(i) {
      var digits := if text[0] == 45 then text[1..] else text;
      DigitsAgain(digits);
      if text[0] == 45 { assert text == [45] + digits; }
      ZeroText();
      ZeroValue();
    }
  }

  lemma ZeroValue()
    ensures ParseInt([45, 48]) == Some(0) && DigitsValue([48]) == 0
  {
    assert [45, 48][1..] == [48] && [48][..0] == [];
  }

  lemma ZeroText()
    ensures Digits(0) == [48]
  {
  }

  // A number is the 64-bit integer it spells, by itself and as an intValue, like the
  // decimal string; any other number is its double.
  lemma NumberMeans(lib: Library, text: Bytes)
    requires Regular(text)
    ensures forall i :: SpellsInt(text, i) ==>
              && FromNode(lib, Num(text)) == FromNode(lib, One("intValue", Num(text))) == Some(Int(i))
              && FromNode(lib, One("intValue", Quoted(Decimal(i)))) == Some(Int(i))
    ensures (forall i :: !SpellsInt(text, i)) ==>
              var f := lib.parseFloat(text);
              FromNode(lib, Num(text)) == FromNode(lib, One("intValue", Num(text))) ==
              if f.Some? then Some(Double(f.value)) else None
  {
    hide SpellsInt, Regular, ParseInt, FromNode;
    NumberRead(lib, text);
    forall i { ParsedIsSpelled(text, i); }
    forall i | SpellsInt(text, i)
      ensures FromNode(lib, One("intValue", Quoted(Decimal(i)))) == Some(Int(i))
    {
      StringRead(lib, text, i);
    }
  }

  lemma NumberRead(lib: Library, text: Bytes)
    ensures FromNode(lib, Num(text)) == NumberOf(lib, text)
    ensures FromNode(lib, One("intValue", Num(text))) == NumberOf(lib, text)
  {
    OneRead(lib, "intValue", Num(text));
  }

  lemma StringRead(lib: Library, text: Bytes, i: int)
    requires SpellsInt(text, i)
    ensures FromNode(lib, One("intValue", Quoted(Decimal(i)))) == Some(Int(i))
  {
    OneRead(lib, "intValue", Quoted(Decimal(i)));
    AsciiStays(Decimal(i));
    DecimalReadsBack(i);
  }

  // ----- Objects -------------------------------------------------------------

  // What an object with only this key says, its last value if the key is repeated.
  predicate Says(j: Node, key: string) {
    && j.Obj? && j.members != []
    && forall i :: 0 <= i < |j.members| ==> j.members[i].key == key
  }

  function Said(j: Node): Node {
    if j.Obj? && j.members != [] then j.members[|j.members| - 1].value else Null
  }

  // A field of a struct is its key's last value, and null without one.
  lemma {:induction false} LookupMeans(members: seq<Member>, key: string)
    ensures (forall i :: 0 <= i < |members| ==> members[i].key != key) ==> Lookup(members, key) == Null
    ensures forall i :: 0 <= i < |members| && members[i].key == key &&
                        (forall k :: i < k < |members| ==> members[k].key != key) ==>
              Lookup(members, key) == members[i].value
  {
    if members != [] { LookupMeans(members[..|members| - 1], key); }
  }

  lemma SaysRead(lib: Library, j: Node, key: string)
    requires Says(j, key)
    ensures FromNode(lib, j) == FromOneof(lib, Member(key, Said(j)))
  {
    hide FromOneof;
    assert OnlyMember(j.members) == Some(j.members[|j.members| - 1]);
  }

  // ----- Spellings -----------------------------------------------------------

  // All numbers are as JSON has them.
  predicate Lawful(j: Node)
    decreases j
  {
    match j
    case Num(text) => Regular(text)
    case Arr(items) => forall i :: 0 <= i < |items| ==> Lawful(items[i])
    case Obj(members) => forall i :: 0 <= i < |members| ==> Lawful(members[i].value)
    case _ => true
  }

  // A text where one is expected; null stands for the empty one.
  predicate Texts(j: Node, s: Bytes) {
    (j.Quoted? && s == Repaired(j.s)) || (j.Null? && s == [])
  }

  // Whether a JSON value is one of the accepted spellings of an attribute value.
  ghost predicate Means(lib: Library, j: Node, v: Value)
    decreases j, 1
  {
    match v
    case Nil => j.Null?
    case Text(s) => (j.Quoted? && s == Repaired(j.s)) || (Says(j, "stringValue") && Texts(Said(j), s))
    case Flag(b) => j == Boolean(b) || (Says(j, "boolValue") && (Said(j) == Boolean(b) || (Said(j).Null? && !b)))
    case Int(i) =>
      || (j.Num? && SpellsInt(j.text, i))
      || (Says(j, "intValue") &&
          ((Said(j).Quoted? && ParseInt(Repaired(Said(j).s)) == Some(i)) || MeansNumber(lib, Said(j), v)))
    case Double(bits) =>
      || (j.Num? && (forall i :: !SpellsInt(j.text, i)) && lib.parseFloat(j.text) == Some(bits))
      || (Says(j, "intValue") && MeansNumber(lib, Said(j), v))
      || (Says(j, "doubleValue") &&
          ((Said(j).Num? && lib.parseFloat(Said(j).text) == Some(bits)) || (Said(j).Null? && bits == 0)))
    case Blob(raw) => Says(j, "bytesValue") && exists s :: Texts(Said(j), s) && lib.unbase64(s) == Some(raw)
    case List(vs) => (j.Arr? && MeansAll(lib, j.items, vs)) || (Says(j, "arrayValue") && MeansArray(lib, Said(j), vs))
    case Map(m) => Says(j, "kvlistValue") && MeansList(lib, Said(j), m)
  }

  // A number inside an intValue, bare or an object again.
  ghost predicate MeansNumber(lib: Library, j: Node, v: Value)
    decreases j, 2
  {
    !j.Quoted? && !j.Null? && Means(lib, j, v)
  }

  ghost predicate MeansAll(lib: Library, ns: seq<Node>, vs: seq<Value>)
    decreases ns, 0
  {
    |ns| == |vs| && forall i :: 0 <= i < |ns| ==> Means(lib, ns[i], vs[i])
  }

  // The items are those of "values" and, without it, those of the older "elements".
  ghost predicate MeansArray(lib: Library, j: Node, vs: seq<Value>)
    decreases j, 0
  {
    if j.Null? then vs == []
    else
      && j.Obj?
      && var values, elements := Lookup(j.members, "values"), Lookup(j.members, "elements");
         && (values.Null? || (values.Arr? && MeansAll(lib, values.items, vs)))
         && (elements.Null? || (elements.Arr? && exists others ::
               MeansAll(lib, elements.items, others) && (values.Null? ==> others == vs)))
         && (values.Null? && elements.Null? ==> vs == [])
  }

  ghost predicate MeansList(lib: Library, j: Node, m: map<Bytes, Value>)
    decreases j, 0
  {
    if j.Null? then m == map[]
    else
      && j.Obj?
      && var values := Lookup(j.members, "values");
         if values.Null? then m == map[]
         else values.Arr? && exists kvs :: MeansPairs(lib, values.items, kvs) && Gathers(kvs, m)
  }

  ghost predicate MeansPairs(lib: Library, ns: seq<Node>, kvs: seq<(Bytes, Value)>)
    decreases ns, 0
  {
    |ns| == |kvs| && forall i :: 0 <= i < |ns| ==> MeansPair(lib, ns[i], kvs[i])
  }

  // A key and a value in any order, either of which may be missing.
  ghost predicate MeansPair(lib: Library, j: Node, kv: (Bytes, Value))
    decreases j, 0
  {
    if j.Null? then kv == ([], Nil)
    else
      && j.Obj? && Texts(Lookup(j.members, "key"), kv.0)
      && var value := Lookup(j.members, "value");
         if value.Null? then kv.1 == Nil else Means(lib, value, kv.1)
  }

  predicate Last(kvs: seq<(Bytes, Value)>, i: nat)
    requires i < |kvs|
  {
    forall k :: i < k < |kvs| ==> kvs[k].0 != kvs[i].0
  }

  // Every key with the value of its last pair.
  predicate Gathers(kvs: seq<(Bytes, Value)>, m: map<Bytes, Value>) {
    && (forall i :: 0 <= i < |kvs| && Last(kvs, i) ==> kvs[i].0 in m && m[kvs[i].0] == kvs[i].1)
    && forall k :: k in m ==> exists i :: 0 <= i < |kvs| && kvs[i].0 == k
  }

  // ----- Gathering -----------------------------------------------------------

  function Folded(before: map<Bytes, Value>, kvs: seq<(Bytes, Value)>): map<Bytes, Value>
    decreases |kvs|
  {
    if kvs == [] then before else Folded(before[kvs[0].0 := kvs[0].1], kvs[1..])
  }

  lemma {:induction false} FoldedLast(before: map<Bytes, Value>, kvs: seq<(Bytes, Value)>)
    requires kvs != []
    ensures var n := |kvs| - 1; Folded(before, kvs) == Folded(before, kvs[..n])[kvs[n].0 := kvs[n].1]
    decreases |kvs|
  {
    if |kvs| > 1 {
      FoldedLast(before[kvs[0].0 := kvs[0].1], kvs[1..]);
      assert kvs[1..][..|kvs| - 2] == kvs[..|kvs| - 1][1..];
    }
  }

  lemma {:induction false} FoldedGathers(kvs: seq<(Bytes, Value)>)
    ensures Gathers(kvs, Folded(map[], kvs))
  {
    if kvs != [] {
      var n := |kvs| - 1;
      var init, m, all := kvs[..n], Folded(map[], kvs[..n]), Folded(map[], kvs);
      FoldedGathers(init);
      FoldedLast(map[], kvs);
      forall i | 0 <= i < |kvs| && Last(kvs, i)
        ensures kvs[i].0 in all && all[kvs[i].0] == kvs[i].1
      {
        if i < n { assert Last(init, i) && init[i] == kvs[i]; }
      }
      forall k | k in all
        ensures exists i :: 0 <= i < |kvs| && kvs[i].0 == k
      {
        if k in m {
          var i :| 0 <= i < |init| && init[i].0 == k;
          assert kvs[i].0 == k;
        } else {
          assert kvs[n].0 == k;
        }
      }
    }
  }

  // A key that occurs has a last pair.
  lemma {:induction false} HasLast(kvs: seq<(Bytes, Value)>, key: Bytes) returns (i: nat)
    requires exists i :: 0 <= i < |kvs| && kvs[i].0 == key
    ensures i < |kvs| && kvs[i].0 == key && Last(kvs, i)
  {
    var n := |kvs| - 1;
    if kvs[n].0 == key {
      i := n;
    } else {
      var k :| 0 <= k < |kvs| && kvs[k].0 == key;
      assert kvs[..n][k].0 == key;
      i := HasLast(kvs[..n], key);
    }
  }

  lemma GathersOnce(kvs: seq<(Bytes, Value)>, a: map<Bytes, Value>, b: map<Bytes, Value>)
    requires Gathers(kvs, a) && Gathers(kvs, b)
    ensures a == b
  {
    forall k | k in a || k in b
      ensures k in a && k in b && a[k] == b[k]
    {
      var i := HasLast(kvs, k);
    }
  }

  // ----- Reading is meaning --------------------------------------------------

  lemma {:induction false} FromNodesIff(lib: Library, ns: seq<Node>, vs: seq<Value>)
    ensures FromNodes(lib, ns) == Some(vs) <==>
            |ns| == |vs| && forall i :: 0 <= i < |ns| ==> FromNode(lib, ns[i]) == Some(vs[i])
    decreases ns
  {
    hide FromNode;
    if ns != [] && vs != [] {
      FromNodesIff(lib, ns[1..], vs[1..]);
      assert vs == [vs[0]] + vs[1..];
      assert forall i :: 0 < i < |ns| ==> ns[i] == ns[1..][i - 1];
      assert forall i :: 0 < i < |vs| ==> vs[i] == vs[1..][i - 1];
      assert forall i :: 0 <= i < |ns[1..]| ==> ns[1..][i] == ns[i + 1];
    }
  }

  ghost predicate ReadAs(lib: Library, ns: seq<Node>, kvs: seq<(Bytes, Value)>) {
    |ns| == |kvs| && forall i :: 0 <= i < |ns| ==> FromPair(lib, ns[i]) == Some(kvs[i])
  }

  lemma {:induction false} PairsFold(lib: Library, ns: seq<Node>, kvs: seq<(Bytes, Value)>, before: map<Bytes, Value>)
    requires ReadAs(lib, ns, kvs)
    ensures FromPairs(lib, ns, before) == Some(Folded(before, kvs))
    decreases |ns|
  {
    hide FromPair;
    if ns != [] { PairsFold(lib, ns[1..], kvs[1..], before[kvs[0].0 := kvs[0].1]); }
  }

  lemma {:induction false} PairsParts(lib: Library, ns: seq<Node>, before: map<Bytes, Value>)
    returns (kvs: seq<(Bytes, Value)>)
    requires FromPairs(lib, ns, before).Some?
    ensures ReadAs(lib, ns, kvs)
    decreases |ns|
  {
    hide FromPair;
    if ns == [] {
      kvs := [];
    } else {
      var kv := FromPair(lib, ns[0]).value;
      var rest := PairsParts(lib, ns[1..], before[kv.0 := kv.1]);
      kvs := [kv] + rest;
      assert forall i :: 0 < i < |ns| ==> ns[i] == ns[1..][i - 1];
    }
  }

  lemma PairsGathered(lib: Library, ns: seq<Node>, m: map<Bytes, Value>)
    ensures FromPairs(lib, ns, map[]) == Some(m) <==> exists kvs :: ReadAs(lib, ns, kvs) && Gathers(kvs, m)
  {
    hide ReadAs, Gathers;
    if FromPairs(lib, ns, map[]) == Some(m) {
      var kvs := PairsParts(lib, ns, map[]);
      PairsFold(lib, ns, kvs, map[]);
      FoldedGathers(kvs);
    }
    if kvs :| ReadAs(lib, ns, kvs) && Gathers(kvs, m) {
      PairsFold(lib, ns, kvs, map[]);
      FoldedGathers(kvs);
      GathersOnce(kvs, m, Folded(map[], kvs));
    }
  }

  lemma {:induction false} MeansAllIff(lib: Library, ns: seq<Node>, vs: seq<Value>)
    requires forall i :: 0 <= i < |ns| ==> Lawful(ns[i])
    ensures FromNodes(lib, ns) == Some(vs) <==> MeansAll(lib, ns, vs)
    decreases ns, 0
  {
    hide FromNode, FromNodes, Means;
    FromNodesIff(lib, ns, vs);
    forall i | 0 <= i < |ns| && i < |vs| { MeansIff(lib, ns[i], vs[i]); }
  }

  lemma {:induction false} MeansPairIff(lib: Library, j: Node, kv: (Bytes, Value))
    requires Lawful(j)
    ensures FromPair(lib, j) == Some(kv) <==> MeansPair(lib, j, kv)
    decreases j, 0
  {
    hide FromNode, Means, Repaired, Lookup;
    if j.Obj? {
      LookupLawful(j.members, "value");
      var v := Lookup(j.members, "value");
      if !v.Null? { MeansIff(lib, v, kv.1); }
    }
  }

  lemma LookupLawful(members: seq<Member>, key: string)
    requires Lawful(Obj(members))
    ensures Lawful(Lookup(members, key))
  {
  }

  lemma {:induction false} MeansPairsIff(lib: Library, ns: seq<Node>, m: map<Bytes, Value>)
    requires forall i :: 0 <= i < |ns| ==> Lawful(ns[i])
    ensures FromPairs(lib, ns, map[]) == Some(m) <==> exists kvs :: MeansPairs(lib, ns, kvs) && Gathers(kvs, m)
    decreases ns, 0
  {
    hide FromPair, FromPairs, MeansPair, Gathers;
    PairsGathered(lib, ns, m);
    forall kvs: seq<(Bytes, Value)>
      ensures ReadAs(lib, ns, kvs) <==> MeansPairs(lib, ns, kvs)
    {
      forall i | 0 <= i < |ns| && i < |kvs| { MeansPairIff(lib, ns[i], kvs[i]); }
    }
  }

  lemma {:induction false} MeansFieldIff(lib: Library, members: seq<Member>, key: string, vs: seq<Value>)
    requires Lawful(Obj(members))
    ensures var v := Lookup(members, key);
            && (FromArray(lib, members, key) == Some(None) <==> v.Null?)
            && (FromArray(lib, members, key) == Some(Some(vs)) <==> v.Arr? && MeansAll(lib, v.items, vs))
    decreases members, 0
  {
    hide FromNodes, MeansAll, Lookup;
    LookupLawful(members, key);
    var v := Lookup(members, key);
    if v.Arr? { MeansAllIff(lib, v.items, vs); }
  }

  lemma {:induction false} MeansArrayIff(lib: Library, j: Node, vs: seq<Value>)
    requires Lawful(j)
    ensures FromOneof(lib, Member("arrayValue", j)) == Some(List(vs)) <==> MeansArray(lib, j, vs)
    decreases j, 0
  {
    hide FromArray, MeansAll, Lookup;
    if j.Obj? {
      MeansFieldIff(lib, j.members, "values", vs);
      MeansFieldIff(lib, j.members, "elements", vs);
      FieldReadable(lib, j.members, "values");
      FieldReadable(lib, j.members, "elements");
      var values, elements := Lookup(j.members, "values"), Lookup(j.members, "elements");
      if MeansArray(lib, j, vs) && elements.Arr? {
        var others := ElementsMean(lib, j, vs);
        MeansFieldIff(lib, j.members, "elements", others);
      }
    }
  }

  lemma ElementsMean(lib: Library, j: Node, vs: seq<Value>) returns (others: seq<Value>)
    requires j.Obj? && Lookup(j.members, "elements").Arr? && MeansArray(lib, j, vs)
    ensures MeansAll(lib, Lookup(j.members, "elements").items, others)
    ensures Lookup(j.members, "values").Null? ==> others == vs
  {
    hide Lookup;
    others :| MeansAll(lib, Lookup(j.members, "elements").items, others) &&
              (Lookup(j.members, "values").Null? ==> others == vs);
  }

  // A field is read exactly when it is missing or has some meaning.
  lemma {:induction false} FieldReadable(lib: Library, members: seq<Member>, key: string)
    requires Lawful(Obj(members))
    ensures var v := Lookup(members, key);
            FromArray(lib, members, key).Some? <==> v.Null? || (v.Arr? && exists vs :: MeansAll(lib, v.items, vs))
    decreases members, 1
  {
    hide FromArray, MeansAll, Lookup;
    var v, r := Lookup(members, key), FromArray(lib, members, key);
    MeansFieldIff(lib, members, key, []);
    if r.Some? && r.value.Some? { MeansFieldIff(lib, members, key, r.value.value); }
    if v.Arr? {
      if vs :| MeansAll(lib, v.items, vs) { MeansFieldIff(lib, members, key, vs); }
    }
  }

  lemma {:induction false} MeansListIff(lib: Library, j: Node, m: map<Bytes, Value>)
    requires Lawful(j)
    ensures FromOneof(lib, Member("kvlistValue", j)) == Some(Map(m)) <==> MeansList(lib, j, m)
    decreases j, 0
  {
    hide FromPairs, MeansPairs, Gathers, Lookup;
    if j.Obj? {
      LookupLawful(j.members, "values");
      var values := Lookup(j.members, "values");
      if values.Arr? { MeansPairsIff(lib, values.items, m); }
    }
  }

  lemma SaidLawful(j: Node, key: string)
    requires Says(j, key) && Lawful(j)
    ensures Lawful(Said(j)) && Said(j) < j
  {
    var n := |j.members| - 1;
    assert Lawful(j.members[n].value) && j.members[n] in j.members;
  }

  // The number fields of an object.
  lemma {:induction false} NumbersIff(lib: Library, j: Node, v: Value)
    requires Says(j, "intValue") && Lawful(j)
    ensures FromOneof(lib, Member("intValue", Said(j))) == Some(v) <==> Means(lib, j, v)
    decreases j, 0
  {
    hide FromNode, ParseInt, Repaired, SpellsInt, MeansAll, MeansArray, MeansList;
    SaidLawful(j, "intValue");
    MeansIff(lib, Said(j), v);
    NoNumber();
  }

  lemma NoNumber()
    ensures ParseInt([]) == None
  {
  }

  lemma {:induction false} ObjectIff(lib: Library, j: Node, key: string, v: Value)
    requires Says(j, key) && Lawful(j)
    ensures FromOneof(lib, Member(key, Said(j))) == Some(v) <==> Means(lib, j, v)
    decreases j, 1
  {
    hide FromNode, Repaired, SpellsInt, MeansAll, MeansArray, MeansList, MeansNumber, ParseInt;
    SaidLawful(j, key);
    if key == "intValue" {
      NumbersIff(lib, j, v);
    } else if key == "arrayValue" {
      if v.List? { MeansArrayIff(lib, Said(j), v.items); }
    } else if key == "kvlistValue" {
      if v.Map? { MeansListIff(lib, Said(j), v.entries); }
    }
  }

  // The decoder reads a JSON value as an attribute value exactly when it is one of
  // the spellings of it.
  lemma {:induction false} MeansIff(lib: Library, j: Node, v: Value)
    requires Lawful(j)
    ensures FromNode(lib, j) == Some(v) <==> Means(lib, j, v)
    decreases j, 2
  {
    hide FromNodes, FromOneof, Repaired, SpellsInt, MeansAll, MeansArray, MeansList, MeansNumber, ParseInt;
    match j
    case Num(text) => forall i { ParsedIsSpelled(text, i); }
    case Arr(items) => if v.List? { MeansAllIff(lib, items, v.items); }
    case Obj(members) =>
      if members != [] && Says(j, members[0].key) {
        SaysRead(lib, j, members[0].key);
        ObjectIff(lib, j, members[0].key, v);
      }
    case _ =>
  }

  // A JSON value is read like the prescribed form of a tree exactly when it is one of
  // the spellings of what the tree means.
  lemma SpellingsAgree(lib: Library, j: Node, t: Tree)
    requires Faithful(lib) && Sound(t) && AllFinite(t) && Lawful(j)
    ensures FromNode(lib, j) == FromNode(lib, ToNode(lib, t)) <==> Means(lib, j, Meaning(Mended(t)))
  {
    hide FromNode, ToNode, Means, Meaning, Mended, Sound, AllFinite;
    NodeDecodes(lib, t);
    MeansIff(lib, j, Meaning(Mended(t)));
  }
}
