// Decoded JSON documents, and how often a key occurs anywhere inside one.
module Json {

  datatype Json =
    | Null
    | Bool(b: bool)
    | Number(text: string)
    | String(s: string)
    | Array(items: seq<Json>)
    | Object(fields: Table)

  // A decoded object. Go decodes it into a map, so key order carries nothing.
  type Table = map<string, Json>

  // ----- What a reader returns -----------------------------------------------

  predicate IsDigit(c: char) {
    '0' <= c <= '9'
  }

  function SkipDigits(s: string): string {
    if s != "" && IsDigit(s[0]) then SkipDigits(s[1..]) else s
  }

  predicate ExponentText(s: string) {
    s == "" ||
    ((s[0] == 'e' || s[0] == 'E') &&
     var digits := if |s| > 1 && (s[1] == '+' || s[1] == '-') then s[2..] else s[1..];
     digits != "" && SkipDigits(digits) == "")
  }

  predicate FractionText(s: string) {
    if s != "" && s[0] == '.' then |s| > 1 && IsDigit(s[1]) && ExponentText(SkipDigits(s[1..])) else ExponentText(s)
  }

  // A number by the grammar of section 6 of RFC 8259.
  predicate NumberText(s: string) {
    var t := if s != "" && s[0] == '-' then s[1..] else s;
    t != "" && IsDigit(t[0]) && FractionText(if t[0] == '0' then t[1..] else SkipDigits(t))
  }

  // A value that a reader with room for so many nested arrays and objects returns.
  predicate Decodable(v: Json, room: nat)
    decreases v
  {
    match v
    case Number(text) => NumberText(text)
    case Array(items) => room > 0 && forall i :: 0 <= i < |items| ==> Decodable(items[i], room - 1)
    case Object(fields) => room > 0 && forall k :: k in fields ==> Decodable(fields[k], room - 1)
    case _ => true
  }

  // ----- Counting keys -------------------------------------------------------

  // The number of fields named `key` in the whole tree below `v`.
  ghost function CountKey(v: Json, key: string): nat
    decreases v, 1, 0
  {
    match v
    case Array(items) => CountItems(v, |items|, key)
    case Object(fields) => CountFields(v, fields.Keys, key)
    case _ => 0
  }

  ghost function CountItems(v: Json, n: nat, key: string): nat
    requires v.Array? && n <= |v.items|
    decreases v, 0, n
  {
    if n == 0 then 0 else CountItems(v, n - 1, key) + CountKey(v.items[n - 1], key)
  }

  // One field contributes itself and everything below it.
  ghost function CountField(v: Json, k: string, key: string): nat
    requires v.Object? && k in v.fields
    decreases v, 0, 0
  {
    (if k == key then 1 else 0) + CountKey(v.fields[k], key)
  }

  ghost function CountFields(v: Json, todo: set<string>, key: string): nat
    requires v.Object? && todo <= v.fields.Keys
    decreases v, 0, |todo| + 1
  {
    if todo == {} then 0 else
      var k :| k in todo;
      CountFields(v, todo - {k}, key) + CountField(v, k, key)
  }

  // The fields of an object may be visited in any order.
  lemma CountFieldsRemove(v: Json, todo: set<string>, k: string, key: string)
    requires v.Object? && todo <= v.fields.Keys && k in todo
    ensures CountFields(v, todo, key) == CountFields(v, todo - {k}, key) + CountField(v, k, key)
    decreases |todo|
  {
    var p :| p in todo && CountFields(v, todo, key) == CountFields(v, todo - {p}, key) + CountField(v, p, key);
    if p != k {
      CountFieldsRemove(v, todo - {p}, k, key);
      CountFieldsRemove(v, todo - {k}, p, key);
      assert todo - {p} - {k} == todo - {k} - {p};
    }
  }

  // A key occurs nowhere exactly when it occurs in no field.
  lemma {:induction false} CountFieldsZero(v: Json, todo: set<string>, key: string)
    requires v.Object? && todo <= v.fields.Keys
    ensures CountFields(v, todo, key) == 0 <==> forall k :: k in todo ==> CountField(v, k, key) == 0
    decreases |todo|
  {
    if todo != {} {
      var k :| k in todo;
      CountFieldsRemove(v, todo, k, key);
      CountFieldsZero(v, todo - {k}, key);
    }
  }

  lemma {:induction false} CountItemsZero(v: Json, n: nat, key: string)
    requires v.Array? && n <= |v.items|
    ensures CountItems(v, n, key) == 0 <==> forall i :: 0 <= i < n ==> CountKey(v.items[i], key) == 0
  {
    if n > 0 {
      CountItemsZero(v, n - 1, key);
    }
  }
}
