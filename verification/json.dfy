/** Parsed JSON values, as `json.load` returns them: objects keep their
    fields in order. Nothing here forces their keys to be distinct. */
module Json {
  import opened Basics

  datatype Json =
    | JNull
    | JBool(b: bool)
    | JInt(i: int)
    | JStr(s: string)
    | JList(items: seq<Json>)
    | JObject(fields: seq<Field>)

  datatype Field = Field(key: string, value: Json)

  /** The number of constructors in a value: the measure every walk over
      JSON decreases. */
  function Size(j: Json): (n: nat)
    ensures n >= 1
    decreases j
  {
    match j
    case JList(items) => 1 + SizeList(items)
    case JObject(fields) => 1 + SizeFields(fields)
    case _ => 1
  }

  function SizeList(items: seq<Json>): nat
    decreases items
  {
    if |items| == 0 then 0 else Size(items[0]) + SizeList(items[1..])
  }

  function SizeFields(fields: seq<Field>): nat
    decreases fields
  {
    if |fields| == 0 then 0 else Size(fields[0].value) + SizeFields(fields[1..])
  }

  /** `d.get(key)` on an object's fields. With a repeated key this reads
      the first field, where a dictionary from `json.load` keeps the last. */
  function Get(fields: seq<Field>, key: string): (r: Option<Json>)
    ensures r.Some? ==> Size(r.value) <= SizeFields(fields)
    ensures r.Some? <==> exists i :: 0 <= i < |fields| && fields[i].key == key
    decreases |fields|
  {
    if |fields| == 0 then None
    else if fields[0].key == key then Some(fields[0].value)
    else
      var r := Get(fields[1..], key);
      assert forall i :: 0 <= i < |fields[1..]| ==> fields[1..][i] == fields[i + 1];
      assert forall i :: 1 <= i < |fields| ==> fields[i] == fields[1..][i - 1];
      r
  }

  /** `key in d`. */
  predicate Has(fields: seq<Field>, key: string) {
    Get(fields, key).Some?
  }

  /** `d.get(key, default)`. */
  function GetOr(fields: seq<Field>, key: string, default: Json): (r: Json)
    ensures r == default || Size(r) <= SizeFields(fields)
  {
    match Get(fields, key)
    case Some(v) => v
    case None => default
  }

  /** Python truthiness of a JSON value. */
  predicate Truthy(j: Json) {
    match j
    case JNull => false
    case JBool(b) => b
    case JInt(i) => i != 0
    case JStr(s) => |s| > 0
    case JList(items) => |items| > 0
    case JObject(fields) => |fields| > 0
  }

  /** `isinstance(v, (int, float))` for the values modelled: `bool` is a
      subclass of `int`. */
  predicate IsNumber(j: Json) {
    j.JInt? || j.JBool?
  }

  predicate IsContainer(j: Json) {
    j.JList? || j.JObject?
  }

  /** `int(v)`: numbers convert, `True` is 1; anything else raises. */
  function PyInt(j: Json): (r: Outcome<int>)
    ensures r.Ok? <==> IsNumber(j)
    ensures j.JInt? ==> r == Ok(j.i)
  {
    match j
    case JInt(i) => Ok(i)
    case JBool(b) => Ok(if b then 1 else 0)
    case _ => Crash("TypeError: int()")
  }
}
