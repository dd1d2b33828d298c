/** The JavaScript values the logger passes around: UTF-16 strings as code-unit
    sequences, bytes, optional values, and JSON-shaped records with the
    `Object.assign` merge both scripts use to stamp records. */
module Js {

  /** One UTF-16 code unit, what `String.prototype.split("")` yields. */
  type CodeUnit = x: int | 0 <= x < 0x1_0000

  /** A JavaScript string, as the sequence of its code units. */
  type Utf16 = seq<CodeUnit>

  type Byte = x: int | 0 <= x < 0x100

  datatype Option<+T> = None | Some(value: T)

  /** A JSON value; numbers are modelled as integers. */
  datatype Json =
    | JNull
    | JBool(b: bool)
    | JNum(n: int)
    | JStr(s: string)
    | JArr(items: seq<Json>)
    | JObj(fields: map<string, Json>)

  /** JavaScript truthiness of a JSON value. */
  predicate Truthy(v: Json)
  {
    match v
    case JNull => false
    case JBool(b) => b
    case JNum(n) => n != 0
    case JStr(s) => s != ""
    case JArr(_) => true
    case JObj(_) => true
  }

  /** Decimal spelling of a natural number, as `String(n)` gives it. */
  function NatToString(n: nat): (r: string)
    ensures |r| >= 1
    ensures forall k :: 0 <= k < |r| ==> '0' <= r[k] <= '9'
    decreases n
  {
    if n < 10 then [Digit(n)] else NatToString(n / 10) + [Digit(n % 10)]
  }

  function Digit(d: nat): (c: char)
    requires d < 10
    ensures '0' <= c <= '9'
  {
    ['0', '1', '2', '3', '4', '5', '6', '7', '8', '9'][d]
  }

  /** The keys "0", "1", ... an array-like source contributes to `Object.assign`. */
  function IndexEntries(items: seq<Json>): map<string, Json>
    decreases |items|
  {
    if items == [] then map[]
    else
      var last := |items| - 1;
      IndexEntries(items[..last])[NatToString(last) := items[last]]
  }

  /** The own enumerable properties `Object.assign` copies out of a source value:
      an object's fields, an array's or a string's indices, nothing for the rest. */
  function OwnEntries(v: Json): map<string, Json>
  {
    match v
    case JObj(m) => m
    case JArr(items) => IndexEntries(items)
    case JStr(s) => IndexEntries(seq(|s|, k requires 0 <= k < |s| => JStr([s[k]])))
    case _ => map[]
  }

  /** `Object.assign(target, source)` on plain objects: the source's keys win. */
  function Assign(target: map<string, Json>, source: map<string, Json>): (r: map<string, Json>)
    ensures r.Keys == target.Keys + source.Keys
    ensures forall k :: k in source ==> r[k] == source[k]
    ensures forall k :: k in target && k !in source ==> r[k] == target[k]
  {
    target + source
  }
}
