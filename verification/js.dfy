/**
 * The slice of JavaScript value semantics the system relies on when it reads
 * untrusted JSON: parsed JSON values, `undefined`, truthiness, `||`, property
 * access (which throws on null and undefined) and strict equality.
 *
 * JSON.parse and JSON.stringify are foreign code here: a `Codec` carries them as
 * functions, and `Faithful` is the one law the model assumes of them.
 */
module Js {
  import opened Wrappers

  /** A value produced by JSON.parse. JSON numbers are modelled as integers. */
  datatype Json =
    | JNull
    | JBool(b: bool)
    | JNum(n: int)
    | JStr(s: string)
    | JArr(items: seq<Json>)
    | JObj(fields: map<string, Json>)

  /** A JavaScript value read out of parsed JSON: `undefined` or a JSON value. */
  datatype Value = Undefined | Defined(json: Json)

  const Null: Value := Defined(JNull)

  function Str(s: string): Value {
    Defined(JStr(s))
  }

  /** JavaScript truthiness: undefined, null, false, 0 and "" are falsy; every array and object is truthy. */
  predicate Truthy(v: Value) {
    match v
    case Undefined => false
    case Defined(j) =>
      match j
      case JNull => false
      case JBool(b) => b
      case JNum(n) => n != 0
      case JStr(s) => s != ""
      case JArr(_) => true
      case JObj(_) => true
  }

  /** `a || b` */
  function Or(a: Value, b: Value): Value {
    if Truthy(a) then a else b
  }

  predicate IsString(v: Value) {
    v.Defined? && v.json.JStr?
  }

  /** `typeof v === 'number'` */
  predicate IsNumber(v: Value) {
    v.Defined? && v.json.JNum?
  }

  predicate IsNullish(v: Value) {
    v == Undefined || v == Null
  }

  /** `v.key` on a value that is neither null nor undefined. Only objects have the keys this system reads. */
  function Member(v: Value, key: string): Value {
    if v.Defined? && v.json.JObj? && key in v.json.fields then Defined(v.json.fields[key]) else Undefined
  }

  /** `v.key`: None stands for the TypeError thrown when `v` is null or undefined. */
  function Get(v: Value, key: string): (r: Option<Value>)
    ensures r.None? <==> IsNullish(v)
  {
    if IsNullish(v) then None else Some(Member(v, key))
  }

  /** `v?.key` */
  function OptGet(v: Value, key: string): Value {
    if IsNullish(v) then Undefined else Member(v, key)
  }

  /**
   * `a === b` (and JavaScript Map key equality) between values taken from
   * different JSON.parse results: primitives compare by value, while arrays and
   * objects are distinct references and never compare equal.
   */
  predicate StrictEquals(a: Value, b: Value) {
    a == b && (a.Undefined? || !(a.json.JArr? || a.json.JObj?))
  }

  /** JSON.parse (None when it throws) and JSON.stringify. */
  datatype Codec = Codec(parse: string -> Option<Json>, stringify: Json -> string)

  /** Parsing what was stringified gives the value back. */
  ghost predicate Faithful(c: Codec) {
    forall j: Json :: c.parse(c.stringify(j)) == Some(j)
  }

  /** JSON text of a list of strings. */
  function StrArray(xs: seq<string>): Json {
    JArr(seq(|xs|, i requires 0 <= i < |xs| => JStr(xs[i])))
  }

  /** `xs.slice(0, end)`: a negative end counts back from the length, and an end past the length is clamped. */
  function Slice<T>(xs: seq<T>, end: int): (r: seq<T>)
    ensures r <= xs
    ensures 0 <= end ==> |r| == if end < |xs| then end else |xs|
    ensures end < 0 ==> |r| == if |xs| + end > 0 then |xs| + end else 0
  {
    var k := if end < 0 then |xs| + end else end;
    if k <= 0 then [] else if k >= |xs| then xs else xs[..k]
  }
}
