/**
  JSON-like values as Python's `json` module produces them, together with the
  handful of Python dictionary idioms the pipeline relies on: `dict.get`,
  `dict.get(key, default)`, truthiness and the short-circuiting `or`.

  `json.loads`, `json.dumps` and UTF-8 decoding are not interpreted: the
  operations that use them take them as function parameters.
 */
module Json {

  datatype Option<+T> = None | Some(value: T)

  /** Bytes as Python's `bytes` holds them. */
  newtype byte = x: int | 0 <= x < 256

  /** A value as `json.loads` returns it: `None`, a bool, a number, a string,
      a list or a dict with string keys (key order is not modelled). */
  datatype Json =
    | JNull
    | JBool(b: bool)
    | JNum(n: real)
    | JStr(s: string)
    | JArr(items: seq<Json>)
    | JObj(fields: map<string, Json>)

  type Dict = map<string, Json>

  /** Python truthiness: `None`, `False`, zero, and empty strings, lists and
      dicts are falsy; everything else is truthy. */
  predicate Truthy(v: Json) {
    match v
    case JNull => false
    case JBool(b) => b
    case JNum(n) => n != 0.0
    case JStr(s) => s != []
    case JArr(items) => items != []
    case JObj(fields) => fields != map[]
  }

  /** `d.get(key)`: the value under `key`, or `None` when it is absent. */
  function Get(d: Dict, key: string): (v: Json)
    ensures key in d ==> v == d[key]
    ensures key !in d ==> v == JNull
  {
    if key in d then d[key] else JNull
  }

  /** `d.get(key, default)`: unlike `Get`, a present `None` is returned as is. */
  function GetOr(d: Dict, key: string, default: Json): (v: Json)
    ensures key in d ==> v == d[key]
    ensures key !in d ==> v == default
  {
    if key in d then d[key] else default
  }

  /** Python's `a or b`: `a` when it is truthy, otherwise `b` (truthy or not). */
  function Or(a: Json, b: Json): (v: Json)
    ensures Truthy(a) ==> v == a
    ensures !Truthy(a) ==> v == b
  {
    if Truthy(a) then a else b
  }

  /** `d.get(key)` is `d.get(key, None)`. */
  lemma GetIsGetOrNull(d: Dict, key: string)
    ensures Get(d, key) == GetOr(d, key, JNull)
  {
  }

  /** `a or b` is truthy exactly when one of its operands is, and it is one of
      its operands. */
  lemma OrTruthy(a: Json, b: Json)
    ensures Truthy(Or(a, b)) <==> Truthy(a) || Truthy(b)
    ensures Or(a, b) == a || Or(a, b) == b
  {
  }

  /** A chain `a or b or c` picks its first truthy operand, else its last one,
      whichever way it is bracketed. */
  lemma OrChain(a: Json, b: Json, c: Json)
    ensures Or(Or(a, b), c) == Or(a, Or(b, c))
    ensures Or(Or(a, b), c) == if Truthy(a) then a else if Truthy(b) then b else c
  {
  }

  /** `x or {}` applied to a value that is then used as a dict. */
  predicate DictOrFalsy(v: Json) {
    v.JObj? || !Truthy(v)
  }

  /** `(x or {})` for a value that is a dict or falsy. The model admits only
      these two shapes: on any other truthy value `dict(...)` either raises or,
      for a list of key/value pairs, builds a dict from the pairs. */
  function AsDict(v: Json): (d: Dict)
    requires DictOrFalsy(v)
    ensures Truthy(v) ==> d == v.fields
    ensures !Truthy(v) ==> d == map[]
  {
    if v.JObj? then v.fields else map[]
  }

  /** `str(v)` as an f-string renders it: a string is itself; any other value
      is rendered by `repr`, which is left uninterpreted. */
  function PyStr(v: Json, repr: Json -> string): (r: string)
    ensures v.JStr? ==> r == v.s
  {
    if v.JStr? then v.s else repr(v)
  }

  /** A literal single-entry dict. */
  function Obj1(k: string, v: Json): Json {
    JObj(map[k := v])
  }

  /** A user turn of the Bedrock messages format,
      `{"role": "user", "content": [{"text": text}]}`. */
  function UserMessage(text: Json): (m: Json)
    ensures m.JObj? && m.fields.Keys == {"role", "content"} && m.fields["role"] == JStr("user")
    ensures m.fields["content"].JArr? && |m.fields["content"].items| == 1
    ensures var part := m.fields["content"].items[0];
            part.JObj? && part.fields.Keys == {"text"} && part.fields["text"] == text
  {
    JObj(map["role" := JStr("user"), "content" := JArr([Obj1("text", text)])])
  }
}
