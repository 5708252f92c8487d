/** An abstract JSON value as Python's `json` module hands it back, with the
    pieces of Python semantics the pipeline leans on: truthiness, the `in`
    operator (whose meaning depends on the container's type) and
    subscripting by a string key. Decoding and encoding stay abstract: they
    are passed around as functions. */
module JsonModel {
  import opened Wrappers
  import Text

  /** A float is identified by its `repr`: the shortest text that reads back
      as the same double, which is also what `json` writes and reads. */
  datatype Json =
    | JNull
    | JBool(b: bool)
    | JInt(i: int)
    | JFloat(repr: string)
    | JStr(s: string)
    | JArr(items: seq<Json>)
    | JObj(fields: map<string, Json>)

  /** `json.loads`: `None` stands for a `JSONDecodeError`. */
  type Parser = string -> Option<Json>

  /** `json.dumps`. */
  type Printer = Json -> string

  /** Python's `bool(x)` for a decoded value. */
  predicate Truthy(j: Json) {
    match j
    case JNull => false
    case JBool(b) => b
    case JInt(i) => i != 0
    case JFloat(repr) => repr != "0.0" && repr != "-0.0"
    case JStr(s) => s != []
    case JArr(items) => items != []
    case JObj(fields) => fields != map[]
  }

  /** Python's `key in j` for a string `key`: key membership for a dict,
      element equality for a list, substring for a str; any other type
      raises `TypeError`, shown as `None`. */
  function PyIn(key: string, j: Json): (r: Option<bool>)
    ensures r.None? <==> (j.JNull? || j.JBool? || j.JInt? || j.JFloat?)
    ensures j.JObj? ==> r == Some(key in j.fields)
  {
    match j
    case JObj(fields) => Some(key in fields)
    case JArr(items) => Some(JStr(key) in items)
    case JStr(s) => Some(Text.Contains(s, key))
    case _ => None
  }

  /** `all(k in j for k in keys)`, evaluated left to right and stopping at
      the first `False`; `None` when a test raises `TypeError`. */
  function PyAllIn(keys: seq<string>, j: Json): (r: Option<bool>)
    ensures j.JObj? ==> r == Some(forall k :: k in keys ==> k in j.fields)
  {
    if keys == [] then Some(true)
    else
      match PyIn(keys[0], j)
      case None => None
      case Some(false) => Some(false)
      case Some(true) => PyAllIn(keys[1..], j)
  }

  /** `j[key]` for a string key: defined only on a dict holding the key
      (anything else raises). */
  function Field(j: Json, key: string): Option<Json> {
    if j.JObj? && key in j.fields then Some(j.fields[key]) else None
  }

  /** The decoded text is a string value. */
  function StrField(j: Json, key: string): Option<string> {
    match Field(j, key)
    case Some(JStr(s)) => Some(s)
    case _ => None
  }

  /** The parser reads back what the printer wrote, and the printer never
      emits a line break: the assumptions the pipeline makes of the `json`
      module when it writes one record per line. */
  ghost predicate RoundTrips(parse: Parser, dump: Printer) {
    forall j :: && parse(dump(j)) == Some(j)
                && parse(dump(j) + "\n") == Some(j)
                && '\n' !in dump(j)
                && '\r' !in dump(j)
  }
}
