/** The JSON documents stored in the `payload` and `result` columns.
    The repository never looks inside them; the only thing that matters is
    whether `json.Marshal` accepts the Go value, which it refuses for
    channels, functions, NaN and infinities (all `Unsupported` here). */
module Json {

  datatype Value =
    | Null
    | Bool(b: bool)
    | Number(n: real)
    | Text(s: string)
    | Array(items: seq<Value>)
    | Object(members: map<string, Value>)
    | Unsupported

  /** A Go `map[string]interface{}`: the type of Task.Payload and Task.Result. */
  type Document = map<string, Value>

  /** json.Marshal succeeds on the value. */
  predicate Encodable(v: Value) {
    match v
    case Unsupported => false
    case Array(items) => forall i :: 0 <= i < |items| ==> Encodable(items[i])
    case Object(members) => forall k :: k in members ==> Encodable(members[k])
    case _ => true
  }

  /** json.Marshal succeeds on the whole document. */
  predicate EncodableDocument(d: Document) {
    forall k :: k in d ==> Encodable(d[k])
  }
}
