/** The dynamically typed JSON tree that Go's `encoding/json` builds in an
    `interface{}`, and the one decoding step the client relies on. */
module Json {
  import opened Wrappers

  newtype byte = b: int | 0 <= b < 256

  /** A JSON value with the value kinds of section 3 of RFC 8259.  Numbers are
      kept as their source token: the client never computes with them. */
  datatype Value =
    | String(s: string)
    | Number(token: string)
    | Bool(b: bool)
    | Null
    | Array(elems: seq<Value>)
    | Object(members: seq<(string, Value)>)

  /** What `json.Unmarshal` makes of a response body before its top level is
      matched against the target type: the decoded value, or a decoding
      failure with its message.  A decoding failure is any failure other than
      that top-level type check: malformed JSON, or a number out of the range
      of a float64 anywhere in the value.  The decoder itself is not
      modelled. */
  datatype Decoded = Parsed(value: Value) | DecodeError(msg: string)

  /** The text of the type error `json.Unmarshal` reports when a decoded top
      level of the given JSON kind does not fit a `[]interface{}`. */
  function TypeErrorMessage(kind: string): string
  {
    "json: cannot unmarshal " + kind + " into Go value of type []interface {}"
  }

  /** `json.Unmarshal(body, &result)` where `result` is a `[]interface{}`:
      a decoding failure is passed on, a top-level array yields its elements,
      a top-level `null` leaves the slice empty, and every other decoded value
      is a type error. */
  function UnmarshalSlice(d: Decoded): (r: Result<seq<Value>, string>)
    ensures r.Success? <==> d.Parsed? && (d.value.Array? || d.value.Null?)
    ensures r.Success? ==> r.value == (if d.value.Array? then d.value.elems else [])
  {
    match d
    case DecodeError(msg) => Failure(msg)
    case Parsed(Array(elems)) => Success(elems)
    case Parsed(Null) => Success([])
    case Parsed(Object(_)) => Failure(TypeErrorMessage("object"))
    case Parsed(String(_)) => Failure(TypeErrorMessage("string"))
    case Parsed(Number(_)) => Failure(TypeErrorMessage("number"))
    case Parsed(Bool(_)) => Failure(TypeErrorMessage("bool"))
  }
}
