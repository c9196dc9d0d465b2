/**
 * Values of a parsed JSON document, as the movie catalog stores and exchanges them.
 * A movie record is a JSON object: a map from field names to values.
 */
module Json {

  datatype Option<+T> = None | Some(value: T)

  /** A parsed JSON value. `Num` is a JSON number with a fractional part (a Python float). */
  datatype Value =
    | Null
    | Bool(b: bool)
    | Int(i: int)
    | Num(r: real)
    | Str(s: string)
    | Arr(items: seq<Value>)
    | Obj(fields: map<string, Value>)

  /** One movie as a Python dict from field name to value. */
  type Record = map<string, Value>
}
