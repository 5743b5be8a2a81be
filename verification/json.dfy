/** The JSON values the service receives and stores. The handlers copy
    request fields into records verbatim, without checking their type, so a
    record's name, sets and reps are arbitrary JSON values. */
module Json {

  /** A JSON value. Numbers are integers; fractional numbers are not modelled. */
  datatype Value =
    | Null
    | Bool(b: bool)
    | Num(n: int)
    | Str(s: string)
    | Arr(items: seq<Value>)
    | Obj(fields: map<string, Value>)

  /** A JSON object, as delivered for a request body. */
  type Object = map<string, Value>
}
