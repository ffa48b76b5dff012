/** JSON values as Python's `json` module loads them. */
module Json {
  datatype Json =
    | Null
    | Bool(flag: bool)
    | Int(integer: int)
    | Float(number: real)
    | Str(text: string)
    | List(items: seq<Json>)
    | Obj(fields: map<string, Json>)
  {
    /** Python's truth value. */
    predicate Truthy() {
      match this
      case Null => false
      case Bool(flag) => flag
      case Int(integer) => integer != 0
      case Float(number) => number != 0.0
      case Str(text) => text != ""
      case List(items) => items != []
      case Obj(fields) => fields != map[]
    }
  }

  /** `fields.get(key)`: a missing key reads as `None`. */
  function Get(fields: map<string, Json>, key: string): Json {
    if key in fields then fields[key] else Null
  }
}
