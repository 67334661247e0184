/** JSON values as Python's `json` module hands them over: objects keep their key order. */
module JsonValue {
  import opened PyDict

  datatype Json =
    | Null
    | Bool(b: bool)
    | Num(n: int)
    | Str(s: string)
    | Arr(elems: seq<Json>)
    | Obj(members: Dict<Json>)
}
