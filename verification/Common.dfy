/** Result types shared by every module. */
module Wrappers {

  datatype Option<+T> = None | Some(value: T)

  datatype Result<+T, +E> = Success(value: T) | Failure(error: E)
}

/** JSON values as the projections see them: decoded text, compared structurally. */
module Json {
  import opened Wrappers

  /** A number is kept as its canonical text; the projections never compute with it. */
  datatype Json =
    | Null
    | Bool(flag: bool)
    | Number(digits: string)
    | Text(text: string)
    | Array(items: seq<Json>)
    | Object(fields: Fields)

  type Fields = map<string, Json>

  function Get(fields: Fields, key: string): Option<Json> {
    if key in fields then Some(fields[key]) else None
  }

  function AsText(value: Option<Json>): Option<string> {
    if value.Some? && value.value.Text? then Some(value.value.text) else None
  }

  function AsObject(value: Option<Json>): Option<Fields> {
    if value.Some? && value.value.Object? then Some(value.value.fields) else None
  }

  function AsArray(value: Option<Json>): Option<seq<Json>> {
    if value.Some? && value.value.Array? then Some(value.value.items) else None
  }

  /** The text members of an array, as a set; everything else in it is ignored. */
  function TextItems(items: seq<Json>): set<string> {
    set item | item in items && item.Text? :: item.text
  }
}

/** Powers of two. */
module Powers {
  function Pow2(n: nat): (r: nat)
    ensures 1 <= r
  {
    if n == 0 then 1 else 2 * Pow2(n - 1)
  }
}
