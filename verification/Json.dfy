/** JSON values, with objects as ordered lists of fields. */
module Json {
  import opened Options

  datatype Value =
    | Null
    | Bool(b: bool)
    | Number(n: int)
    | Text(text: string)
    | List(items: seq<Value>)
    | Object(fields: seq<(string, Value)>)

  /** `d.get(name)`, with None for a missing field. */
  function Field(fields: seq<(string, Value)>, name: string): Option<Value> {
    if fields == [] then None
    else if fields[0].0 == name then Some(fields[0].1)
    else Field(fields[1..], name)
  }
}
