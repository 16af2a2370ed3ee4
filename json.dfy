/**
 * An abstract JSON document: what serde's untagged decoding works on. That
 * decoding first buffers the parsed input as serde's own `Content`, which
 * keeps every member of an object (duplicate names included) and keeps u64,
 * i64 and f64 numbers apart; this `Value` abstracts it, with each member name
 * at most once and every number an integer.
 */
module Json {
  import opened Wrappers

  datatype Value =
    | Null
    | Bool(b: bool)
    | Number(n: int)
    | Str(s: string)
    | Arr(items: seq<Value>)
    | Obj(fields: map<string, Value>)

  /** The value reached from `v` by following the member names in `keys`, if every step is an object holding that name. */
  function Path(v: Value, keys: seq<string>): Option<Value>
    decreases |keys|
  {
    if keys == [] then Some(v)
    else if v.Obj? && keys[0] in v.fields then Path(v.fields[keys[0]], keys[1..])
    else None
  }
}
