/** The Go values the codec reads and writes. Marshal takes an `interface{}`
    and switches on its dynamic type; the decoder builds `interface{}` trees.
    `List` and `Dictionary` are the named bencode types Marshal recognises;
    `Slice` and `StringMap` are the unnamed `[]interface{}` and
    `map[string]interface{}` that the decoder builds; `Unsupported` stands for
    every other Go value (a float, a bool, a struct, ...). */
module Values {
  import opened Bytes
  import opened Strconv

  datatype Value =
    | Int(i: int)                           // Go `int`
    | String(s: bytes)                      // Go `string`
    | List(items: seq<Value>)               // `bencode.List`
    | Dictionary(entries: map<bytes, Value>) // `bencode.Dictionary`
    | Slice(elems: seq<Value>)              // `[]interface{}`
    | StringMap(fields: map<bytes, Value>)  // `map[string]interface{}`
    | Unsupported

  /** The shape of what the decoder produces: 64-bit integers, strings, and
      unnamed slices and maps of such values. */
  ghost predicate IsDecoded(v: Value)
    decreases v
  {
    match v
    case Int(i) => InInt64(i)
    case String(_) => true
    case Slice(elems) => forall i :: 0 <= i < |elems| ==> IsDecoded(elems[i])
    case StringMap(fields) => forall k :: k in fields ==> IsDecoded(fields[k])
    case _ => false
  }

  /** The shape Marshal accepts: integers, strings, and the named `List` and
      `Dictionary` types all the way down. */
  ghost predicate IsMarshalable(v: Value)
    decreases v
  {
    match v
    case Int(_) => true
    case String(_) => true
    case List(items) => forall i :: 0 <= i < |items| ==> IsMarshalable(items[i])
    case Dictionary(entries) => forall k :: k in entries ==> IsMarshalable(entries[k])
    case _ => false
  }
}
