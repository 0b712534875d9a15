/** The lead-byte classifier of bencode and the names of its five classes. */
module Types {
  import opened Bytes

  /** The five classes a lead byte falls into. `Invalid` is the zero value
      of the Go `Type`, so an unset `Type` is invalid. */
  datatype Type = Invalid | Integer | Str | List | Dictionary

  /** `Type.String()`: the display name of each class. */
  function Name(t: Type): (r: string)
    ensures t == Invalid <==> r == "invalid"
    ensures t == Integer <==> r == "integer"
    ensures t == Str <==> r == "string"
    ensures t == List <==> r == "list"
    ensures t == Dictionary <==> r == "dictionary"
  {
    match t
    case Invalid => "invalid"
    case Integer => "integer"
    case Str => "string"
    case List => "list"
    case Dictionary => "dictionary"
  }

  /** `TypeOf`: classifies an encoded value by its first byte alone. Go
      indexes `data[0]` unconditionally, so an empty buffer is outside what it
      can be called with (the decoder below models the resulting panic). */
  function TypeOf(data: bytes): (t: Type)
    requires |data| > 0
    ensures t == Integer <==> data[0] == LOWER_I
    ensures t == Str <==> IsDigit(data[0])
    ensures t == List <==> data[0] == LOWER_L
    ensures t == Dictionary <==> data[0] == LOWER_D
    ensures t == Invalid <==> !(data[0] in {LOWER_I, LOWER_L, LOWER_D} || IsDigit(data[0]))
  {
    var b := data[0];
    if b == LOWER_I then Integer
    else if ZERO <= b <= NINE then Str
    else if b == LOWER_L then List
    else if b == LOWER_D then Dictionary
    else Invalid
  }
}
