/** The recursive bencode decoder (`unmarshalFirstValue`) and the
    destination-kind dispatch in front of it (`Unmarshal`). The decoder reads
    one value from the front of a buffer and reports how many bytes it copied;
    a container decodes each child from the remaining suffix and moves its
    cursor past it. */
module Decoder {
  import opened Bytes
  import opened Strconv
  import opened Values
  import Types

  /** The errors the decoder returns: `fmt.Errorf("invalid data ...")`, or
      the `*strconv.NumError` of a failed `Atoi`. */
  datatype DecodeError = InvalidData | BadNumber(err: NumError)

  /** The run-time panics the Go code can reach: indexing `data[0]` of an
      empty buffer in `TypeOf`, slicing past the end of the buffer when a
      string's declared length is too large, and the `k.(string)` type
      assertion on a dictionary key that is not a string. */
  datatype Panic = EmptyBuffer | SliceOutOfRange | KeyNotString

  /** The outcome of `unmarshalFirstValue`: a value and the copied count, an
      error and the offset returned beside it, or a panic. */
  datatype DecodeResult =
    | Decoded(value: Value, copied: int)
    | Failed(err: DecodeError, offset: int)
    | Panicked(panic: Panic)

  /** The integer branch: `Atoi` of the bytes strictly between the lead `i`
      and the first `e` anywhere in the buffer. */
  function DecodeInt(data: bytes): (r: DecodeResult)
    requires |data| > 0 && data[0] == LOWER_I
    ensures r.Decoded? ==> 2 <= r.copied <= |data|
  {
    var endPos := IndexByte(data, LOWER_E);
    if endPos == -1 then Failed(InvalidData, 0)
    else
      match Atoi(data[1..endPos])
      case NumErr(e) => Failed(BadNumber(e), endPos)
      case Num(n) => Decoded(Int(n), endPos + 1)
  }

  /** What the integer branch yields: no `e` at all is an invalid-data error
      at offset 0; otherwise the first `e` ends the number, and the result is
      the value `Atoi` reads there, or `Atoi`'s error at the `e`. */
  lemma DecodeIntMeaning(data: bytes)
    requires |data| > 0 && data[0] == LOWER_I
    ensures !DecodeInt(data).Panicked?
    ensures LOWER_E !in data <==> DecodeInt(data) == Failed(InvalidData, 0)
    ensures LOWER_E in data ==>
      var end := IndexByte(data, LOWER_E);
      && 1 <= end && LOWER_E !in data[..end]
      && (Atoi(data[1..end]).Num? ==> DecodeInt(data) == Decoded(Int(Atoi(data[1..end]).n), end + 1))
      && (Atoi(data[1..end]).NumErr? ==> DecodeInt(data) == Failed(BadNumber(Atoi(data[1..end]).err), end))
  {
    IndexByteMeaning(data, LOWER_E);
  }

  /** The string branch: the digits before the first `:` give the size, and
      the value is the `size` bytes after the `:`. The length is not checked
      against the buffer, so a size past its end panics at the slice. */
  function DecodeString(data: bytes): (r: DecodeResult)
    requires |data| > 0 && IsDigit(data[0])
    ensures r.Decoded? ==> 2 <= r.copied <= |data|
    ensures r.Panicked? ==> r.panic == SliceOutOfRange
  {
    var sepPos := IndexByte(data, COLON);
    if sepPos == -1 then Failed(InvalidData, sepPos)
    else
      match Atoi(data[..sepPos])
      case NumErr(e) => Failed(BadNumber(e), sepPos)
      case Num(size) =>
        assert size >= 0 by {
          assert data[..sepPos][0] == data[0];
        }
        var endPos := sepPos + 1 + size;
        if endPos > |data| then Panicked(SliceOutOfRange)
        else Decoded(String(data[sepPos + 1..endPos]), endPos)
  }

  /** What the string branch yields: no `:` is an invalid-data error at
      offset -1; a size `Atoi` rejects is its error at the `:`; a size that
      runs past the buffer panics; otherwise the value is the `size` bytes
      after the first `:`, and they and the header are all that is copied. */
  lemma DecodeStringMeaning(data: bytes)
    requires |data| > 0 && IsDigit(data[0])
    ensures COLON !in data <==> DecodeString(data) == Failed(InvalidData, -1)
    ensures COLON in data ==>
      var sep := IndexByte(data, COLON);
      var size := Atoi(data[..sep]);
      && 0 < sep
      && (size.NumErr? ==> DecodeString(data) == Failed(BadNumber(size.err), sep))
      && (size.Num? && sep + 1 + size.n > |data| ==> DecodeString(data) == Panicked(SliceOutOfRange))
      && (size.Num? && sep + 1 + size.n <= |data| ==>
            0 <= size.n && DecodeString(data) == Decoded(String(data[sep + 1..sep + 1 + size.n]), sep + 1 + size.n))
  {
    IndexByteMeaning(data, COLON);
    var sep := IndexByte(data, COLON);
    if sep != -1 {
      assert 0 < sep by {
        assert data[sep] == COLON && IsDigit(data[0]);
      }
      var size := Atoi(data[..sep]);
      if size.Num? {
        assert data[..sep][0] == data[0];
        assert 0 <= size.n;
      }
    }
  }

  /** `unmarshalFirstValue`: decodes the value at the front of `data`. Every
      successful decode copies at least one byte and never more than the
      buffer holds, which is what moves a container's cursor forward. */
  function DecodeFirst(data: bytes): (r: DecodeResult)
    ensures r.Decoded? ==> 1 <= r.copied <= |data|
    decreases |data|, 2
  {
    if |data| == 0 then Panicked(EmptyBuffer)
    else
      match Types.TypeOf(data)
      case Invalid => Failed(InvalidData, -1)
      case Integer => DecodeInt(data)
      case Str => DecodeString(data)
      case List => DecodeListFrom(data, 1, [])
      case Dictionary => DecodeDictFrom(data, 1, map[])
  }

  /** How a container passes on a child's failure found at cursor `pos`: an
      error with the child's offset moved by `pos`, a panic unchanged. */
  function Abort(child: DecodeResult, pos: int): (r: DecodeResult)
    requires !child.Decoded?
    ensures r.Failed? <==> child.Failed?
    ensures r.Failed? ==> r.err == child.err && r.offset == pos + child.offset
    ensures r.Panicked? ==> r == child
  {
    if child.Failed? then Failed(child.err, pos + child.offset) else child
  }

  /** The list loop from cursor `pos` on, with the elements `acc` decoded so
      far. It stops at an `e` found where a child would start, or at the end
      of the buffer, and then claims to have copied the whole buffer. */
  function DecodeListFrom(data: bytes, pos: int, acc: seq<Value>): (r: DecodeResult)
    requires 1 <= pos <= |data|
    ensures r.Decoded? ==> r.copied == |data| && r.value.Slice?
    decreases |data|, 1, |data| - pos
  {
    if pos == |data| || data[pos] == LOWER_E then Decoded(Slice(acc), |data|)
    else
      var child := DecodeFirst(data[pos..]);
      if !child.Decoded? then Abort(child, pos)
      else DecodeListFrom(data, pos + child.copied, acc + [child.value])
  }

  /** The dictionary loop from cursor `pos` on, with the pairs `acc` stored
      so far: it decodes a key from the remaining suffix, then goes on to its
      value. It stops where the list loop stops. */
  function DecodeDictFrom(data: bytes, pos: int, acc: map<bytes, Value>): (r: DecodeResult)
    requires 1 <= pos <= |data|
    ensures r.Decoded? ==> r.copied == |data| && r.value.StringMap? && acc.Keys <= r.value.fields.Keys
    decreases |data|, 1, |data| - pos, 1
  {
    if pos == |data| || data[pos] == LOWER_E then Decoded(StringMap(acc), |data|)
    else
      var key := DecodeFirst(data[pos..]);
      if !key.Decoded? then Abort(key, pos)
      else DecodeDictValue(data, pos + key.copied, key.value, acc)
  }

  /** The second half of a dictionary turn: the value of `key` is decoded at
      `pos`; only then is the key asserted to be a string, and the pair is
      stored, a later key overwriting an earlier equal one. */
  function DecodeDictValue(data: bytes, pos: int, key: Value, acc: map<bytes, Value>): (r: DecodeResult)
    requires 2 <= pos <= |data|
    ensures r.Decoded? ==> r.copied == |data| && r.value.StringMap? && acc.Keys <= r.value.fields.Keys
    decreases |data|, 1, |data| - pos, 2
  {
    var value := DecodeFirst(data[pos..]);
    if !value.Decoded? then Abort(value, pos)
    else if !key.String? then Panicked(KeyNotString)
    else DecodeDictFrom(data, pos + value.copied, acc[key.s := value.value])
  }

  /** One turn of the list loop: the child `v` decoded at `pos` is appended
      and the cursor moves past its `n` bytes. */
  lemma ListTurn(data: bytes, pos: int, acc: seq<Value>, v: Value, n: int)
    requires 1 <= pos < |data| && data[pos] != LOWER_E
    requires DecodeFirst(data[pos..]) == Decoded(v, n)
    ensures DecodeListFrom(data, pos, acc) == DecodeListFrom(data, pos + n, acc + [v])
  {
  }

  /** One turn of the dictionary loop: the string key `k` decoded at `pos`
      and the value `v` decoded after it are stored, and the cursor moves past
      both. */
  lemma DictTurn(data: bytes, pos: int, acc: map<bytes, Value>, k: bytes, n: int, v: Value, m: int)
    requires 1 <= pos < |data| && data[pos] != LOWER_E
    requires DecodeFirst(data[pos..]) == Decoded(String(k), n)
    requires DecodeFirst(data[pos + n..]) == Decoded(v, m)
    ensures DecodeDictFrom(data, pos, acc) == DecodeDictFrom(data, pos + n + m, acc[k := v])
  {
  }

  /** `unmarshalFirstValue` as the Go code runs it: the scalar branches are
      straight-line; the container branches are the two loops below. */
  method UnmarshalFirstValue(data: bytes) returns (r: DecodeResult)
    ensures r == DecodeFirst(data)
    decreases |data|, 1
  {
    if |data| == 0 {
      return Panicked(EmptyBuffer);
    }
    match Types.TypeOf(data)
    case Invalid =>
      r := Failed(InvalidData, -1);
    case Integer =>
      r := DecodeInt(data);
    case Str =>
      r := DecodeString(data);
    case List =>
      r := UnmarshalList(data);
    case Dictionary =>
      r := UnmarshalDictionary(data);
  }

  /** The list branch: a cursor `strPos` walks the buffer from just after
      the `l`, each child is decoded from the remaining suffix and appended. */
  method UnmarshalList(data: bytes) returns (r: DecodeResult)
    requires |data| > 0 && data[0] == LOWER_L
    ensures r == DecodeListFrom(data, 1, [])
    decreases |data|, 0
  {
    var value: seq<Value> := [];
    var strPos := 1;
    ghost var whole := DecodeListFrom(data, strPos, value);
    while strPos < |data| && data[strPos] != LOWER_E
      invariant 1 <= strPos <= |data|
      invariant DecodeListFrom(data, strPos, value) == whole
      decreases |data| - strPos
    {
      var child := UnmarshalFirstValue(data[strPos..]);
      if !child.Decoded? {
        assert DecodeListFrom(data, strPos, value) == Abort(child, strPos);
        return Abort(child, strPos);
      }
      // The Go code panics here on a negative count; a decoded child has
      // always copied at least one byte, so that branch is dead.
      assert 0 < child.copied;
      assert DecodeListFrom(data, strPos, value)
        == DecodeListFrom(data, strPos + child.copied, value + [child.value]);
      value := value + [child.value];
      strPos := strPos + child.copied;
    }
    assert DecodeListFrom(data, strPos, value) == Decoded(Slice(value), |data|);
    r := Decoded(Slice(value), |data|);
  }

  /** The dictionary branch: the cursor alternates between a key and a
      value, and each pair is inserted into the map once both are decoded. */
  method UnmarshalDictionary(data: bytes) returns (r: DecodeResult)
    requires |data| > 0 && data[0] == LOWER_D
    ensures r == DecodeDictFrom(data, 1, map[])
    decreases |data|, 0
  {
    var value: map<bytes, Value> := map[];
    var strPos := 1;
    ghost var whole := DecodeDictFrom(data, strPos, value);
    while strPos < |data| && data[strPos] != LOWER_E
      invariant 1 <= strPos <= |data|
      invariant DecodeDictFrom(data, strPos, value) == whole
      decreases |data| - strPos
    {
      ghost var keyPos := strPos;
      var k := UnmarshalFirstValue(data[strPos..]);
      if !k.Decoded? {
        assert DecodeDictFrom(data, strPos, value) == Abort(k, strPos);
        return Abort(k, strPos);
      }
      strPos := strPos + k.copied;
      assert DecodeDictFrom(data, keyPos, value) == DecodeDictValue(data, strPos, k.value, value);
      var v := UnmarshalFirstValue(data[strPos..]);
      if !v.Decoded? {
        assert DecodeDictValue(data, strPos, k.value, value) == Abort(v, strPos);
        return Abort(v, strPos);
      }
      if !k.value.String? {
        assert DecodeDictValue(data, strPos, k.value, value) == Panicked(KeyNotString);
        return Panicked(KeyNotString);
      }
      ghost var valuePos := strPos;
      ghost var before := value;
      value := value[k.value.s := v.value];
      strPos := strPos + v.copied;
      assert DecodeDictValue(data, valuePos, k.value, before) == DecodeDictFrom(data, strPos, value);
    }
    assert DecodeDictFrom(data, strPos, value) == Decoded(StringMap(value), |data|);
    r := Decoded(StringMap(value), |data|);
  }

  /** The kind of the variable a caller unmarshals into, as `reflect.Kind`
      reports it; a map also carries the kind of its key. `OtherKind` is every
      kind the dispatch never accepts (bool, float, struct, int64, ...). */
  datatype DestKind = IntKind | StringKind | ArrayKind | SliceKind | MapKind(key: DestKind) | OtherKind

  /** The outcome of `Unmarshal`: the decoded value stored into the
      destination, the destination left untouched, an error, or a panic. */
  datatype UnmarshalResult =
    | Stored(value: Value)
    | Untouched
    | KindMismatch(found: Types.Type, dest: DestKind)
    | KeyKindMismatch(key: DestKind)
    | DecodeFailed(err: DecodeError)
    | UnmarshalPanicked(panic: Panic)

  /** Whether a destination of kind `dest` may receive a value of class `t`. */
  predicate Accepts(t: Types.Type, dest: DestKind) {
    match t
    case Integer => dest == IntKind
    case Str => dest == StringKind
    case List => dest == ArrayKind || dest == SliceKind
    case Dictionary => dest.MapKind?
    case Invalid => true
  }

  /** `Unmarshal`: classify the buffer, check the destination's kind (and for
      a map its key kind) before decoding anything, then decode and store. An
      invalid lead byte returns no error and leaves the destination alone. */
  function Unmarshal(data: bytes, dest: DestKind): (r: UnmarshalResult)
    ensures |data| == 0 ==> r == UnmarshalPanicked(EmptyBuffer)
    ensures |data| > 0 && Types.TypeOf(data) == Types.Invalid ==> r == Untouched
    ensures r.KindMismatch? <==> |data| > 0 && !Accepts(Types.TypeOf(data), dest)
    ensures r.KindMismatch? ==> r.found == Types.TypeOf(data) && r.dest == dest
    ensures r.KeyKindMismatch? <==>
      |data| > 0 && Types.TypeOf(data) == Types.Dictionary && dest.MapKind? && dest.key != StringKind
    ensures r.Stored? <==>
      && |data| > 0 && Types.TypeOf(data) != Types.Invalid && Accepts(Types.TypeOf(data), dest)
      && (dest.MapKind? ==> dest.key == StringKind)
      && DecodeFirst(data).Decoded?
    ensures r.Stored? ==> r.value == DecodeFirst(data).value
    ensures r.DecodeFailed? ==> DecodeFirst(data).Failed? && r.err == DecodeFirst(data).err
    ensures r.Untouched? <==> |data| > 0 && Types.TypeOf(data) == Types.Invalid
    ensures
      && |data| > 0 && Types.TypeOf(data) != Types.Invalid && Accepts(Types.TypeOf(data), dest)
      && (dest.MapKind? ==> dest.key == StringKind)
      && !DecodeFirst(data).Decoded?
      ==> r == (if DecodeFirst(data).Failed? then DecodeFailed(DecodeFirst(data).err)
                else UnmarshalPanicked(DecodeFirst(data).panic))
  {
    if |data| == 0 then UnmarshalPanicked(EmptyBuffer)
    else
      var t := Types.TypeOf(data);
      if t == Types.Invalid then Untouched
      else if !Accepts(t, dest) then KindMismatch(t, dest)
      else if t == Types.Dictionary && dest.key != StringKind then KeyKindMismatch(dest.key)
      else
        match DecodeFirst(data)
        case Failed(e, _) => DecodeFailed(e)
        case Panicked(p) => UnmarshalPanicked(p)
        case Decoded(v, _) => Stored(v)
  }
}
