/** What every decode produces, and how a container's claim on the whole
    buffer decides what a run of elements holds. */
module DecodeProperties {
  import opened Bytes
  import opened Strconv
  import opened Values
  import opened Decoder
  import Types

  /** Whatever `unmarshalFirstValue` decodes is built from 64-bit integers,
      strings, and unnamed slices and maps of such values. */
  lemma {:induction false} DecodedShape(data: bytes)
    ensures DecodeFirst(data).Decoded? ==> IsDecoded(DecodeFirst(data).value)
    decreases |data|, 2
  {
    if |data| > 0 {
      match Types.TypeOf(data)
      case Integer =>
        DecodeIntMeaning(data);
        if LOWER_E in data {
          AtoiMeaning(data[1..IndexByte(data, LOWER_E)]);
        }
      case List =>
        ListShape(data, 1, []);
      case Dictionary =>
        DictShape(data, 1, map[]);
      case _ =>
    }
  }

  lemma {:induction false} ListShape(data: bytes, pos: int, acc: seq<Value>)
    requires 1 <= pos <= |data|
    requires forall i :: 0 <= i < |acc| ==> IsDecoded(acc[i])
    ensures DecodeListFrom(data, pos, acc).Decoded? ==> IsDecoded(DecodeListFrom(data, pos, acc).value)
    decreases |data|, 1, |data| - pos
  {
    if pos < |data| && data[pos] != LOWER_E {
      var child := DecodeFirst(data[pos..]);
      DecodedShape(data[pos..]);
      if child.Decoded? {
        ListShape(data, pos + child.copied, acc + [child.value]);
      }
    }
  }

  lemma {:induction false} DictShape(data: bytes, pos: int, acc: map<bytes, Value>)
    requires 1 <= pos <= |data|
    requires forall k :: k in acc ==> IsDecoded(acc[k])
    ensures DecodeDictFrom(data, pos, acc).Decoded? ==> IsDecoded(DecodeDictFrom(data, pos, acc).value)
    decreases |data|, 1, |data| - pos, 1
  {
    if pos < |data| && data[pos] != LOWER_E {
      var key := DecodeFirst(data[pos..]);
      if key.Decoded? {
        DictValueShape(data, pos + key.copied, key.value, acc);
      }
    }
  }

  lemma {:induction false} DictValueShape(data: bytes, pos: int, key: Value, acc: map<bytes, Value>)
    requires 2 <= pos <= |data|
    requires forall k :: k in acc ==> IsDecoded(acc[k])
    ensures DecodeDictValue(data, pos, key, acc).Decoded? ==> IsDecoded(DecodeDictValue(data, pos, key, acc).value)
    decreases |data|, 1, |data| - pos, 2
  {
    var value := DecodeFirst(data[pos..]);
    DecodedShape(data[pos..]);
    if value.Decoded? && key.String? {
      DictShape(data, pos + value.copied, acc[key.s := value.value]);
    }
  }

  /** A decoded list or dictionary always claims the whole buffer it was
      given, whatever follows its own `e`. */
  lemma ContainerClaimsWholeBuffer(data: bytes)
    requires 0 < |data| && (data[0] == LOWER_L || data[0] == LOWER_D)
    ensures DecodeFirst(data).Decoded? ==> DecodeFirst(data).copied == |data|
  {
    if data[0] == LOWER_L {
      assert DecodeFirst(data) == DecodeListFrom(data, 1, []);
    } else {
      assert DecodeFirst(data) == DecodeDictFrom(data, 1, map[]);
    }
  }

  /** A list element that is itself a container ends the list: the cursor
      jumps to the end of the buffer, so every later sibling is dropped. */
  lemma NestedContainerEndsList(data: bytes, pos: int, acc: seq<Value>)
    requires 1 <= pos < |data|
    requires data[pos] == LOWER_L || data[pos] == LOWER_D
    requires DecodeFirst(data[pos..]).Decoded?
    ensures DecodeListFrom(data, pos, acc)
      == Decoded(Slice(acc + [DecodeFirst(data[pos..]).value]), |data|)
  {
    ContainerClaimsWholeBuffer(data[pos..]);
  }

  /** A dictionary value that is itself a container ends the dictionary in
      the same way, once its pair is stored. */
  lemma NestedContainerEndsDictionary(data: bytes, pos: int, key: bytes, acc: map<bytes, Value>)
    requires 2 <= pos < |data|
    requires data[pos] == LOWER_L || data[pos] == LOWER_D
    requires DecodeFirst(data[pos..]).Decoded?
    ensures DecodeDictValue(data, pos, String(key), acc)
      == Decoded(StringMap(acc[key := DecodeFirst(data[pos..]).value]), |data|)
  {
    ContainerClaimsWholeBuffer(data[pos..]);
  }

  /** A dictionary key that is itself a container claims the rest of the
      buffer too, which leaves no bytes for its value: the value's decode
      panics on the empty buffer before the key's type is ever asserted. */
  lemma NestedContainerKeyPanics(data: bytes, pos: int, acc: map<bytes, Value>)
    requires 1 <= pos < |data|
    requires data[pos] == LOWER_L || data[pos] == LOWER_D
    requires DecodeFirst(data[pos..]).Decoded?
    ensures DecodeDictFrom(data, pos, acc) == Panicked(EmptyBuffer)
  {
    var key := DecodeFirst(data[pos..]);
    ContainerClaimsWholeBuffer(data[pos..]);
    assert pos + key.copied == |data|;
    assert DecodeFirst(data[|data|..]) == Panicked(EmptyBuffer);
    assert DecodeDictValue(data, |data|, key.value, acc) == Panicked(EmptyBuffer);
  }

  /** `Unmarshal` looks at the lead byte and the destination before it
      decodes anything: a destination of the wrong kind gets the same error
      whatever the rest of the buffer holds. */
  lemma UnmarshalChecksKindFirst(a: bytes, b: bytes, dest: DestKind)
    requires 0 < |a| && 0 < |b| && a[0] == b[0]
    requires !Accepts(Types.TypeOf(a), dest)
    ensures Unmarshal(a, dest) == Unmarshal(b, dest) == KindMismatch(Types.TypeOf(a), dest)
  {
    assert Types.TypeOf(a) == Types.TypeOf(b);
  }
}
