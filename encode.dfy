/** The recursive bencode encoder (`Marshal` and `encodePair`). Lists are
    written with their element encodings sorted, dictionaries with their keys
    sorted; both sorts compare bytes, the list sort on encoded elements and
    the dictionary sort on raw keys. */
module Encoder {
  import opened Bytes
  import opened Order
  import opened Strconv
  import opened Values

  /** The outcome of `Marshal`: the bytes, or the "unsupported value" error
      (returned with no bytes at all). */
  datatype EncodeResult = Encoded(out: bytes) | EncodeFailed

  /** `fmt.Sprintf("%d:%s", len(t), t)`: the byte length, a colon, the bytes. */
  function EncodeString(s: bytes): (r: bytes)
    ensures |s| + 2 <= |r| && IsDigit(r[0])
    ensures r[|r| - |s| - 1] == COLON && r[|r| - |s|..] == s
  {
    FormatNat(|s|) + [COLON] + s
  }

  /** `fmt.Sprintf("i%de", t)`. */
  function EncodeInt(n: int): (r: bytes)
    ensures 3 <= |r| && r[0] == LOWER_I && r[|r| - 1] == LOWER_E
    ensures (r[1] == MINUS) <==> n < 0
  {
    [LOWER_I] + FormatInt(n) + [LOWER_E]
  }

  /** The encodings of the elements of a list, in the list's order. */
  ghost function ElementEncodings(items: seq<Value>): (r: seq<bytes>)
    requires forall i :: 0 <= i < |items| ==> Encode(items[i]).Encoded?
    ensures |r| == |items|
    ensures forall i :: 0 <= i < |items| ==> Encoded(r[i]) == Encode(items[i])
    decreases List(items), 0
  {
    seq(|items|, i requires 0 <= i < |items| => EncodingOf(items[i]))
  }

  /** The bytes `Marshal` writes for `v`, or none when it fails. */
  ghost function EncodingOf(v: Value): bytes
    decreases v, 2
  {
    if Encode(v).Encoded? then Encode(v).out else []
  }

  /** Each key of a dictionary, in the order `keys` gives, followed by its
      encoded value, all joined. */
  ghost function JoinPairs(entries: map<bytes, Value>, keys: seq<bytes>): (r: bytes)
    requires forall k :: k in keys ==> k in entries
    ensures r == [] <==> |keys| == 0
    ensures r != [] ==> IsDigit(r[0])
    decreases Dictionary(entries), 0, |keys|
  {
    if |keys| == 0 then []
    else
      var last := keys[|keys| - 1];
      JoinPairs(entries, keys[..|keys| - 1]) + EncodeString(last) + EncodingOf(entries[last])
  }

  /** Joining one key more appends its encoded key and value. */
  lemma JoinPairsStep(entries: map<bytes, Value>, keys: seq<bytes>, i: nat)
    requires i < |keys|
    requires forall k :: k in keys ==> k in entries
    ensures JoinPairs(entries, keys[..i + 1])
      == JoinPairs(entries, keys[..i]) + EncodeString(keys[i]) + EncodingOf(entries[keys[i]])
  {
    assert keys[..i + 1][..i] == keys[..i];
  }

  /** What `Marshal` returns for `v`. A list is `l`, the encodings of its
      elements in ascending byte order, `e`; a dictionary is `d`, then for each
      key in ascending byte order the encoded key and the encoded value, `e`.
      Anything other than a string, an int, a `List` or a `Dictionary`, at any
      depth, makes the whole call fail. */
  ghost function Encode(v: Value): (r: EncodeResult)
    ensures v.Int? || v.String? ==> r.Encoded?
    ensures !(v.Int? || v.String? || v.List? || v.Dictionary?) ==> r == EncodeFailed
    decreases v, 1
  {
    match v
    case String(s) => Encoded(EncodeString(s))
    case Int(n) => Encoded(EncodeInt(n))
    case List(items) =>
      if exists i :: 0 <= i < |items| && Encode(items[i]).EncodeFailed? then EncodeFailed
      else Encoded([LOWER_L] + Concat(SortSeq(ElementEncodings(items))) + [LOWER_E])
    case Dictionary(entries) =>
      if exists k :: k in entries && Encode(entries[k]).EncodeFailed? then EncodeFailed
      else Encoded([LOWER_D] + JoinPairs(entries, SortedKeys(entries.Keys)) + [LOWER_E])
    case _ => EncodeFailed
  }

  /** A dictionary whose values all encode is `d`, its pairs in ascending
      key order, `e`. */
  lemma EncodeDictionary(entries: map<bytes, Value>)
    requires forall k :: k in SortedKeys(entries.Keys) ==> Encode(entries[k]).Encoded?
    ensures Encode(Dictionary(entries))
      == Encoded([LOWER_D] + JoinPairs(entries, SortedKeys(entries.Keys)) + [LOWER_E])
  {
    assert forall k :: k in entries ==> k in SortedKeys(entries.Keys);
  }

  /** One value that does not encode makes the whole dictionary fail. */
  lemma EncodeDictionaryFails(entries: map<bytes, Value>, k: bytes)
    requires k in entries && Encode(entries[k]).EncodeFailed?
    ensures Encode(Dictionary(entries)) == EncodeFailed
  {
  }

  /** Marshal succeeds exactly on the values built from ints, strings and the
      named `List` and `Dictionary` types. */
  lemma {:induction false} EncodeSucceedsIff(v: Value)
    ensures Encode(v).Encoded? <==> IsMarshalable(v)
    decreases v
  {
    match v
    case List(items) =>
      forall i | 0 <= i < |items| ensures Encode(items[i]).Encoded? <==> IsMarshalable(items[i]) {
        EncodeSucceedsIff(items[i]);
      }
    case Dictionary(entries) =>
      forall k | k in entries ensures Encode(entries[k]).Encoded? <==> IsMarshalable(entries[k]) {
        EncodeSucceedsIff(entries[k]);
      }
    case _ =>
  }

  /** 0 for the values `Marshal` writes without recursing, 1 for the rest. */
  function Rank(v: Value): nat {
    if v.List? || v.Dictionary? then 1 else 0
  }

  /** `sort.Strings` (and `sort.Sort(sort.StringSlice(...))`): sorts the
      array in place, ascending in byte order. */
  method SortStrings(a: array<bytes>)
    modifies a
    ensures a[..] == SortSeq(old(a[..]))
  {
    var sorted := SortSeq(a[..]);
    forall i | 0 <= i < a.Length {
      a[i] := sorted[i];
    }
  }

  /** `Marshal`: a type switch on `v`; the two containers are the methods
      below. The result is the same whatever order a map is iterated in. */
  method Marshal(v: Value) returns (r: EncodeResult)
    ensures r == Encode(v)
    decreases Rank(v), v, 2
  {
    match v
    case String(s) =>
      r := Encoded(EncodeString(s));
    case Int(n) =>
      r := Encoded(EncodeInt(n));
    case List(items) =>
      r := MarshalList(items);
    case Dictionary(entries) =>
      r := MarshalDictionary(entries);
    case Slice(_) =>
      r := EncodeFailed;
    case StringMap(_) =>
      r := EncodeFailed;
    case Unsupported =>
      r := EncodeFailed;
  }

  /** The `List` case: the element encodings are written into a slice by
      index, sorted, and joined. */
  method MarshalList(items: seq<Value>) returns (r: EncodeResult)
    ensures r == Encode(List(items))
    decreases 1, List(items), 1
  {
    var encodedElements := new bytes[|items|];
    for i := 0 to |items|
      invariant forall j :: 0 <= j < i ==> Encode(items[j]) == Encoded(encodedElements[j])
    {
      var encodedElement := Marshal(items[i]);
      if encodedElement.EncodeFailed? {
        return EncodeFailed;
      }
      encodedElements[i] := encodedElement.out;
    }
    assert encodedElements[..] == ElementEncodings(items);
    SortStrings(encodedElements);
    var encodedList := Concat(encodedElements[..]);
    r := Encoded([LOWER_L] + encodedList + [LOWER_E]);
  }

  /** The `Dictionary` case: the keys are gathered in the map's iteration
      order, sorted, and each key and its value are encoded by `EncodePair`
      and appended. */
  method MarshalDictionary(entries: map<bytes, Value>) returns (r: EncodeResult)
    ensures r == Encode(Dictionary(entries))
    decreases 1, Dictionary(entries), 1
  {
    var keys := GatherKeys(entries);
    var sortedKeys := new bytes[|keys|](i requires 0 <= i < |keys| => keys[i]);
    assert sortedKeys[..] == keys;
    SortStrings(sortedKeys);
    var keyOrder := sortedKeys[..];
    SortedKeysAreCanonical(keys, keyOrder, entries.Keys);
    var encodedDictionary: seq<bytes> := [];
    for i := 0 to |keyOrder|
      invariant forall k :: k in keyOrder[..i] ==> Encode(entries[k]).Encoded?
      invariant Concat(encodedDictionary) == JoinPairs(entries, keyOrder[..i])
    {
      var k := keyOrder[i];
      var encK, encV, failed := EncodePair(k, entries[k]);
      if failed {
        EncodeDictionaryFails(entries, k);
        return EncodeFailed;
      }
      assert EncodingOf(entries[k]) == encV;
      ConcatSnocPair(encodedDictionary, encK, encV);
      JoinPairsStep(entries, keyOrder, i);
      TakeOneMore(keyOrder, i);
      encodedDictionary := encodedDictionary + [encK, encV];
    }
    TakeAll(keyOrder);
    EncodeDictionary(entries);
    r := Encoded([LOWER_D] + Concat(encodedDictionary) + [LOWER_E]);
  }

  /** `for k := range t { sortedKeys = append(sortedKeys, k) }`: every key
      of the map once. Go leaves the iteration order unspecified, so each
      step may take any key not yet taken. */
  method GatherKeys(entries: map<bytes, Value>) returns (keys: seq<bytes>)
    ensures forall k :: k in keys <==> k in entries
    ensures Distinct(keys)
  {
    keys := [];
    var remaining := entries.Keys;
    while remaining != {}
      invariant remaining <= entries.Keys
      invariant forall k :: k in keys <==> k in entries && k !in remaining
      invariant Distinct(keys)
      decreases remaining
    {
      var k :| k in remaining;
      keys := keys + [k];
      remaining := remaining - {k};
    }
  }

  /** `encodePair`: marshals a dictionary key (a Go string) and its value,
      and returns nothing but the error if either fails. */
  method EncodePair(key: bytes, value: Value) returns (encodedKey: bytes, encodedValue: bytes, failed: bool)
    ensures failed <==> Encode(value).EncodeFailed?
    ensures failed ==> encodedKey == [] && encodedValue == []
    ensures !failed ==> encodedKey == EncodeString(key) && encodedValue == Encode(value).out
    decreases 1, value, 3
  {
    var k := Marshal(String(key));
    if k.EncodeFailed? {
      return [], [], true;
    }
    var v := Marshal(value);
    if v.EncodeFailed? {
      return [], [], true;
    }
    return k.out, v.out, false;
  }

  /** Sorting the keys gathered in any iteration order gives the one
      ascending sequence of the map's keys. */
  lemma SortedKeysAreCanonical(gathered: seq<bytes>, sorted: seq<bytes>, keys: set<bytes>)
    requires Distinct(gathered)
    requires forall k :: k in gathered <==> k in keys
    requires sorted == SortSeq(gathered)
    ensures sorted == SortedKeys(keys)
  {
    DistinctPermutation(gathered, sorted);
    assert StrictlySorted(sorted);
    forall k ensures k in sorted <==> k in keys {
      assert k in sorted <==> k in multiset(sorted);
      assert k in gathered <==> k in multiset(gathered);
    }
    StrictlySortedUnique(sorted, SortedKeys(keys));
  }
}
