/** Worked inputs and outputs of the codec, each derived from the general
    lemmas: what the decoder makes of a few buffers, the malformed ones
    included, and the order `Marshal` writes a list's elements in. */
module Samples {
  import opened Bytes
  import opened Order
  import opened Strconv
  import opened Values
  import opened Decoder
  import opened Encoder
  import opened RoundTrip
  import opened DecodeProperties

  /** Sorting two encodings that are out of order swaps them. */
  lemma SortTwo(a: bytes, b: bytes)
    requires LexLe(a, b)
    ensures SortSeq([b, a]) == [a, b]
  {
    assert Sorted([a, b]);
    assert multiset([a, b]) == multiset([b, a]);
    SortedUnique(SortSeq([b, a]), [a, b]);
  }

  /** `i-25e` decodes to -25 and copies all five bytes. */
  lemma DecodeNegativeInt()
    ensures DecodeFirst([LOWER_I, MINUS, 50, 53, LOWER_E]) == Decoded(Int(-25), 5)
  {
    assert FormatNat(25) == [50, 53];
    assert EncodeInt(-25) + [] == [LOWER_I, MINUS, 50, 53, LOWER_E];
    DecodeEncodedInt(-25, []);
  }

  /** `i04e` decodes to 4: `Atoi` accepts the leading zero. */
  lemma DecodeLeadingZero()
    ensures DecodeFirst([LOWER_I, ZERO, 52, LOWER_E]) == Decoded(Int(4), 4)
  {
    var data: bytes := [LOWER_I, ZERO, 52, LOWER_E];
    DecodeIntMeaning(data);
    assert IndexByte(data, LOWER_E) == 3;
    assert data[1..3] == [ZERO, 52];
    AtoiMeaning([ZERO, 52]);
    assert [ZERO, 52][1..] == [52] && [52][1..] == [];
    assert DecimalValue([ZERO, 52], 0) == 4;
  }

  /** `i12` has no `e` anywhere: an invalid-data error at offset 0. */
  lemma DecodeUnterminatedInt()
    ensures DecodeFirst([LOWER_I, 49, 50]) == Failed(InvalidData, 0)
  {
    DecodeIntMeaning([LOWER_I, 49, 50]);
  }

  /** `5:ab` declares more bytes than the buffer holds: the slice panics. */
  lemma DecodeShortString()
    ensures DecodeFirst([53, COLON, 97, 98]) == Panicked(SliceOutOfRange)
  {
    var data: bytes := [53, COLON, 97, 98];
    DecodeStringMeaning(data);
    assert IndexByte(data, COLON) == 1;
    assert data[..1] == [53];
    AtoiMeaning([53]);
  }

  lemma OneLetterEncodings(vs: seq<Value>)
    requires vs == [String([97])]
    ensures [LOWER_L] + Concat(ScalarEncodings(vs)) + [] == [LOWER_L, 49, COLON, 97]
  {
    var enc: bytes := [49, COLON, 97];
    assert FormatNat(1) == [49];
    assert ScalarEncoding(vs[0]) == enc;
    assert ScalarEncodings(vs) == [enc];
  }

  /** `l1:a` decodes to the list of `a` although its `e` is missing. */
  lemma DecodeUnterminatedList()
    ensures DecodeFirst([LOWER_L, 49, COLON, 97]) == Decoded(Slice([String([97])]), 4)
  {
    var vs := [String([97])];
    DecodeListOfScalars(vs, []);
    OneLetterEncodings(vs);
  }

  /** `lli1eei2ee`: the inner list claims the whole rest of the buffer, so
      the outer list ends with it and the `i2e` after it is never read. */
  lemma DecodeNestedList()
    ensures DecodeFirst([LOWER_L, LOWER_L, LOWER_I, 49, LOWER_E, LOWER_E, LOWER_I, 50, LOWER_E, LOWER_E])
      == Decoded(Slice([Slice([Int(1)])]), 10)
  {
    var data: bytes := [LOWER_L, LOWER_L, LOWER_I, 49, LOWER_E, LOWER_E, LOWER_I, 50, LOWER_E, LOWER_E];
    var tail: bytes := [LOWER_E, LOWER_I, 50, LOWER_E, LOWER_E];
    var enc: bytes := [LOWER_I, 49, LOWER_E];
    DecodeListOfScalars([Int(1)], tail);
    assert FormatNat(1) == [49];
    assert ScalarEncoding(Int(1)) == enc;
    assert ScalarEncodings([Int(1)]) == [enc];
    assert data[1..] == [LOWER_L] + enc + tail;
    NestedContainerEndsList(data, 1, []);
    ListFromLead(data);
  }

  /** `di1ei2ee`: the integer key is decoded, and so is its value, before the
      type assertion on the key panics. */
  lemma DecodeIntegerKey()
    ensures DecodeFirst([LOWER_D, LOWER_I, 49, LOWER_E, LOWER_I, 50, LOWER_E, LOWER_E])
      == Panicked(KeyNotString)
  {
    var data: bytes := [LOWER_D, LOWER_I, 49, LOWER_E, LOWER_I, 50, LOWER_E, LOWER_E];
    assert EncodeInt(1) + data[4..] == data[1..];
    DecodeEncodedInt(1, data[4..]);
    assert EncodeInt(2) + [LOWER_E] == data[4..];
    DecodeEncodedInt(2, [LOWER_E]);
    DictFromLead(data);
  }

  /** `dlee`: the key `le` claims the rest of the buffer, and the decode of
      its value panics on the empty buffer that is left. */
  lemma DecodeContainerKey()
    ensures DecodeFirst([LOWER_D, LOWER_L, LOWER_E, LOWER_E]) == Panicked(EmptyBuffer)
  {
    var data: bytes := [LOWER_D, LOWER_L, LOWER_E, LOWER_E];
    DecodeListOfScalars([], [LOWER_E, LOWER_E]);
    assert ScalarEncodings([]) == [];
    assert data[1..] == [LOWER_L] + Concat(ScalarEncodings([])) + [LOWER_E, LOWER_E];
    NestedContainerKeyPanics(data, 1, map[]);
    DictFromLead(data);
  }

  /** A one-digit integer is written `i<digit>e`, so two of them compare
      as their digits do. */
  lemma DigitEncodingsOrdered(m: int, n: int)
    requires 0 <= n < m < 10
    ensures LexLe(EncodeInt(n), EncodeInt(m))
  {
    var lo, hi := EncodeInt(n), EncodeInt(m);
    assert lo == [LOWER_I, Digit(n), LOWER_E] && hi == [LOWER_I, Digit(m), LOWER_E];
    assert lo[1..] == [Digit(n), LOWER_E] && hi[1..] == [Digit(m), LOWER_E];
  }

  /** The list `[m, n]` of one-digit integers with `n < m`, `[2, 1]` say, is
      written with `i<n>e` before `i<m>e`: `Marshal` sorts the element
      encodings before it joins them (see `EncodeListOfScalars`). */
  lemma SortDigitEncodings(m: int, n: int)
    requires 0 <= n < m < 10
    ensures SortSeq(ScalarEncodings([Int(m), Int(n)])) == [EncodeInt(n), EncodeInt(m)]
  {
    assert ScalarEncodings([Int(m), Int(n)]) == [EncodeInt(m), EncodeInt(n)];
    DigitEncodingsOrdered(m, n);
    SortTwo(EncodeInt(n), EncodeInt(m));
  }

  /** `Marshal` writes the empty `List` as `le`. */
  lemma EncodeEmptyList()
    ensures Encode(List([])) == Encoded([LOWER_L, LOWER_E])
  {
    EncodeListOfScalars([]);
  }

  /** `Marshal` writes the empty `Dictionary` as `de`. */
  lemma EncodeEmptyDictionary()
    ensures Encode(Dictionary(map[])) == Encoded([LOWER_D, LOWER_E])
  {
    EncodeDictionaryOfScalars(map[]);
  }

  /** `Marshal` writes -12 as `i-12e`. */
  lemma EncodeNegativeInt()
    ensures Encode(Int(-12)) == Encoded([LOWER_I, MINUS, 49, 50, LOWER_E])
  {
    assert FormatNat(12) == [49, 50];
  }

  /** A map with two distinct keys `a < b` has the sorted keys `[a, b]`. */
  lemma TwoSortedKeys<V>(m: map<bytes, V>, a: bytes, b: bytes)
    requires m.Keys == {a, b} && LexLt(a, b)
    ensures SortedKeys(m.Keys) == [a, b]
  {
    assert StrictlySorted([a, b]);
    forall x ensures x in [a, b] <==> x in SortedKeys(m.Keys) {
      assert x in [a, b] <==> x in m.Keys;
    }
    StrictlySortedUnique([a, b], SortedKeys(m.Keys));
  }

  /** Joining two encoded pairs concatenates them. */
  lemma JoinTwoPairs(p: (bytes, bytes), q: (bytes, bytes))
    ensures JoinPairChunks([p, q]) == p.0 + p.1 + q.0 + q.1
  {
    assert [p, q][1..] == [q];
    assert [q][1..] == [];
    assert JoinPairChunks([q]) == q.0 + q.1;
  }

  /** What `Marshal` writes for a `Dictionary` of two scalars whose keys
      `a < b`: `d`, then `a` and its value, then `b` and its value, `e`. */
  lemma EncodeTwoEntries(entries: map<bytes, Value>, a: bytes, b: bytes)
    requires entries.Keys == {a, b} && LexLt(a, b)
    requires IsScalar(entries[a]) && IsScalar(entries[b])
    ensures Encode(Dictionary(entries)) == Encoded([LOWER_D]
      + (EncodeString(a) + ScalarEncoding(entries[a]) + EncodeString(b) + ScalarEncoding(entries[b])) + [LOWER_E])
  {
    var body := JoinPairChunks(PairEncodingsOf(entries, SortedKeys(entries.Keys)));
    assert Encode(Dictionary(entries)) == Encoded([LOWER_D] + body + [LOWER_E]) by {
      EncodeDictionaryOfScalars(entries);
    }
    assert body == EncodeString(a) + ScalarEncoding(entries[a]) + EncodeString(b) + ScalarEncoding(entries[b]) by {
      TwoEntryBody(entries, a, b);
    }
  }

  /** The body of a two-entry dictionary: its pairs, in key order. */
  lemma TwoEntryBody(entries: map<bytes, Value>, a: bytes, b: bytes)
    requires entries.Keys == {a, b} && LexLt(a, b)
    requires IsScalar(entries[a]) && IsScalar(entries[b])
    ensures JoinPairChunks(PairEncodingsOf(entries, SortedKeys(entries.Keys)))
      == EncodeString(a) + ScalarEncoding(entries[a]) + EncodeString(b) + ScalarEncoding(entries[b])
  {
    TwoSortedKeys(entries, a, b);
    var p := (EncodeString(a), EncodingOf(entries[a]));
    var q := (EncodeString(b), EncodingOf(entries[b]));
    assert PairEncodingsOf(entries, [a, b]) == [p, q];
    EncodeScalar(entries[a]);
    EncodeScalar(entries[b]);
    JoinTwoPairs(p, q);
  }

  /** The pieces of `d3:bar4:spam3:fooi42ee`. */
  lemma BarFooPieces()
    ensures EncodeString([98, 97, 114]) == [51, COLON, 98, 97, 114]
    ensures ScalarEncoding(String([115, 112, 97, 109])) == [52, COLON, 115, 112, 97, 109]
    ensures EncodeString([102, 111, 111]) == [51, COLON, 102, 111, 111]
    ensures ScalarEncoding(Int(42)) == [LOWER_I, 52, 50, LOWER_E]
  {
    assert FormatNat(3) == [51];
    assert FormatNat(4) == [52];
    assert FormatNat(42) == [52, 50] by {
      assert FormatNat(4) == [52];
    }
  }

  /** The bytes of `d3:bar4:spam3:fooi42ee`, piece by piece. */
  lemma BarFooBytes(body: bytes)
    requires body == [51, COLON, 98, 97, 114] + [52, COLON, 115, 112, 97, 109]
      + [51, COLON, 102, 111, 111] + [LOWER_I, 52, 50, LOWER_E]
    ensures [LOWER_D] + body + [LOWER_E]
      == [LOWER_D, 51, COLON, 98, 97, 114, 52, COLON, 115, 112, 97, 109,
          51, COLON, 102, 111, 111, LOWER_I, 52, 50, LOWER_E, LOWER_E]
  {
  }

  /** `{"bar": "spam", "foo": 42}` is written `d3:bar4:spam3:fooi42ee`: the
      key `bar` sorts first. */
  lemma EncodeBarFoo(entries: map<bytes, Value>)
    requires entries == map[[98, 97, 114] := String([115, 112, 97, 109]), [102, 111, 111] := Int(42)]
    ensures Encode(Dictionary(entries))
      == Encoded([LOWER_D, 51, COLON, 98, 97, 114, 52, COLON, 115, 112, 97, 109,
                  51, COLON, 102, 111, 111, LOWER_I, 52, 50, LOWER_E, LOWER_E])
  {
    var bar: bytes, foo: bytes := [98, 97, 114], [102, 111, 111];
    assert LexLt(bar, foo);
    EncodeTwoEntries(entries, bar, foo);
    BarFooPieces();
    var body := EncodeString(bar) + ScalarEncoding(entries[bar]) + EncodeString(foo) + ScalarEncoding(entries[foo]);
    BarFooBytes(body);
  }

  /** The pieces of `d8:announcei2e13:announce-listi1ee`. */
  lemma AnnouncePieces(announce: bytes, list: bytes)
    requires announce == [97, 110, 110, 111, 117, 110, 99, 101]
    requires list == announce + [45, 108, 105, 115, 116]
    ensures EncodeString(announce) == [56, COLON] + announce
    ensures EncodeString(list) == [49, 51, COLON] + list
    ensures ScalarEncoding(Int(2)) == [LOWER_I, 50, LOWER_E]
    ensures ScalarEncoding(Int(1)) == [LOWER_I, 49, LOWER_E]
  {
    assert FormatNat(8) == [56];
    assert FormatNat(1) == [49] && FormatNat(2) == [50];
    assert |list| == 13;
    assert FormatNat(13) == [49, 51] by {
      assert FormatNat(1) == [49];
    }
  }

  /** The bytes of `d8:announcei2e13:announce-listi1ee`, piece by piece. */
  lemma AnnounceBytes(announce: bytes, list: bytes, body: bytes)
    requires announce == [97, 110, 110, 111, 117, 110, 99, 101]
    requires list == announce + [45, 108, 105, 115, 116]
    requires body == [56, COLON] + announce + [LOWER_I, 50, LOWER_E] + [49, 51, COLON] + list + [LOWER_I, 49, LOWER_E]
    ensures [LOWER_D] + body + [LOWER_E]
      == [LOWER_D, 56, COLON, 97, 110, 110, 111, 117, 110, 99, 101, LOWER_I, 50, LOWER_E,
          49, 51, COLON, 97, 110, 110, 111, 117, 110, 99, 101, 45, 108, 105, 115, 116, LOWER_I, 49, LOWER_E, LOWER_E]
  {
  }

  /** `{"announce-list": 1, "announce": 2}` is written
      `d8:announcei2e13:announce-listi1ee`: a key sorts before every longer
      key it is a prefix of. */
  lemma EncodeAnnounce(entries: map<bytes, Value>, announce: bytes, list: bytes)
    requires announce == [97, 110, 110, 111, 117, 110, 99, 101]
    requires list == announce + [45, 108, 105, 115, 116]
    requires entries == map[list := Int(1), announce := Int(2)]
    ensures Encode(Dictionary(entries))
      == Encoded([LOWER_D, 56, COLON, 97, 110, 110, 111, 117, 110, 99, 101, LOWER_I, 50, LOWER_E,
                  49, 51, COLON, 97, 110, 110, 111, 117, 110, 99, 101, 45, 108, 105, 115, 116, LOWER_I, 49, LOWER_E, LOWER_E])
  {
    PrefixFirst(announce, [45, 108, 105, 115, 116]);
    EncodeTwoEntries(entries, announce, list);
    AnnouncePieces(announce, list);
    var body := EncodeString(announce) + ScalarEncoding(entries[announce]) + EncodeString(list) + ScalarEncoding(entries[list]);
    AnnounceBytes(announce, list, body);
  }
}
