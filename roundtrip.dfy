/** What the decoder makes of the encoder's output. Ints and strings read
    back exactly, whatever follows them in the buffer, and a run of them
    inside a list or a dictionary reads back in order. Containers do not
    round-trip: the decoder builds unnamed slices and maps, which `Marshal`
    rejects. */
module RoundTrip {
  import opened Bytes
  import opened Strconv
  import opened Values
  import opened Decoder
  import opened Encoder
  import opened Order
  import Types

  /** The values whose encoding the decoder reads back unchanged: an int that
      fits Go's `int`, or a string whose length does. */
  predicate IsScalar(v: Value) {
    || (v.Int? && InInt64(v.i))
    || (v.String? && |v.s| <= MAX_INT64)
  }

  /** `Marshal`'s bytes for a scalar. */
  function ScalarEncoding(v: Value): (r: bytes)
    requires IsScalar(v)
    ensures 0 < |r| && r[0] != LOWER_E
  {
    if v.Int? then EncodeInt(v.i) else EncodeString(v.s)
  }

  /** A scalar is what `Marshal` writes for it. */
  lemma EncodeScalar(v: Value)
    requires IsScalar(v)
    ensures Encode(v) == Encoded(ScalarEncoding(v))
  {
  }

  /** The integer `n` written by `Marshal` reads back as `n`, and the decoder
      copies exactly the bytes `Marshal` wrote, whatever follows them. */
  lemma DecodeEncodedInt(n: int, rest: bytes)
    requires InInt64(n)
    ensures DecodeFirst(EncodeInt(n) + rest) == Decoded(Int(n), |EncodeInt(n)|)
  {
    var digits := FormatInt(n);
    var data := EncodeInt(n) + rest;
    assert data == ([LOWER_I] + digits) + [LOWER_E] + rest;
    FormatIntNoDelimiters(n);
    assert LOWER_E !in [LOWER_I] + digits;
    IndexByteAfter([LOWER_I] + digits, LOWER_E, rest);
    assert data[1..|digits| + 1] == digits;
    AtoiFormatInt(n);
  }

  /** The string `s` written by `Marshal` reads back as `s`, and the decoder
      copies exactly the bytes `Marshal` wrote, whatever follows them. */
  lemma DecodeEncodedString(s: bytes, rest: bytes)
    requires |s| <= MAX_INT64
    ensures DecodeFirst(EncodeString(s) + rest) == Decoded(String(s), |EncodeString(s)|)
  {
    var digits := FormatNat(|s|);
    var data := EncodeString(s) + rest;
    assert data == digits + [COLON] + (s + rest);
    assert FormatInt(|s|) == digits;
    FormatIntNoDelimiters(|s|);
    IndexByteAfter(digits, COLON, s + rest);
    assert data[..|digits|] == digits;
    AtoiFormatInt(|s|);
    assert data[|digits| + 1..|digits| + 1 + |s|] == s;
  }

  lemma DecodeEncodedScalar(v: Value, rest: bytes)
    requires IsScalar(v)
    ensures DecodeFirst(ScalarEncoding(v) + rest) == Decoded(v, |ScalarEncoding(v)|)
  {
    if v.Int? {
      DecodeEncodedInt(v.i, rest);
    } else {
      DecodeEncodedString(v.s, rest);
    }
  }

  /** Where the run of elements ends: at the end of the buffer, or at an `e`.
      Anything may follow the `e`. */
  predicate EndsRun(tail: bytes) {
    tail == [] || tail[0] == LOWER_E
  }

  /** `enc` reads back as `v` on its own: whatever follows it in the buffer,
      the decoder reads `v` from it and copies exactly its bytes; and it does
      not start with the `e` that ends a container's run. Containers never
      qualify, since a decoded container claims the whole buffer. */
  ghost predicate ReadsBackAs(enc: bytes, v: Value) {
    && 0 < |enc| && enc[0] != LOWER_E
    && forall rest :: DecodeFirst(enc + rest) == Decoded(v, |enc|)
  }

  lemma ScalarReadsBack(v: Value)
    requires IsScalar(v)
    ensures ReadsBackAs(ScalarEncoding(v), v)
  {
    forall rest {
      DecodeEncodedScalar(v, rest);
    }
  }

  /** A self-delimiting encoding at `pos` is read there, and the cursor moves
      past it. */
  lemma ChunkAt(data: bytes, pos: int, enc: bytes, v: Value, rest: bytes)
    requires 1 <= pos <= |data|
    requires data[pos..] == enc + rest
    requires ReadsBackAs(enc, v)
    ensures pos + |enc| <= |data| && data[pos + |enc|..] == rest
    ensures pos < |data| && data[pos] != LOWER_E
    ensures DecodeFirst(data[pos..]) == Decoded(v, |enc|)
  {
    DropPrefix(data, pos, enc, rest);
    assert DecodeFirst(enc + rest) == Decoded(v, |enc|);
  }

  /** The list loop reads a run of self-delimiting encodings back one by one,
      in the order they were written, after the elements it already holds. */
  lemma {:induction false} ListLoopReadsChunks(data: bytes, pos: int, acc: seq<Value>,
                                               encs: seq<bytes>, vs: seq<Value>, tail: bytes)
    requires 1 <= pos <= |data|
    requires |encs| == |vs| && forall i :: 0 <= i < |encs| ==> ReadsBackAs(encs[i], vs[i])
    requires data[pos..] == Concat(encs) + tail
    requires EndsRun(tail)
    ensures DecodeListFrom(data, pos, acc) == Decoded(Slice(acc + vs), |data|)
    decreases |vs|
  {
    if |vs| == 0 {
      assert data[pos..] == tail;
      if pos < |data| {
        assert data[pos] == tail[0];
      }
      assert acc + vs == acc;
    } else {
      var others := Concat(encs[1..]);
      ConcatFirst(encs);
      ConcatAssoc(encs[0], others, tail);
      ChunkAt(data, pos, encs[0], vs[0], others + tail);
      ListTurn(data, pos, acc, vs[0], |encs[0]|);
      ListLoopReadsChunks(data, pos + |encs[0]|, acc + [vs[0]], encs[1..], vs[1..], tail);
      AppendFirst(acc, vs);
    }
  }

  /** The list loop started just after an `l` is the whole decode. */
  lemma ListFromLead(data: bytes)
    requires 0 < |data| && data[0] == LOWER_L
    ensures DecodeFirst(data) == DecodeListFrom(data, 1, [])
  {
  }

  /** An `l`, a run of self-delimiting encodings, and then an `e` or the end
      of the buffer decode to the list of what they encode, and the whole
      buffer counts as copied. */
  lemma DecodeListOfChunks(encs: seq<bytes>, vs: seq<Value>, tail: bytes)
    requires |encs| == |vs| && forall i :: 0 <= i < |encs| ==> ReadsBackAs(encs[i], vs[i])
    requires EndsRun(tail)
    ensures var data := [LOWER_L] + Concat(encs) + tail;
      DecodeFirst(data) == Decoded(Slice(vs), |data|)
  {
    var data := [LOWER_L] + Concat(encs) + tail;
    ConcatAssoc([LOWER_L], Concat(encs), tail);
    DropPrefix(data, 0, [LOWER_L], Concat(encs) + tail);
    ListFromLead(data);
    ListLoopReadsChunks(data, 1, [], encs, vs, tail);
    assert [] + vs == vs;
  }

  /** The encodings `Marshal` writes for a run of scalars, in order. */
  function ScalarEncodings(vs: seq<Value>): (r: seq<bytes>)
    requires forall i :: 0 <= i < |vs| ==> IsScalar(vs[i])
    ensures |r| == |vs|
  {
    seq(|vs|, i requires 0 <= i < |vs| => ScalarEncoding(vs[i]))
  }

  /** A list of scalars, terminated or not, decodes to those scalars in the
      order written, and the whole buffer counts as copied. */
  lemma DecodeListOfScalars(vs: seq<Value>, tail: bytes)
    requires forall i :: 0 <= i < |vs| ==> IsScalar(vs[i])
    requires EndsRun(tail)
    ensures var data := [LOWER_L] + Concat(ScalarEncodings(vs)) + tail;
      DecodeFirst(data) == Decoded(Slice(vs), |data|)
  {
    var encs := ScalarEncodings(vs);
    forall i | 0 <= i < |encs| ensures ReadsBackAs(encs[i], vs[i]) {
      ScalarReadsBack(vs[i]);
    }
    DecodeListOfChunks(encs, vs, tail);
  }

  /** The map the dictionary loop builds from `pairs`: each pair stored in
      turn, so a later key overwrites an earlier equal one. */
  function StoreAll(acc: map<bytes, Value>, pairs: seq<(bytes, Value)>): map<bytes, Value>
    decreases |pairs|
  {
    if |pairs| == 0 then acc else StoreAll(acc[pairs[0].0 := pairs[0].1], pairs[1..])
  }

  /** A run of encoded keys and values, each key followed by its value. */
  function JoinPairChunks(cs: seq<(bytes, bytes)>): bytes
  {
    if |cs| == 0 then [] else cs[0].0 + cs[0].1 + JoinPairChunks(cs[1..])
  }

  lemma {:induction false} JoinPairChunksSnoc(cs: seq<(bytes, bytes)>, c: (bytes, bytes))
    ensures JoinPairChunks(cs + [c]) == JoinPairChunks(cs) + c.0 + c.1
    decreases |cs|
  {
    if |cs| == 0 {
      assert cs + [c] == [c];
    } else {
      var head := cs[0].0 + cs[0].1;
      var others := JoinPairChunks(cs[1..]);
      assert (cs + [c])[1..] == cs[1..] + [c];
      JoinPairChunksSnoc(cs[1..], c);
      assert JoinPairChunks(cs + [c]) == head + (others + c.0 + c.1);
      assert head + (others + c.0 + c.1) == head + others + c.0 + c.1;
    }
  }

  /** A self-delimiting key encoding followed by a self-delimiting value
      encoding at `pos` are read there one after the other. */
  lemma PairAt(data: bytes, pos: int, k: bytes, key: bytes, v: bytes, value: Value, rest: bytes)
    requires 1 <= pos <= |data|
    requires data[pos..] == k + v + rest
    requires ReadsBackAs(k, String(key)) && ReadsBackAs(v, value)
    ensures pos < |data| && data[pos] != LOWER_E
    ensures pos + |k| + |v| <= |data| && data[pos + |k| + |v|..] == rest
    ensures DecodeFirst(data[pos..]) == Decoded(String(key), |k|)
    ensures DecodeFirst(data[pos + |k|..]) == Decoded(value, |v|)
  {
    ConcatAssoc(k, v, rest);
    ChunkAt(data, pos, k, String(key), v + rest);
    ChunkAt(data, pos + |k|, v, value, rest);
  }

  /** One turn of the dictionary loop over a run of self-delimiting key and
      value encodings: the first pair is stored and the cursor moves past
      it. */
  lemma DictReadsFirstPair(data: bytes, pos: int, acc: map<bytes, Value>,
                           cs: seq<(bytes, bytes)>, kvs: seq<(bytes, Value)>, tail: bytes)
    requires 1 <= pos <= |data|
    requires 0 < |cs| == |kvs|
    requires ReadsBackAs(cs[0].0, String(kvs[0].0)) && ReadsBackAs(cs[0].1, kvs[0].1)
    requires data[pos..] == JoinPairChunks(cs) + tail
    ensures var next := pos + |cs[0].0| + |cs[0].1|;
      && next <= |data| && data[next..] == JoinPairChunks(cs[1..]) + tail
      && DecodeDictFrom(data, pos, acc) == DecodeDictFrom(data, next, acc[kvs[0].0 := kvs[0].1])
  {
    var k, v := cs[0].0, cs[0].1;
    var others := JoinPairChunks(cs[1..]);
    ConcatAssoc(k + v, others, tail);
    PairAt(data, pos, k, kvs[0].0, v, kvs[0].1, others + tail);
    DictTurn(data, pos, acc, kvs[0].0, |k|, kvs[0].1, |v|);
  }

  /** The dictionary loop reads a run of self-delimiting key and value
      encodings back one by one and stores each pair in turn. */
  lemma {:induction false} DictLoopReadsChunks(data: bytes, pos: int, acc: map<bytes, Value>,
                                               cs: seq<(bytes, bytes)>, kvs: seq<(bytes, Value)>, tail: bytes)
    requires 1 <= pos <= |data|
    requires |cs| == |kvs|
    requires forall i :: 0 <= i < |cs| ==>
      ReadsBackAs(cs[i].0, String(kvs[i].0)) && ReadsBackAs(cs[i].1, kvs[i].1)
    requires data[pos..] == JoinPairChunks(cs) + tail
    requires EndsRun(tail)
    ensures DecodeDictFrom(data, pos, acc) == Decoded(StringMap(StoreAll(acc, kvs)), |data|)
    decreases |cs|
  {
    if |cs| == 0 {
      assert data[pos..] == tail;
      if pos < |data| {
        assert data[pos] == tail[0];
      }
    } else {
      DictReadsFirstPair(data, pos, acc, cs, kvs, tail);
      DictLoopReadsChunks(data, pos + |cs[0].0| + |cs[0].1|, acc[kvs[0].0 := kvs[0].1], cs[1..], kvs[1..], tail);
    }
  }

  /** The dictionary loop started just after a `d` is the whole decode. */
  lemma DictFromLead(data: bytes)
    requires 0 < |data| && data[0] == LOWER_D
    ensures DecodeFirst(data) == DecodeDictFrom(data, 1, map[])
  {
  }

  /** A `d`, a run of self-delimiting key and value encodings, and then an
      `e` or the end of the buffer decode to the map that stores each pair in
      the order written, and the whole buffer counts as copied. */
  lemma DecodeDictOfChunks(cs: seq<(bytes, bytes)>, kvs: seq<(bytes, Value)>, tail: bytes)
    requires |cs| == |kvs|
    requires forall i :: 0 <= i < |cs| ==>
      ReadsBackAs(cs[i].0, String(kvs[i].0)) && ReadsBackAs(cs[i].1, kvs[i].1)
    requires EndsRun(tail)
    ensures var data := [LOWER_D] + JoinPairChunks(cs) + tail;
      DecodeFirst(data) == Decoded(StringMap(StoreAll(map[], kvs)), |data|)
  {
    var data := [LOWER_D] + JoinPairChunks(cs) + tail;
    ConcatAssoc([LOWER_D], JoinPairChunks(cs), tail);
    DropPrefix(data, 0, [LOWER_D], JoinPairChunks(cs) + tail);
    DictFromLead(data);
    DictLoopReadsChunks(data, 1, map[], cs, kvs, tail);
  }

  /** Two scalars with the same encoding are the same value. */
  lemma ScalarEncodingInjective(v: Value, w: Value)
    requires IsScalar(v) && IsScalar(w)
    requires ScalarEncoding(v) == ScalarEncoding(w)
    ensures v == w
  {
    DecodeEncodedScalar(v, []);
    DecodeEncodedScalar(w, []);
  }

  lemma ScalarEncodingsAppend(a: seq<Value>, b: seq<Value>)
    requires forall i :: 0 <= i < |a| ==> IsScalar(a[i])
    requires forall i :: 0 <= i < |b| ==> IsScalar(b[i])
    ensures ScalarEncodings(a + b) == ScalarEncodings(a) + ScalarEncodings(b)
  {
    assert forall i :: 0 <= i < |a + b| ==> IsScalar((a + b)[i]);
  }

  /** The encodings of a run with one element picked out. */
  lemma ScalarEncodingsSplit(items: seq<Value>, j: int)
    requires forall i :: 0 <= i < |items| ==> IsScalar(items[i])
    requires 0 <= j < |items|
    ensures var before, after := items[..j], items[j + 1..];
      && items == before + [items[j]] + after
      && ScalarEncodings(items) == ScalarEncodings(before) + [ScalarEncoding(items[j])] + ScalarEncodings(after)
      && ScalarEncodings(before + after) == ScalarEncodings(before) + ScalarEncodings(after)
  {
    var before, after := items[..j], items[j + 1..];
    assert items == before + [items[j]] + after;
    ScalarEncodingsAppend(before + [items[j]], after);
    ScalarEncodingsAppend(before, [items[j]]);
    ScalarEncodingsAppend(before, after);
  }

  /** The first of a run of scalars has its encoding somewhere among the
      encodings of a permutation-by-encoding of the run; taking both out
      leaves two runs whose encodings are still permutations of each other. */
  lemma MatchFirst(ws: seq<Value>, items: seq<Value>) returns (j: int)
    requires forall i :: 0 <= i < |ws| ==> IsScalar(ws[i])
    requires forall i :: 0 <= i < |items| ==> IsScalar(items[i])
    requires 0 < |ws|
    requires multiset(ScalarEncodings(ws)) == multiset(ScalarEncodings(items))
    ensures 0 <= j < |items| && items[j] == ws[0]
    ensures multiset(ScalarEncodings(ws[1..])) == multiset(ScalarEncodings(items[..j] + items[j + 1..]))
  {
    j := FindFirst(ws, items);
    var e := ScalarEncoding(ws[0]);
    ScalarEncodingsSplit(items, j);
    MultisetInsert(ScalarEncodings(ws[1..]), ScalarEncodings(items[..j]), ScalarEncodings(items[j + 1..]), e);
  }

  /** Where the first of `ws` sits in `items`, and the encodings of `ws`
      split after their first. */
  lemma FindFirst(ws: seq<Value>, items: seq<Value>) returns (j: int)
    requires forall i :: 0 <= i < |ws| ==> IsScalar(ws[i])
    requires forall i :: 0 <= i < |items| ==> IsScalar(items[i])
    requires 0 < |ws|
    requires multiset(ScalarEncodings(ws)) == multiset(ScalarEncodings(items))
    ensures 0 <= j < |items| && items[j] == ws[0]
    ensures ScalarEncodings(ws) == [ScalarEncoding(ws[0])] + ScalarEncodings(ws[1..])
  {
    var e := ScalarEncoding(ws[0]);
    ScalarEncodingsSplit(ws, 0);
    assert ScalarEncodings(ws) == [e] + ScalarEncodings(ws[1..]);
    assert e in multiset(ScalarEncodings(items));
    j :| 0 <= j < |items| && ScalarEncodings(items)[j] == e;
    ScalarEncodingInjective(items[j], ws[0]);
  }

  /** Runs of scalars whose encodings are permutations of each other are
      permutations of each other. */
  lemma {:induction false} SameEncodingsSameValues(ws: seq<Value>, items: seq<Value>)
    requires forall i :: 0 <= i < |ws| ==> IsScalar(ws[i])
    requires forall i :: 0 <= i < |items| ==> IsScalar(items[i])
    requires multiset(ScalarEncodings(ws)) == multiset(ScalarEncodings(items))
    ensures multiset(ws) == multiset(items)
    decreases |ws|
  {
    if |ws| == 0 {
      assert |multiset(ScalarEncodings(items))| == 0;
    } else {
      var j := MatchFirst(ws, items);
      var x, others := ws[0], ws[1..];
      var before, after := items[..j], items[j + 1..];
      SameEncodingsSameValues(others, before + after);
      MultisetInsert(others, before, after, x);
      assert ws == [x] + others;
      assert items == before + [x] + after;
    }
  }

  /** The element encodings of a list of scalars are their scalar
      encodings. */
  lemma ElementEncodingsOfScalars(items: seq<Value>)
    requires forall i :: 0 <= i < |items| ==> IsScalar(items[i])
    ensures forall i :: 0 <= i < |items| ==> Encode(items[i]).Encoded?
    ensures ElementEncodings(items) == ScalarEncodings(items)
  {
    forall i | 0 <= i < |items| ensures Encode(items[i]) == Encoded(ScalarEncoding(items[i])) {
      EncodeScalar(items[i]);
    }
  }

  /** Some element of `items` whose encoding is `enc`. */
  ghost function ScalarWithEncoding(items: seq<Value>, enc: bytes): (v: Value)
    requires forall i :: 0 <= i < |items| ==> IsScalar(items[i])
    requires enc in ScalarEncodings(items)
    ensures v in items && IsScalar(v) && ScalarEncoding(v) == enc
  {
    var j :| 0 <= j < |items| && ScalarEncodings(items)[j] == enc;
    items[j]
  }

  /** What `Marshal` writes for a `List` of scalars: their encodings,
      sorted, between `l` and `e`. */
  lemma EncodeListOfScalars(items: seq<Value>)
    requires forall i :: 0 <= i < |items| ==> IsScalar(items[i])
    ensures Encode(List(items)) == Encoded([LOWER_L] + Concat(SortSeq(ScalarEncodings(items))) + [LOWER_E])
  {
    ElementEncodingsOfScalars(items);
  }

  /** Sorting the encodings of a run of scalars amounts to reordering the
      run: some permutation of it has exactly the sorted encodings. */
  lemma SortedEncodingsAreAPermutation(items: seq<Value>) returns (ws: seq<Value>)
    requires forall i :: 0 <= i < |items| ==> IsScalar(items[i])
    ensures forall i :: 0 <= i < |ws| ==> IsScalar(ws[i])
    ensures ScalarEncodings(ws) == SortSeq(ScalarEncodings(items))
    ensures multiset(ws) == multiset(items)
  {
    var encs := ScalarEncodings(items);
    var sorted := SortSeq(encs);
    forall i | 0 <= i < |sorted| ensures sorted[i] in encs {
      assert sorted[i] in multiset(sorted);
    }
    ws := seq(|sorted|, i requires 0 <= i < |sorted| => ScalarWithEncoding(items, sorted[i]));
    assert ScalarEncodings(ws) == sorted;
    SameEncodingsSameValues(ws, items);
  }

  /** A `List` of scalars reads back as an unnamed slice of the same
      elements, reordered so that their encodings ascend: `Marshal` sorts the
      encoded elements, and the decoder reads them in the order written. */
  lemma MarshalledListReadsBack(items: seq<Value>)
    requires forall i :: 0 <= i < |items| ==> IsScalar(items[i])
    ensures Encode(List(items)).Encoded?
    ensures var out := Encode(List(items)).out;
      && DecodeFirst(out).Decoded? && DecodeFirst(out).copied == |out|
      && DecodeFirst(out).value.Slice?
      && var ws := DecodeFirst(out).value.elems;
      && (forall i :: 0 <= i < |ws| ==> IsScalar(ws[i]))
      && multiset(ws) == multiset(items)
      && Sorted(ScalarEncodings(ws))
  {
    EncodeListOfScalars(items);
    var ws := SortedEncodingsAreAPermutation(items);
    var sorted := ScalarEncodings(ws);
    forall i | 0 <= i < |ws| ensures ReadsBackAs(sorted[i], ws[i]) {
      ScalarReadsBack(ws[i]);
    }
    DecodeListOfChunks(sorted, ws, [LOWER_E]);
  }

  /** `(k, entries[k])` for each key of `ks`, in order. */
  function PairsOf(entries: map<bytes, Value>, ks: seq<bytes>): (r: seq<(bytes, Value)>)
    requires forall k :: k in ks ==> k in entries
    ensures |r| == |ks|
  {
    seq(|ks|, i requires 0 <= i < |ks| => (ks[i], entries[ks[i]]))
  }

  /** Storing the pairs of `ks` in turn stores each key of `ks` with its
      value and leaves every other key of `acc` as it was. */
  lemma {:induction false} StoreAllPairsOf(acc: map<bytes, Value>, entries: map<bytes, Value>, ks: seq<bytes>)
    requires forall k :: k in ks ==> k in entries
    ensures var r := StoreAll(acc, PairsOf(entries, ks));
      && (forall k :: k in r <==> k in acc || k in ks)
      && (forall k :: k in ks ==> r[k] == entries[k])
      && (forall k :: k in acc && k !in ks ==> r[k] == acc[k])
    decreases |ks|
  {
    if |ks| > 0 {
      assert PairsOf(entries, ks)[1..] == PairsOf(entries, ks[1..]);
      StoreAllPairsOf(acc[ks[0] := entries[ks[0]]], entries, ks[1..]);
      assert forall k :: k in ks <==> k == ks[0] || k in ks[1..];
    }
  }

  /** The key and value encodings `Marshal` writes for the keys `ks`. */
  ghost function PairEncodingsOf(entries: map<bytes, Value>, ks: seq<bytes>): (r: seq<(bytes, bytes)>)
    requires forall k :: k in ks ==> k in entries
    ensures |r| == |ks|
  {
    seq(|ks|, i requires 0 <= i < |ks| => (EncodeString(ks[i]), EncodingOf(entries[ks[i]])))
  }

  lemma {:induction false} JoinPairsAsChunks(entries: map<bytes, Value>, ks: seq<bytes>)
    requires forall k :: k in ks ==> k in entries
    ensures JoinPairs(entries, ks) == JoinPairChunks(PairEncodingsOf(entries, ks))
    decreases |ks|
  {
    if |ks| > 0 {
      var init := ks[..|ks| - 1];
      var last := ks[|ks| - 1];
      JoinPairsAsChunks(entries, init);
      var c := (EncodeString(last), EncodingOf(entries[last]));
      assert PairEncodingsOf(entries, ks) == PairEncodingsOf(entries, init) + [c];
      JoinPairChunksSnoc(PairEncodingsOf(entries, init), c);
    }
  }

  /** What `Marshal` writes for a `Dictionary` of scalars: each key and
      value encoded, in ascending key order, between `d` and `e`. */
  lemma EncodeDictionaryOfScalars(entries: map<bytes, Value>)
    requires forall k :: k in entries ==> IsScalar(entries[k])
    ensures Encode(Dictionary(entries))
      == Encoded([LOWER_D] + JoinPairChunks(PairEncodingsOf(entries, SortedKeys(entries.Keys))) + [LOWER_E])
  {
    var ks := SortedKeys(entries.Keys);
    forall k | k in ks ensures Encode(entries[k]).Encoded? {
      EncodeScalar(entries[k]);
    }
    EncodeDictionary(entries);
    JoinPairsAsChunks(entries, ks);
  }

  /** Storing each entry of a map, in ascending key order, into an empty map
      rebuilds the map. */
  lemma StoreSortedPairs(entries: map<bytes, Value>)
    ensures StoreAll(map[], PairsOf(entries, SortedKeys(entries.Keys))) == entries
  {
    var ks := SortedKeys(entries.Keys);
    StoreAllPairsOf(map[], entries, ks);
  }

  /** A `Dictionary` whose values are all scalars reads back as an unnamed
      map with exactly the same entries: `Marshal` writes each key once, and
      the decoder stores each pair it reads. */
  lemma MarshalledDictionaryReadsBack(entries: map<bytes, Value>)
    requires forall k :: k in entries ==> |k| <= MAX_INT64 && IsScalar(entries[k])
    ensures Encode(Dictionary(entries)).Encoded?
    ensures var out := Encode(Dictionary(entries)).out;
      DecodeFirst(out) == Decoded(StringMap(entries), |out|)
  {
    var ks := SortedKeys(entries.Keys);
    EncodeDictionaryOfScalars(entries);
    var cs := PairEncodingsOf(entries, ks);
    var kvs := PairsOf(entries, ks);
    forall i | 0 <= i < |cs| ensures ReadsBackAs(cs[i].0, String(kvs[i].0)) && ReadsBackAs(cs[i].1, kvs[i].1) {
      EncodeScalar(entries[ks[i]]);
      ScalarReadsBack(String(ks[i]));
      ScalarReadsBack(entries[ks[i]]);
    }
    DecodeDictOfChunks(cs, kvs, [LOWER_E]);
    StoreSortedPairs(entries);
  }
}
