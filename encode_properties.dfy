/** What `Marshal`'s output looks like from the outside: its lead byte names
    the kind of value it encodes, and a list's encoding does not depend on the
    order of its elements. */
module EncodeProperties {
  import opened Bytes
  import opened Order
  import opened Strconv
  import opened Values
  import opened Encoder
  import Types

  /** The lead byte of what `Marshal` writes classifies it as the kind of
      value it came from, so `TypeOf` and `Unmarshal` can dispatch on it. */
  lemma EncodeClassifies(v: Value)
    requires Encode(v).Encoded?
    ensures 0 < |Encode(v).out|
    ensures v.Int? ==> Types.TypeOf(Encode(v).out) == Types.Integer
    ensures v.String? ==> Types.TypeOf(Encode(v).out) == Types.Str
    ensures v.List? ==> Types.TypeOf(Encode(v).out) == Types.List
    ensures v.Dictionary? ==> Types.TypeOf(Encode(v).out) == Types.Dictionary
  {
    if v.String? {
      assert Encode(v).out[0] == FormatNat(|v.s|)[0];
    }
  }

  /** The element encodings of a list that encodes are `EncodingOf` mapped
      over its elements. */
  lemma ElementEncodingsAsMap(items: seq<Value>)
    requires forall i :: 0 <= i < |items| ==> Encode(items[i]).Encoded?
    ensures ElementEncodings(items) == Map(items, EncodingOf)
  {
  }

  /** Permuting a list whose elements all encode leaves its sorted element
      encodings unchanged. */
  lemma SortedElementEncodingsIgnoreOrder(a: seq<Value>, b: seq<Value>)
    requires forall i :: 0 <= i < |a| ==> Encode(a[i]).Encoded?
    requires forall i :: 0 <= i < |b| ==> Encode(b[i]).Encoded?
    requires multiset(a) == multiset(b)
    ensures SortSeq(ElementEncodings(a)) == SortSeq(ElementEncodings(b))
  {
    ElementEncodingsAsMap(a);
    ElementEncodingsAsMap(b);
    MapPermutation(a, b, EncodingOf);
    SortedUnique(SortSeq(ElementEncodings(a)), SortSeq(ElementEncodings(b)));
  }

  /** Every element of a permutation of `a` is an element of `a`. */
  lemma PermutationElements(a: seq<Value>, b: seq<Value>)
    requires multiset(a) == multiset(b)
    ensures forall i :: 0 <= i < |b| ==> b[i] in a
  {
    forall i | 0 <= i < |b| ensures b[i] in a {
      assert b[i] in multiset(a);
    }
  }

  /** A list whose elements all encode is `l`, their sorted encodings, `e`. */
  lemma EncodeList(items: seq<Value>)
    requires forall i :: 0 <= i < |items| ==> Encode(items[i]).Encoded?
    ensures Encode(List(items)) == Encoded([LOWER_L] + Concat(SortSeq(ElementEncodings(items))) + [LOWER_E])
  {
  }

  /** One element that does not encode makes the whole list fail. */
  lemma EncodeListFails(items: seq<Value>, i: int)
    requires 0 <= i < |items| && Encode(items[i]).EncodeFailed?
    ensures Encode(List(items)) == EncodeFailed
  {
  }

  /** `Marshal` writes the same bytes for a `List` and for any permutation
      of it: it sorts the element encodings before joining them, and one
      element that fails fails both. */
  lemma ListEncodingIgnoresOrder(a: seq<Value>, b: seq<Value>)
    requires multiset(a) == multiset(b)
    ensures Encode(List(a)) == Encode(List(b))
  {
    PermutationElements(a, b);
    PermutationElements(b, a);
    if i :| 0 <= i < |a| && Encode(a[i]).EncodeFailed? {
      var j :| 0 <= j < |b| && b[j] == a[i];
      EncodeListFails(a, i);
      EncodeListFails(b, j);
    } else {
      forall i | 0 <= i < |b| ensures Encode(b[i]).Encoded? {
        var j :| 0 <= j < |a| && a[j] == b[i];
      }
      SortedElementEncodingsIgnoreOrder(a, b);
      EncodeList(a);
      EncodeList(b);
    }
  }
}
