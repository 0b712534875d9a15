# bencode codec, modelled in Dafny

This project models the core of the Go package `bencode` (go-torrent/bencode). Bencode is the length-prefixed encoding used in torrent metadata.
The core has three parts:

- `TypeOf` classifies an encoded value by its lead byte (`i`, a digit, `l`, `d`), and `Type.String` names the class.
- `unmarshalFirstValue` decodes the value at the front of a buffer and reports how many bytes it copied. `Unmarshal` checks the kind of the destination variable before it decodes anything.
- `Marshal` (with `encodePair`) writes an int, a string, a `List` or a `Dictionary`. A list's element encodings and a dictionary's keys are sorted in byte order first.

The model follows the code as written, including where it departs from the usual bencode rules:

- An integer ends at the first `e` anywhere in the buffer. Its digits go to `strconv.Atoi`, which accepts leading zeros, `-0` and a leading `+`.
- A string's declared length is not checked against the buffer, so a length that runs past the buffer's capacity panics at the slice. The model takes a buffer's capacity to be its length (see "Left out").
- A list or dictionary may stop at the end of the buffer without its `e`. It always reports the whole buffer as copied. A container nested as a list element or as a dictionary value therefore ends its parent, and every later sibling is dropped. As a dictionary key it leaves no bytes for its value, whose decode panics on the empty buffer.
- A dictionary key that is not a string panics at the type assertion, but only after its value has been decoded.
- `Marshal` sorts a list's element encodings, so a list does not keep its order.

Go panics are modelled as explicit outcomes of the decoder:

- an empty buffer, in `TypeOf`'s `data[0]`;
- a slice out of range (past the buffer's capacity, modelled as its length);
- a key that is not a string.

`strconv.Atoi` and the `%d` verb are modelled exactly for Go's 64-bit `int`. This covers the syntax and range errors and the order in which `ParseUint` detects them. `sort.Strings` is modelled by its contract (sorted, a permutation).

Modules:

- `Bytes`: bytes, `strings.IndexRune` for ASCII runes, joining, and sequence and multiset algebra.
- `Strconv`: `Atoi` and `%d`.
- `Order`: Go's string order, sorting, and sorted keys.
- `Types`: `TypeOf` and `Type.String`.
- `Values`: the Go values the codec meets.
- `Decoder`: `unmarshalFirstValue` as a specification function and as the looping methods, plus `Unmarshal`.
- `Encoder`: `Marshal` as a specification function and as the looping methods, plus `encodePair`.
- `DecodeProperties`: shapes of what the decoder produces, and what a container's claim on the whole buffer implies.
- `EncodeProperties`: classification of `Marshal`'s output, and list-order independence.
- `RoundTrip`: what the decoder makes of `Marshal`'s output.
- `Samples`: worked buffers.

## Model

| member | source | states |
|---|---|---|
| `Types.TypeOf` | types.go:33-51 | each class holds exactly when the lead byte is `i`, a digit, `l`, `d`, or none of these |
| `Types.Name` | types.go:21-31 | `Type.String` gives each class its own name: "invalid", "integer", "string", "list", "dictionary" |
| `Bytes.IndexByte` | decode.go:60 | the index found is -1 or a position of the byte |
| `Bytes.IndexByteMeaning` | decode.go:60 | the result is -1 exactly when the byte is absent; otherwise it is the first position holding the byte |
| `Bytes.IndexByteAfter` | decode.go:60 | a byte absent from a prefix is found at the first position after it where it occurs, whatever follows |
| `Strconv.ParseDigits` | decode.go:68 | the digit loop's result is never below what was accumulated before it |
| `Strconv.ParseDigitsMeaning` | decode.go:68 | the digit loop succeeds exactly on all-digit input whose value fits 64 unsigned bits, and then yields that value; a syntax error means a non-digit |
| `Strconv.Atoi` | decode.go:82 | a number parsed from input that does not start with `-` is non-negative, so a string size is never negative |
| `Strconv.AtoiMeaning` | decode.go:68 | `Atoi` succeeds exactly on an optional sign followed by digits (leading zeros and `-0` included) whose value fits 64 signed bits, and yields that value; a syntax error implies an input of another form (an overflow can be reported before a later non-digit, so not every such input gives a syntax error) |
| `Strconv.FormatNat` | encode.go:29 | `%d` of a non-negative number is non-empty and starts with a digit |
| `Strconv.FormatNatMeaning` | encode.go:29 | `%d` writes only digits, with no leading zero except in "0", and their value is the number |
| `Strconv.FormatInt` | encode.go:32 | `%d` writes a leading `-` exactly for negative numbers |
| `Strconv.FormatIntMeaning` | encode.go:32 | after the optional `-`, `%d` writes only digits, with no leading zero except in "0", and their value is the number's magnitude |
| `Strconv.AtoiFormatInt` | encode.go:32 | `Atoi` reads back what `%d` writes, for every 64-bit integer |
| `Strconv.FormatIntNoDelimiters` | encode.go:29-32 | a numeral written by `%d` contains neither `e` nor `:` |
| `Order.LexLe` | encode.go:47 | a prefix of a string sorts no later than it, and a string sorted first has the smaller or equal first byte |
| `Order.LexLt` | encode.go:56 | one string sorts strictly before another exactly when the second does not sort before or equal to the first |
| `Order.StrictIsNotReverse` | encode.go:56 | `a <= b` with `a != b` holds exactly when `b <= a` does not |
| `Order.LexLeAntisymmetric` | encode.go:47 | Go's string order is antisymmetric |
| `Order.LexLeTransitive` | encode.go:47 | Go's string order is transitive |
| `Order.LexLeTotal` | encode.go:47 | any two strings are ordered one way or the other |
| `Order.PrefixFirst` | encode.go:56 | a proper prefix sorts strictly before the strings it begins |
| `Order.SortSeq` | encode.go:47 | the sorted sequence is sorted and a permutation of its input |
| `Order.SortedUnique` | encode.go:47 | two sorted permutations of the same strings are equal, so sorting does not depend on the input order |
| `Order.SortedKeys` | encode.go:52-56 | the sorted keys of a map are strictly ascending and hold exactly the map's keys, once each |
| `Order.StrictlySortedUnique` | encode.go:56 | two strictly ascending sequences with the same elements are equal |
| `Order.DistinctPermutation` | encode.go:52-56 | a permutation of keys that are distinct is distinct |
| `Decoder.DecodeInt` | decode.go:59-74 | an integer that decodes copies at least `i` and `e` and never more than the buffer |
| `Decoder.DecodeIntMeaning` | decode.go:59-74 | an integer branch never panics; no `e` anywhere gives invalid data at offset 0; otherwise the first `e` ends the number, and the result is the value `Atoi` reads between `i` and that `e` with the `e` copied, or `Atoi`'s error at the `e` |
| `Decoder.DecodeString` | decode.go:76-92 | a string that decodes copies its header and never more than the buffer; the only panic is the slice past the end of the buffer (capacity taken as length) |
| `Decoder.DecodeStringMeaning` | decode.go:76-92 | no `:` gives invalid data at offset -1; a length `Atoi` rejects gives its error at the `:`; a length past the buffer (capacity taken as length) panics; otherwise the value is the declared number of bytes after the first `:`, and exactly those and the header are copied |
| `Decoder.DecodeFirst` | decode.go:54-57 | every successful decode copies at least one byte and at most the whole buffer (capacity taken as length) |
| `Decoder.Abort` | decode.go:97-100 | a container passes on a child's error with the child's offset moved by the cursor, and a child's panic unchanged |
| `Decoder.DecodeListFrom` | decode.go:94-113 | a list that decodes is a slice and claims to have copied the whole buffer |
| `Decoder.DecodeDictFrom` | decode.go:115-138 | a dictionary that decodes is a string-keyed map that keeps every key stored so far, and claims the whole buffer |
| `Decoder.DecodeDictValue` | decode.go:126-135 | the second half of a dictionary turn keeps every key stored so far and claims the whole buffer |
| `Decoder.ListTurn` | decode.go:96-108 | one turn of the list loop appends the decoded child and moves the cursor past it |
| `Decoder.DictTurn` | decode.go:118-135 | one turn of the dictionary loop stores the decoded string key with its decoded value and moves the cursor past both |
| `Decoder.UnmarshalFirstValue` | decode.go:54-140 | the looping decoder returns exactly what the recursive specification `DecodeFirst` gives |
| `Decoder.UnmarshalList` | decode.go:94-113 | the list loop, with its cursor and early returns, yields exactly `DecodeListFrom` from just after the `l` |
| `Decoder.UnmarshalDictionary` | decode.go:115-138 | the dictionary loop yields exactly `DecodeDictFrom` from just after the `d`, including the key panic after the value is decoded |
| `Decoder.Unmarshal` | decode.go:144-226 | an empty buffer panics; an invalid lead byte leaves the destination untouched without error; a kind mismatch is reported exactly when the class does not fit the destination, and a map with non-string keys exactly for dictionaries; a value is stored exactly when the kinds fit and the decode succeeds, and it is the decoded value; for a non-empty buffer with a valid lead byte and a fitting destination, a decode error or panic is passed on unchanged exactly when the decode does not succeed; the destination is untouched exactly for an invalid lead byte |
| `DecodeProperties.DecodedShape` | decode.go:54-140 | whatever the decoder produces is built from 64-bit ints, strings, and unnamed slices and string-keyed maps of them |
| `DecodeProperties.ListShape` | decode.go:94-113 | the list loop only adds values of that shape |
| `DecodeProperties.DictShape` | decode.go:115-138 | the dictionary loop only stores values of that shape |
| `DecodeProperties.DictValueShape` | decode.go:126-135 | the second half of a dictionary turn only stores values of that shape |
| `DecodeProperties.ContainerClaimsWholeBuffer` | decode.go:111-113 | a decoded list or dictionary always reports the whole buffer as copied, whatever follows its `e` |
| `DecodeProperties.NestedContainerEndsList` | decode.go:107-113 | a list element that is itself a container ends the list, so every later sibling is dropped |
| `DecodeProperties.NestedContainerEndsDictionary` | decode.go:133-138 | a dictionary value that is a container ends the dictionary once its pair is stored |
| `DecodeProperties.NestedContainerKeyPanics` | decode.go:118-129 | a dictionary key that is a container claims the rest of the buffer, so the value's decode panics on the empty buffer |
| `DecodeProperties.UnmarshalChecksKindFirst` | decode.go:153-210 | for a destination of the wrong kind, the error depends only on the lead byte, whatever the rest of the buffer holds |
| `Encoder.EncodeString` | encode.go:29 | a string's encoding starts with a digit, and ends with `:` followed by the string's own bytes |
| `Encoder.EncodeInt` | encode.go:32 | an int is written between `i` and `e`, with a `-` after the `i` exactly when it is negative |
| `Encoder.Encode` | encode.go:24-75 | ints and strings always encode, and every value that is not an int, string, `List` or `Dictionary` fails (the full condition is `EncodeSucceedsIff`) |
| `Encoder.JoinPairs` | encode.go:58-68 | the joined dictionary body is empty exactly when there are no keys, and otherwise starts with a digit |
| `Encoder.ElementEncodings` | encode.go:35-45 | the element encodings are, position by position, what `Marshal` writes for each element |
| `Encoder.JoinPairsStep` | encode.go:59-65 | joining one more key appends its encoded key and encoded value |
| `Encoder.EncodeDictionary` | encode.go:51-68 | a dictionary whose values all encode is `d`, each key and value encoded in ascending key order, `e` |
| `Encoder.EncodeDictionaryFails` | encode.go:60-63 | one value that does not encode makes the whole dictionary fail |
| `Encoder.EncodeSucceedsIff` | encode.go:24-75 | `Marshal` succeeds exactly on values built from ints, strings, `List` and `Dictionary` at every depth |
| `Encoder.SortStrings` | encode.go:47 | `sort.Strings` leaves the array holding the sorted permutation of its old contents |
| `Encoder.Marshal` | encode.go:24-75 | the method returns exactly the specification `Encode`, so its output does not depend on map iteration order |
| `Encoder.MarshalList` | encode.go:34-49 | the list case, with its element loop, sort and join, returns exactly `Encode` of the list |
| `Encoder.MarshalDictionary` | encode.go:51-68 | the dictionary case, with key gathering, sorting and the pair loop, returns exactly `Encode` of the dictionary |
| `Encoder.GatherKeys` | encode.go:52-55 | ranging over a map in any order gathers every key exactly once |
| `Encoder.EncodePair` | encode.go:9-21 | the pair fails exactly when the value does not encode; otherwise it returns the encoded key and the encoded value |
| `Encoder.SortedKeysAreCanonical` | encode.go:52-56 | keys gathered in any order sort to the map's one ascending key sequence |
| `EncodeProperties.EncodeClassifies` | encode.go:27-72 | the lead byte of `Marshal`'s output classifies it as the kind of value it came from |
| `EncodeProperties.ElementEncodingsAsMap` | encode.go:37-45 | the element encodings are the encoding function mapped over the elements |
| `EncodeProperties.SortedElementEncodingsIgnoreOrder` | encode.go:47 | permuting a list leaves its sorted element encodings unchanged |
| `EncodeProperties.EncodeList` | encode.go:34-49 | a list whose elements all encode is `l`, their sorted encodings, `e` |
| `EncodeProperties.EncodeListFails` | encode.go:38-42 | one element that does not encode makes the whole list fail |
| `EncodeProperties.ListEncodingIgnoresOrder` | encode.go:34-49 | `Marshal` writes the same bytes, or fails alike, for a list and any permutation of it |
| `Bytes.Concat` | encode.go:48 | joining no parts gives nothing, and joining one part gives that part |
| `Bytes.ConcatAppend` | encode.go:48 | joining two runs of parts one after the other is joining each and concatenating the results |
| `RoundTrip.ScalarEncoding` | encode.go:28-32 | what `Marshal` writes for an int or a string is non-empty and does not start with `e` |
| `RoundTrip.EncodeScalar` | encode.go:28-32 | `Marshal` writes `i<n>e` for an int and `<len>:<bytes>` for a string |
| `RoundTrip.DecodeEncodedInt` | decode.go:59-74 | a 64-bit int written by `Marshal` reads back as itself with exactly its bytes copied, whatever follows it |
| `RoundTrip.DecodeEncodedString` | decode.go:76-92 | a string written by `Marshal` reads back as itself with exactly its bytes copied, whatever follows it |
| `RoundTrip.DecodeEncodedScalar` | decode.go:54-92 | an encoded int or string reads back as itself, whatever follows it |
| `RoundTrip.ScalarReadsBack` | decode.go:54-92 | an encoded int or string is self-delimiting and reads back as itself |
| `RoundTrip.ChunkAt` | decode.go:96-108 | a self-delimiting encoding at the cursor is read there, and the cursor moves past it |
| `RoundTrip.ListLoopReadsChunks` | decode.go:94-113 | the list loop reads a run of self-delimiting encodings back in the order written, after what it already holds |
| `RoundTrip.ListFromLead` | decode.go:94-96 | the list loop from just after the `l` is the whole decode |
| `RoundTrip.DecodeListOfChunks` | decode.go:94-113 | `l`, a run of self-delimiting encodings, then an `e` or the end of the buffer, decode to the slice of what they encode, with the whole buffer copied |
| `RoundTrip.ScalarEncodings` | encode.go:37-45 | there is one encoding per element of the run |
| `RoundTrip.DecodeListOfScalars` | decode.go:94-113 | a list of encoded ints and strings, terminated or not, decodes to them in the order written |
| `RoundTrip.PairAt` | decode.go:118-130 | an encoded key followed by an encoded value at the cursor are read there one after the other |
| `RoundTrip.DictReadsFirstPair` | decode.go:118-135 | one turn of the dictionary loop over encoded pairs stores the first pair and moves past it |
| `RoundTrip.DictLoopReadsChunks` | decode.go:115-138 | the dictionary loop stores a run of encoded pairs one by one, a later key overwriting an earlier one |
| `RoundTrip.DictFromLead` | decode.go:115-118 | the dictionary loop from just after the `d` is the whole decode |
| `RoundTrip.DecodeDictOfChunks` | decode.go:115-138 | `d`, a run of encoded pairs, then an `e` or the end of the buffer, decode to the map that stores each pair in the order written |
| `RoundTrip.ScalarEncodingInjective` | encode.go:28-32 | two ints or strings with the same encoding are the same value |
| `RoundTrip.SameEncodingsSameValues` | encode.go:47 | runs of ints and strings whose encodings are permutations of each other are permutations of each other |
| `RoundTrip.ElementEncodingsOfScalars` | encode.go:37-45 | every element of a list of ints and strings encodes, to its scalar encoding |
| `RoundTrip.EncodeListOfScalars` | encode.go:34-49 | a `List` of ints and strings is written as `l`, their sorted encodings, `e` |
| `RoundTrip.SortedEncodingsAreAPermutation` | encode.go:47 | sorting the encodings of a run of ints and strings amounts to a permutation of the run |
| `RoundTrip.MarshalledListReadsBack` | encode.go:34-49 | a `List` of 64-bit ints and strings reads back as an unnamed slice of the same elements, reordered so that their encodings ascend |
| `RoundTrip.StoreAllPairsOf` | decode.go:133 | storing the pairs of some keys in turn stores each of them with its value and leaves every other key as it was |
| `RoundTrip.JoinPairsAsChunks` | encode.go:58-68 | the joined dictionary body is the run of encoded key and value pairs in key order |
| `RoundTrip.EncodeDictionaryOfScalars` | encode.go:51-68 | a `Dictionary` of ints and strings is written as `d`, its pairs in ascending key order, `e` |
| `RoundTrip.StoreSortedPairs` | decode.go:133 | storing each entry of a map in ascending key order into an empty map rebuilds the map |
| `RoundTrip.MarshalledDictionaryReadsBack` | encode.go:51-68 | a `Dictionary` of 64-bit ints and strings reads back as an unnamed map with exactly the same entries, with the whole output copied |
| `Samples.DecodeNegativeInt` | decode.go:59-74 | `i-25e` decodes to -25 with five bytes copied |
| `Samples.DecodeLeadingZero` | decode.go:65-74 | `i04e` decodes to 4: the leading zero is accepted |
| `Samples.DecodeUnterminatedInt` | decode.go:60-63 | `i12` gives invalid data at offset 0 |
| `Samples.DecodeShortString` | decode.go:87-90 | `5:ab` panics at the slice |
| `Samples.DecodeUnterminatedList` | decode.go:94-113 | `l1:a` decodes to the list holding `a` despite the missing `e` |
| `Samples.DecodeNestedList` | decode.go:94-113 | `lli1eei2ee` decodes to a list holding only the list of 1; the `i2e` is dropped |
| `Samples.DecodeIntegerKey` | decode.go:119-132 | `di1ei2ee` panics at the key's type assertion |
| `Samples.DecodeContainerKey` | decode.go:115-129 | `dlee` panics on the empty buffer left for the value of the key `le` |
| `Samples.DigitEncodingsOrdered` | encode.go:47 | two one-digit ints are written in the order of their digits |
| `Samples.SortDigitEncodings` | encode.go:34-49 | the list `[m, n]` with `n < m` is written with `n` first |
| `Samples.EncodeEmptyList` | encode.go:34-49 | the empty `List` is written `le` |
| `Samples.EncodeEmptyDictionary` | encode.go:51-68 | the empty `Dictionary` is written `de` |
| `Samples.EncodeNegativeInt` | encode.go:32 | -12 is written `i-12e` |
| `Samples.TwoSortedKeys` | encode.go:52-56 | a map with the two keys `a < b` has the sorted keys `a`, `b` |
| `Samples.EncodeTwoEntries` | encode.go:51-68 | a `Dictionary` of two ints or strings is written `d`, the smaller key and its value, the larger key and its value, `e` |
| `Samples.EncodeBarFoo` | encode.go:51-68 | `{"bar": "spam", "foo": 42}` is written `d3:bar4:spam3:fooi42ee` |
| `Samples.EncodeAnnounce` | encode.go:51-68 | `{"announce-list": 1, "announce": 2}` is written `d8:announcei2e13:announce-listi1ee`: the prefix key comes first |

## Left out

- The duplicate declaration of `Type`, `typeNames`, `Type.String` and `TypeOf` in decode.go:10-52 is modelled once, from types.go.
- Reflection in `Unmarshal` is left out: the pointer and nil check (decode.go:147-151) and `rv.Set`. A destination is modelled by its kind only. The panic `rv.Set` raises when the decoded `[]interface{}` or `map[string]interface{}` does not fit a more specific destination type is not modelled; a fitting destination is shown as `Stored(value)`.
- Error texts (`fmt.Errorf` messages, `NumError` fields other than the kind of error) are left out. Only the kind of error and the offset returned beside it are modelled.
- `Encoder.Encode`: the model's `Int` is unbounded, while a Go `int` is 64 bits, so `Marshal` is also defined on ints no Go program can pass. The round-trip lemmas require 64-bit ints.
- `Encoder.SortStrings`: `sort.Strings` and `sort.Sort(sort.StringSlice(...))` are library calls, modelled by their result (the sorted permutation) and not by Go's sorting algorithm.
- `List.AsStrings`, which types_test.go:13 calls, is not part of the codec core and is not modelled. The package's tests are not modelled either.
- `strings.IndexRune` is modelled for the ASCII runes `e` and `:` only, where it finds the first byte equal to the rune.
- `RoundTrip.MarshalledListReadsBack`: containers do not round-trip, so no decode-of-encode identity is stated for them. `Marshal` rejects the unnamed slices and maps the decoder builds. A nested container claims the whole buffer, so a list or dictionary holding one does not read back. The round trips are stated for lists and dictionaries of ints and strings.
- `Decoder.DecodeString`: a buffer is modelled as a byte sequence whose capacity equals its length. In Go, `data[sepPos:endPos]` (decode.go:90) is bounded by `cap(data)`, not `len(data)`. A declared size that runs past the length but stays within the capacity reads the spare bytes instead of panicking, and reports more bytes copied than the buffer holds.
- `Decoder.DecodeStringMeaning`: states the slice panic for every size past the buffer's length; Go panics only past its capacity (decode.go:90), and a buffer with spare capacity yields those spare bytes instead.
- `Decoder.DecodeFirst`: a child `data[strPos:]` (decode.go:97, 119, 126) keeps its parent's spare capacity, so in Go a string inside a list or dictionary can read past the buffer's length and a copied count can exceed it. The model bounds every copied count by the length, as if capacity equalled length.
- Reading input and writing output is left out: the model works on byte sequences in memory.
- The panic on a negative copied count in the list loop (decode.go:102-105) is not modelled as an outcome, because it cannot be reached: every decoded child copies at least one byte.
- In Go, a huge declared string length can overflow `sepPos + size`. The model compares the unbounded sum with the buffer length; both give the same slice panic.
