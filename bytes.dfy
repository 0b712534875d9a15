/** Byte strings as the codec sees them: Go `string` and `[]byte` values are
    both modelled as sequences of bytes, together with the few library helpers
    the codec calls on them (`strings.IndexRune` for an ASCII rune and
    `strings.Join` with an empty separator). */
module Bytes {

  type byte = x: int | 0 <= x < 256
  type bytes = seq<byte>

  // ASCII codes of the bytes bencode gives a meaning to.
  const PLUS: byte := 43   // '+'
  const MINUS: byte := 45  // '-'
  const ZERO: byte := 48   // '0'
  const NINE: byte := 57   // '9'
  const COLON: byte := 58  // ':'
  const LOWER_D: byte := 100  // 'd'
  const LOWER_E: byte := 101  // 'e'
  const LOWER_I: byte := 105  // 'i'
  const LOWER_L: byte := 108  // 'l'

  predicate IsDigit(b: byte) {
    ZERO <= b <= NINE
  }

  /** The index of the first occurrence of `b` in `s`, or -1 when there is
      none: `strings.IndexRune(string(s), r)` for a rune `r` below 0x80. */
  function IndexByte(s: bytes, b: byte): (i: int)
    ensures -1 <= i < |s|
    ensures 0 <= i ==> s[i] == b
  {
    if |s| == 0 then -1
    else if s[0] == b then 0
    else
      var j := IndexByte(s[1..], b);
      if j == -1 then -1 else j + 1
  }

  /** `IndexByte` finds the first occurrence: -1 exactly when there is none,
      and otherwise an index with no earlier occurrence before it. */
  lemma {:induction false} IndexByteMeaning(s: bytes, b: byte)
    ensures IndexByte(s, b) == -1 <==> b !in s
    ensures 0 <= IndexByte(s, b) ==> b !in s[..IndexByte(s, b)]
    decreases |s|
  {
    if |s| > 0 && s[0] != b {
      IndexByteMeaning(s[1..], b);
      assert b in s <==> b in s[1..];
      var j := IndexByte(s[1..], b);
      if j != -1 {
        assert s[..j + 1] == [s[0]] + s[1..][..j];
      }
    }
  }

  /** The first occurrence of `b` in `s + [b] + rest`, when `s` has none,
      is right after `s`. */
  lemma {:induction false} IndexByteAfter(s: bytes, b: byte, rest: bytes)
    requires b !in s
    ensures IndexByte(s + [b] + rest, b) == |s|
    decreases |s|
  {
    if |s| > 0 {
      assert (s + [b] + rest)[1..] == s[1..] + [b] + rest;
      IndexByteAfter(s[1..], b, rest);
    }
  }

  /** `strings.Join(parts, "")`. */
  function Concat(parts: seq<bytes>): (r: bytes)
    ensures |parts| == 0 ==> r == []
    ensures |parts| == 1 ==> r == parts[0]
    decreases |parts|
  {
    if |parts| == 0 then [] else Concat(parts[..|parts| - 1]) + parts[|parts| - 1]
  }

  lemma {:induction false} ConcatAppend(a: seq<bytes>, b: seq<bytes>)
    ensures Concat(a + b) == Concat(a) + Concat(b)
    decreases |b|
  {
    if |b| == 0 {
      assert a + b == a;
    } else {
      var init := b[..|b| - 1];
      var ab := a + b;
      assert ab[..|ab| - 1] == a + init;
      assert ab[|ab| - 1] == b[|b| - 1];
      ConcatAppend(a, init);
      assert Concat(ab) == Concat(a + init) + b[|b| - 1];
      assert Concat(b) == Concat(init) + b[|b| - 1];
    }
  }

  /** Concatenation in front: `Concat([p] + rest) == p + Concat(rest)`. */
  lemma ConcatCons(p: bytes, rest: seq<bytes>)
    ensures Concat([p] + rest) == p + Concat(rest)
  {
    ConcatAppend([p], rest);
    assert [p][..0] == [];
  }

  /** The first part comes first. */
  lemma ConcatFirst(parts: seq<bytes>)
    requires 0 < |parts|
    ensures Concat(parts) == parts[0] + Concat(parts[1..])
  {
    ConcatCons(parts[0], parts[1..]);
    assert [parts[0]] + parts[1..] == parts;
  }

  /** Appending two parts appends their bytes. */
  lemma ConcatSnocPair(parts: seq<bytes>, a: bytes, b: bytes)
    ensures Concat(parts + [a, b]) == Concat(parts) + a + b
  {
    var withA := parts + [a];
    var withB := parts + [a, b];
    assert withB[..|withB| - 1] == withA;
    assert withA[..|withA| - 1] == parts;
    assert Concat(withA) == Concat(parts) + a;
    assert Concat(withB) == Concat(withA) + b;
  }

  lemma AppendFirst<T>(acc: seq<T>, s: seq<T>)
    requires 0 < |s|
    ensures acc + [s[0]] + s[1..] == acc + s
  {
  }

  lemma TakeOneMore<T>(s: seq<T>, i: nat)
    requires i < |s|
    ensures s[..i + 1] == s[..i] + [s[i]]
  {
  }

  /** What follows a prefix `a` read at index `i` of `s`. */
  lemma DropPrefix<T>(s: seq<T>, i: nat, a: seq<T>, b: seq<T>)
    requires i <= |s| && s[i..] == a + b
    ensures i + |a| <= |s| && s[i + |a|..] == b
    ensures 0 < |a| ==> s[i] == a[0]
  {
    assert s[i + |a|..] == s[i..][|a|..];
    if 0 < |a| {
      assert s[i] == s[i..][0];
    }
  }

  lemma ConcatAssoc<T>(a: seq<T>, b: seq<T>, c: seq<T>)
    ensures a + b + c == a + (b + c)
  {
  }

  lemma MultisetSplice<T>(a: seq<T>, x: T, b: seq<T>)
    ensures multiset(a + [x] + b) == multiset(a + b) + multiset{x}
  {
    assert multiset(a + b) == multiset(a) + multiset(b);
  }

  lemma MultisetCancel<T>(m: multiset<T>, n: multiset<T>, x: T)
    ensures m + multiset{x} == n + multiset{x} <==> m == n
  {
    if m + multiset{x} == n + multiset{x} {
      forall y ensures m[y] == n[y] {
        assert (m + multiset{x})[y] == (n + multiset{x})[y];
      }
    }
  }

  /** Adding the same element to two sequences, anywhere, keeps them
      permutations of each other or not. */
  lemma MultisetInsert<T>(p: seq<T>, a: seq<T>, b: seq<T>, x: T)
    ensures multiset([x] + p) == multiset(a + [x] + b) <==> multiset(p) == multiset(a + b)
  {
    MultisetSplice(a, x, b);
    assert multiset([x] + p) == multiset(p) + multiset{x};
    MultisetCancel(multiset(p), multiset(a + b), x);
  }

  /** Two permutations of each other with the same first element are
      permutations of each other after it. */
  lemma MultisetTail<T>(s: seq<T>, t: seq<T>)
    requires 0 < |s| && 0 < |t| && s[0] == t[0]
    requires multiset(s) == multiset(t)
    ensures multiset(s[1..]) == multiset(t[1..])
  {
    assert s == [s[0]] + s[1..] && t == [] + [t[0]] + t[1..];
    MultisetInsert(s[1..], [], t[1..], s[0]);
    assert [] + t[1..] == t[1..];
  }

  /** Sequences agreeing on their first element and on the rest agree. */
  lemma SameFirstSameRest<T>(s: seq<T>, t: seq<T>)
    requires 0 < |s| && 0 < |t| && s[0] == t[0] && s[1..] == t[1..]
    ensures s == t
  {
    assert s == [s[0]] + s[1..] && t == [t[0]] + t[1..];
  }

  /** `f` applied to each element, in order. */
  function Map<A, B>(s: seq<A>, f: A -> B): (r: seq<B>)
    ensures |r| == |s|
  {
    seq(|s|, i requires 0 <= i < |s| => f(s[i]))
  }

  lemma MapAppend<A, B>(a: seq<A>, b: seq<A>, f: A -> B)
    ensures Map(a + b, f) == Map(a, f) + Map(b, f)
  {
  }

  /** Mapping two permutations of each other gives permutations of each
      other. */
  lemma {:induction false} MapPermutation<A, B>(a: seq<A>, b: seq<A>, f: A -> B)
    requires multiset(a) == multiset(b)
    ensures multiset(Map(a, f)) == multiset(Map(b, f))
    decreases |a|
  {
    if |a| == 0 {
      assert |multiset(b)| == 0;
    } else {
      var x := a[0];
      assert x in multiset(b);
      var j :| 0 <= j < |b| && b[j] == x;
      var before, after := b[..j], b[j + 1..];
      assert a == [x] + a[1..] && b == before + [x] + after;
      MultisetInsert(a[1..], before, after, x);
      MapPermutation(a[1..], before + after, f);
      MapAppend([x], a[1..], f);
      MapAppend(before + [x], after, f);
      MapAppend(before, [x], f);
      MapAppend(before, after, f);
      assert Map([x], f) == [f(x)];
      MultisetInsert(Map(a[1..], f), Map(before, f), Map(after, f), f(x));
    }
  }

  lemma TakeAll<T>(s: seq<T>)
    ensures s[..|s|] == s
  {
  }

  /** Every element of the sequence occurs at most once. */
  ghost predicate Distinct<T>(s: seq<T>) {
    forall i, j :: 0 <= i < j < |s| ==> s[i] != s[j]
  }
}
