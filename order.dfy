/** The order Go uses for its `string` comparisons (`<` on strings, and so
    `sort.Strings` and `sort.Sort(sort.StringSlice(...))`): byte-wise
    lexicographic order, in which a proper prefix comes first. */
module Order {
  import opened Bytes

  /** `a <= b` on Go strings. */
  predicate LexLe(a: bytes, b: bytes)
    ensures a <= b ==> LexLe(a, b)
    ensures LexLe(a, b) && 0 < |a| ==> 0 < |b| && a[0] <= b[0]
    decreases |a|
  {
    |a| == 0 || (|b| > 0 && (a[0] < b[0] || (a[0] == b[0] && LexLe(a[1..], b[1..]))))
  }

  /** `a < b` on Go strings. */
  predicate LexLt(a: bytes, b: bytes)
    ensures LexLt(a, b) <==> !LexLe(b, a)
  {
    StrictIsNotReverse(a, b);
    LexLe(a, b) && a != b
  }

  /** `a <= b && a != b` holds exactly when `b <= a` does not. */
  lemma StrictIsNotReverse(a: bytes, b: bytes)
    ensures LexLe(a, b) && a != b <==> !LexLe(b, a)
  {
    LexLeReflexive(a);
    LexLeTotal(a, b);
    if LexLe(a, b) && LexLe(b, a) {
      LexLeAntisymmetric(a, b);
    }
  }

  lemma {:induction false} LexLeReflexive(a: bytes)
    ensures LexLe(a, a)
    decreases |a|
  {
    if |a| > 0 {
      LexLeReflexive(a[1..]);
    }
  }

  lemma {:induction false} LexLeAntisymmetric(a: bytes, b: bytes)
    requires LexLe(a, b) && LexLe(b, a)
    ensures a == b
    decreases |a|
  {
    if |a| > 0 {
      LexLeAntisymmetric(a[1..], b[1..]);
      assert a == [a[0]] + a[1..] && b == [b[0]] + b[1..];
    }
  }

  lemma {:induction false} LexLeTransitive(a: bytes, b: bytes, c: bytes)
    requires LexLe(a, b) && LexLe(b, c)
    ensures LexLe(a, c)
    decreases |a|
  {
    if |a| > 0 && a[0] == b[0] && b[0] == c[0] {
      LexLeTransitive(a[1..], b[1..], c[1..]);
    }
  }

  lemma {:induction false} LexLeTotal(a: bytes, b: bytes)
    ensures LexLe(a, b) || LexLe(b, a)
    decreases |a|
  {
    if |a| > 0 && |b| > 0 && a[0] == b[0] {
      LexLeTotal(a[1..], b[1..]);
    }
  }

  /** A proper prefix sorts first: this is why the key "announce" comes
      before "announce-list". */
  lemma {:induction false} PrefixFirst(a: bytes, rest: bytes)
    requires |rest| > 0
    ensures LexLt(a, a + rest)
    decreases |a|
  {
    if |a| > 0 {
      assert (a + rest)[1..] == a[1..] + rest;
      PrefixFirst(a[1..], rest);
    }
  }

  /** Ascending order, equal neighbours allowed (what `sort.Strings` yields). */
  ghost predicate Sorted(s: seq<bytes>) {
    forall i, j :: 0 <= i < j < |s| ==> LexLe(s[i], s[j])
  }

  /** Strictly ascending order: sorted and without repetition. */
  ghost predicate StrictlySorted(s: seq<bytes>) {
    forall i, j :: 0 <= i < j < |s| ==> LexLt(s[i], s[j])
  }

  /** Inserts `x` into a sorted sequence in front of the first element not
      below it. */
  function Insert(x: bytes, s: seq<bytes>): (r: seq<bytes>)
    ensures multiset(r) == multiset(s) + multiset{x}
    ensures Sorted(s) ==> Sorted(r)
  {
    if |s| == 0 then [x]
    else if LexLe(x, s[0]) then
      assert Sorted(s) ==> forall j :: 0 <= j < |s| ==> LexLe(x, s[j]) by {
        if Sorted(s) {
          forall j | 0 <= j < |s| ensures LexLe(x, s[j]) {
            if j > 0 {
              LexLeTransitive(x, s[0], s[j]);
            }
          }
        }
      }
      [x] + s
    else
      var t := Insert(x, s[1..]);
      assert s == [s[0]] + s[1..];
      assert Sorted(s) ==> Sorted([s[0]] + t) by {
        if Sorted(s) {
          LexLeTotal(x, s[0]);
          forall k | 0 <= k < |t| ensures LexLe(s[0], t[k]) {
            assert t[k] in multiset(t);
            if t[k] != x {
              assert t[k] in multiset(s[1..]);
              var j :| 0 <= j < |s[1..]| && s[1..][j] == t[k];
              assert s[j + 1] == t[k];
            }
          }
        }
      }
      [s[0]] + t
  }

  /** An ascending permutation of `s`: the effect of `sort.Strings`. */
  function SortSeq(s: seq<bytes>): (r: seq<bytes>)
    ensures Sorted(r)
    ensures multiset(r) == multiset(s)
  {
    if |s| == 0 then []
    else
      assert s == [s[0]] + s[1..];
      Insert(s[0], SortSeq(s[1..]))
  }

  lemma SortedTail(s: seq<bytes>)
    requires 0 < |s| && Sorted(s)
    ensures Sorted(s[1..])
  {
    forall i, j | 0 <= i < j < |s| - 1 ensures LexLe(s[1..][i], s[1..][j]) {
      assert s[1..][i] == s[i + 1] && s[1..][j] == s[j + 1];
    }
  }

  /** Sorting is canonical: two ascending permutations of each other are
      the same sequence. */
  lemma {:induction false} SortedUnique(s: seq<bytes>, t: seq<bytes>)
    requires Sorted(s) && Sorted(t)
    requires multiset(s) == multiset(t)
    ensures s == t
    decreases |s|
  {
    if |s| == 0 {
      assert |multiset(t)| == 0;
    } else {
      assert |t| == |multiset(t)| == |multiset(s)| == |s|;
      assert t[0] in multiset(s) && s[0] in multiset(t);
      var i :| 0 <= i < |s| && s[i] == t[0];
      var j :| 0 <= j < |t| && t[j] == s[0];
      LexLeReflexive(s[0]);
      if 0 < i {
        assert LexLe(s[0], s[i]);
      }
      if 0 < j {
        assert LexLe(t[0], t[j]);
      }
      LexLeAntisymmetric(s[0], t[0]);
      MultisetTail(s, t);
      SortedTail(s);
      SortedTail(t);
      SortedUnique(s[1..], t[1..]);
      SameFirstSameRest(s, t);
    }
  }

  ghost predicate IsLeast(k: bytes, keys: set<bytes>) {
    forall x :: x in keys ==> LexLe(k, x)
  }

  lemma {:induction false} LeastExists(keys: set<bytes>)
    requires keys != {}
    ensures exists k :: k in keys && IsLeast(k, keys)
    decreases keys
  {
    var x :| x in keys;
    LexLeReflexive(x);
    if keys != {x} {
      LeastExists(keys - {x});
      var m :| m in keys - {x} && IsLeast(m, keys - {x});
      LexLeTotal(x, m);
      if LexLe(x, m) {
        forall y | y in keys ensures LexLe(x, y) {
          if y != x {
            LexLeTransitive(x, m, y);
          }
        }
      } else {
        assert IsLeast(m, keys);
      }
    }
  }

  /** The keys of a Go map in ascending order, each exactly once. */
  ghost function SortedKeys(keys: set<bytes>): (r: seq<bytes>)
    ensures StrictlySorted(r)
    ensures forall k :: k in r <==> k in keys
    ensures |r| == |keys|
    decreases keys
  {
    if keys == {} then []
    else
      LeastExists(keys);
      var k :| k in keys && IsLeast(k, keys);
      [k] + SortedKeys(keys - {k})
  }

  /** Two strictly ascending sequences with the same elements are equal. */
  lemma {:induction false} StrictlySortedUnique(a: seq<bytes>, b: seq<bytes>)
    requires StrictlySorted(a) && StrictlySorted(b)
    requires forall x :: x in a <==> x in b
    ensures a == b
    decreases |a|
  {
    if |a| == 0 && |b| == 0 {
    } else {
      if |a| > 0 {
        assert a[0] in b;
      }
      if |b| > 0 {
        assert b[0] in a;
      }
      var j :| 0 <= j < |b| && b[j] == a[0];
      assert b[0] in a;
      var i :| 0 <= i < |a| && a[i] == b[0];
      assert a[0] == b[0];
      forall x ensures x in a[1..] <==> x in b[1..] {
        if x in a[1..] {
          var p :| 0 <= p < |a[1..]| && a[1..][p] == x;
          assert a[p + 1] == x && x != a[0];
          assert x in b;
          var q :| 0 <= q < |b| && b[q] == x;
          assert q != 0;
          assert b[1..][q - 1] == x;
        }
        if x in b[1..] {
          var p :| 0 <= p < |b[1..]| && b[1..][p] == x;
          assert b[p + 1] == x && x != b[0];
          assert x in a;
          var q :| 0 <= q < |a| && a[q] == x;
          assert q != 0;
          assert a[1..][q - 1] == x;
        }
      }
      StrictlySortedUnique(a[1..], b[1..]);
      assert a == [a[0]] + a[1..] && b == [b[0]] + b[1..];
    }
  }

  lemma {:induction false} DistinctCount(s: seq<bytes>, x: bytes)
    requires Distinct(s)
    ensures multiset(s)[x] <= 1
    decreases |s|
  {
    if |s| > 0 {
      var pre := s[..|s| - 1];
      assert s == pre + [s[|s| - 1]];
      assert Distinct(pre);
      DistinctCount(pre, x);
      if x == s[|s| - 1] {
        assert x !in pre;
      }
    }
  }

  /** A permutation of a sequence without repetition has none either. */
  lemma DistinctPermutation(s: seq<bytes>, t: seq<bytes>)
    requires Distinct(s)
    requires multiset(s) == multiset(t)
    ensures Distinct(t)
  {
    forall i, j | 0 <= i < j < |t| ensures t[i] != t[j] {
      if t[i] == t[j] {
        assert t == t[..j] + t[j..];
        assert t[i] in t[..j] && t[j] in t[j..];
        assert multiset(t)[t[i]] == multiset(t[..j])[t[i]] + multiset(t[j..])[t[i]];
        DistinctCount(s, t[i]);
        assert false;
      }
    }
  }
}
