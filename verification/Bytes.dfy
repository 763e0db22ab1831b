/**
 Byte strings and their lexicographic order.

 Index keys are byte strings, and every query of the store is a byte-prefix scan or a
 byte-order scan. Dafny's `p <= k` on sequences says that `p` is a prefix of `k`;
 `Less` is the order of the radix tree's iterators (Go's `bytes.Compare`).
 */
module Bytes {

  type byte = b: int | 0 <= b < 256

  type Key = seq<byte>

  predicate Less(a: Key, b: Key) {
    if b == [] then false
    else if a == [] then true
    else a[0] < b[0] || (a[0] == b[0] && Less(a[1..], b[1..]))
  }

  predicate AtMost(a: Key, b: Key) {
    a == b || Less(a, b)
  }

  lemma {:induction false} LessIrreflexive(a: Key)
    ensures !Less(a, a)
  {
    if a != [] {
      LessIrreflexive(a[1..]);
    }
  }

  lemma {:induction false} LessTransitive(a: Key, b: Key, c: Key)
    requires Less(a, b) && Less(b, c)
    ensures Less(a, c)
  {
    if a != [] && a[0] == b[0] == c[0] {
      LessTransitive(a[1..], b[1..], c[1..]);
    }
  }

  lemma {:induction false} LessTotal(a: Key, b: Key)
    ensures a == b || Less(a, b) || Less(b, a)
  {
    if a != [] && b != [] && a[0] == b[0] {
      LessTotal(a[1..], b[1..]);
      assert a == [a[0]] + a[1..] && b == [b[0]] + b[1..];
    }
  }

  lemma LessAsymmetric(a: Key, b: Key)
    requires Less(a, b)
    ensures !Less(b, a) && a != b
  {
    if Less(b, a) {
      LessTransitive(a, b, a);
    }
    LessIrreflexive(a);
  }

  lemma {:induction false} PrefixAtMost(p: Key, k: Key)
    requires p <= k
    ensures AtMost(p, k)
    ensures !Less(k, p)
  {
    if p != [] {
      PrefixAtMost(p[1..], k[1..]);
      assert p == [p[0]] + p[1..] && k == [k[0]] + k[1..];
    } 
  }

  /** A common prefix does not influence the order. */
  lemma {:induction false} LessCommonPrefix(p: Key, a: Key, b: Key)
    ensures Less(p + a, p + b) == Less(a, b)
  {
    if p == [] {
      assert p + a == a && p + b == b;
    } else {
      assert (p + a)[1..] == p[1..] + a && (p + b)[1..] == p[1..] + b;
      LessCommonPrefix(p[1..], a, b);
    }
  }

  predicate Comparable(a: Key, b: Key) {
    a <= b || b <= a
  }

  /** Once two byte strings have diverged, whatever follows them cannot change their order. */
  lemma {:induction false} LessDiverged(a: Key, b: Key, x: Key, y: Key)
    requires !Comparable(a, b)
    ensures Less(a + x, b + y) == Less(a, b)
    ensures !Comparable(a + x, b + y)
  {
    assert a != [] && b != [];
    assert (a + x)[1..] == a[1..] + x && (b + y)[1..] == b[1..] + y;
    if a[0] == b[0] {
      assert a == [a[0]] + a[1..] && b == [b[0]] + b[1..];
      assert Comparable(a + x, b + y) ==> Comparable((a + x)[1..], (b + y)[1..]);
      LessDiverged(a[1..], b[1..], x, y);
    } else {
      assert (a + x)[0] != (b + y)[0];
    }
  }

  /** Two prefixes of one byte string are prefixes of each other. */
  lemma PrefixesComparable(a: Key, b: Key, k: Key)
    requires a <= k && b <= k
    ensures Comparable(a, b)
  {
    if |a| <= |b| {
      assert b[..|a|] == k[..|a|];
    } else {
      assert a[..|b|] == k[..|b|];
    }
  }

  /** Concatenation decides: equal strings whose heads are not proper prefixes split alike. */
  lemma ConcatSplit(a: Key, x: Key, b: Key, y: Key)
    requires a + x == b + y
    ensures Comparable(a, b)
    ensures a == b ==> x == y
  {
    assert a <= a + x && b <= b + y;
    PrefixesComparable(a, b, a + x);
    if a == b {
      assert x == (a + x)[|a|..] && y == (b + y)[|b|..];
    }
  }

  lemma PrefixAfter<T>(p: seq<T>, a: seq<T>, b: seq<T>)
    ensures p + a <= p + b <==> a <= b
  {
    if p + a <= p + b {
      assert a == (p + a)[|p|..] && b == (p + b)[|p|..];
      assert forall i :: 0 <= i < |a| ==> a[i] == (p + a)[|p| + i] == (p + b)[|p| + i] == b[i];
    }
    if a <= b {
      assert b == a + b[|a|..];
      assert p + b == (p + a) + b[|a|..];
    }
  }

  lemma ComparableAfter(p: Key, a: Key, b: Key)
    requires Comparable(p + a, p + b)
    ensures Comparable(a, b)
  {
    PrefixAfter(p, a, b);
    PrefixAfter(p, b, a);
  }
}
