/**
 The radix tree, idealised.

 go-immutable-radix is a persistent map from byte strings to values whose iterators visit
 keys in lexicographic order. The library is not part of the repository, so a tree is a
 Dafny map here and an iterator is the list of keys it visits.
 */
module Radix {
  import opened Bytes

  type Tree<V> = map<Key, V>

  predicate IsMin(k: Key, s: set<Key>) {
    k in s && forall j :: j in s ==> j == k || Less(k, j)
  }

  lemma {:induction false} MinExists(s: set<Key>)
    requires s != {}
    ensures exists k :: IsMin(k, s)
    decreases |s|
  {
    var x :| x in s;
    var rest := s - {x};
    if rest == {} {
      assert s == {x};
      assert IsMin(x, s);
    } else {
      MinExists(rest);
      var m :| IsMin(m, rest);
      LessTotal(x, m);
      if Less(x, m) {
        forall j | j in s ensures j == x || Less(x, j) {
          if j != x && j != m {
            LessTransitive(x, m, j);
          }
        }
        assert IsMin(x, s);
      } else {
        assert IsMin(m, s);
      }
    }
  }

  lemma MinUnique(s: set<Key>, a: Key, b: Key)
    requires IsMin(a, s) && IsMin(b, s)
    ensures a == b
  {
    if a != b {
      LessAsymmetric(a, b);
    }
  }

  function MinOf(s: set<Key>): (k: Key)
    requires s != {}
    ensures IsMin(k, s)
  {
    MinExists(s);
    assert forall a, b | IsMin(a, s) && IsMin(b, s) :: a == b by {
      forall a, b | IsMin(a, s) && IsMin(b, s) ensures a == b {
        MinUnique(s, a, b);
      }
    }
    var k :| k in s && IsMin(k, s);
    k
  }

  ghost predicate Sorted(ks: seq<Key>) {
    forall i, j :: 0 <= i < j < |ks| ==> Less(ks[i], ks[j])
  }

  /** The keys of `s` in the order an iterator visits them. */
  function Ascending(s: set<Key>): (ks: seq<Key>)
    ensures Sorted(ks)
    ensures forall k :: k in ks <==> k in s
    decreases |s|
  {
    if s == {} then []
    else
      var m := MinOf(s);
      var rest := Ascending(s - {m});
      assert forall k :: k in [m] + rest <==> k in s;
      [m] + rest
  }

  lemma {:induction false} AscendingSize(s: set<Key>)
    ensures |Ascending(s)| == |s|
    decreases |s|
  {
    if s != {} {
      AscendingSize(s - {MinOf(s)});
    }
  }

  function Reverse<T>(s: seq<T>): (r: seq<T>)
    ensures |r| == |s|
    ensures forall i {:trigger r[i]} :: 0 <= i < |s| ==> r[i] == s[|s| - 1 - i]
  {
    if s == [] then [] else Reverse(s[1..]) + [s[0]]
  }

  /** The values stored under a list of keys, in that order. */
  function Values<V>(t: Tree<V>, ks: seq<Key>): (vs: seq<V>)
    requires forall k :: k in ks ==> k in t
    ensures |vs| == |ks|
    ensures forall i :: 0 <= i < |ks| ==> vs[i] == t[ks[i]]
  {
    seq(|ks|, i requires 0 <= i < |ks| => t[ks[i]])
  }

  /** Keys visited after `Iterator.SeekPrefixWatch(p)`. */
  function WithPrefix<V>(t: Tree<V>, p: Key): set<Key> {
    set k | k in t && p <= k
  }

  function ScanPrefix<V>(t: Tree<V>, p: Key): (ks: seq<Key>)
    ensures Sorted(ks)
    ensures forall k :: k in ks <==> k in t && p <= k
  {
    Ascending(WithPrefix(t, p))
  }

  /** Keys visited after `Iterator.SeekLowerBound(b)`. */
  function ScanFrom<V>(t: Tree<V>, b: Key): (ks: seq<Key>)
    ensures Sorted(ks)
    ensures forall k :: k in ks <==> k in t && AtMost(b, k)
  {
    Ascending(set k | k in t && AtMost(b, k))
  }

  /** Keys visited after `ReverseIterator.SeekReverseLowerBound(b)`, largest first. */
  function ScanDownFrom<V>(t: Tree<V>, b: Key): (ks: seq<Key>)
    ensures forall i, j :: 0 <= i < j < |ks| ==> Less(ks[j], ks[i])
    ensures forall k :: k in ks <==> k in t && AtMost(k, b)
  {
    var up := Ascending(set k | k in t && AtMost(k, b));
    ReverseElements(up);
    Reverse(up)
  }

  lemma ReverseElements<T>(s: seq<T>)
    ensures forall x :: x in Reverse(s) <==> x in s
  {
    var r := Reverse(s);
    forall x ensures x in r <==> x in s {
      if x in s {
        var i :| 0 <= i < |s| && s[i] == x;
        assert r[|s| - 1 - i] == x;
      }
    }
  }
}
