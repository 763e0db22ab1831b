/**
 What queries return, and when a byte scan means what its arguments say.

 `Get` scans the keys that start with the argument's bytes; `First` and `Last` take the ends of
 that scan, except that a unique index is looked up directly; `LowerBound` and
 `ReverseLowerBound` scan in byte order from the argument's bytes.
 */
module Query {
  import opened Bytes
  import opened Radix
  import opened Schema
  import opened Agreement
  import opened BulkDelete

  // ---------------------------------------------------------------- first and last

  function Head<T>(s: seq<T>): Option<T> {
    if s == [] then None else Some(s[0])
  }

  lemma HeadOfReverse<T>(s: seq<T>)
    ensures Head(Reverse(s)) == if s == [] then None else Some(s[|s| - 1])
  {
  }

  /** The branch condition of `FirstWatch` and `LastWatch`. */
  predicate Direct(ix: IndexSchema, name: string, index: string, val: Option<Key>) {
    ix.unique && val.Some? && name == index
  }

  function FirstKey(t: Tree<Object>, direct: bool, p: Key): (k: Option<Key>)
    ensures k.Some? ==> k.value in t
  {
    if direct then (if p in t then Some(p) else None)
    else
      var ks := ScanPrefix(t, p);
      assert ks != [] ==> ks[0] in ks;
      Head(ks)
  }

  function LastKey(t: Tree<Object>, direct: bool, p: Key): (k: Option<Key>)
    ensures k.Some? ==> k.value in t
  {
    if direct then (if p in t then Some(p) else None)
    else
      var ks := ScanPrefix(t, p);
      assert ks != [] ==> ks[|ks| - 1] in ks;
      Head(Reverse(ks))
  }

  function Fetch(t: Tree<Object>, k: Option<Key>): Option<Object>
    requires k.Some? ==> k.value in t
  {
    if k.None? then None else Some(t[k.value])
  }

  /** `First` agrees with the first row of `Get` on the iterator path always, and on the
      direct path exactly when the key is present or nothing extends it. */
  lemma FirstAgreesIff(t: Tree<Object>, direct: bool, p: Key)
    ensures FirstKey(t, direct, p) == Head(ScanPrefix(t, p))
            <==> !direct || p in t || WithPrefix(t, p) == {}
  {
    var ks := ScanPrefix(t, p);
    if p in t {
      assert p in ks;
      var i :| 0 <= i < |ks| && ks[i] == p;
      assert ks[0] in ks;
      PrefixAtMost(p, ks[0]);
      assert i == 0;
    }
    assert ks != [] ==> ks[0] in ks;
    assert forall k :: k in WithPrefix(t, p) ==> k in ks;
  }

  /** The key of `Last` is the last scanned key on the direct path exactly when no longer key
      extends the argument. */
  lemma LastAgreesIff(t: Tree<Object>, direct: bool, p: Key)
    ensures LastKey(t, direct, p) == Head(Reverse(ScanPrefix(t, p)))
            <==> !direct || WithPrefix(t, p) <= {p}
  {
    var ks := ScanPrefix(t, p);
    var last := Head(Reverse(ks));
    assert ks != [] ==> last == Some(ks[|ks| - 1]) && ks[|ks| - 1] in ks;
    assert forall k :: k in WithPrefix(t, p) <==> k in ks;
    if ks != [] && last == Some(p) {
      forall k | k in ks ensures k == p {
        var i :| 0 <= i < |ks| && ks[i] == k;
        PrefixAtMost(p, k);
        assert i < |ks| - 1 ==> Less(k, p);
      }
    }
  }

  predicate Greatest(ks: set<Key>, g: Key) {
    g in ks && forall k :: k in ks ==> AtMost(k, g)
  }

  lemma NoElements(ks: seq<Key>)
    ensures ks != [] ==> ks[0] in ks
  {
  }

  lemma ScanEndsWithGreatest(t: Tree<Object>, p: Key)
    requires WithPrefix(t, p) != {}
    ensures var ks := ScanPrefix(t, p);
            ks != [] && forall g :: Greatest(WithPrefix(t, p), g) <==> g == ks[|ks| - 1]
  {
    var ks := ScanPrefix(t, p);
    var k :| k in WithPrefix(t, p);
    assert k in ks;
    var last := ks[|ks| - 1];
    forall j | j in WithPrefix(t, p) ensures AtMost(j, last) {
      assert j in ks;
      var i :| 0 <= i < |ks| && ks[i] == j;
      assert i < |ks| - 1 ==> Less(ks[i], last);
    }
    assert last in ks;
    forall g | Greatest(WithPrefix(t, p), g) ensures g == last {
      if g != last {
        LessAsymmetric(g, last);
      }
    }
  }

  /** The row of `Last` is the last row of `Get` always on the iterator path, and on the direct path
      exactly when nothing matches or the argument's key is present and holds the object of the
      greatest matching key. */
  lemma LastRowAgreesIff(t: Tree<Object>, direct: bool, p: Key)
    ensures Fetch(t, LastKey(t, direct, p)) == Head(Reverse(Values(t, ScanPrefix(t, p))))
            <==> !direct || WithPrefix(t, p) == {}
                 || (p in t && exists g :: Greatest(WithPrefix(t, p), g) && t[g] == t[p])
  {
    hide Greatest;
    var ks := ScanPrefix(t, p);
    assert forall k :: k in WithPrefix(t, p) <==> k in ks;
    if WithPrefix(t, p) == {} {
      NoElements(ks);
    } else {
      ScanEndsWithGreatest(t, p);
      var g := ks[|ks| - 1];
      assert Greatest(WithPrefix(t, p), g);
    }
  }

  /** One object under the argument and under the greatest longer key: the keys differ, the rows do
      not. */
  lemma LongerKeyOfSameRow(t: Tree<Object>, p: Key, g: Key)
    requires p in t && g != p && Greatest(WithPrefix(t, p), g) && t[g] == t[p]
    ensures LastKey(t, true, p) != Head(Reverse(ScanPrefix(t, p)))
    ensures Fetch(t, LastKey(t, true, p)) == Head(Reverse(Values(t, ScanPrefix(t, p))))
  {
    LastAgreesIff(t, true, p);
    LastRowAgreesIff(t, true, p);
  }

  // ---------------------------------------------------------------- exact match

  /** The values an indexer gives an object, without any suffix. */
  function ValuesOf(ix: IndexSchema, o: Object): seq<Key> {
    var e := ix.fromObject(o);
    if e.Extract? && e.ok then e.vals else []
  }

  /** No value of a live object is a proper prefix of `val`, nor `val` of it. */
  ghost predicate PrefixFreeAt(ts: TableSchema, tbl: Table, n: string, val: Key)
    requires ValidTable(ts) && HasShape(ts, tbl) && n in ts
  {
    forall o, v :: IsLive(ts, tbl, o) && v in ValuesOf(ts[n], o) && Comparable(v, val) ==> v == val
  }

  function KeyFor(ix: IndexSchema, v: Key, id: Key): Key {
    if ix.unique then v else v + id
  }

  /** Every key is one of the object's values, suffixed when the index is not unique. */
  lemma KeyHasValue(ts: TableSchema, n: string, o: Object, k: Key) returns (v: Key)
    requires ValidTable(ts) && n in ts && k in KeysOf(ts, n, o)
    ensures v in ValuesOf(ts[n], o) && k == KeyFor(ts[n], v, PrimaryKey(ts, o).value)
  {
    var id := PrimaryKey(ts, o).value;
    var ks := StoredKeys(ts[n], o, id);
    var i :| 0 <= i < |ks| && ks[i] == k;
    v := ValuesOf(ts[n], o)[i];
  }

  lemma ValueHasKey(ts: TableSchema, n: string, o: Object, v: Key)
    requires ValidTable(ts) && n in ts && PrimaryKey(ts, o).Some? && v in ValuesOf(ts[n], o)
    ensures KeyFor(ts[n], v, PrimaryKey(ts, o).value) in KeysOf(ts, n, o)
  {
    var id := PrimaryKey(ts, o).value;
    var vs := ValuesOf(ts[n], o);
    var i :| 0 <= i < |vs| && vs[i] == v;
    assert StoredKeys(ts[n], o, id)[i] == KeyFor(ts[n], v, id);
  }

  /** A scanned key belongs to an object with exactly the requested value. */
  lemma ScannedKeyIsExact(ts: TableSchema, tbl: Table, n: string, val: Key, k: Key)
    requires Agrees(ts, tbl) && n in ts && PrefixFreeAt(ts, tbl, n, val)
    requires k in tbl[n] && val <= k
    ensures var o := tbl[n][k];
            && IsLive(ts, tbl, o) && val in ValuesOf(ts[n], o)
            && k == KeyFor(ts[n], val, PrimaryKey(ts, o).value)
  {
    var o := tbl[n][k];
    var v := KeyHasValue(ts, n, o, k);
    PrefixesComparable(v, val, k);
  }

  /** Which objects an exact lookup returns. */
  lemma GetFindsExactly(ts: TableSchema, tbl: Table, n: string, val: Key, o: Object)
    requires Agrees(ts, tbl) && n in ts && PrefixFreeAt(ts, tbl, n, val)
    ensures o in Scan(tbl, n, val) <==> IsLive(ts, tbl, o) && val in ValuesOf(ts[n], o)
  {
    hide PrefixFreeAt, Sound, AllIndexable;
    var ks, objs := ScanPrefix(tbl[n], val), Scan(tbl, n, val);
    if o in objs {
      var i :| 0 <= i < |ks| && objs[i] == o;
      assert ks[i] in ks;
      ScannedKeyIsExact(ts, tbl, n, val, ks[i]);
    }
    if IsLive(ts, tbl, o) && val in ValuesOf(ts[n], o) {
      ValueHasKey(ts, n, o, val);
      var k := KeyFor(ts[n], val, PrimaryKey(ts, o).value);
      assert val <= k && k in ks;
      var i :| 0 <= i < |ks| && ks[i] == k;
      assert objs[i] == o;
    }
  }

  /** Two rows of an exact lookup come in the order of their primary keys. */
  lemma GetOrdersById(ts: TableSchema, tbl: Table, n: string, val: Key, i: nat, j: nat)
    requires Agrees(ts, tbl) && n in ts && PrefixFreeAt(ts, tbl, n, val)
    requires i < j < |Scan(tbl, n, val)|
    ensures var objs := Scan(tbl, n, val);
            !ts[n].unique && objs[i] != objs[j]
            && Less(PrimaryKey(ts, objs[i]).GetOr([]), PrimaryKey(ts, objs[j]).GetOr([]))
  {
    hide PrefixFreeAt, Sound, Complete, AllIndexable;
    var ks, objs := ScanPrefix(tbl[n], val), Scan(tbl, n, val);
    assert ks[i] in ks && ks[j] in ks && Less(ks[i], ks[j]);
    ScannedKeyIsExact(ts, tbl, n, val, ks[i]);
    ScannedKeyIsExact(ts, tbl, n, val, ks[j]);
    var a, b := PrimaryKey(ts, objs[i]).value, PrimaryKey(ts, objs[j]).value;
    LessIrreflexive(val);
    LessCommonPrefix(val, a, b);
    LessIrreflexive(a);
  }

  /** Exact match by prefix scan. For an index whose values are prefix-free at the argument,
      `Get` returns exactly the live objects that have the value, each once, ordered by
      primary key; on a unique index that is at most one object. */
  lemma GetIsExact(ts: TableSchema, tbl: Table, n: string, val: Key)
    requires Agrees(ts, tbl) && n in ts && PrefixFreeAt(ts, tbl, n, val)
    ensures var objs := Scan(tbl, n, val);
            && (forall o :: o in objs <==> IsLive(ts, tbl, o) && val in ValuesOf(ts[n], o))
            && Distinct(objs)
            && (ts[n].unique ==> |objs| <= 1)
            && (!ts[n].unique ==> forall i, j :: 0 <= i < j < |objs| ==>
                  Less(PrimaryKey(ts, objs[i]).GetOr([]), PrimaryKey(ts, objs[j]).GetOr([])))
  {
    hide PrefixFreeAt, Sound, Complete, AllIndexable, IsLive, Scan;
    var objs := Scan(tbl, n, val);
    forall o ensures o in objs <==> IsLive(ts, tbl, o) && val in ValuesOf(ts[n], o) {
      GetFindsExactly(ts, tbl, n, val, o);
    }
    forall i, j | 0 <= i < j < |objs|
      ensures !ts[n].unique && objs[i] != objs[j]
      ensures Less(PrimaryKey(ts, objs[i]).GetOr([]), PrimaryKey(ts, objs[j]).GetOr([]))
    {
      GetOrdersById(ts, tbl, n, val, i, j);
    }
    if |objs| > 1 {
      GetOrdersById(ts, tbl, n, val, 0, 1);
    }
  }

  /** Under the same condition `First` and `Last` are the ends of `Get`, by either path. */
  lemma FirstLastAreEnds(ts: TableSchema, tbl: Table, n: string, index: string, val: Key)
    requires Agrees(ts, tbl) && n in ts && PrefixFreeAt(ts, tbl, n, val)
    ensures var direct := Direct(ts[n], n, index, Some(val));
            && FirstKey(tbl[n], direct, val) == Head(ScanPrefix(tbl[n], val))
            && LastKey(tbl[n], direct, val) == Head(Reverse(ScanPrefix(tbl[n], val)))
  {
    if ts[n].unique {
      forall k | k in WithPrefix(tbl[n], val) ensures k == val {
        ScannedKeyIsExact(ts, tbl, n, val, k);
      }
    }
    FirstAgreesIff(tbl[n], Direct(ts[n], n, index, Some(val)), val);
    LastAgreesIff(tbl[n], Direct(ts[n], n, index, Some(val)), val);
  }

  // ---------------------------------------------------------------- range scans

  function RowsFrom(tbl: Table, n: string, b: Key): seq<Object>
    requires n in tbl
  {
    Values(tbl[n], ScanFrom(tbl[n], b))
  }

  function RowsDownFrom(tbl: Table, n: string, b: Key): seq<Object>
    requires n in tbl
  {
    Values(tbl[n], ScanDownFrom(tbl[n], b))
  }

  /** Values of live objects, and the bound, are pairwise prefix-free. */
  ghost predicate PrefixFree(ts: TableSchema, tbl: Table, n: string, b: Key)
    requires ValidTable(ts) && HasShape(ts, tbl) && n in ts
  {
    && PrefixFreeAt(ts, tbl, n, b)
    && forall o, v :: IsLive(ts, tbl, o) && v in ValuesOf(ts[n], o) ==> PrefixFreeAt(ts, tbl, n, v)
  }

  /** The order in which rows come back: by value, then by primary key. */
  ghost predicate RowBefore(v: Key, id: Key, v': Key, id': Key) {
    Less(v, v') || (v == v' && Less(id, id'))
  }

  lemma KeyOrder(ix: IndexSchema, v: Key, id: Key, v': Key, id': Key)
    requires Comparable(v, v') ==> v == v'
    ensures Less(KeyFor(ix, v, id), KeyFor(ix, v', id')) <==>
            if v == v' then !ix.unique && Less(id, id') else Less(v, v')
  {
    if v == v' {
      LessCommonPrefix(v, id, id');
      LessIrreflexive(v);
    } else {
      LessDiverged(v, v', id, id');
    }
  }

  /** A stored key against a bare bound, from either side. */
  lemma BoundOrder(ix: IndexSchema, v: Key, id: Key, b: Key)
    requires Comparable(v, b) ==> v == b
    ensures AtMost(b, KeyFor(ix, v, id)) <==> AtMost(b, v)
    ensures AtMost(KeyFor(ix, v, id), b) <==> Less(v, b) || (v == b && (ix.unique || id == []))
  {
    if v == b {
      assert v <= v + id;
      PrefixAtMost(v, v + id);
      assert id != [] ==> |v + id| != |v|;
      LessIrreflexive(v);
    } else {
      LessDiverged(v, b, id, []);
      LessDiverged(b, v, [], id);
      assert b + [] == b;
    }
  }

  /** One of the object's keys is at least `b`. */
  ghost predicate InRange(ts: TableSchema, tbl: Table, n: string, b: Key, o: Object)
    requires ValidTable(ts) && HasShape(ts, tbl) && n in ts
  {
    IsLive(ts, tbl, o) && exists v :: v in ValuesOf(ts[n], o) && AtMost(b, KeyFor(ts[n], v, PrimaryKey(ts, o).value))
  }

  /** One of the object's keys is at most `b`. */
  ghost predicate InReverseRange(ts: TableSchema, tbl: Table, n: string, b: Key, o: Object)
    requires ValidTable(ts) && HasShape(ts, tbl) && n in ts
  {
    IsLive(ts, tbl, o) && exists v :: v in ValuesOf(ts[n], o) && AtMost(KeyFor(ts[n], v, PrimaryKey(ts, o).value), b)
  }

  /** A live object files the key `k` for one of its values. */
  ghost predicate FiledUnder(ts: TableSchema, tbl: Table, n: string, o: Object, k: Key)
    requires ValidTable(ts) && HasShape(ts, tbl) && n in ts
  {
    IsLive(ts, tbl, o) && exists v :: v in ValuesOf(ts[n], o) && k == KeyFor(ts[n], v, PrimaryKey(ts, o).value)
  }

  /** In a table that agrees, an index holds exactly the keys that live objects file. */
  lemma IndexIsFiled(ts: TableSchema, tbl: Table, n: string, o: Object, k: Key)
    requires Agrees(ts, tbl) && n in ts
    ensures k in tbl[n] && tbl[n][k] == o <==> FiledUnder(ts, tbl, n, o, k)
  {
    if k in tbl[n] && tbl[n][k] == o {
      var v := KeyHasValue(ts, n, o, k);
    }
    if FiledUnder(ts, tbl, n, o, k) {
      var v :| v in ValuesOf(ts[n], o) && k == KeyFor(ts[n], v, PrimaryKey(ts, o).value);
      ValueHasKey(ts, n, o, v);
    }
  }

  /** What the values say about a range: prefix-free values can be compared without their ids. */
  ghost predicate ValueInRange(ts: TableSchema, n: string, b: Key, o: Object)
    requires n in ts
  {
    exists v :: v in ValuesOf(ts[n], o) && AtMost(b, v)
  }

  ghost predicate ValueInReverseRange(ts: TableSchema, n: string, b: Key, o: Object)
    requires ValidTable(ts) && n in ts
  {
    exists v :: v in ValuesOf(ts[n], o) &&
      (Less(v, b) || (v == b && (ts[n].unique || PrimaryKey(ts, o).GetOr([]) == [])))
  }

  /** `LowerBound` on any index returns, in key order and once for each of its keys, exactly the
      live objects with a key at least the bound. For prefix-free values these are the objects
      with a value at least the bound, unique or not; and on a single-valued index they ascend by
      value and then by primary key. */
  lemma LowerBoundIsExact(ts: TableSchema, tbl: Table, n: string, b: Key)
    requires Agrees(ts, tbl) && n in ts
    ensures var ks, rows := ScanFrom(tbl[n], b), RowsFrom(tbl, n, b);
            && (forall o :: o in rows <==> InRange(ts, tbl, n, b, o))
            && (forall i :: 0 <= i < |rows| ==> FiledUnder(ts, tbl, n, rows[i], ks[i]))
    ensures PrefixFree(ts, tbl, n, b) ==>
              forall o :: InRange(ts, tbl, n, b, o) <==> IsLive(ts, tbl, o) && ValueInRange(ts, n, b, o)
    ensures PrefixFree(ts, tbl, n, b) && SingleValued(ts[n]) ==>
              var rows := RowsFrom(tbl, n, b);
              forall i, j :: 0 <= i < j < |rows| ==> RowsOrdered(ts, n, rows[i], rows[j])
  {
    hide Sound, Complete, AllIndexable, PrefixFree, IsLive, InRange, FiledUnder, ValueInRange, SingleValued;
    var ks, rows := ScanFrom(tbl[n], b), RowsFrom(tbl, n, b);
    forall o ensures o in rows <==> InRange(ts, tbl, n, b, o) {
      LowerBoundRow(ts, tbl, n, b, o);
    }
    forall i | 0 <= i < |rows| ensures FiledUnder(ts, tbl, n, rows[i], ks[i]) {
      assert ks[i] in ks;
      IndexIsFiled(ts, tbl, n, rows[i], ks[i]);
    }
    if PrefixFree(ts, tbl, n, b) {
      forall o ensures InRange(ts, tbl, n, b, o) <==> IsLive(ts, tbl, o) && ValueInRange(ts, n, b, o) {
        RangeByValue(ts, tbl, n, b, o);
      }
      if SingleValued(ts[n]) {
        forall i, j | 0 <= i < j < |rows| ensures RowsOrdered(ts, n, rows[i], rows[j]) {
          assert ks[i] in ks && ks[j] in ks;
          RowsInKeyOrder(ts, tbl, n, b, ks[i], ks[j]);
        }
      }
    }
  }

  lemma LowerBoundRow(ts: TableSchema, tbl: Table, n: string, b: Key, o: Object)
    requires Agrees(ts, tbl) && n in ts
    ensures o in RowsFrom(tbl, n, b) <==> InRange(ts, tbl, n, b, o)
  {
    hide Sound, Complete, AllIndexable, ValuesOf, KeyFor;
    var ks, rows := ScanFrom(tbl[n], b), RowsFrom(tbl, n, b);
    if o in rows {
      var i :| 0 <= i < |rows| && rows[i] == o;
      assert ks[i] in ks;
      IndexIsFiled(ts, tbl, n, o, ks[i]);
    }
    if InRange(ts, tbl, n, b, o) {
      var v :| v in ValuesOf(ts[n], o) && AtMost(b, KeyFor(ts[n], v, PrimaryKey(ts, o).value));
      var k := KeyFor(ts[n], v, PrimaryKey(ts, o).value);
      IndexIsFiled(ts, tbl, n, o, k);
      assert k in ks;
      var i :| 0 <= i < |ks| && ks[i] == k;
      assert rows[i] == o;
    }
  }

  lemma RangeByValue(ts: TableSchema, tbl: Table, n: string, b: Key, o: Object)
    requires ValidTable(ts) && HasShape(ts, tbl) && n in ts && PrefixFree(ts, tbl, n, b)
    ensures InRange(ts, tbl, n, b, o) <==> IsLive(ts, tbl, o) && ValueInRange(ts, n, b, o)
    ensures InReverseRange(ts, tbl, n, b, o) <==> IsLive(ts, tbl, o) && ValueInReverseRange(ts, n, b, o)
  {
    hide KeyFor, ValuesOf, AtMost;
    if IsLive(ts, tbl, o) {
      var id := PrimaryKey(ts, o).value;
      forall v | v in ValuesOf(ts[n], o)
        ensures AtMost(b, KeyFor(ts[n], v, id)) <==> AtMost(b, v)
        ensures AtMost(KeyFor(ts[n], v, id), b) <==> Less(v, b) || (v == b && (ts[n].unique || id == []))
      {
        BoundOrder(ts[n], v, id, b);
      }
    }
  }

  /** `ReverseLowerBound` on any index returns, from the largest key down and once for each of its
      keys, exactly the live objects with a key at most the bound. For prefix-free values these
      are the objects with a value less than the bound, and on a unique index those equal to it;
      on a non-unique index the stored keys carry the primary key, so a value equal to the
      bound counts only under an empty primary key. */
  lemma ReverseLowerBoundIsExact(ts: TableSchema, tbl: Table, n: string, b: Key)
    requires Agrees(ts, tbl) && n in ts
    ensures var ks, rows := ScanDownFrom(tbl[n], b), RowsDownFrom(tbl, n, b);
            && (forall o :: o in rows <==> InReverseRange(ts, tbl, n, b, o))
            && (forall i :: 0 <= i < |rows| ==> FiledUnder(ts, tbl, n, rows[i], ks[i]))
    ensures PrefixFree(ts, tbl, n, b) ==>
              forall o :: InReverseRange(ts, tbl, n, b, o) <==> IsLive(ts, tbl, o) && ValueInReverseRange(ts, n, b, o)
    ensures PrefixFree(ts, tbl, n, b) && SingleValued(ts[n]) ==>
              var rows := RowsDownFrom(tbl, n, b);
              forall i, j :: 0 <= i < j < |rows| ==> RowsOrdered(ts, n, rows[j], rows[i])
  {
    hide Sound, Complete, AllIndexable, PrefixFree, IsLive, InReverseRange, FiledUnder, ValueInReverseRange, SingleValued;
    var ks, rows := ScanDownFrom(tbl[n], b), RowsDownFrom(tbl, n, b);
    forall o ensures o in rows <==> InReverseRange(ts, tbl, n, b, o) {
      ReverseLowerBoundRow(ts, tbl, n, b, o);
    }
    forall i | 0 <= i < |rows| ensures FiledUnder(ts, tbl, n, rows[i], ks[i]) {
      assert ks[i] in ks;
      IndexIsFiled(ts, tbl, n, rows[i], ks[i]);
    }
    if PrefixFree(ts, tbl, n, b) {
      forall o ensures InReverseRange(ts, tbl, n, b, o) <==> IsLive(ts, tbl, o) && ValueInReverseRange(ts, n, b, o) {
        RangeByValue(ts, tbl, n, b, o);
      }
      if SingleValued(ts[n]) {
        forall i, j | 0 <= i < j < |rows| ensures RowsOrdered(ts, n, rows[j], rows[i]) {
          assert ks[i] in ks && ks[j] in ks;
          RowsInKeyOrder(ts, tbl, n, b, ks[j], ks[i]);
        }
      }
    }
  }

  lemma ReverseLowerBoundRow(ts: TableSchema, tbl: Table, n: string, b: Key, o: Object)
    requires Agrees(ts, tbl) && n in ts
    ensures o in RowsDownFrom(tbl, n, b) <==> InReverseRange(ts, tbl, n, b, o)
  {
    hide Sound, Complete, AllIndexable, ValuesOf, KeyFor, Less, ScanDownFrom;
    var ks, rows := ScanDownFrom(tbl[n], b), RowsDownFrom(tbl, n, b);
    if o in rows {
      var i :| 0 <= i < |rows| && rows[i] == o;
      assert ks[i] in ks;
      IndexIsFiled(ts, tbl, n, o, ks[i]);
    }
    if InReverseRange(ts, tbl, n, b, o) {
      var v :| v in ValuesOf(ts[n], o) && AtMost(KeyFor(ts[n], v, PrimaryKey(ts, o).value), b);
      var k := KeyFor(ts[n], v, PrimaryKey(ts, o).value);
      IndexIsFiled(ts, tbl, n, o, k);
      assert k in ks;
      var i :| 0 <= i < |ks| && ks[i] == k;
      assert rows[i] == o;
    }
  }

  ghost predicate RowsOrdered(ts: TableSchema, n: string, o: Object, o': Object)
    requires ValidTable(ts) && n in ts
  {
    && ValuesOf(ts[n], o) != [] && ValuesOf(ts[n], o') != []
    && RowBefore(ValuesOf(ts[n], o)[0], PrimaryKey(ts, o).GetOr([]), ValuesOf(ts[n], o')[0], PrimaryKey(ts, o').GetOr([]))
  }

  /** `o` is live and its one key in index `n` is `k`. */
  ghost predicate FiledAt(ts: TableSchema, tbl: Table, n: string, o: Object, k: Key)
    requires ValidTable(ts) && HasShape(ts, tbl) && n in ts
  {
    && IsLive(ts, tbl, o) && ValuesOf(ts[n], o) != []
    && k == KeyFor(ts[n], ValuesOf(ts[n], o)[0], PrimaryKey(ts, o).value)
  }

  lemma RowOfKey(ts: TableSchema, tbl: Table, n: string, k: Key)
    requires Agrees(ts, tbl) && n in ts && SingleValued(ts[n]) && k in tbl[n]
    ensures FiledAt(ts, tbl, n, tbl[n][k], k)
  {
    var o := tbl[n][k];
    var _ := KeyHasValue(ts, n, o, k);
    assert SingleValue(ts[n].fromObject(o));
  }

  lemma RowsInKeyOrder(ts: TableSchema, tbl: Table, n: string, b: Key, k: Key, k': Key)
    requires Agrees(ts, tbl) && n in ts && SingleValued(ts[n]) && PrefixFree(ts, tbl, n, b)
    requires k in tbl[n] && k' in tbl[n] && Less(k, k')
    ensures RowsOrdered(ts, n, tbl[n][k], tbl[n][k'])
  {
    RowOfKey(ts, tbl, n, k);
    RowOfKey(ts, tbl, n, k');
    var o, o' := tbl[n][k], tbl[n][k'];
    var v, v' := ValuesOf(ts[n], o)[0], ValuesOf(ts[n], o')[0];
    assert PrefixFreeAt(ts, tbl, n, v');
    KeyOrder(ts[n], v, PrimaryKey(ts, o).value, v', PrimaryKey(ts, o').value);
  }
}
