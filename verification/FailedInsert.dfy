/**
 Inserts that fail. `Txn.Insert` rewrites one index after the other and returns at the first error,
 without undoing the indexes it has rewritten. Which these are depends on the map order.
 */
module FailedInsert {
  import opened Bytes
  import opened Radix
  import opened Schema
  import opened Store
  import opened Agreement

  /** The indexes that the insert loop gets to, the one that fails included. */
  function Visited(ts: TableSchema, existing: Option<Object>, obj: Object, order: seq<string>): (r: seq<string>)
    requires forall n :: n in order ==> n in ts
    ensures r <= order
  {
    if order == [] then []
    else if InsertError(order[0], ts[order[0]], existing, obj).Some? then [order[0]]
    else [order[0]] + Visited(ts, existing, obj, order[1..])
  }

  /** What the insert loop leaves, failing or not: exactly the visited indexes are rewritten. */
  lemma {:induction false} InsertIndexesVisited(ts: TableSchema, tbl: Table, existing: Option<Object>, obj: Object, id: Key,
                                                order: seq<string>)
    requires HasShape(ts, tbl)
    requires forall n :: n in order ==> n in ts
    requires forall i, j :: 0 <= i < j < |order| ==> order[i] != order[j]
    ensures var visited := Visited(ts, existing, obj, order);
            InsertIndexes(ts, tbl, existing, obj, id, order).0
            == map n | n in ts :: if n in visited then InsertTree(ts[n], tbl[n], existing, obj, id) else tbl[n]
  {
    hide InsertTree;
    if order != [] {
      var n := order[0];
      var tbl1 := tbl[n := InsertTree(ts[n], tbl[n], existing, obj, id)];
      if InsertError(n, ts[n], existing, obj).None? {
        InsertIndexesVisited(ts, tbl1, existing, obj, id, order[1..]);
        assert n !in order[1..];
        assert n !in Visited(ts, existing, obj, order[1..]);
      }
    }
  }

  /** A round of the insert loop that changes no tree: the object has no key in the index, and no
      old key is taken out. */
  ghost predicate Untouched(ix: IndexSchema, existing: Option<Object>, obj: Object, id: Key) {
    var e := ix.fromObject(obj);
    e.Extract? && !(existing.Some? && ix.fromObject(existing.value).Failed?) ==>
      && Stale(OldKeys(ix, existing, id), Candidates(ix, e, id)) == {}
      && (e.ok ==> e.vals == [])
  }

  /** Every visited index is left as it was. A caller who knows the order can test this before the
      call, from the old object and the new one. */
  ghost predicate Harmless(ts: TableSchema, tbl: Table, obj: Object, order: seq<string>)
    requires ValidTable(ts) && HasShape(ts, tbl) && IsOrder(order, ts.Keys) && PrimaryKey(ts, obj).Some?
  {
    var id := PrimaryKey(ts, obj).value;
    forall n :: n in Visited(ts, Existing(tbl, id), obj, order) ==> Untouched(ts[n], Existing(tbl, id), obj, id)
  }

  lemma UntouchedKeepsTree(ix: IndexSchema, t: Tree<Object>, existing: Option<Object>, obj: Object, id: Key)
    requires Untouched(ix, existing, obj, id)
    ensures InsertTree(ix, t, existing, obj, id) == t
  {
    assert t - {} == t;
    var none: seq<Key> := [];
    assert PutAll(t, none, obj) == t;
  }

  lemma HarmlessChangesNothing(ts: TableSchema, tbl: Table, obj: Object, order: seq<string>)
    requires ValidTable(ts) && HasShape(ts, tbl) && IsOrder(order, ts.Keys) && PrimaryKey(ts, obj).Some?
    requires Harmless(ts, tbl, obj, order)
    ensures Insert(ts, tbl, obj, order).0 == tbl
  {
    hide InsertTree, Untouched, InsertIndexes;
    var id := PrimaryKey(ts, obj).value;
    var existing := Existing(tbl, id);
    InsertIndexesVisited(ts, tbl, existing, obj, id, order);
    forall n | n in Visited(ts, existing, obj, order) ensures InsertTree(ts[n], tbl[n], existing, obj, id) == tbl[n] {
      UntouchedKeepsTree(ts[n], tbl[n], existing, obj, id);
    }
  }

  /** In a table that agrees, a failing insert fails because of the new object: it could not be live
      in a table that agrees. */
  lemma FailingIsNotLive(ts: TableSchema, tbl: Table, obj: Object, tbl': Table)
    requires Agrees(ts, tbl) && PrimaryKey(ts, obj).Some? && !Insertable(ts, tbl, obj)
    requires Consistent(ts, tbl')
    ensures !IsLive(ts, tbl', obj)
  {
    hide Sound, Complete;
    var id := PrimaryKey(ts, obj).value;
    var existing := Existing(tbl, id);
    var n :| n in ts && InsertError(n, ts[n], existing, obj).Some?;
    if existing.Some? {
      PrimaryEntry(ts, tbl, id);
      assert Indexable(ts[n], existing.value);
    }
    assert !Indexable(ts[n], obj);
  }

  lemma FirstPut(t: Tree<Object>, ks: seq<Key>, obj: Object)
    ensures ks == [] ==> PutAll(t, ks, obj) == t
    ensures ks != [] ==> ks[0] in PutAll(t, ks, obj) && PutAll(t, ks, obj)[ks[0]] == obj
  {
    assert ks != [] ==> ks[0] in ks;
  }

  lemma NothingRewritten(t: Tree<Object>, stale: set<Key>, vals: seq<Key>, obj: Object, put: bool)
    requires stale <= t.Keys && (forall k :: k in t ==> t[k] != obj)
    requires (if put then PutAll(t - stale, vals, obj) else t - stale) == t
    ensures stale == {} && (put ==> vals == [])
  {
    FirstPut(t - stale, vals, obj);
    assert (t - stale).Keys == t.Keys - stale;
  }

  lemma UnchangedIsUntouched(ts: TableSchema, tbl: Table, obj: Object, n: string)
    requires Agrees(ts, tbl) && PrimaryKey(ts, obj).Some? && !IsLive(ts, tbl, obj) && n in ts
    requires var id := PrimaryKey(ts, obj).value; InsertTree(ts[n], tbl[n], Existing(tbl, id), obj, id) == tbl[n]
    ensures var id := PrimaryKey(ts, obj).value; Untouched(ts[n], Existing(tbl, id), obj, id)
  {
    var id := PrimaryKey(ts, obj).value;
    var existing, e, t := Existing(tbl, id), ts[n].fromObject(obj), tbl[n];
    if e.Extract? && !(existing.Some? && ts[n].fromObject(existing.value).Failed?) {
      var vals := Candidates(ts[n], e, id);
      var stale := Stale(OldKeys(ts[n], existing, id), vals);
      forall k | k in stale ensures k in t {
        OldKeyIsFiled(ts, tbl, id, n, k);
      }
      assert forall k :: k in t ==> t[k] != obj;
      NothingRewritten(t, stale, vals, obj, e.ok);
    }
  }

  lemma OldKeyIsFiled(ts: TableSchema, tbl: Table, id: Key, n: string, k: Key)
    requires Agrees(ts, tbl) && n in ts && k in OldKeys(ts[n], Existing(tbl, id), id)
    ensures k in tbl[n]
  {
    PrimaryEntry(ts, tbl, id);
    assert k in KeysOf(ts, n, tbl[ID][id]);
  }

  /** The primary index never survives a visit: it is filed under its key at once. */
  lemma VisitedPrimaryIsLive(ts: TableSchema, tbl: Table, obj: Object, order: seq<string>)
    requires Agrees(ts, tbl) && PrimaryKey(ts, obj).Some? && IsOrder(order, ts.Keys)
    requires ID in Visited(ts, Existing(tbl, PrimaryKey(ts, obj).value), obj, order)
    ensures HasShape(ts, Insert(ts, tbl, obj, order).0) && IsLive(ts, Insert(ts, tbl, obj, order).0, obj)
  {
    hide Complete, InsertIndexes;
    var id := PrimaryKey(ts, obj).value;
    var existing := Existing(tbl, id);
    InsertIndexesVisited(ts, tbl, existing, obj, id, order);
    PrimaryStoredKeys(ts, obj);
    assert Candidates(ts[ID], ts[ID].fromObject(obj), id) == [id];
    if existing.Some? {
      PrimaryEntry(ts, tbl, id);
      PrimaryStoredKeys(ts, existing.value);
    }
    assert id in [id];
  }

  /** The exact condition for an insert that fails: from a table that agrees it leads to a table that
      agrees if and only if every index it visited is left as it was, and then it changed
      nothing at all. */
  lemma FailedInsertAgreesIff(ts: TableSchema, tbl: Table, obj: Object, order: seq<string>)
    requires Agrees(ts, tbl) && IsOrder(order, ts.Keys) && PrimaryKey(ts, obj).Some? && !Insertable(ts, tbl, obj)
    ensures Insert(ts, tbl, obj, order).1.Some?
    ensures Agrees(ts, Insert(ts, tbl, obj, order).0) <==> Harmless(ts, tbl, obj, order)
    ensures Harmless(ts, tbl, obj, order) ==> Insert(ts, tbl, obj, order).0 == tbl
  {
    hide Insert, InsertIndexes, InsertTree, Sound, Complete, AllIndexable, Untouched, Insertable;
    InsertOrderIndependent(ts, tbl, obj, order);
    if Harmless(ts, tbl, obj, order) {
      HarmlessChangesNothing(ts, tbl, obj, order);
    }
    if Agrees(ts, Insert(ts, tbl, obj, order).0) {
      AgreeingIsHarmless(ts, tbl, obj, order);
    }
  }

  lemma AgreeingIsHarmless(ts: TableSchema, tbl: Table, obj: Object, order: seq<string>)
    requires Agrees(ts, tbl) && IsOrder(order, ts.Keys) && PrimaryKey(ts, obj).Some? && !Insertable(ts, tbl, obj)
    requires Agrees(ts, Insert(ts, tbl, obj, order).0)
    ensures Harmless(ts, tbl, obj, order)
  {
    hide InsertIndexes, InsertTree, InsertError, Sound, Complete, AllIndexable, Untouched, Insertable, IsLive;
    var tbl' := Insert(ts, tbl, obj, order).0;
    var id := PrimaryKey(ts, obj).value;
    var existing := Existing(tbl, id);
    var visited := Visited(ts, existing, obj, order);
    FailingIsNotLive(ts, tbl, obj, tbl);
    FailingIsNotLive(ts, tbl, obj, tbl');
    if ID in visited {
      VisitedPrimaryIsLive(ts, tbl, obj, order);
      assert false;
    }
    InsertIndexesVisited(ts, tbl, existing, obj, id, order);
    AgreementDeterminesIndexes(ts, tbl, tbl');
    forall n | n in visited ensures Untouched(ts[n], existing, obj, id) {
      assert tbl'[n] == InsertTree(ts[n], tbl[n], existing, obj, id);
      UnchangedIsUntouched(ts, tbl, obj, n);
    }
  }

  function SwapFirst(s: seq<string>, i: nat): (r: seq<string>)
    requires i < |s|
    ensures |r| == |s| && forall k :: 0 <= k < |s| ==> r[k] == s[if k == 0 then i else if k == i then 0 else k]
  {
    seq(|s|, k requires 0 <= k < |s| => s[if k == 0 then i else if k == i then 0 else k])
  }

  /** Some enumeration starts with the primary index. */
  lemma PrimaryFirst(ts: TableSchema, order: seq<string>) returns (order': seq<string>)
    requires ID in ts && IsOrder(order, ts.Keys)
    ensures IsOrder(order', ts.Keys) && order' != [] && order'[0] == ID
  {
    var i :| 0 <= i < |order| && order[i] == ID;
    order' := SwapFirst(order, i);
    forall n | n in ts ensures n in order' {
      var j :| 0 <= j < |order| && order[j] == n;
      assert order'[if j == i then 0 else if j == 0 then i else j] == n;
    }
  }

  /** Whatever the table and the object, an insert that fails in the loop breaks agreement under some
      map order: any one that starts with the primary index. */
  lemma FailedInsertCanBreak(ts: TableSchema, tbl: Table, obj: Object, order: seq<string>) returns (order': seq<string>)
    requires Agrees(ts, tbl) && IsOrder(order, ts.Keys) && PrimaryKey(ts, obj).Some? && !Insertable(ts, tbl, obj)
    ensures IsOrder(order', ts.Keys) && order' != [] && order'[0] == ID
    ensures forall o :: IsOrder(o, ts.Keys) && o != [] && o[0] == ID ==> !Agrees(ts, Insert(ts, tbl, obj, o).0)
  {
    hide InsertIndexes, InsertTree, InsertError, Insert, Sound, Complete, AllIndexable, Insertable, IsLive, IsOrder;
    order' := PrimaryFirst(ts, order);
    forall o | IsOrder(o, ts.Keys) && o != [] && o[0] == ID ensures !Agrees(ts, Insert(ts, tbl, obj, o).0) {
      if Agrees(ts, Insert(ts, tbl, obj, o).0) {
        FailingIsNotLive(ts, tbl, obj, Insert(ts, tbl, obj, o).0);
        VisitedPrimaryIsLive(ts, tbl, obj, o);
        assert false;
      }
    }
  }
}
