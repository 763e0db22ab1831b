/**
 Index maintenance: what `Txn.Insert` and `Txn.Delete` do to the trees of one table, and why
 the secondary indexes stay exactly the view that the primary index determines.
 */
module Store {
  import opened Bytes
  import opened Radix
  import opened Schema

  // ---------------------------------------------------------------- insert, one index

  /** The old keys that the update loop deletes: the i-th one is kept only if it equals the
      i-th new value, whether or not that value is going to be inserted. */
  function Stale(was: seq<Key>, vals: seq<Key>): set<Key> {
    set i | 0 <= i < |was| && (i >= |vals| || was[i] != vals[i]) :: was[i]
  }

  function OldKeys(ix: IndexSchema, existing: Option<Object>, id: Key): seq<Key> {
    if existing.Some? then StoredKeys(ix, existing.value, id) else []
  }

  function InsertError(n: string, ix: IndexSchema, existing: Option<Object>, obj: Object): Option<Error> {
    if ix.fromObject(obj).Failed? || (existing.Some? && ix.fromObject(existing.value).Failed?) then
      Some(IndexFailed(n))
    else if !ix.fromObject(obj).ok && !ix.allowMissing then
      Some(ValueMissing(n))
    else
      None
  }

  function PutAll(t: Tree<Object>, ks: seq<Key>, obj: Object): Tree<Object> {
    t + map k | k in ks :: obj
  }

  /** The tree one round of the insert loop leaves, including the rounds that fail. */
  function InsertTree(ix: IndexSchema, t: Tree<Object>, existing: Option<Object>, obj: Object, id: Key): Tree<Object> {
    var e := ix.fromObject(obj);
    if e.Failed? || (existing.Some? && ix.fromObject(existing.value).Failed?) then t
    else
      var vals := Candidates(ix, e, id);
      var cleared := t - Stale(OldKeys(ix, existing, id), vals);
      if e.ok then PutAll(cleared, vals, obj) else cleared
  }

  // ---------------------------------------------------------------- insert, all indexes

  /** The loop over a table's indexes, which stops at the first error. */
  function InsertIndexes(ts: TableSchema, tbl: Table, existing: Option<Object>, obj: Object, id: Key,
                         order: seq<string>): (Table, Option<Error>)
    requires HasShape(ts, tbl)
    requires forall n :: n in order ==> n in ts
  {
    if order == [] then (tbl, None)
    else
      var n := order[0];
      var tbl' := tbl[n := InsertTree(ts[n], tbl[n], existing, obj, id)];
      var err := InsertError(n, ts[n], existing, obj);
      if err.Some? then (tbl', err)
      else InsertIndexes(ts, tbl', existing, obj, id, order[1..])
  }

  function Existing(tbl: Table, id: Key): Option<Object>
    requires ID in tbl
  {
    if id in tbl[ID] then Some(tbl[ID][id]) else None
  }

  /** `Txn.Insert` on one table. `order` is the order in which the runtime happens to
      enumerate the table's indexes. */
  function Insert(ts: TableSchema, tbl: Table, obj: Object, order: seq<string>): (Table, Option<Error>)
    requires ValidTable(ts) && HasShape(ts, tbl) && IsOrder(order, ts.Keys)
  {
    if ts[ID].fromObject(obj).Failed? then (tbl, Some(PrimaryFailed))
    else if PrimaryKey(ts, obj).None? then (tbl, Some(PrimaryMissing))
    else
      var id := PrimaryKey(ts, obj).value;
      InsertIndexes(ts, tbl, Existing(tbl, id), obj, id, order)
  }

  predicate Succeeds(r: (Table, Option<Error>)) {
    r.1.None?
  }

  /** Whether an insert can succeed, with no reference to any visiting order. */
  predicate Insertable(ts: TableSchema, tbl: Table, obj: Object)
    requires ValidTable(ts) && HasShape(ts, tbl)
  {
    && PrimaryKey(ts, obj).Some?
    && forall n :: n in ts ==> InsertError(n, ts[n], Existing(tbl, PrimaryKey(ts, obj).value), obj).None?
  }

  /** The state after a successful insert, with no reference to any visiting order. */
  function Inserted(ts: TableSchema, tbl: Table, obj: Object): (r: Table)
    requires ValidTable(ts) && HasShape(ts, tbl) && PrimaryKey(ts, obj).Some?
  {
    var id := PrimaryKey(ts, obj).value;
    map n | n in ts :: InsertTree(ts[n], tbl[n], Existing(tbl, id), obj, id)
  }

  lemma {:induction false} InsertIndexesClosed(ts: TableSchema, tbl: Table, existing: Option<Object>, obj: Object,
                                               id: Key, order: seq<string>)
    requires HasShape(ts, tbl)
    requires forall n :: n in order ==> n in ts
    requires forall i, j :: 0 <= i < j < |order| ==> order[i] != order[j]
    ensures var (tbl', err) := InsertIndexes(ts, tbl, existing, obj, id, order);
            && HasShape(ts, tbl')
            && (err.None? <==> forall n :: n in order ==> InsertError(n, ts[n], existing, obj).None?)
            && (forall n :: n in ts && n !in order ==> tbl'[n] == tbl[n])
            && (err.None? ==> forall n :: n in order ==> tbl'[n] == InsertTree(ts[n], tbl[n], existing, obj, id))
            && (forall n :: n in ts ==> tbl'[n] == tbl[n] || tbl'[n] == InsertTree(ts[n], tbl[n], existing, obj, id))
  {
    if order != [] {
      var n := order[0];
      var tbl1 := tbl[n := InsertTree(ts[n], tbl[n], existing, obj, id)];
      if InsertError(n, ts[n], existing, obj).None? {
        InsertIndexesClosed(ts, tbl1, existing, obj, id, order[1..]);
        assert forall m :: m in order <==> m == n || m in order[1..];
        assert n !in order[1..];
      }
    }
  }

  /** Map-order independence of `Insert`: whether it succeeds, and the state it then leaves,
      do not depend on the order in which the indexes are visited. */
  lemma InsertOrderIndependent(ts: TableSchema, tbl: Table, obj: Object, order: seq<string>)
    requires ValidTable(ts) && HasShape(ts, tbl) && IsOrder(order, ts.Keys)
    ensures Succeeds(Insert(ts, tbl, obj, order)) <==> Insertable(ts, tbl, obj)
    ensures Insertable(ts, tbl, obj) ==> Insert(ts, tbl, obj, order).0 == Inserted(ts, tbl, obj)
    ensures HasShape(ts, Insert(ts, tbl, obj, order).0)
  {
    hide InsertIndexes, InsertTree, InsertError;
    if PrimaryKey(ts, obj).Some? {
      var id := PrimaryKey(ts, obj).value;
      InsertIndexesClosed(ts, tbl, Existing(tbl, id), obj, id, order);
      if Insertable(ts, tbl, obj) {
        assert InsertIndexes(ts, tbl, Existing(tbl, id), obj, id, order).0 == Inserted(ts, tbl, obj);
      }
    }
  }

  /** Skipping a delete is invisible: whatever order the old and the new keys come in, and
      however often they repeat, the tree ends as if every old key had been deleted first. */
  lemma SkippedDeleteIsInvisible(t: Tree<Object>, was: seq<Key>, vals: seq<Key>, obj: Object)
    ensures PutAll(t - Stale(was, vals), vals, obj) == PutAll(t - (set k | k in was), vals, obj)
  {
    var a := PutAll(t - Stale(was, vals), vals, obj);
    var b := PutAll(t - (set k | k in was), vals, obj);
    forall k ensures k in a <==> k in b {
      if k in was && k !in Stale(was, vals) {
        var i :| 0 <= i < |was| && was[i] == k;
        assert i < |vals| && vals[i] == k;
      }
    }
  }

  /** The entry a successful insert appends to the change log. */
  function InsertChange(table: string, ts: TableSchema, tbl: Table, obj: Object): Change
    requires ValidTable(ts) && HasShape(ts, tbl) && PrimaryKey(ts, obj).Some?
  {
    var id := PrimaryKey(ts, obj).value;
    Change(table, Existing(tbl, id), Some(obj), id)
  }

  // ---------------------------------------------------------------- delete

  function Elements(ks: seq<Key>): set<Key> {
    set k | k in ks
  }

  function DeleteTree(ix: IndexSchema, t: Tree<Object>, existing: Object, id: Key): Tree<Object> {
    t - Elements(StoredKeys(ix, existing, id))
  }

  /** The loop that takes an object out of a table's indexes. `Delete` skips none of them,
      `DeletePrefix` skips the index whose subtree it removes afterwards. */
  function DeleteIndexes(ts: TableSchema, tbl: Table, existing: Object, id: Key, order: seq<string>,
                         skip: set<string>): (Table, Option<Error>)
    requires HasShape(ts, tbl)
    requires forall n :: n in order ==> n in ts
  {
    if order == [] then (tbl, None)
    else
      var n := order[0];
      if n in skip then DeleteIndexes(ts, tbl, existing, id, order[1..], skip)
      else if ts[n].fromObject(existing).Failed? then (tbl, Some(IndexFailed(n)))
      else DeleteIndexes(ts, tbl[n := DeleteTree(ts[n], tbl[n], existing, id)], existing, id, order[1..], skip)
  }

  /** `Txn.Delete` on one table. The object removed is the stored one, which need not equal
      the argument. */
  function Delete(ts: TableSchema, tbl: Table, obj: Object, order: seq<string>): (Table, Option<Error>)
    requires ValidTable(ts) && HasShape(ts, tbl) && IsOrder(order, ts.Keys)
  {
    if ts[ID].fromObject(obj).Failed? then (tbl, Some(PrimaryFailed))
    else if PrimaryKey(ts, obj).None? then (tbl, Some(PrimaryMissing))
    else
      var id := PrimaryKey(ts, obj).value;
      if Existing(tbl, id).None? then (tbl, Some(NotFound))
      else DeleteIndexes(ts, tbl, Existing(tbl, id).value, id, order, {})
  }

  predicate Deletable(ts: TableSchema, tbl: Table, obj: Object)
    requires ValidTable(ts) && HasShape(ts, tbl)
  {
    && PrimaryKey(ts, obj).Some?
    && var existing := Existing(tbl, PrimaryKey(ts, obj).value);
    && existing.Some?
    && forall n :: n in ts ==> !ts[n].fromObject(existing.value).Failed?
  }

  function Deleted(ts: TableSchema, tbl: Table, existing: Object, id: Key): Table
    requires HasShape(ts, tbl)
  {
    map n | n in ts :: DeleteTree(ts[n], tbl[n], existing, id)
  }

  lemma {:induction false} DeleteIndexesClosed(ts: TableSchema, tbl: Table, existing: Object, id: Key, order: seq<string>,
                                               skip: set<string>)
    requires HasShape(ts, tbl)
    requires forall n :: n in order ==> n in ts
    requires forall i, j :: 0 <= i < j < |order| ==> order[i] != order[j]
    ensures var (tbl', err) := DeleteIndexes(ts, tbl, existing, id, order, skip);
            && HasShape(ts, tbl')
            && (err.None? <==> forall n :: n in order && n !in skip ==> !ts[n].fromObject(existing).Failed?)
            && (forall n :: n in ts && (n !in order || n in skip) ==> tbl'[n] == tbl[n])
            && (err.None? ==> forall n :: n in order && n !in skip ==> tbl'[n] == DeleteTree(ts[n], tbl[n], existing, id))
  {
    if order != [] {
      var n := order[0];
      assert forall m :: m in order <==> m == n || m in order[1..];
      assert n !in order[1..];
      if n in skip {
        DeleteIndexesClosed(ts, tbl, existing, id, order[1..], skip);
      } else if !ts[n].fromObject(existing).Failed? {
        DeleteIndexesClosed(ts, tbl[n := DeleteTree(ts[n], tbl[n], existing, id)], existing, id, order[1..], skip);
      }
    }
  }

  /** Map-order independence of `Delete`. */
  lemma DeleteOrderIndependent(ts: TableSchema, tbl: Table, obj: Object, order: seq<string>)
    requires ValidTable(ts) && HasShape(ts, tbl) && IsOrder(order, ts.Keys)
    ensures Succeeds(Delete(ts, tbl, obj, order)) <==> Deletable(ts, tbl, obj)
    ensures Deletable(ts, tbl, obj) ==>
              var id := PrimaryKey(ts, obj).value;
              Delete(ts, tbl, obj, order).0 == Deleted(ts, tbl, tbl[ID][id], id)
    ensures HasShape(ts, Delete(ts, tbl, obj, order).0)
  {
    hide DeleteIndexes;
    if PrimaryKey(ts, obj).Some? {
      var id := PrimaryKey(ts, obj).value;
      if id in tbl[ID] {
        var existing := tbl[ID][id];
        DeleteIndexesClosed(ts, tbl, existing, id, order, {});
        if Deletable(ts, tbl, obj) {
          assert DeleteIndexes(ts, tbl, existing, id, order, {}).0 == Deleted(ts, tbl, existing, id);
        }
      }
    }
  }
}
