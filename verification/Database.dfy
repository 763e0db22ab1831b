/**
 `MemDB` and `Txn`: the imperative store. Every mutating method is specified by the effect its
 operation has on everything the transaction can read (`Contents`), as defined in `Ops`.
 */
module Database {
  import opened Bytes
  import opened Radix
  import opened Schema
  import opened Store
  import opened BulkDelete
  import opened Overlay
  import opened Ops
  import opened Query
  import opened Runs
  import opened Lookup
  import ChangeLog

  lemma EmptyView(schema: DBSchema, root: Root)
    requires HasPaths(schema, root)
    requires forall p :: p in root ==> root[p] == map[]
    ensures View(schema, root, map[]) == EmptyContent(schema)
  {
    forall t, n | t in schema && n in schema[t] ensures View(schema, root, map[])[t][n] == map[] {
      assert InSchema(schema, TableIndex(t, n));
    }
    SameContent(schema, View(schema, root, map[]), EmptyContent(schema));
  }

  class MemDB {
    const schema: DBSchema
    const primary: bool
    var root: Root
    var locked: bool

    ghost predicate Valid()
      reads this
    {
      ValidSchema(schema) && HasPaths(schema, root)
    }

    /** What a new reader sees. */
    ghost function Committed(): Content
      requires Valid()
      reads this
    {
      View(schema, root, map[])
    }

    /** `NewMemDB` for a schema that validates; every index starts as an empty tree. */
    constructor (schema: DBSchema)
      requires ValidSchema(schema)
      ensures Valid() && this.schema == schema && primary && !locked
      ensures Committed() == EmptyContent(schema)
    {
      this.schema := schema;
      primary := true;
      root := map[];
      locked := false;
      new;
      hide ValidSchema, View;
      var tables := schema.Keys;
      while tables != {}
        invariant tables <= schema.Keys
        invariant forall ti :: InSchema(schema, ti) && ti.table !in tables ==> KeyPath(ti) in root
        invariant forall p :: p in root ==> root[p] == map[]
        invariant !locked
        decreases |tables|
      {
        var t :| t in tables;
        var indexes := schema[t].Keys;
        while indexes != {}
          invariant indexes <= schema[t].Keys
          invariant forall ti :: InSchema(schema, ti) && ti.table !in tables ==> KeyPath(ti) in root
          invariant forall n :: n in schema[t] && n !in indexes ==> PathOf(t, n) in root
          invariant forall p :: p in root ==> root[p] == map[]
          invariant !locked
          decreases |indexes|
        {
          var n :| n in indexes;
          root := root[PathOf(t, n) := map[]];
          indexes := indexes - {n};
        }
        tables := tables - {t};
      }
      EmptyView(schema, root);
    }

    constructor Clone(schema: DBSchema, root: Root)
      ensures this.schema == schema && this.root == root && !primary && !locked
    {
      this.schema := schema;
      this.root := root;
      primary := false;
      locked := false;
    }

    /** `MemDB.Txn`. Taking the writer lock blocks while it is held, so a write transaction
        begins in a state where the lock is free. */
    method Begin(write: bool) returns (txn: Txn)
      requires Valid() && (write ==> !locked)
      modifies this`locked
      ensures fresh(txn) && txn.Valid() && txn.db == this && txn.write == write
      ensures txn.rootTxn == Some(root) && txn.modified == map[] && txn.changes == None
      ensures txn.Contents() == Committed()
      ensures locked == (old(locked) || write)
    {
      if write {
        locked := true;
      }
      txn := new Txn(this, write, root);
    }

    /** `MemDB.Snapshot`: an independent database with the same contents. */
    method Snapshot() returns (clone: MemDB)
      requires Valid()
      ensures fresh(clone) && clone.Valid() && clone.schema == schema && !clone.primary && !clone.locked
      ensures clone.root == root && clone.Committed() == Committed()
    {
      clone := new MemDB.Clone(schema, root);
    }
  }

  // ---------------------------------------------------------------- loop steps

  lemma StaleStep(was: seq<Key>, vals: seq<Key>, i: nat)
    requires i < |was|
    ensures Stale(was[..i + 1], vals)
            == Stale(was[..i], vals) + (if i >= |vals| || was[i] != vals[i] then {was[i]} else {})
  {
    var a := was[..i + 1];
    forall k ensures k in Stale(a, vals) <==>
                     k in Stale(was[..i], vals) || ((i >= |vals| || was[i] != vals[i]) && k == was[i])
    {
      if k in Stale(a, vals) {
        var j :| 0 <= j < |a| && (j >= |vals| || a[j] != vals[j]) && a[j] == k;
        assert j < i ==> was[..i][j] == k;
      }
      if k in Stale(was[..i], vals) {
        var j :| 0 <= j < i && (j >= |vals| || was[..i][j] != vals[j]) && was[..i][j] == k;
        assert a[j] == k;
      }
      assert a[i] == was[i];
    }
  }

  lemma PutAllStep(t: Tree<Object>, ks: seq<Key>, i: nat, obj: Object)
    requires i < |ks|
    ensures PutAll(t, ks[..i + 1], obj) == PutAll(t, ks[..i], obj)[ks[i] := obj]
  {
    assert ks[..i + 1] == ks[..i] + [ks[i]];
  }

  lemma NoChange(c: Content, table: string)
    requires table in c
    ensures c[table := c[table]] == c
  {
  }

  lemma TableStep(schema: DBSchema, root: Root, modified: Modified, ti: TableIndex, tree: Tree<Object>, tbl: Table)
    requires InSchema(schema, ti)
    ensures var c := View(schema, root, modified);
            var c' := View(schema, root, modified[ti := tree]);
            && c'[ti.table] == c[ti.table][ti.index := tree]
            && c'[ti.table := tbl] == c[ti.table := tbl]
  {
    ViewUpdate(schema, root, modified, ti, tree);
  }

  /** The insert loop on the overlay. */
  function InsertLoop(ts: TableSchema, root: Root, modified: Modified, table: string, existing: Option<Object>,
                      obj: Object, id: Key, order: seq<string>): (Modified, Option<Error>)
    requires forall n :: n in order ==> n in ts
    decreases order
  {
    if order == [] then (modified, None)
    else
      var n := order[0];
      var ti := TableIndex(table, n);
      var modified' := modified[ti := InsertTree(ts[n], ReadIndex(root, modified, ti), existing, obj, id)];
      var err := InsertError(n, ts[n], existing, obj);
      if err.Some? then (modified', err)
      else InsertLoop(ts, root, modified', table, existing, obj, id, order[1..])
  }

  lemma {:induction false} InsertLoopView(schema: DBSchema, root: Root, modified: Modified, table: string,
                                          existing: Option<Object>, obj: Object, id: Key, order: seq<string>)
    requires table in schema && OnSchema(schema, modified)
    requires forall n :: n in order ==> n in schema[table]
    ensures var ts := schema[table];
            var c := View(schema, root, modified);
            var (modified', err) := InsertLoop(ts, root, modified, table, existing, obj, id, order);
            var (tbl, err') := InsertIndexes(ts, c[table], existing, obj, id, order);
            && OnSchema(schema, modified')
            && err == err'
            && View(schema, root, modified') == c[table := tbl]
    decreases order
  {
    var c := View(schema, root, modified);
    if order == [] {
      NoChange(c, table);
    } else {
      var n := order[0];
      var ti := TableIndex(table, n);
      var tree := InsertTree(schema[table][n], ReadIndex(root, modified, ti), existing, obj, id);
      var tbl1 := c[table][n := tree];
      if InsertError(n, schema[table][n], existing, obj).None? {
        TableStep(schema, root, modified, ti, tree,
                  InsertIndexes(schema[table], tbl1, existing, obj, id, order[1..]).0);
        InsertLoopView(schema, root, modified[ti := tree], table, existing, obj, id, order[1..]);
      } else {
        TableStep(schema, root, modified, ti, tree, tbl1);
        NoChange(View(schema, root, modified[ti := tree]), table);
      }
    }
  }

  lemma AppendedTwice(changes: Option<seq<Change>>, a: seq<Change>, b: seq<Change>)
    ensures Appended(Appended(changes, a), b) == Appended(changes, a + b)
  {
    if changes.Some? {
      assert changes.value + a + b == changes.value + (a + b);
    }
  }

  /** The body of `Insert` once the primary key is known, on the overlay. */
  function UpsertLoop(ts: TableSchema, root: Root, modified: Modified, table: string, obj: Object, id: Key,
                      order: seq<string>): (Modified, Option<Error>)
    requires forall n :: n in order ==> n in ts
  {
    var touched := modified[TableIndex(table, ID) := ReadIndex(root, modified, TableIndex(table, ID))];
    InsertLoop(ts, root, touched, table, Stored(root, modified, table, id), obj, id, order)
  }

  /** The object the primary index holds under a key. */
  function Stored(root: Root, modified: Modified, table: string, id: Key): Option<Object> {
    var t := ReadIndex(root, modified, TableIndex(table, ID));
    if id in t then Some(t[id]) else None
  }

  lemma UpsertView(schema: DBSchema, root: Root, modified: Modified, table: string, obj: Object, id: Key, order: seq<string>)
    requires table in schema && ID in schema[table] && OnSchema(schema, modified)
    requires forall n :: n in order ==> n in schema[table]
    ensures var c := View(schema, root, modified);
            var (modified', err) := UpsertLoop(schema[table], root, modified, table, obj, id, order);
            var r := UpsertEffect(schema[table], c, table, obj, id, order);
            && OnSchema(schema, modified')
            && View(schema, root, modified') == r.c && err == r.err
            && r.log == if err.Some? then [] else [Change(table, Stored(root, modified, table, id), Some(obj), id)]
  {
    var key := TableIndex(table, ID);
    var touched := modified[key := ReadIndex(root, modified, key)];
    ViewTouch(schema, root, modified, key);
    InsertLoopView(schema, root, touched, table, Stored(root, modified, table, id), obj, id, order);
  }

  function Appended(changes: Option<seq<Change>>, log: seq<Change>): (r: Option<seq<Change>>)
    ensures log == [] ==> r == changes
  {
    assert changes.Some? ==> changes.value + [] == changes.value;
    if changes.Some? then Some(changes.value + log) else None
  }

  /** The loop that clears a table's indexes, on the overlay. */
  function RemoveLoop(ts: TableSchema, root: Root, modified: Modified, table: string, existing: Object, id: Key,
                      order: seq<string>, skip: set<string>): (Modified, Option<Error>)
    requires forall n :: n in order ==> n in ts
    decreases order
  {
    if order == [] then (modified, None)
    else if order[0] in skip then RemoveLoop(ts, root, modified, table, existing, id, order[1..], skip)
    else
      var n := order[0];
      var ti := TableIndex(table, n);
      var t := ReadIndex(root, modified, ti);
      if ts[n].fromObject(existing).Failed? then (modified[ti := t], Some(IndexFailed(n)))
      else RemoveLoop(ts, root, modified[ti := DeleteTree(ts[n], t, existing, id)], table, existing, id, order[1..], skip)
  }

  lemma {:induction false} RemoveLoopView(schema: DBSchema, root: Root, modified: Modified, table: string,
                                          existing: Object, id: Key, order: seq<string>, skip: set<string>)
    requires table in schema && OnSchema(schema, modified)
    requires forall n :: n in order ==> n in schema[table]
    ensures var ts := schema[table];
            var c := View(schema, root, modified);
            var (modified', err) := RemoveLoop(ts, root, modified, table, existing, id, order, skip);
            var (tbl, err') := DeleteIndexes(ts, c[table], existing, id, order, skip);
            && OnSchema(schema, modified')
            && err == err'
            && View(schema, root, modified') == c[table := tbl]
    decreases order
  {
    var c := View(schema, root, modified);
    if order == [] {
      NoChange(c, table);
    } else if order[0] in skip {
      RemoveLoopView(schema, root, modified, table, existing, id, order[1..], skip);
    } else {
      var n := order[0];
      var ti := TableIndex(table, n);
      var tree := DeleteTree(schema[table][n], ReadIndex(root, modified, ti), existing, id);
      if schema[table][n].fromObject(existing).Failed? {
        ViewTouch(schema, root, modified, ti);
        NoChange(c, table);
      } else {
        TableStep(schema, root, modified, ti, tree,
                  DeleteIndexes(schema[table], c[table][n := tree], existing, id, order[1..], skip).0);
        RemoveLoopView(schema, root, modified[ti := tree], table, existing, id, order[1..], skip);
      }
    }
  }

  /** The body of `Delete` once the primary key is known, on the overlay. */
  function EraseLoop(ts: TableSchema, root: Root, modified: Modified, table: string, id: Key, order: seq<string>)
    : (Modified, Option<Error>)
    requires forall n :: n in order ==> n in ts
  {
    var touched := modified[TableIndex(table, ID) := ReadIndex(root, modified, TableIndex(table, ID))];
    var existing := Stored(root, modified, table, id);
    if existing.None? then (touched, Some(NotFound))
    else RemoveLoop(ts, root, touched, table, existing.value, id, order, {})
  }

  lemma EraseView(schema: DBSchema, root: Root, modified: Modified, table: string, id: Key, order: seq<string>)
    requires table in schema && ID in schema[table] && OnSchema(schema, modified)
    requires forall n :: n in order ==> n in schema[table]
    ensures var c := View(schema, root, modified);
            var (modified', err) := EraseLoop(schema[table], root, modified, table, id, order);
            var r := RemoveEffect(schema[table], c, table, id, order);
            && OnSchema(schema, modified')
            && View(schema, root, modified') == r.c && err == r.err
            && r.log == if err.Some? then [] else [Change(table, Stored(root, modified, table, id), None, id)]
  {
    var key := TableIndex(table, ID);
    var touched := modified[key := ReadIndex(root, modified, key)];
    ViewTouch(schema, root, modified, key);
    var existing := Stored(root, modified, table, id);
    if existing.Some? {
      RemoveLoopView(schema, root, touched, table, existing.value, id, order, {});
    }
  }

  lemma ProperSubtree(schema: DBSchema, table: string, index: string, prefix: Key, orders: nat -> seq<string>)
    requires ProperOp(schema, Op.DeletePrefix(table, index, prefix, orders)) && table in schema
    ensures AreOrders(orders, schema[table].Keys)
  {
  }

  lemma CompactionTells(log: seq<Change>)
    ensures forall p, q :: Tells(p, q, log) ==>
              Tells(p, q, ChangeLog.Compacted(log)) && ChangeLog.Describes(p, q, ChangeLog.Compacted(log))
  {
    hide *;
    forall p, q | Tells(p, q, log)
      ensures Tells(p, q, ChangeLog.Compacted(log)) && ChangeLog.Describes(p, q, ChangeLog.Compacted(log))
    {
      CompactedTells(p, q, log);
    }
  }

  /** A tracked log after one more tidy operation. */
  lemma LogGoesOn(schema: DBSchema, c: Content, op: Op, changes: Option<seq<Change>>)
    requires ValidSchema(schema) && ContentHasShape(schema, c) && ProperOp(schema, op)
    ensures AllConsistent(schema, c) && Tidy(schema, c, op) && changes.Some? ==>
              var r := Apply(schema, c, op);
              && AllConsistent(schema, r.c)
              && forall p :: Tells(p, PrimariesOf(schema, c), changes.value) ==>
                   Tells(p, PrimariesOf(schema, r.c), changes.value + r.log)
  {
    hide *;
    if AllConsistent(schema, c) && Tidy(schema, c, op) && changes.Some? {
      OpTells(schema, c, op, changes.value);
    }
  }

  class Txn {
    const db: MemDB
    const write: bool
    var rootTxn: Option<Root>
    var modified: Modified
    var changes: Option<seq<Change>>

    ghost predicate Valid()
      reads this`rootTxn, this`modified
    {
      && ValidSchema(db.schema)
      && (rootTxn.Some? ==> HasPaths(db.schema, rootTxn.value))
      && OnSchema(db.schema, modified)
      && (!write ==> rootTxn.Some? && modified == map[])
    }

    /** Operations on a finished write transaction dereference nil in the source. */
    ghost predicate Open()
      reads this`rootTxn, this`modified
    {
      Valid() && rootTxn.Some?
    }

    /** Everything this transaction reads: its private trees over its root. */
    ghost function Contents(): (c: Content)
      requires Open()
      reads this`rootTxn, this`modified
      ensures ContentHasShape(db.schema, c)
    {
      View(db.schema, rootTxn.value, modified)
    }

    /** Changes are tracked, and the log leads from `p` to what the primary indexes hold now. */
    ghost predicate Records(p: ChangeLog.Primaries)
      reads this`rootTxn, this`modified, this`changes
    {
      && Open() && AllConsistent(db.schema, Contents())
      && changes.Some? && Tells(p, PrimariesOf(db.schema, Contents()), changes.value)
    }

    /** A write of which the log can tell. */
    ghost predicate Allows(op: Op)
      reads this`rootTxn, this`modified
    {
      Open() && ProperOp(db.schema, op) && (write ==> Tidy(db.schema, Contents(), op))
    }

    constructor (db: MemDB, write: bool, root: Root)
      requires ValidSchema(db.schema) && HasPaths(db.schema, root)
      ensures Open() && this.db == db && this.write == write
      ensures rootTxn == Some(root) && modified == map[] && changes == None
    {
      this.db := db;
      this.write := write;
      rootTxn := Some(root);
      modified := map[];
      changes := None;
    }

    method TrackChanges()
      requires Valid()
      modifies this`changes
      ensures Valid()
      ensures changes == if old(changes).Some? then old(changes) else Some([])
      ensures old(changes).None? ==> forall p :: Tells(p, p, changes.value)
    {
      forall p: ChangeLog.Primaries ensures Tells(p, p, []) {
        NothingTold(p, []);
      }
      if changes.None? {
        changes := Some([]);
      }
    }

    /** `readableIndex`. */
    method ReadableIndex(table: string, index: string) returns (t: Tree<Object>)
      requires Open() && InSchema(db.schema, TableIndex(table, index))
      ensures t == Contents()[table][index]
    {
      var key := TableIndex(table, index);
      if write && key in modified {
        return modified[key];
      }
      t := rootTxn.value[PathOf(table, index)];
    }

    /** `writableIndex`: afterwards the index has a private tree with the same contents. */
    method WritableIndex(key: TableIndex)
      requires Open() && write && InSchema(db.schema, key)
      modifies this`modified
      ensures modified == old(modified)[key := ReadIndex(rootTxn.value, old(modified), key)]
    {
      if key !in modified {
        modified := modified[key := rootTxn.value[PathOf(key.table, key.index)]];
      }
    }

    /** The update loop: delete the old keys that the new values do not overwrite in place. */
    method DropStale(key: TableIndex, raw: seq<Key>, unique: bool, id: Key, vals: seq<Key>)
      requires key in modified
      modifies this`modified
      ensures modified == old(modified)[key := old(modified[key]) - Stale(if unique then raw else Suffixed(raw, id), vals)]
    {
      ghost var was := if unique then raw else Suffixed(raw, id);
      ghost var t := modified[key];
      var i := 0;
      assert t - Stale(was[..0], vals) == t;
      while i < |raw|
        invariant 0 <= i <= |raw| == |was|
        invariant key in modified && modified[key] == t - Stale(was[..i], vals)
        invariant modified == old(modified)[key := modified[key]]
      {
        var valExist := raw[i];
        if !unique {
          valExist := valExist + id;
        }
        StaleStep(was, vals, i);
        if i >= |vals| || valExist != vals[i] {
          modified := modified[key := modified[key] - {valExist}];
        }
        i := i + 1;
      }
      assert was[..i] == was;
    }

    method PutEach(key: TableIndex, vals: seq<Key>, obj: Object)
      requires key in modified
      modifies this`modified
      ensures modified == old(modified)[key := PutAll(old(modified[key]), vals, obj)]
    {
      ghost var t := modified[key];
      var j := 0;
      assert PutAll(t, vals[..0], obj) == t;
      while j < |vals|
        invariant 0 <= j <= |vals|
        invariant key in modified && modified[key] == PutAll(t, vals[..j], obj)
        invariant modified == old(modified)[key := modified[key]]
      {
        PutAllStep(t, vals, j, obj);
        modified := modified[key := modified[key][vals[j] := obj]];
        j := j + 1;
      }
      assert vals[..j] == vals;
    }

    /** One round of the insert loop on the private tree of one index. */
    method RewriteTree(key: TableIndex, ix: IndexSchema, obj: Object, existing: Option<Object>, id: Key)
      returns (err: Option<Error>)
      requires key in modified
      modifies this`modified
      ensures err == InsertError(key.index, ix, existing, obj)
      ensures modified == old(modified)[key := InsertTree(ix, old(modified[key]), existing, obj, id)]
    {
      ghost var t := modified[key];
      var e := ix.fromObject(obj);
      if e.Failed? {
        assert modified == old(modified)[key := t];
        return Some(IndexFailed(key.index));
      }
      var vals := if e.ok && !ix.unique then Suffixed(e.vals, id) else e.vals;
      if existing.Some? {
        var x := ix.fromObject(existing.value);
        if x.Failed? {
          assert modified == old(modified)[key := t];
          return Some(IndexFailed(key.index));
        }
        if x.ok {
          DropStale(key, x.vals, ix.unique, id, vals);
        }
      }
      assert modified == old(modified)[key := t - Stale(OldKeys(ix, existing, id), vals)] by {
        assert Stale([], vals) == {} && t - {} == t;
      }
      if !e.ok {
        return if ix.allowMissing then None else Some(ValueMissing(key.index));
      }
      PutEach(key, vals, obj);
      err := None;
    }

    method InsertIndex(key: TableIndex, obj: Object, existing: Option<Object>, id: Key) returns (err: Option<Error>)
      requires Open() && write && InSchema(db.schema, key)
      modifies this`modified
      ensures OnSchema(db.schema, modified)
      ensures err == InsertError(key.index, db.schema[key.table][key.index], existing, obj)
      ensures modified == old(modified)[key := InsertTree(db.schema[key.table][key.index],
                                                          ReadIndex(rootTxn.value, old(modified), key), existing, obj, id)]
    {
      hide InsertTree, InsertError;
      WritableIndex(key);
      err := RewriteTree(key, db.schema[key.table][key.index], obj, existing, id);
    }

    /** The loop of `Insert` over the table's indexes. */
    method InsertAll(table: string, obj: Object, existing: Option<Object>, id: Key, order: seq<string>)
      returns (err: Option<Error>)
      requires Open() && write && table in db.schema
      requires forall n :: n in order ==> n in db.schema[table]
      modifies this`modified
      ensures (modified, err)
              == InsertLoop(db.schema[table], rootTxn.value, old(modified), table, existing, obj, id, order)
    {
      hide InsertTree, InsertError, HasPaths, ValidSchema;
      var i := 0;
      while i < |order|
        invariant 0 <= i <= |order| && OnSchema(db.schema, modified)
        invariant InsertLoop(db.schema[table], rootTxn.value, modified, table, existing, obj, id, order[i..])
                  == InsertLoop(db.schema[table], rootTxn.value, old(modified), table, existing, obj, id, order)
      {
        err := InsertIndex(TableIndex(table, order[i]), obj, existing, id);
        if err.Some? {
          return;
        }
        assert order[i..][1..] == order[i + 1..];
        i := i + 1;
      }
      err := None;
    }

    /** `Txn.Insert`. */
    method Insert(table: string, obj: Object, order: seq<string>) returns (err: Option<Error>)
      requires Open() && ProperOp(db.schema, Op.Insert(table, obj, order))
      modifies this`modified, this`changes
      ensures Open()
      ensures !write ==> err == Some(ReadOnly) && modified == old(modified) && changes == old(changes)
      ensures write ==>
                var r := Apply(db.schema, old(Contents()), Op.Insert(table, obj, order));
                Contents() == r.c && err == r.err && changes == Appended(old(changes), r.log)
      ensures forall p :: old(Records(p) && Allows(Op.Insert(table, obj, order))) ==> Records(p)
    {
      hide Tells, Tidy, AllConsistent, PrimariesOf, View, HasPaths, OnSchema, InsertIndexes, DeleteIndexes,
           Apply, InsertEffect, DeleteEffect, Store.Insert, Store.Delete, UpsertLoop, EraseLoop, ContentHasShape;
      LogGoesOn(db.schema, Contents(), Op.Insert(table, obj, order), changes);
      if !write {
        return Some(ReadOnly);
      }
      ApplyInsert(db.schema, Contents(), table, obj, order);
      if table !in db.schema {
        return Some(NoSuchTable);
      }
      var e := db.schema[table][ID].fromObject(obj);
      assert SingleValue(e);
      if e.Failed? {
        return Some(PrimaryFailed);
      }
      if !e.ok {
        return Some(PrimaryMissing);
      }
      UpsertView(db.schema, rootTxn.value, modified, table, obj, e.vals[0], order);
      err := Upsert(table, obj, e.vals[0], order);
    }

    /** The lookup in the primary index with which `Insert` and `Delete` begin. */
    method Lookup(table: string, idVal: Key) returns (existing: Option<Object>)
      requires Open() && write && InSchema(db.schema, TableIndex(table, ID))
      modifies this`modified
      ensures Open()
      ensures modified == old(modified)[TableIndex(table, ID) := ReadIndex(rootTxn.value, old(modified), TableIndex(table, ID))]
      ensures existing == Stored(rootTxn.value, old(modified), table, idVal)
    {
      var idKey := TableIndex(table, ID);
      WritableIndex(idKey);
      var idTxn := modified[idKey];
      existing := if idVal in idTxn then Some(idTxn[idVal]) else None;
    }

    method Upsert(table: string, obj: Object, idVal: Key, order: seq<string>) returns (err: Option<Error>)
      requires Open() && write && InSchema(db.schema, TableIndex(table, ID))
      requires forall n :: n in order ==> n in db.schema[table]
      modifies this`modified, this`changes
      ensures (modified, err) == UpsertLoop(db.schema[table], rootTxn.value, old(modified), table, obj, idVal, order)
      ensures changes == Appended(old(changes), if err.Some? then [] else
                                    [Change(table, Stored(rootTxn.value, old(modified), table, idVal), Some(obj), idVal)])
    {
      var existing := Lookup(table, idVal);
      err := InsertAll(table, obj, existing, idVal, order);
      if err.None? && changes.Some? {
        changes := Some(changes.value + [Change(table, existing, Some(obj), idVal)]);
      }
    }

    // -------------------------------------------------------------- delete

    /** The loop that removes an object's keys from the private tree of one index. */
    method RemoveKeys(key: TableIndex, raw: seq<Key>, unique: bool, id: Key)
      requires key in modified
      modifies this`modified
      ensures modified == old(modified)[key := old(modified[key]) - Elements(if unique then raw else Suffixed(raw, id))]
    {
      ghost var was := if unique then raw else Suffixed(raw, id);
      ghost var t := modified[key];
      var i := 0;
      assert t - Elements(was[..0]) == t;
      while i < |raw|
        invariant 0 <= i <= |raw| == |was|
        invariant key in modified && modified[key] == t - Elements(was[..i])
        invariant modified == old(modified)[key := modified[key]]
      {
        var val := raw[i];
        if !unique {
          val := val + id;
        }
        assert was[..i + 1] == was[..i] + [val];
        modified := modified[key := modified[key] - {val}];
        i := i + 1;
      }
      assert was[..i] == was;
    }

    method ClearIndex(key: TableIndex, existing: Object, id: Key) returns (err: Option<Error>)
      requires Open() && write && InSchema(db.schema, key)
      modifies this`modified
      ensures OnSchema(db.schema, modified)
      ensures var ix := db.schema[key.table][key.index];
              var t := ReadIndex(rootTxn.value, old(modified), key);
              if ix.fromObject(existing).Failed? then
                err == Some(IndexFailed(key.index)) && modified == old(modified)[key := t]
              else
                err == None && modified == old(modified)[key := DeleteTree(ix, t, existing, id)]
    {
      hide HasPaths, ValidSchema;
      WritableIndex(key);
      var ix := db.schema[key.table][key.index];
      var e := ix.fromObject(existing);
      if e.Failed? {
        return Some(IndexFailed(key.index));
      }
      if e.ok {
        RemoveKeys(key, e.vals, ix.unique, id);
      } else {
        assert modified[key] - Elements(StoredKeys(ix, existing, id)) == modified[key];
      }
      err := None;
    }

    /** The loop of `Delete` and `DeletePrefix` over the table's indexes. */
    method ClearAll(table: string, existing: Object, id: Key, order: seq<string>, skip: set<string>)
      returns (err: Option<Error>)
      requires Open() && write && table in db.schema
      requires forall n :: n in order ==> n in db.schema[table]
      modifies this`modified
      ensures (modified, err)
              == RemoveLoop(db.schema[table], rootTxn.value, old(modified), table, existing, id, order, skip)
    {
      hide DeleteTree, HasPaths, ValidSchema;
      var i := 0;
      while i < |order|
        invariant 0 <= i <= |order| && OnSchema(db.schema, modified)
        invariant RemoveLoop(db.schema[table], rootTxn.value, modified, table, existing, id, order[i..], skip)
                  == RemoveLoop(db.schema[table], rootTxn.value, old(modified), table, existing, id, order, skip)
      {
        assert order[i..][1..] == order[i + 1..];
        if order[i] !in skip {
          err := ClearIndex(TableIndex(table, order[i]), existing, id);
          if err.Some? {
            return;
          }
        }
        i := i + 1;
      }
      err := None;
    }

    /** `Txn.Delete`. */
    method Delete(table: string, obj: Object, order: seq<string>) returns (err: Option<Error>)
      requires Open() && ProperOp(db.schema, Op.Delete(table, obj, order))
      modifies this`modified, this`changes
      ensures Open()
      ensures !write ==> err == Some(ReadOnly) && modified == old(modified) && changes == old(changes)
      ensures write ==>
                var r := Apply(db.schema, old(Contents()), Op.Delete(table, obj, order));
                Contents() == r.c && err == r.err && changes == Appended(old(changes), r.log)
      ensures forall p :: old(Records(p) && Allows(Op.Delete(table, obj, order))) ==> Records(p)
    {
      hide Tells, Tidy, AllConsistent, PrimariesOf, View, HasPaths, OnSchema, InsertIndexes, DeleteIndexes,
           Apply, InsertEffect, DeleteEffect, Store.Insert, Store.Delete, UpsertLoop, EraseLoop, ContentHasShape;
      LogGoesOn(db.schema, Contents(), Op.Delete(table, obj, order), changes);
      if !write {
        return Some(ReadOnly);
      }
      ApplyDelete(db.schema, Contents(), table, obj, order);
      if table !in db.schema {
        return Some(NoSuchTable);
      }
      var e := db.schema[table][ID].fromObject(obj);
      assert SingleValue(e);
      if e.Failed? {
        return Some(PrimaryFailed);
      }
      if !e.ok {
        return Some(PrimaryMissing);
      }
      EraseView(db.schema, rootTxn.value, modified, table, e.vals[0], order);
      err := Erase(table, e.vals[0], order);
    }

    method Erase(table: string, idVal: Key, order: seq<string>) returns (err: Option<Error>)
      requires Open() && write && InSchema(db.schema, TableIndex(table, ID))
      requires forall n :: n in order ==> n in db.schema[table]
      modifies this`modified, this`changes
      ensures (modified, err) == EraseLoop(db.schema[table], rootTxn.value, old(modified), table, idVal, order)
      ensures changes == Appended(old(changes), if err.Some? then [] else
                                    [Change(table, Stored(rootTxn.value, old(modified), table, idVal), None, idVal)])
    {
      var existing := Lookup(table, idVal);
      if existing.None? {
        return Some(NotFound);
      }
      err := ClearAll(table, existing.value, idVal, order, {});
      if err.None? && changes.Some? {
        changes := Some(changes.value + [Change(table, existing, None, idVal)]);
      }
    }

    // -------------------------------------------------------------- queries

    /** `Txn.Get`; the iterator, a snapshot of the index, is the list of rows it yields. */
    method Get(table: string, index: string, args: seq<Arg>) returns (err: Option<Error>, rows: seq<Object>)
      requires Open()
      ensures match Resolve(db.schema, table, index, args)
              case Bad(e) => err == Some(e) && rows == []
              case Found(name, val) => err == None && rows == Scan(Contents()[table], name, Seek(val))
      ensures err.Some? <==> forall n, p :: !Asks(db.schema, table, index, args, n, p)
      ensures forall n, p :: Asks(db.schema, table, index, args, n, p) ==> rows == Scan(Contents()[table], n, p)
    {
      QueryIsResolved(db.schema, table, index, args);
      match Resolve(db.schema, table, index, args)
      case Bad(e) =>
        return Some(e), [];
      case Found(name, val) =>
        var t := ReadableIndex(table, name);
        return None, Values(t, ScanPrefix(t, Seek(val)));
    }

    /** `Txn.GetReverse`: the same rows backwards. */
    method GetReverse(table: string, index: string, args: seq<Arg>) returns (err: Option<Error>, rows: seq<Object>)
      requires Open()
      ensures match Resolve(db.schema, table, index, args)
              case Bad(e) => err == Some(e) && rows == []
              case Found(name, val) => err == None && rows == Reverse(Scan(Contents()[table], name, Seek(val)))
      ensures err.Some? <==> forall n, p :: !Asks(db.schema, table, index, args, n, p)
      ensures forall n, p :: Asks(db.schema, table, index, args, n, p) ==> rows == Reverse(Scan(Contents()[table], n, p))
    {
      QueryIsResolved(db.schema, table, index, args);
      match Resolve(db.schema, table, index, args)
      case Bad(e) =>
        return Some(e), [];
      case Found(name, val) =>
        var t := ReadableIndex(table, name);
        return None, Reverse(Values(t, ScanPrefix(t, Seek(val))));
    }

    /** `Txn.First`: a direct lookup on a unique index, else the head of an iterator. */
    method First(table: string, index: string, args: seq<Arg>) returns (err: Option<Error>, row: Option<Object>)
      requires Open()
      ensures match Resolve(db.schema, table, index, args)
              case Bad(e) => err == Some(e) && row == None
              case Found(name, val) =>
                var t := Contents()[table][name];
                err == None && row == Fetch(t, FirstKey(t, Direct(db.schema[table][name], name, index, val), Seek(val)))
      ensures err.Some? <==> forall n, p :: !Asks(db.schema, table, index, args, n, p)
      ensures forall n, p :: Asks(db.schema, table, index, args, n, p) ==>
                IsFirst(db.schema[table][n], Contents()[table][n], index, args, n, p, row)
    {
      EndsFollow(db.schema, Contents(), table, index, args);
      hide View, ValidSchema, HasPaths, OnSchema, Resolve, Asks, IsFirst, IsLast, Seek;
      match Resolve(db.schema, table, index, args)
      case Bad(e) =>
        return Some(e), None;
      case Found(name, val) =>
        var t := ReadableIndex(table, name);
        if db.schema[table][name].unique && val.Some? && name == index {
          return None, if val.value in t then Some(t[val.value]) else None;
        }
        var ks := ScanPrefix(t, Seek(val));
        assert ks != [] ==> ks[0] in ks;
        return None, if ks == [] then None else Some(t[ks[0]]);
    }

    /** `Txn.Last`. */
    method Last(table: string, index: string, args: seq<Arg>) returns (err: Option<Error>, row: Option<Object>)
      requires Open()
      ensures match Resolve(db.schema, table, index, args)
              case Bad(e) => err == Some(e) && row == None
              case Found(name, val) =>
                var t := Contents()[table][name];
                err == None && row == Fetch(t, LastKey(t, Direct(db.schema[table][name], name, index, val), Seek(val)))
      ensures err.Some? <==> forall n, p :: !Asks(db.schema, table, index, args, n, p)
      ensures forall n, p :: Asks(db.schema, table, index, args, n, p) ==>
                IsLast(db.schema[table][n], Contents()[table][n], index, args, n, p, row)
    {
      EndsFollow(db.schema, Contents(), table, index, args);
      hide View, ValidSchema, HasPaths, OnSchema, Resolve, Asks, IsFirst, IsLast, Seek;
      match Resolve(db.schema, table, index, args)
      case Bad(e) =>
        return Some(e), None;
      case Found(name, val) =>
        var t := ReadableIndex(table, name);
        if db.schema[table][name].unique && val.Some? && name == index {
          return None, if val.value in t then Some(t[val.value]) else None;
        }
        var ks := ScanPrefix(t, Seek(val));
        assert ks != [] ==> ks[|ks| - 1] in ks;
        HeadOfReverse(ks);
        return None, if ks == [] then None else Some(t[ks[|ks| - 1]]);
    }

    /** `Txn.LowerBound`. */
    method LowerBound(table: string, index: string, args: seq<Arg>) returns (err: Option<Error>, rows: seq<Object>)
      requires Open()
      ensures match Resolve(db.schema, table, index, args)
              case Bad(e) => err == Some(e) && rows == []
              case Found(name, val) => err == None && rows == RowsFrom(Contents()[table], name, Seek(val))
      ensures err.Some? <==> forall n, p :: !Asks(db.schema, table, index, args, n, p)
      ensures forall n, p :: Asks(db.schema, table, index, args, n, p) ==> rows == RowsFrom(Contents()[table], n, p)
    {
      QueryIsResolved(db.schema, table, index, args);
      match Resolve(db.schema, table, index, args)
      case Bad(e) =>
        return Some(e), [];
      case Found(name, val) =>
        var t := ReadableIndex(table, name);
        return None, Values(t, ScanFrom(t, Seek(val)));
    }

    /** `Txn.ReverseLowerBound`. */
    method ReverseLowerBound(table: string, index: string, args: seq<Arg>) returns (err: Option<Error>, rows: seq<Object>)
      requires Open()
      ensures match Resolve(db.schema, table, index, args)
              case Bad(e) => err == Some(e) && rows == []
              case Found(name, val) => err == None && rows == RowsDownFrom(Contents()[table], name, Seek(val))
      ensures err.Some? <==> forall n, p :: !Asks(db.schema, table, index, args, n, p)
      ensures forall n, p :: Asks(db.schema, table, index, args, n, p) ==> rows == RowsDownFrom(Contents()[table], n, p)
    {
      QueryIsResolved(db.schema, table, index, args);
      match Resolve(db.schema, table, index, args)
      case Bad(e) =>
        return Some(e), [];
      case Found(name, val) =>
        var t := ReadableIndex(table, name);
        return None, Values(t, ScanDownFrom(t, Seek(val)));
    }

    // -------------------------------------------------------------- bulk deletion

    /** `Txn.DeleteAll`: collect the rows first, then delete them one by one. */
    method DeleteAll(table: string, index: string, args: seq<Arg>, orders: nat -> seq<string>)
      returns (num: nat, err: Option<Error>)
      requires Open() && ProperOp(db.schema, Op.DeleteAll(table, index, args, orders))
      modifies this`modified, this`changes
      ensures Open()
      ensures !write ==> err == Some(ReadOnly) && num == 0 && modified == old(modified) && changes == old(changes)
      ensures write ==>
                var r := Apply(db.schema, old(Contents()), Op.DeleteAll(table, index, args, orders));
                Contents() == r.c && err == r.err && num == r.count && changes == Appended(old(changes), r.log)
      ensures forall p :: old(Records(p) && Allows(Op.DeleteAll(table, index, args, orders))) ==> Records(p)
    {
      hide Apply, ProperOp, Resolve, DeleteAllLoop, ValidSchema, ContentHasShape, AreOrders, View, HasPaths, OnSchema;
      LogGoesOn(db.schema, Contents(), Op.DeleteAll(table, index, args, orders), changes);
      if !write {
        return 0, Some(ReadOnly);
      }
      ApplyDeleteAll(db.schema, Contents(), table, index, args, orders);
      var failed, iter := Get(table, index, args);
      if failed.Some? {
        return 0, failed;
      }
      var objs := Collect(iter);
      num, err := DeleteRows(table, objs, orders);
    }

    /** Put the rows of an iterator into a slice, so that deleting them is safe. */
    static method Collect(rows: seq<Object>) returns (objs: seq<Object>)
      ensures objs == rows
    {
      objs := [];
      var iter := rows;
      while iter != []
        invariant objs + iter == rows
        decreases iter
      {
        objs := objs + [iter[0]];
        iter := iter[1..];
      }
    }

    /** One round of the deletion loop, relative to what it has done so far. */
    method DeleteRow(table: string, obj: Object, order: seq<string>, ghost done: Effect, ghost before: Option<seq<Change>>)
      returns (err: Option<Error>)
      requires Open() && write && table in db.schema && IsOrder(order, db.schema[table].Keys)
      requires done.c == Contents() && changes == Appended(before, done.log)
      modifies this`modified, this`changes
      ensures Open()
      ensures var r := DeleteEffect(db.schema, done.c, table, obj, order);
              Contents() == r.c && err == r.err && changes == Appended(before, done.log + r.log)
    {
      hide Tells, Tidy, AllConsistent, PrimariesOf, View, HasPaths, OnSchema, IsOrder, DeleteOne, Allows, Records;
      AppendedTwice(before, done.log, DeleteEffect(db.schema, done.c, table, obj, order).log);
      err := Delete(table, obj, order);
    }

    method DeleteRows(table: string, objs: seq<Object>, orders: nat -> seq<string>) returns (num: nat, err: Option<Error>)
      requires Open() && write && table in db.schema && AreOrders(orders, db.schema[table].Keys)
      modifies this`modified, this`changes
      ensures Open()
      ensures var r := DeleteAllLoop(db.schema, old(Contents()), table, objs, orders, 0);
              Contents() == r.c && err == r.err && num == r.count && changes == Appended(old(changes), r.log)
    {
      hide DeleteAllLoop, DeleteEffect, ValidSchema, ContentHasShape, IsOrder, View, HasPaths, OnSchema;
      num := 0;
      ghost var goal := DeleteAllLoop(db.schema, Contents(), table, objs, orders, 0);
      ghost var done := Effect(Contents(), [], None, 0);
      assert objs[0..] == objs;
      FollowedUnits(goal, done.c);
      while num < |objs|
        invariant 0 <= num <= |objs| && Open()
        invariant done.c == Contents() && done.err == None && done.count == num
        invariant changes == Appended(old(changes), done.log)
        invariant goal == Followed(done, DeleteAllLoop(db.schema, done.c, table, objs[num..], orders, num))
      {
        DeleteAllLoopStep(db.schema, table, objs, orders, num, done);
        ghost var r := DeleteEffect(db.schema, done.c, table, objs[num], orders(num));
        err := DeleteRow(table, objs[num], orders(num), done, old(changes));
        done := Followed(done, r);
        if err.Some? {
          return;
        }
        num := num + 1;
      }
      DeleteAllLoopEnd(db.schema, done.c, table, orders, objs[num..], num);
      FollowedUnits(done, done.c);
      err := None;
    }

    method LogDeletion(table: string, idVal: Key)
      requires Open() && write && InSchema(db.schema, TableIndex(table, ID))
      modifies this`modified, this`changes
      ensures Open() && Contents() == old(Contents())
      ensures var existing := Existing(Contents()[table], idVal);
              changes == Appended(old(changes), if existing.Some? then [Change(table, existing, None, idVal)] else [])
    {
      hide HasPaths, ValidSchema;
      ViewTouch(db.schema, rootTxn.value, modified, TableIndex(table, ID));
      var existing := Lookup(table, idVal);
      if existing.Some? && changes.Some? {
        changes := Some(changes.value + [Change(table, existing, None, idVal)]);
      }
    }

    /** One entry of `DeletePrefix`: log the deletion when changes are tracked, then clear every
        index except the one whose subtree goes last. */
    method PurgeEntry(table: string, o: Object, n: string, order: seq<string>, ghost done: Effect,
                      ghost before: Option<seq<Change>>) returns (err: Option<Error>)
      requires Open() && write && table in db.schema && IsOrder(order, db.schema[table].Keys)
      requires done.c == Contents() && changes == Appended(before, done.log)
      modifies this`modified, this`changes
      ensures Open()
      ensures var r := PurgeEffect(db.schema, done.c, table, o, n, order);
              Contents() == r.c && err == r.err && changes == Appended(before, done.log + r.log)
    {
      hide View, HasPaths, OnSchema, KeyPath, DeleteIndexes, RemoveLoop;
      ghost var r := PurgeEffect(db.schema, done.c, table, o, n, order);
      AppendedTwice(before, done.log, r.log);
      NoChange(done.c, table);
      var e := db.schema[table][ID].fromObject(o);
      if e.Failed? {
        return Some(PrimaryFailed);
      }
      if !e.ok {
        return Some(PrimaryMissing);
      }
      var idVal := PrimaryOf(db.schema[table], o);
      if changes.Some? {
        LogDeletion(table, idVal);
      }
      assert changes == Appended(before, done.log + r.log);
      RemoveLoopView(db.schema, rootTxn.value, modified, table, o, idVal, order, {n});
      err := ClearAll(table, o, idVal, order, {n});
    }

    method PurgeEntries(table: string, entries: seq<Object>, n: string, orders: nat -> seq<string>)
      returns (err: Option<Error>)
      requires Open() && write && table in db.schema && AreOrders(orders, db.schema[table].Keys)
      modifies this`modified, this`changes
      ensures Open()
      ensures var r := PurgeLoop(db.schema, old(Contents()), table, entries, n, orders, 0);
              Contents() == r.c && err == r.err && changes == Appended(old(changes), r.log)
              && (err.None? ==> r.count == |entries|)
    {
      hide PurgeLoop, PurgeEffect, ValidSchema, ContentHasShape, IsOrder, View, HasPaths, OnSchema;
      var i := 0;
      ghost var goal := PurgeLoop(db.schema, Contents(), table, entries, n, orders, 0);
      ghost var done := Effect(Contents(), [], None, 0);
      assert entries[0..] == entries;
      FollowedUnits(goal, done.c);
      while i < |entries|
        invariant 0 <= i <= |entries| && Open()
        invariant done.c == Contents() && done.err == None && done.count == i
        invariant changes == Appended(old(changes), done.log)
        invariant goal == Followed(done, PurgeLoop(db.schema, done.c, table, entries[i..], n, orders, i))
      {
        PurgeLoopStep(db.schema, table, entries, n, orders, i, done);
        ghost var r := PurgeEffect(db.schema, done.c, table, entries[i], n, orders(i));
        err := PurgeEntry(table, entries[i], n, orders(i), done, old(changes));
        done := Followed(done, r);
        if err.Some? {
          return;
        }
        i := i + 1;
      }
      PurgeLoopEnd(db.schema, done.c, table, n, orders, entries[i..], i);
      FollowedUnits(done, done.c);
      err := None;
    }

    /** `Txn.DeletePrefix`. The result is whether anything was deleted; `Panicked` stands for
        the panic when the subtree removal finds nothing. */
    method DeletePrefix(table: string, index: string, prefix: Key, orders: nat -> seq<string>)
      returns (found: bool, err: Option<Error>)
      requires Open() && ProperOp(db.schema, Op.DeletePrefix(table, index, prefix, orders))
      modifies this`modified, this`changes
      ensures Open()
      ensures !write ==> err == Some(ReadOnly) && !found && modified == old(modified) && changes == old(changes)
      ensures write ==>
                var r := Apply(db.schema, old(Contents()), Op.DeletePrefix(table, index, prefix, orders));
                && Contents() == r.c && err == r.err && changes == Appended(old(changes), r.log)
                && found == (r.err.None? && r.count > 0)
      ensures forall p :: old(Records(p) && Allows(Op.DeletePrefix(table, index, prefix, orders))) ==> Records(p)
    {
      hide Apply, ProperOp, SubtreeEffect, ValidSchema, ContentHasShape, IsOrder, AreOrders, View, HasPaths, OnSchema;
      LogGoesOn(db.schema, Contents(), Op.DeletePrefix(table, index, prefix, orders), changes);
      if !write {
        return false, Some(ReadOnly);
      }
      ApplyDeletePrefix(db.schema, Contents(), table, index, prefix, orders);
      if !IsPrefixName(index) {
        return false, Some(NotAPrefixIndex);
      }
      var failed, entries := Get(table, index, [Val(Str(prefix))]);
      if failed.Some? {
        return false, failed;
      }
      ProperSubtree(db.schema, table, index, prefix, orders);
      found, err := PurgeSubtree(table, IndexName(index), entries, prefix, orders);
    }

    method PurgeSubtree(table: string, n: string, entries: seq<Object>, prefix: Key, orders: nat -> seq<string>)
      returns (found: bool, err: Option<Error>)
      requires Open() && write && InSchema(db.schema, TableIndex(table, n)) && AreOrders(orders, db.schema[table].Keys)
      modifies this`modified, this`changes
      ensures Open()
      ensures var r := SubtreeEffect(db.schema, old(Contents()), table, n, entries, prefix, orders);
              && Contents() == r.c && err == r.err && changes == Appended(old(changes), r.log)
              && found == (r.err.None? && r.count > 0)
    {
      hide PurgeLoop, ValidSchema, IsOrder, AreOrders, View, HasPaths;
      err := PurgeEntries(table, entries, n, orders);
      if err.Some? || entries == [] {
        return false, err;
      }
      found := DropSubtree(table, n, prefix);
      if !found {
        return false, Some(Panicked);
      }
    }

    /** `DeletePrefix` of the radix tree on one index, and whether it removed anything. */
    method DropSubtree(table: string, n: string, prefix: Key) returns (ok: bool)
      requires Open() && write && InSchema(db.schema, TableIndex(table, n))
      modifies this`modified
      ensures Open()
      ensures var c := old(Contents());
              var doomed := WithPrefix(c[table][n], prefix);
              && ok == (doomed != {})
              && Contents() == if ok then c[table := c[table][n := c[table][n] - doomed]] else c
    {
      hide HasPaths, ValidSchema;
      var key := TableIndex(table, n);
      ViewTouch(db.schema, rootTxn.value, modified, key);
      WritableIndex(key);
      var t := modified[key];
      var doomed := WithPrefix(t, prefix);
      ok := doomed != {};
      if ok {
        ViewUpdate(db.schema, rootTxn.value, modified, key, t - doomed);
        modified := modified[key := t - doomed];
      }
    }

    /** Any one operation of a write transaction. */
    method Perform(op: Op) returns (err: Option<Error>)
      requires Open() && write && ProperOp(db.schema, op)
      modifies this`modified, this`changes
      ensures Open()
      ensures var r := Apply(db.schema, old(Contents()), op); Contents() == r.c && err == r.err
      ensures forall p :: old(Records(p) && Allows(op)) ==> Records(p)
    {
      hide Apply, Tells, Tidy, AllConsistent, PrimariesOf, View, HasPaths, OnSchema, ValidSchema, ContentHasShape, Records,
           Allows, IsOrder, AreOrders;
      match op
      case Insert(table, obj, order) => err := Insert(table, obj, order);
      case Delete(table, obj, order) => err := Delete(table, obj, order);
      case DeleteAll(table, index, args, orders) =>
        var _, e := DeleteAll(table, index, args, orders);
        err := e;
      case DeletePrefix(table, index, prefix, orders) =>
        var _, e := DeletePrefix(table, index, prefix, orders);
        err := e;
    }

    // -------------------------------------------------------------- the end of a transaction

    /** `Txn.Commit`; `order` is the order in which the runtime enumerates `modified`. The new
        root is stored in one step, and only then is the writer lock released. A second call,
        or a call on a read transaction, does nothing. */
    method Commit(order: seq<TableIndex>)
      requires Valid() && db.Valid() && IsKeyOrder(order, modified.Keys)
      requires write && rootTxn.Some? ==> db.locked
      modifies this`rootTxn, this`modified, db
      ensures Valid() && db.Valid()
      ensures !write || old(rootTxn).None? ==>
                rootTxn == old(rootTxn) && modified == old(modified) && db.root == old(db.root) && db.locked == old(db.locked)
      ensures write && old(rootTxn).Some? ==>
                && rootTxn == None && modified == map[] && !db.locked
                && db.root == Fold(old(rootTxn).value, old(modified), order)
                && (PathsInjective(db.schema) ==> db.Committed() == old(Contents()))
    {
      hide View, Fold, PathsInjective, ValidSchema, HasPaths;
      if !write || rootTxn.None? {
        return;
      }
      var root := FoldInto(rootTxn.value, order);
      FoldHasPaths(db.schema, rootTxn.value, modified, order);
      if PathsInjective(db.schema) {
        CommitShowsView(db.schema, rootTxn.value, modified, order);
      }
      db.root := root;
      rootTxn := None;
      modified := map[];
      db.locked := false;
    }

    /** The loop over `modified` in `Commit` and `Snapshot`. */
    method FoldInto(start: Root, order: seq<TableIndex>) returns (root: Root)
      requires forall ti :: ti in order ==> ti in modified
      ensures root == Fold(start, modified, order)
    {
      root := start;
      var i := 0;
      while i < |order|
        invariant 0 <= i <= |order|
        invariant Fold(root, modified, order[i..]) == Fold(start, modified, order)
      {
        assert order[i..][1..] == order[i + 1..];
        root := root[PathOf(order[i].table, order[i].index) := modified[order[i]]];
        i := i + 1;
      }
    }

    /** `Txn.Abort`: drop everything and release the lock, once. */
    method Abort()
      requires Valid()
      requires write && rootTxn.Some? ==> db.locked
      modifies this`rootTxn, this`modified, this`changes, db`locked
      ensures Valid()
      ensures !write || old(rootTxn).None? ==>
                rootTxn == old(rootTxn) && modified == old(modified) && changes == old(changes) && db.locked == old(db.locked)
      ensures write && old(rootTxn).Some? ==> rootTxn == None && modified == map[] && changes == None && !db.locked
    {
      if !write || rootTxn.None? {
        return;
      }
      rootTxn := None;
      modified := map[];
      changes := None;
      db.locked := false;
    }

    /** `Txn.Changes`: nothing when changes are not tracked, else the compacted log, which also
        replaces the log. Allowed after `Commit`, too. */
    method Changes() returns (cs: Option<seq<Change>>)
      modifies this`changes
      ensures cs == changes
      ensures changes == if old(changes).None? then None else Some(ChangeLog.Compacted(old(changes).value))
      ensures forall p, q :: old(changes).Some? && Tells(p, q, old(changes).value) ==>
                Tells(p, q, cs.value) && ChangeLog.Describes(p, q, cs.value)
      ensures forall p :: old(Records(p)) ==> Records(p)
    {
      hide Tells, AllConsistent, PrimariesOf, View, HasPaths, OnSchema, ValidSchema, ChangeLog.Describes, ChangeLog.Compacted;
      if changes.None? {
        return None;
      }
      var compacted := ChangeLog.Compact(changes.value);
      CompactionTells(changes.value);
      changes := Some(compacted);
      cs := changes;
    }

    /** `Txn.Snapshot`: a read-only transaction that sees what this one sees now; nothing when
        this transaction is finished. */
    method Snapshot(order: seq<TableIndex>) returns (snapshot: Txn?)
      requires Valid() && IsKeyOrder(order, modified.Keys)
      ensures snapshot == null <==> rootTxn.None?
      ensures snapshot != null ==>
                && fresh(snapshot) && snapshot.Open() && snapshot.db == db && !snapshot.write
                && snapshot.rootTxn == Some(Fold(rootTxn.value, modified, order)) && snapshot.modified == map[]
                && (PathsInjective(db.schema) ==> snapshot.Contents() == Contents())
    {
      if rootTxn.None? {
        return null;
      }
      var root := FoldInto(rootTxn.value, order);
      FoldHasPaths(db.schema, rootTxn.value, modified, order);
      if PathsInjective(db.schema) {
        CommitShowsView(db.schema, rootTxn.value, modified, order);
      }
      snapshot := new Txn(db, false, root);
    }
  }

  function PrimaryOf(ts: TableSchema, o: Object): (id: Key)
    requires ValidTable(ts) && PrimaryKey(ts, o).Some?
    ensures id == PrimaryKey(ts, o).value
  {
    assert SingleValue(ts[ID].fromObject(o));
    ts[ID].fromObject(o).vals[0]
  }

  // ---------------------------------------------------------------- tracked transactions

  /** What a caller may do in a tracked write transaction: any operation, and asking for the changes
      so far. */
  datatype Call = Do(op: Op) | Ask

  function OpsOf(calls: seq<Call>): seq<Op> {
    if calls == [] then []
    else
      var last := calls[|calls| - 1];
      OpsOf(calls[..|calls| - 1]) + if last.Do? then [last.op] else []
  }

  lemma OpsOfPrefix(calls: seq<Call>, i: nat)
    requires i < |calls|
    ensures OpsOf(calls[..i + 1]) == if calls[i].Do? then OpsOf(calls[..i]) + [calls[i].op] else OpsOf(calls[..i])
  {
    assert calls[..i + 1][..i] == calls[..i];
  }

  lemma {:induction false} OpsOfSplit(calls: seq<Call>, i: nat)
    requires i <= |calls|
    ensures OpsOf(calls[..i]) <= OpsOf(calls)
    decreases |calls| - i
  {
    if i == |calls| {
      assert calls[..i] == calls;
    } else {
      OpsOfPrefix(calls, i);
      OpsOfSplit(calls, i + 1);
    }
  }

  lemma {:induction false} TidyPrefix(schema: DBSchema, c: Content, ops: seq<Op>, a: seq<Op>, op: Op)
    requires TidyRun(schema, c, ops) && a + [op] <= ops
    ensures TidyRun(schema, c, a) && ProperOp(schema, op) && Tidy(schema, ApplyAll(schema, c, a), op)
    ensures ProperOps(schema, a + [op])
    ensures ApplyAll(schema, c, a + [op]) == Apply(schema, ApplyAll(schema, c, a), op).c
    decreases |ops|
  {
    hide Apply, Tidy, ProperOp, ContentHasShape, ValidSchema;
    if ops == a + [op] {
      assert ops[..|ops| - 1] == a && ops[|ops| - 1] == op;
      ApplyAllSnoc(schema, c, a, op);
    } else {
      TidyPrefix(schema, c, ops[..|ops| - 1], a, op);
    }
  }

  /** A write transaction that is tracked from its start, whatever its caller does in it as long as the
      operations are tidy: it reads the operations applied to what it began with, and `Changes`
      describes exactly the difference, however often it was asked before. */
  method RunTracked(db: MemDB, calls: seq<Call>) returns (txn: Txn, cs: Option<seq<Change>>)
    requires db.Valid() && !db.locked && AllConsistent(db.schema, db.Committed())
    requires TidyRun(db.schema, db.Committed(), OpsOf(calls))
    modifies db`locked
    ensures fresh(txn) && txn.Open()
    ensures txn.Contents() == ApplyAll(db.schema, old(db.Committed()), OpsOf(calls))
    ensures cs.Some?
            && ChangeLog.Describes(PrimariesOf(db.schema, old(db.Committed())), PrimariesOf(db.schema, txn.Contents()), cs.value)
  {
    hide Apply, ApplyAll, Tells, Tidy, AllConsistent, PrimariesOf, View, HasPaths, OnSchema, ValidSchema, ContentHasShape,
         TidyRun, ChangeLog.Describes, OpsOf, ProperOps, ProperOp;
    ghost var start := db.Committed();
    ghost var p := PrimariesOf(db.schema, start);
    txn := db.Begin(true);
    txn.TrackChanges();
    NoCalls(db.schema, start, calls[..0]);
    var i := 0;
    while i < |calls|
      invariant 0 <= i <= |calls| && fresh(txn) && txn.db == db && txn.write && txn.Open()
      invariant ProperOps(db.schema, OpsOf(calls[..i]))
      invariant txn.Contents() == ApplyAll(db.schema, start, OpsOf(calls[..i]))
      invariant txn.Records(p)
    {
      OpsOfPrefix(calls, i);
      OpsOfSplit(calls, i + 1);
      if calls[i].Do? {
        TidyPrefix(db.schema, start, OpsOf(calls), OpsOf(calls[..i]), calls[i].op);
        var _ := txn.Perform(calls[i].op);
      } else {
        var _ := txn.Changes();
      }
      i := i + 1;
    }
    assert calls[..i] == calls;
    cs := txn.Changes();
  }

  lemma NoCalls(schema: DBSchema, c: Content, none: seq<Call>)
    requires ValidSchema(schema) && ContentHasShape(schema, c) && none == []
    ensures ProperOps(schema, OpsOf(none)) && ApplyAll(schema, c, OpsOf(none)) == c
  {
  }
}
