/**
 Index agreement: every index of a table is the view that its primary index determines.

 `Sound`: each entry points to a live object that produces that key. `Complete`: each live
 object is filed under each of its keys. Soundness survives every operation; completeness
 survives an insert exactly when the insert does not take a key from another live object.
 */
module Agreement {
  import opened Bytes
  import opened Schema
  import opened Store

  ghost predicate IsLive(ts: TableSchema, tbl: Table, o: Object)
    requires ValidTable(ts) && HasShape(ts, tbl)
  {
    var pk := PrimaryKey(ts, o);
    pk.Some? && pk.value in tbl[ID] && tbl[ID][pk.value] == o
  }

  ghost predicate Sound(ts: TableSchema, tbl: Table)
    requires ValidTable(ts) && HasShape(ts, tbl)
  {
    forall n, k :: n in ts && k in tbl[n] ==> IsLive(ts, tbl, tbl[n][k]) && k in KeysOf(ts, n, tbl[n][k])
  }

  ghost predicate Complete(ts: TableSchema, tbl: Table)
    requires ValidTable(ts) && HasShape(ts, tbl)
  {
    forall n, o, k :: n in ts && IsLive(ts, tbl, o) && k in KeysOf(ts, n, o) ==> k in tbl[n] && tbl[n][k] == o
  }

  ghost predicate AllIndexable(ts: TableSchema, tbl: Table)
    requires ValidTable(ts) && HasShape(ts, tbl)
  {
    forall n, o :: n in ts && IsLive(ts, tbl, o) ==> Indexable(ts[n], o)
  }

  /** What every operation keeps that leaves no residue and no half-done work. */
  ghost predicate Consistent(ts: TableSchema, tbl: Table)
  {
    ValidTable(ts) && HasShape(ts, tbl) && Sound(ts, tbl) && AllIndexable(ts, tbl)
  }

  ghost predicate Agrees(ts: TableSchema, tbl: Table)
  {
    Consistent(ts, tbl) && Complete(ts, tbl)
  }

  function EmptyTable(ts: TableSchema): Table {
    map n | n in ts :: map[]
  }

  lemma EmptyAgrees(ts: TableSchema)
    requires ValidTable(ts)
    ensures Agrees(ts, EmptyTable(ts))
  {
  }

  /** In a table that agrees, the primary index determines every other index. */
  lemma AgreementDeterminesIndexes(ts: TableSchema, a: Table, b: Table)
    requires Agrees(ts, a) && Agrees(ts, b) && a[ID] == b[ID]
    ensures a == b
  {
    forall n | n in ts ensures a[n] == b[n] {
      forall k | k in a[n] ensures k in b[n] && b[n][k] == a[n][k] {
        assert IsLive(ts, b, a[n][k]);
      }
      forall k | k in b[n] ensures k in a[n] {
        assert IsLive(ts, a, b[n][k]);
      }
    }
  }

  lemma PrimaryEntry(ts: TableSchema, tbl: Table, id: Key)
    requires ValidTable(ts) && HasShape(ts, tbl) && Sound(ts, tbl) && id in tbl[ID]
    ensures PrimaryKey(ts, tbl[ID][id]) == Some(id)
    ensures IsLive(ts, tbl, tbl[ID][id])
  {
    var o := tbl[ID][id];
    assert id in KeysOf(ts, ID, o);
    assert SingleValue(ts[ID].fromObject(o));
  }

  lemma PrimaryStoredKeys(ts: TableSchema, o: Object)
    requires ValidTable(ts) && PrimaryKey(ts, o).Some?
    ensures StoredKeys(ts[ID], o, PrimaryKey(ts, o).value) == [PrimaryKey(ts, o).value]
    ensures ts[ID].fromObject(o) == Extract(true, [PrimaryKey(ts, o).value])
  {
    assert SingleValue(ts[ID].fromObject(o));
  }

  // ---------------------------------------------------------------- insert

  /** No value of an indexer that reported "missing" equals an old key at its position. */
  ghost predicate NoResidue(ix: IndexSchema, existing: Option<Object>, obj: Object, id: Key) {
    var e := ix.fromObject(obj);
    e.Extract? && !e.ok ==> forall k :: k in OldKeys(ix, existing, id) ==> k in Stale(OldKeys(ix, existing, id), e.vals)
  }

  ghost predicate LeavesNoResidue(ts: TableSchema, tbl: Table, obj: Object)
    requires ValidTable(ts) && HasShape(ts, tbl) && PrimaryKey(ts, obj).Some?
  {
    var id := PrimaryKey(ts, obj).value;
    forall n :: n in ts ==> NoResidue(ts[n], Existing(tbl, id), obj, id)
  }

  /** No other live object is filed under a key of `obj`. */
  ghost predicate NoCollision(ts: TableSchema, tbl: Table, obj: Object)
    requires ValidTable(ts) && HasShape(ts, tbl)
  {
    forall n, o :: n in ts && IsLive(ts, tbl, o) && PrimaryKey(ts, o) != PrimaryKey(ts, obj) ==>
      KeysOf(ts, n, o) !! KeysOf(ts, n, obj)
  }

  /** The condition under which an insert preserves agreement; a caller can test it first. */
  ghost predicate CleanInsert(ts: TableSchema, tbl: Table, obj: Object)
    requires ValidTable(ts) && HasShape(ts, tbl) && PrimaryKey(ts, obj).Some?
  {
    LeavesNoResidue(ts, tbl, obj) && NoCollision(ts, tbl, obj)
  }

  lemma PrimaryAfterInsert(ts: TableSchema, tbl: Table, obj: Object)
    requires Consistent(ts, tbl) && Insertable(ts, tbl, obj)
    ensures Inserted(ts, tbl, obj)[ID] == tbl[ID][PrimaryKey(ts, obj).value := obj]
  {
    hide Sound, AllIndexable;
    var id := PrimaryKey(ts, obj).value;
    var t := tbl[ID];
    PrimaryStoredKeys(ts, obj);
    assert Candidates(ts[ID], ts[ID].fromObject(obj), id) == [id];
    var was := OldKeys(ts[ID], Existing(tbl, id), id);
    assert was == [] || was == [id] by {
      if id in t {
        PrimaryEntry(ts, tbl, id);
        PrimaryStoredKeys(ts, t[id]);
      }
    }
    assert Stale(was, [id]) == {};
    assert t - {} == t;
    assert InsertError(ID, ts[ID], Existing(tbl, id), obj).None?;
    assert PutAll(t, [id], obj) == t[id := obj];
  }

  lemma LiveAfterInsert(ts: TableSchema, tbl: Table, obj: Object, o: Object)
    requires Consistent(ts, tbl) && Insertable(ts, tbl, obj)
    ensures IsLive(ts, Inserted(ts, tbl, obj), o) <==>
            o == obj || (IsLive(ts, tbl, o) && PrimaryKey(ts, o) != PrimaryKey(ts, obj))
  {
    PrimaryAfterInsert(ts, tbl, obj);
  }

  /** One index after an insert, entry by entry. */
  lemma EntryAfterInsert(ts: TableSchema, tbl: Table, obj: Object, n: string, k: Key)
    requires Consistent(ts, tbl) && Insertable(ts, tbl, obj) && n in ts
    requires var id := PrimaryKey(ts, obj).value; NoResidue(ts[n], Existing(tbl, id), obj, id)
    ensures var id := PrimaryKey(ts, obj).value;
            var t' := Inserted(ts, tbl, obj)[n];
            var gone := k in OldKeys(ts[n], Existing(tbl, id), id);
            && (k in KeysOf(ts, n, obj) ==> k in t' && t'[k] == obj)
            && (k !in KeysOf(ts, n, obj) ==> (k in t' <==> k in tbl[n] && !gone))
            && (k !in KeysOf(ts, n, obj) && k in t' ==> t'[k] == tbl[n][k])
  {
    var id := PrimaryKey(ts, obj).value;
    var e := ts[n].fromObject(obj);
    var was := OldKeys(ts[n], Existing(tbl, id), id);
    var vals := Candidates(ts[n], e, id);
    if k in was && k !in Stale(was, vals) {
      var i :| 0 <= i < |was| && was[i] == k;
      assert i < |vals| && vals[i] == k;
    }
    assert e.ok ==> StoredKeys(ts[n], obj, id) == vals;
  }

  lemma InsertKeepsIndexable(ts: TableSchema, tbl: Table, obj: Object)
    requires Consistent(ts, tbl) && Insertable(ts, tbl, obj)
    ensures AllIndexable(ts, Inserted(ts, tbl, obj))
  {
    forall n, o | n in ts && IsLive(ts, Inserted(ts, tbl, obj), o) ensures Indexable(ts[n], o) {
      LiveAfterInsert(ts, tbl, obj, o);
      assert InsertError(n, ts[n], Existing(tbl, PrimaryKey(ts, obj).value), obj).None?;
    }
  }

  /** Soundness survives every insert that leaves no residue, colliding or not. */
  lemma InsertKeepsSound(ts: TableSchema, tbl: Table, obj: Object)
    requires Consistent(ts, tbl) && Insertable(ts, tbl, obj) && LeavesNoResidue(ts, tbl, obj)
    ensures Consistent(ts, Inserted(ts, tbl, obj))
  {
    var tbl' := Inserted(ts, tbl, obj);
    forall n, k | n in ts && k in tbl'[n]
      ensures IsLive(ts, tbl', tbl'[n][k]) && k in KeysOf(ts, n, tbl'[n][k])
    {
      EntryAfterInsert(ts, tbl, obj, n, k);
      LiveAfterInsert(ts, tbl, obj, tbl'[n][k]);
      if k !in KeysOf(ts, n, obj) {
        var o := tbl[n][k];
        assert IsLive(ts, tbl, o) && k in KeysOf(ts, n, o);
      }
    }
    InsertKeepsIndexable(ts, tbl, obj);
  }

  lemma InsertKeepsComplete(ts: TableSchema, tbl: Table, obj: Object)
    requires Agrees(ts, tbl) && Insertable(ts, tbl, obj) && CleanInsert(ts, tbl, obj)
    ensures Complete(ts, Inserted(ts, tbl, obj))
  {
    var tbl' := Inserted(ts, tbl, obj);
    var id := PrimaryKey(ts, obj).value;
    forall n, o, k | n in ts && IsLive(ts, tbl', o) && k in KeysOf(ts, n, o)
      ensures k in tbl'[n] && tbl'[n][k] == o
    {
      LiveAfterInsert(ts, tbl, obj, o);
      EntryAfterInsert(ts, tbl, obj, n, k);
      var mine := k in OldKeys(ts[n], Existing(tbl, id), id);
      if mine {
        PrimaryEntry(ts, tbl, id);
      }
      assert mine ==> k in KeysOf(ts, n, tbl[ID][id]);
      assert o != obj ==> KeysOf(ts, n, o) !! KeysOf(ts, n, obj);
      assert o != obj ==> k in tbl[n] && tbl[n][k] == o;
    }
  }

  lemma AgreementAfterInsertIsClean(ts: TableSchema, tbl: Table, obj: Object)
    requires Agrees(ts, tbl) && Insertable(ts, tbl, obj) && Agrees(ts, Inserted(ts, tbl, obj))
    ensures CleanInsert(ts, tbl, obj)
  {
    var tbl' := Inserted(ts, tbl, obj);
    var id := PrimaryKey(ts, obj).value;
    LiveAfterInsert(ts, tbl, obj, obj);
    forall n, o, k | n in ts && IsLive(ts, tbl, o) && PrimaryKey(ts, o) != PrimaryKey(ts, obj) && k in KeysOf(ts, n, o)
      ensures k !in KeysOf(ts, n, obj)
    {
      LiveAfterInsert(ts, tbl, obj, o);
      assert tbl'[n][k] == o;
    }
    forall n | n in ts ensures NoResidue(ts[n], Existing(tbl, id), obj, id) {
      AgreementLeavesNoResidue(ts, tbl, obj, n);
    }
  }

  lemma AgreementLeavesNoResidue(ts: TableSchema, tbl: Table, obj: Object, n: string)
    requires Agrees(ts, tbl) && Insertable(ts, tbl, obj) && n in ts
    requires Consistent(ts, Inserted(ts, tbl, obj))
    ensures var id := PrimaryKey(ts, obj).value; NoResidue(ts[n], Existing(tbl, id), obj, id)
  {
    var id := PrimaryKey(ts, obj).value;
    var e := ts[n].fromObject(obj);
    var existing := Existing(tbl, id);
    var was := OldKeys(ts[n], existing, id);
    var tbl' := Inserted(ts, tbl, obj);
    if !e.ok && existing.Some? {
      var x := existing.value;
      PrimaryEntry(ts, tbl, id);
      forall k | k in was ensures k in Stale(was, e.vals) {
        assert k in KeysOf(ts, n, x);
        assert k in tbl[n] && tbl[n][k] == x;
        assert tbl'[n] == tbl[n] - Stale(was, e.vals);
        assert k !in Stale(was, e.vals) ==> k in tbl'[n] && tbl'[n][k] == x;
        LiveAfterInsert(ts, tbl, obj, x);
        assert !IsLive(ts, tbl', x);
      }
    }
  }

  /** The exact condition for soundness: from a table that agrees, every entry after an insert
      points to a live object that produces its key if and only if the insert leaves no
      residue, whether or not it takes keys from other objects. */
  lemma InsertSoundIff(ts: TableSchema, tbl: Table, obj: Object)
    requires Agrees(ts, tbl) && Insertable(ts, tbl, obj)
    ensures Consistent(ts, Inserted(ts, tbl, obj)) <==> LeavesNoResidue(ts, tbl, obj)
  {
    if LeavesNoResidue(ts, tbl, obj) {
      InsertKeepsSound(ts, tbl, obj);
    }
    if Consistent(ts, Inserted(ts, tbl, obj)) {
      forall n | n in ts ensures NoResidue(ts[n], Existing(tbl, PrimaryKey(ts, obj).value), obj, PrimaryKey(ts, obj).value) {
        AgreementLeavesNoResidue(ts, tbl, obj, n);
      }
    }
  }

  /** From a table that agrees, a successful insert leads to a table that agrees if and only
      if it takes no key from another live object and leaves no residue. */
  lemma InsertAgreesIff(ts: TableSchema, tbl: Table, obj: Object, order: seq<string>)
    requires Agrees(ts, tbl) && IsOrder(order, ts.Keys)
    requires Succeeds(Insert(ts, tbl, obj, order))
    ensures PrimaryKey(ts, obj).Some?
    ensures Agrees(ts, Insert(ts, tbl, obj, order).0) <==> CleanInsert(ts, tbl, obj)
  {
    InsertOrderIndependent(ts, tbl, obj, order);
    if CleanInsert(ts, tbl, obj) {
      InsertKeepsSound(ts, tbl, obj);
      InsertKeepsComplete(ts, tbl, obj);
    }
    if Agrees(ts, Inserted(ts, tbl, obj)) {
      AgreementAfterInsertIsClean(ts, tbl, obj);
    }
  }

  // ---------------------------------------------------------------- delete

  lemma PrimaryAfterDelete(ts: TableSchema, tbl: Table, id: Key)
    requires Consistent(ts, tbl) && id in tbl[ID]
    ensures Deleted(ts, tbl, tbl[ID][id], id)[ID] == tbl[ID] - {id}
  {
    PrimaryEntry(ts, tbl, id);
    assert SingleValue(ts[ID].fromObject(tbl[ID][id]));
    assert StoredKeys(ts[ID], tbl[ID][id], id) == [id];
  }

  /** A delete removes exactly the object stored under that primary key and keeps whatever
      held before: soundness always, completeness when it held. */
  lemma DeleteKeeps(ts: TableSchema, tbl: Table, id: Key)
    requires Consistent(ts, tbl) && id in tbl[ID]
    ensures var tbl' := Deleted(ts, tbl, tbl[ID][id], id);
            && Consistent(ts, tbl')
            && tbl'[ID] == tbl[ID] - {id}
            && (Complete(ts, tbl) ==> Complete(ts, tbl'))
  {
    var x := tbl[ID][id];
    var tbl' := Deleted(ts, tbl, x, id);
    PrimaryEntry(ts, tbl, id);
    PrimaryAfterDelete(ts, tbl, id);
    forall n, k | n in ts && k in tbl'[n]
      ensures IsLive(ts, tbl', tbl'[n][k]) && k in KeysOf(ts, n, tbl'[n][k])
    {
      assert tbl'[n][k] == tbl[n][k];
      assert IsLive(ts, tbl, tbl[n][k]) && k in KeysOf(ts, n, tbl[n][k]);
    }
    forall n, o | n in ts && IsLive(ts, tbl', o) ensures Indexable(ts[n], o) {
      assert IsLive(ts, tbl, o);
    }
    assert forall n, k :: n in ts && k in StoredKeys(ts[n], x, id) ==> k in KeysOf(ts, n, x);
    if Complete(ts, tbl) {
      forall n, o, k | n in ts && IsLive(ts, tbl', o) && k in KeysOf(ts, n, o)
        ensures k in tbl'[n] && tbl'[n][k] == o
      {
        assert IsLive(ts, tbl, o);
        assert k in tbl[n] && tbl[n][k] == o;
      }
    }
  }

  /** In a consistent table a delete succeeds exactly when the primary key is present. */
  lemma DeleteSucceedsIff(ts: TableSchema, tbl: Table, obj: Object)
    requires Consistent(ts, tbl)
    ensures Deletable(ts, tbl, obj) <==> PrimaryKey(ts, obj).Some? && PrimaryKey(ts, obj).value in tbl[ID]
  {
    if PrimaryKey(ts, obj).Some? && PrimaryKey(ts, obj).value in tbl[ID] {
      PrimaryEntry(ts, tbl, PrimaryKey(ts, obj).value);
    }
  }

  // ---------------------------------------------------------------- why the conditions are there

  /** An indexer whose "missing" results are nil values leaves no residue, as stored keys are
      never empty. */
  lemma NilLeavesNoResidue(ix: IndexSchema, existing: Option<Object>, obj: Object, id: Key)
    requires var e := ix.fromObject(obj); e.Extract? && !e.ok ==> forall v :: v in e.vals ==> v == []
    requires forall k :: k in OldKeys(ix, existing, id) ==> k != []
    ensures NoResidue(ix, existing, obj, id)
  {
    var e := ix.fromObject(obj);
    var was := OldKeys(ix, existing, id);
    if e.Extract? && !e.ok {
      forall k | k in was ensures k in Stale(was, e.vals) {
        var i :| 0 <= i < |was| && was[i] == k;
        assert i < |e.vals| ==> e.vals[i] in e.vals;
      }
    }
  }

  /** For values that are not prefixes of each other, appending the primary key keeps keys of
      different objects apart: a non-unique index can never collide. */
  lemma PrefixFreeNeverCollides(v: Key, id: Key, v': Key, id': Key)
    requires Comparable(v, v') ==> v == v'
    ensures v + id == v' + id' ==> v == v' && id == id'
  {
    if v + id == v' + id' {
      ConcatSplit(v, id, v', id');
    }
  }

  function ByField(f: string): Object -> Extract {
    (o: Object) =>
      if f in o.fields && o.fields[f].Str? then Extract(true, [o.fields[f].s]) else Extract(false, [[]])
  }

  function ByValue(args: seq<Arg>): Option<Key> {
    if |args| == 1 && args[0].Val? && args[0].f.Str? then Some(args[0].f.s) else None
  }

  function Row(id: Key, x: Key): Object {
    Object(map["id" := Str(id), "x" := Str(x)])
  }

  function TwoIndexes(unique: bool): (ts: TableSchema)
    ensures ValidTable(ts)
  {
    map[ID := IndexSchema(false, true, ByField("id"), ByValue, None),
        "x" := IndexSchema(true, unique, ByField("x"), ByValue, None)]
  }

  lemma RowKeys(id: Key, x: Key, unique: bool)
    ensures var ts := TwoIndexes(unique);
            var o := Row(id, x);
            && ts[ID].fromObject(o) == Extract(true, [id])
            && ts["x"].fromObject(o) == Extract(true, [x])
            && PrimaryKey(ts, o) == Some(id)
            && KeysOf(ts, "x", o) == {if unique then x else x + id}
  {
    var ts := TwoIndexes(unique);
    var o := Row(id, x);
    assert ID != "x";
    assert o.fields["id"] == Str(id) && o.fields["x"] == Str(x);
    var ks := StoredKeys(ts["x"], o, id);
    assert ks == [if unique then x else x + id];
    assert forall k :: k in ks <==> k == ks[0];
  }

  /** Deleting one of two live objects that share a key takes the entry away from the other,
      which stays live but is no longer filed. */
  lemma SharedKeyIsLost(ts: TableSchema, tbl: Table, a: Object, b: Object, n: string, k: Key)
    requires Consistent(ts, tbl) && n in ts
    requires IsLive(ts, tbl, a) && IsLive(ts, tbl, b) && PrimaryKey(ts, a) != PrimaryKey(ts, b)
    requires k in KeysOf(ts, n, a) && k in KeysOf(ts, n, b)
    ensures var tbl' := Deleted(ts, tbl, a, PrimaryKey(ts, a).value);
            IsLive(ts, tbl', b) && k !in tbl'[n] && !Agrees(ts, tbl')
  {
    PrimaryAfterDelete(ts, tbl, PrimaryKey(ts, a).value);
  }

  /** A unique secondary index is last-insert-wins: insert A and B with one unique value,
      delete A, and B is no longer filed. Agreement really does need distinct values. */
  lemma UniqueIndexLosesEntry()
    ensures var ts := TwoIndexes(true);
            var a := Row([1], [7]);
            var b := Row([2], [7]);
            && Insertable(ts, EmptyTable(ts), a)
            && var t1 := Inserted(ts, EmptyTable(ts), a);
            && Insertable(ts, t1, b)
            && var t2 := Inserted(ts, t1, b);
            && Deletable(ts, t2, a)
            && IsLive(ts, Deleted(ts, t2, a, [1]), b)
            && !Agrees(ts, Deleted(ts, t2, a, [1]))
  {
    var ts := TwoIndexes(true);
    var a := Row([1], [7]);
    var b := Row([2], [7]);
    RowKeys([1], [7], true);
    RowKeys([2], [7], true);
    assert [1][0] != [2][0];
    InsertRow(EmptyTable(ts), a);
    var t1 := Inserted(ts, EmptyTable(ts), a);
    InsertRow(t1, b);
    var t2 := Inserted(ts, t1, b);
    DeleteSucceedsIff(ts, t2, a);
    SharedKeyIsLost(ts, t2, a, b, "x", [7]);
  }

  lemma InsertRow(tbl: Table, o: Object)
    requires var ts := TwoIndexes(true);
             && Consistent(ts, tbl)
             && ts["x"].fromObject(o).Extract? && ts["x"].fromObject(o).ok
             && PrimaryKey(ts, o).Some?
    ensures var ts := TwoIndexes(true);
            && Insertable(ts, tbl, o)
            && var tbl' := Inserted(ts, tbl, o);
            && Consistent(ts, tbl')
            && tbl'[ID] == tbl[ID][PrimaryKey(ts, o).value := o]
  {
    var ts := TwoIndexes(true);
    var id := PrimaryKey(ts, o).value;
    PrimaryStoredKeys(ts, o);
    if id in tbl[ID] {
      PrimaryEntry(ts, tbl, id);
    }
    assert Insertable(ts, tbl, o);
    InsertKeepsSound(ts, tbl, o);
    PrimaryAfterInsert(ts, tbl, o);
  }

  // ---------------------------------------------------------------- a residue

  /** An indexer that computes its value before it decides that the value is missing. */
  function WhenOn(f: string): Object -> Extract {
    (o: Object) =>
      if f in o.fields && o.fields[f].Str? then
        Extract("on" in o.fields && o.fields["on"] == Bool(true), [o.fields[f].s])
      else Extract(false, [[]])
  }

  function Switched(): (ts: TableSchema)
    ensures ValidTable(ts)
  {
    map[ID := IndexSchema(false, true, ByField("id"), ByValue, None),
        "x" := IndexSchema(true, true, WhenOn("x"), ByValue, None)]
  }

  function Switch(on: bool): (o: Object)
    ensures o.fields == map["id" := Str([1]), "x" := Str([7]), "on" := Bool(on)]
  {
    Object(map["id" := Str([1]), "x" := Str([7]), "on" := Bool(on)])
  }

  lemma SwitchExtracts(on: bool)
    ensures Switched()[ID].fromObject(Switch(on)) == Extract(true, [[1]])
    ensures Switched()["x"].fromObject(Switch(on)) == Extract(on, [[7]])
    ensures PrimaryKey(Switched(), Switch(on)) == Some([1])
  {
    var o := Switch(on);
    assert ID != "x";
    assert o.fields["id"] == Str([1]) && o.fields["x"] == Str([7]) && o.fields["on"] == Bool(on);
  }

  /** The failing input for the skipped delete: insert a row, then insert it again switched off. The
      indexer reports "missing" together with the old value, the delete is skipped, and the
      entry goes on pointing to the row that was replaced. */
  lemma ResidueIsLeft()
    ensures var ts := Switched();
            && Insertable(ts, EmptyTable(ts), Switch(true))
            && var t1 := Inserted(ts, EmptyTable(ts), Switch(true));
            && Agrees(ts, t1)
            && Insertable(ts, t1, Switch(false))
            && !Consistent(ts, Inserted(ts, t1, Switch(false)))
  {
    hide Sound, Complete, AllIndexable, PrimaryKey;
    var ts, on, off := Switched(), Switch(true), Switch(false);
    SwitchExtracts(true);
    SwitchExtracts(false);
    EmptyAgrees(ts);
    FirstInsertAgrees(ts, on);
    var t1 := Inserted(ts, EmptyTable(ts), on);
    assert t1[ID] == map[[1] := on] && Existing(t1, [1]) == Some(on);
    assert Insertable(ts, t1, off);
    ResidueAtX(ts, t1, off, on);
    InsertSoundIff(ts, t1, off);
  }

  lemma FirstInsertAgrees(ts: TableSchema, o: Object)
    requires ValidTable(ts) && PrimaryKey(ts, o).Some? && forall n :: n in ts ==> Indexable(ts[n], o)
    ensures Insertable(ts, EmptyTable(ts), o) && Agrees(ts, Inserted(ts, EmptyTable(ts), o))
    ensures Inserted(ts, EmptyTable(ts), o)[ID] == map[PrimaryKey(ts, o).value := o]
  {
    var none := EmptyTable(ts);
    EmptyAgrees(ts);
    assert Insertable(ts, none, o) && CleanInsert(ts, none, o);
    InsertKeepsSound(ts, none, o);
    InsertKeepsComplete(ts, none, o);
    PrimaryAfterInsert(ts, none, o);
  }

  lemma ResidueAtX(ts: TableSchema, tbl: Table, obj: Object, old': Object)
    requires ValidTable(ts) && HasShape(ts, tbl) && "x" in ts && ts["x"].unique
    requires PrimaryKey(ts, obj).Some? && Existing(tbl, PrimaryKey(ts, obj).value) == Some(old')
    requires ts["x"].fromObject(obj) == Extract(false, [[7]]) && ts["x"].fromObject(old') == Extract(true, [[7]])
    ensures !LeavesNoResidue(ts, tbl, obj)
  {
    var id := PrimaryKey(ts, obj).value;
    var was: seq<Key> := [[7]];
    assert OldKeys(ts["x"], Some(old'), id) == was;
    assert Stale(was, was) == {};
    assert was[0] in was;
    assert !NoResidue(ts["x"], Some(old'), obj, id);
  }
}
