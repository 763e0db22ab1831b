/**
 `Txn.DeleteAll` and `Txn.DeletePrefix` on one table: when they succeed, what they leave, and
 why the subtree shortcut is a faithful replacement for the one-by-one deletion.
 */
module BulkDelete {
  import opened Bytes
  import opened Radix
  import opened Schema
  import opened Store
  import opened Agreement

  /** The objects that a prefix scan of index `n` visits. */
  function Scan(tbl: Table, n: string, p: Key): seq<Object>
    requires n in tbl
  {
    Values(tbl[n], ScanPrefix(tbl[n], p))
  }

  /** One map iteration order for each deletion. */
  ghost predicate AreOrders(orders: nat -> seq<string>, names: set<string>) {
    forall i: nat :: IsOrder(orders(i), names)
  }

  function DeletionOf(table: string, ts: TableSchema, o: Object): Change
    requires ValidTable(ts)
  {
    Change(table, Some(o), None, PrimaryKey(ts, o).GetOr([]))
  }

  function DeletionsOf(table: string, ts: TableSchema, objs: seq<Object>): (r: seq<Change>)
    requires ValidTable(ts)
    ensures |r| == |objs|
  {
    seq(|objs|, i requires 0 <= i < |objs| => DeletionOf(table, ts, objs[i]))
  }

  /** The entry a successful delete appends: the stored object, under the key of the argument. */
  function DeleteChange(table: string, ts: TableSchema, tbl: Table, obj: Object): Change
    requires ValidTable(ts) && HasShape(ts, tbl)
  {
    var id := PrimaryKey(ts, obj).GetOr([]);
    Change(table, Existing(tbl, id), None, id)
  }

  datatype Bulk = Bulk(tbl: Table, log: seq<Change>, count: nat, err: Option<Error>)

  /** One deletion. */
  function DeleteOne(table: string, ts: TableSchema, tbl: Table, o: Object, order: seq<string>): (r: Bulk)
    requires ValidTable(ts) && HasShape(ts, tbl) && IsOrder(order, ts.Keys)
    ensures HasShape(ts, r.tbl)
    ensures r.count == if r.err.Some? then 0 else 1
  {
    DeleteOrderIndependent(ts, tbl, o, order);
    var (tbl1, err) := Delete(ts, tbl, o, order);
    if err.Some? then Bulk(tbl1, [], 0, err) else Bulk(tbl1, [DeleteChange(table, ts, tbl, o)], 1, None)
  }

  /** What has been logged and counted so far, followed by the rest. */
  function Then(r: Bulk, rest: Bulk): Bulk {
    Bulk(rest.tbl, r.log + rest.log, r.count + rest.count, rest.err)
  }

  /** The deletion loop of `DeleteAll`, from object `i` on. */
  ghost function DeleteEach(table: string, ts: TableSchema, tbl: Table, objs: seq<Object>, orders: nat -> seq<string>,
                            i: nat): (r: Bulk)
    requires ValidTable(ts) && HasShape(ts, tbl) && AreOrders(orders, ts.Keys)
    ensures HasShape(ts, r.tbl)
  {
    if objs == [] then Bulk(tbl, [], 0, None)
    else
      var r := DeleteOne(table, ts, tbl, objs[0], orders(i));
      if r.err.Some? then r else Then(r, DeleteEach(table, ts, r.tbl, objs[1..], orders, i + 1))
  }

  /** `Txn.DeleteAll` for the query that scans index `n` under prefix `p`. */
  ghost function DeleteAll(table: string, ts: TableSchema, tbl: Table, n: string, p: Key,
                           orders: nat -> seq<string>): (r: Bulk)
    requires ValidTable(ts) && HasShape(ts, tbl) && AreOrders(orders, ts.Keys) && n in ts
    ensures HasShape(ts, r.tbl)
  {
    DeleteEach(table, ts, tbl, Scan(tbl, n, p), orders, 0)
  }

  ghost predicate Distinct(objs: seq<Object>) {
    forall i, j :: 0 <= i < j < |objs| ==> objs[i] != objs[j]
  }

  ghost predicate AllLive(ts: TableSchema, tbl: Table, objs: seq<Object>)
    requires ValidTable(ts) && HasShape(ts, tbl)
  {
    forall o :: o in objs ==> IsLive(ts, tbl, o)
  }

  /** An object whose slot in the primary index holds it or nothing. */
  ghost predicate LiveOrGone(ts: TableSchema, tbl: Table, o: Object)
    requires ValidTable(ts) && HasShape(ts, tbl)
  {
    && PrimaryKey(ts, o).Some?
    && (PrimaryKey(ts, o).value in tbl[ID] ==> IsLive(ts, tbl, o))
  }

  function KeysOfAll(ts: TableSchema, n: string, objs: seq<Object>): set<Key>
    requires ValidTable(ts) && n in ts
  {
    set o, k | o in objs && k in KeysOf(ts, n, o) :: k
  }

  /** The table without a list of objects. */
  function Without(ts: TableSchema, tbl: Table, objs: seq<Object>): Table
    requires ValidTable(ts) && HasShape(ts, tbl)
  {
    map n | n in ts :: tbl[n] - KeysOfAll(ts, n, objs)
  }

  lemma KeysOfOne(ts: TableSchema, n: string, o: Object)
    requires ValidTable(ts) && n in ts
    ensures KeysOfAll(ts, n, [o]) == KeysOf(ts, n, o)
  {
  }

  lemma WithoutNone(ts: TableSchema, tbl: Table)
    requires ValidTable(ts) && HasShape(ts, tbl)
    ensures Without(ts, tbl, []) == tbl
  {
    forall n | n in ts ensures Without(ts, tbl, [])[n] == tbl[n] {
      assert KeysOfAll(ts, n, []) == {};
    }
  }

  lemma WithoutAppend(ts: TableSchema, tbl: Table, a: seq<Object>, b: seq<Object>)
    requires ValidTable(ts) && HasShape(ts, tbl)
    ensures Without(ts, Without(ts, tbl, a), b) == Without(ts, tbl, a + b)
  {
    forall n | n in ts ensures KeysOfAll(ts, n, a + b) == KeysOfAll(ts, n, a) + KeysOfAll(ts, n, b) {
    }
    var x, y := Without(ts, Without(ts, tbl, a), b), Without(ts, tbl, a + b);
    forall n | n in ts ensures x[n] == y[n] {
    }
  }

  lemma DeleteLive(ts: TableSchema, tbl: Table, o: Object, order: seq<string>)
    requires Consistent(ts, tbl) && IsLive(ts, tbl, o) && IsOrder(order, ts.Keys)
    ensures var (tbl', err) := Delete(ts, tbl, o, order);
            && err.None?
            && Consistent(ts, tbl')
            && (Complete(ts, tbl) ==> Complete(ts, tbl'))
            && tbl' == Without(ts, tbl, [o])
            && tbl'[ID] == tbl[ID] - {PrimaryKey(ts, o).value}
  {
    var id := PrimaryKey(ts, o).value;
    DeleteOrderIndependent(ts, tbl, o, order);
    DeleteSucceedsIff(ts, tbl, o);
    DeleteKeeps(ts, tbl, id);
    assert Deleted(ts, tbl, o, id) == Without(ts, tbl, [o]) by {
      forall n | n in ts ensures KeysOfAll(ts, n, [o]) == Elements(StoredKeys(ts[n], o, id)) {
        KeysOfOne(ts, n, o);
      }
    }
  }

  lemma LiveAfterDelete(ts: TableSchema, tbl: Table, tbl1: Table, o: Object, objs: seq<Object>)
    requires ValidTable(ts) && HasShape(ts, tbl) && HasShape(ts, tbl1) && IsLive(ts, tbl, o)
    requires tbl1[ID] == tbl[ID] - {PrimaryKey(ts, o).value}
    requires forall x :: x in objs ==> LiveOrGone(ts, tbl, x)
    ensures forall x :: x in objs ==> LiveOrGone(ts, tbl1, x)
    ensures AllLive(ts, tbl1, objs) <==> AllLive(ts, tbl, objs) && o !in objs
  {
    forall x | x in objs
      ensures LiveOrGone(ts, tbl1, x) && (IsLive(ts, tbl1, x) <==> IsLive(ts, tbl, x) && x != o)
    {
      assert LiveOrGone(ts, tbl, x);
    }
  }

  lemma DistinctCons(o: Object, rest: seq<Object>)
    ensures Distinct([o] + rest) <==> Distinct(rest) && o !in rest
  {
    var objs := [o] + rest;
    assert forall j :: 0 <= j < |rest| ==> rest[j] == objs[j + 1];
    if Distinct(rest) && o !in rest {
      forall i, j | 0 <= i < j < |objs| ensures objs[i] != objs[j] {
        assert objs[j] == rest[j - 1];
        assert rest[j - 1] in rest;
      }
    }
    if Distinct(objs) {
      forall j | 0 <= j < |rest| ensures rest[j] != o {
        assert objs[0] != objs[j + 1];
      }
    }
  }

  lemma DeletionsCons(table: string, ts: TableSchema, o: Object, rest: seq<Object>)
    requires ValidTable(ts)
    ensures DeletionsOf(table, ts, [o] + rest) == [DeletionOf(table, ts, o)] + DeletionsOf(table, ts, rest)
  {
  }

  lemma DeleteGone(ts: TableSchema, tbl: Table, o: Object, order: seq<string>)
    requires ValidTable(ts) && HasShape(ts, tbl) && IsOrder(order, ts.Keys)
    requires LiveOrGone(ts, tbl, o) && !IsLive(ts, tbl, o)
    ensures Delete(ts, tbl, o, order) == (tbl, Some(NotFound))
  {
  }

  ghost predicate DeletedEach(table: string, ts: TableSchema, tbl: Table, objs: seq<Object>, r: Bulk)
    requires ValidTable(ts) && HasShape(ts, tbl)
  {
    && Consistent(ts, r.tbl)
    && (Complete(ts, tbl) ==> Complete(ts, r.tbl))
    && (r.err.None? <==> Distinct(objs) && AllLive(ts, tbl, objs))
    && (r.err.Some? ==> r.err.value == NotFound)
    && (r.err.None? ==> r.count == |objs| && r.tbl == Without(ts, tbl, objs) && r.log == DeletionsOf(table, ts, objs))
  }

  lemma HeadFacts(table: string, ts: TableSchema, tbl: Table, tbl1: Table, o: Object, rest: seq<Object>)
    requires ValidTable(ts) && HasShape(ts, tbl) && IsLive(ts, tbl, o)
    requires tbl1 == Without(ts, tbl, [o]) && tbl1[ID] == tbl[ID] - {PrimaryKey(ts, o).value}
    requires forall x :: x in rest ==> LiveOrGone(ts, tbl, x)
    ensures Distinct([o] + rest) && AllLive(ts, tbl, [o] + rest) <==> Distinct(rest) && AllLive(ts, tbl1, rest)
    ensures Without(ts, tbl1, rest) == Without(ts, tbl, [o] + rest)
    ensures DeletionsOf(table, ts, [o] + rest) == [DeletionOf(table, ts, o)] + DeletionsOf(table, ts, rest)
  {
    LiveAfterDelete(ts, tbl, tbl1, o, rest);
    DistinctCons(o, rest);
    WithoutAppend(ts, tbl, [o], rest);
    DeletionsCons(table, ts, o, rest);
    assert AllLive(ts, tbl, [o] + rest) <==> AllLive(ts, tbl, rest);
  }

  lemma DeletedHead(table: string, ts: TableSchema, tbl: Table, tbl1: Table, o: Object, rest: seq<Object>, r1: Bulk)
    requires Consistent(ts, tbl) && IsLive(ts, tbl, o)
    requires tbl1 == Without(ts, tbl, [o]) && tbl1[ID] == tbl[ID] - {PrimaryKey(ts, o).value}
    requires Complete(ts, tbl) ==> Complete(ts, tbl1)
    requires forall x :: x in rest ==> LiveOrGone(ts, tbl, x)
    requires DeletedEach(table, ts, tbl1, rest, r1)
    ensures DeletedEach(table, ts, tbl, [o] + rest, Then(Bulk(tbl1, [DeletionOf(table, ts, o)], 1, None), r1))
  {
    HeadFacts(table, ts, tbl, tbl1, o, rest);
  }

  /** The deletion loop succeeds exactly when its objects are live and pairwise different. */
  lemma {:induction false} DeleteEachIff(table: string, ts: TableSchema, tbl: Table, objs: seq<Object>,
                                         orders: nat -> seq<string>, i: nat)
    requires Consistent(ts, tbl) && AreOrders(orders, ts.Keys)
    requires forall o :: o in objs ==> LiveOrGone(ts, tbl, o)
    ensures DeletedEach(table, ts, tbl, objs, DeleteEach(table, ts, tbl, objs, orders, i))
  {
    hide Sound, Complete, AllIndexable, IsOrder;
    if objs == [] {
      WithoutNone(ts, tbl);
    } else {
      var o, rest := objs[0], objs[1..];
      assert objs == [o] + rest;
      assert o in objs;
      assert LiveOrGone(ts, tbl, o);
      if IsLive(ts, tbl, o) {
        DeleteLive(ts, tbl, o, orders(i));
        var tbl1 := Delete(ts, tbl, o, orders(i)).0;
        LiveAfterDelete(ts, tbl, tbl1, o, rest);
        DeleteEachIff(table, ts, tbl1, rest, orders, i + 1);
        DeletedHead(table, ts, tbl, tbl1, o, rest, DeleteEach(table, ts, tbl1, rest, orders, i + 1));
        assert DeleteChange(table, ts, tbl, o) == DeletionOf(table, ts, o);
      } else {
        DeleteGone(ts, tbl, o, orders(i));
      }
    }
  }

  /** The rows before the first one that is in `done` or repeats an earlier row. */
  function FreshPrefix(done: seq<Object>, rest: seq<Object>): (r: seq<Object>)
    ensures r <= rest
    decreases rest
  {
    if rest == [] || rest[0] in done then []
    else
      assert rest == [rest[0]] + rest[1..];
      [rest[0]] + FreshPrefix(done + [rest[0]], rest[1..])
  }

  /** What `FreshPrefix` means: it has no repetition, and the row after it repeats one. */
  lemma {:induction false} FreshPrefixMeaning(done: seq<Object>, rest: seq<Object>)
    requires Distinct(done)
    ensures var r := FreshPrefix(done, rest);
            && Distinct(done + r)
            && (|r| < |rest| ==> rest[|r|] in done + r)
    decreases rest
  {
    if rest == [] || rest[0] in done {
      assert done + [] == done;
    } else {
      var o := rest[0];
      DistinctSnoc(done, o);
      FreshPrefixMeaning(done + [o], rest[1..]);
      hide Distinct;
      var tail := FreshPrefix(done + [o], rest[1..]);
      assert (done + [o]) + tail == done + ([o] + tail);
    }
  }

  lemma DistinctSnoc(objs: seq<Object>, o: Object)
    requires Distinct(objs) && o !in objs
    ensures Distinct(objs + [o])
  {
  }

  /** The deletion loop over live rows, failing or not: it deletes the rows before the first
      repetition, logs and counts them, and stops there with `ErrNotFound`. */
  lemma {:induction false} DeleteEachStops(table: string, ts: TableSchema, tbl: Table, done: seq<Object>,
                                           rest: seq<Object>, orders: nat -> seq<string>, i: nat)
    requires Consistent(ts, tbl) && Consistent(ts, Without(ts, tbl, done)) && AreOrders(orders, ts.Keys)
    requires AllLive(ts, tbl, done) && AllLive(ts, tbl, rest)
    ensures var gone := FreshPrefix(done, rest);
            DeleteEach(table, ts, Without(ts, tbl, done), rest, orders, i)
            == Bulk(Without(ts, tbl, done + gone), DeletionsOf(table, ts, gone), |gone|,
                    if gone == rest then None else Some(NotFound))
    decreases rest
  {
    hide Sound, Complete, AllIndexable, IsOrder, Delete, Without;
    if rest == [] {
      assert done + [] == done;
    } else {
      var o, tbl1 := rest[0], Without(ts, tbl, done);
      assert o in rest && IsLive(ts, tbl, o);
      LiveWithout(ts, tbl, done, o);
      if o in done {
        GoneIsLiveOrGone(ts, tbl, done, o);
        DeleteGone(ts, tbl1, o, orders(i));
        assert done + [] == done;
      } else {
        DeleteLive(ts, tbl1, o, orders(i));
        WithoutAppend(ts, tbl, done, [o]);
        assert forall x :: x in rest[1..] ==> x in rest;
        DeleteEachStops(table, ts, tbl, done + [o], rest[1..], orders, i + 1);
        assert DeleteChange(table, ts, tbl1, o) == DeletionOf(table, ts, o);
        DeleteEachCons(table, ts, tbl, done, rest, orders, i);
      }
    }
  }

  lemma DeleteEachCons(table: string, ts: TableSchema, tbl: Table, done: seq<Object>, rest: seq<Object>,
                       orders: nat -> seq<string>, i: nat)
    requires ValidTable(ts) && HasShape(ts, tbl) && AreOrders(orders, ts.Keys) && rest != [] && rest[0] !in done
    requires var o, tbl1 := rest[0], Without(ts, tbl, done);
             Delete(ts, tbl1, o, orders(i)) == (Without(ts, tbl, done + [o]), None)
             && DeleteChange(table, ts, tbl1, o) == DeletionOf(table, ts, o)
    requires var done1, tail := done + [rest[0]], rest[1..];
             var gone := FreshPrefix(done1, tail);
             DeleteEach(table, ts, Without(ts, tbl, done1), tail, orders, i + 1)
             == Bulk(Without(ts, tbl, done1 + gone), DeletionsOf(table, ts, gone), |gone|,
                     if gone == tail then None else Some(NotFound))
    ensures var gone := FreshPrefix(done, rest);
            DeleteEach(table, ts, Without(ts, tbl, done), rest, orders, i)
            == Bulk(Without(ts, tbl, done + gone), DeletionsOf(table, ts, gone), |gone|,
                    if gone == rest then None else Some(NotFound))
  {
    hide IsOrder, Delete, Without, DeletionsOf, DeleteChange, ValidTable;
    var o := rest[0];
    var tail := FreshPrefix(done + [o], rest[1..]);
    assert (done + [o]) + tail == done + ([o] + tail);
    DeletionsCons(table, ts, o, tail);
    assert rest == [o] + rest[1..];
    assert [o] + tail == rest <==> tail == rest[1..];
  }

  lemma GoneIsLiveOrGone(ts: TableSchema, tbl: Table, done: seq<Object>, o: Object)
    requires Consistent(ts, tbl) && AllLive(ts, tbl, done) && o in done
    ensures LiveOrGone(ts, Without(ts, tbl, done), o) && !IsLive(ts, Without(ts, tbl, done), o)
  {
    hide Sound, Complete, AllIndexable;
    assert IsLive(ts, tbl, o);
    PrimaryStoredKeys(ts, o);
    assert PrimaryKey(ts, o).value in KeysOf(ts, ID, o);
  }

  lemma ScanIsLive(ts: TableSchema, tbl: Table, n: string, p: Key)
    requires Consistent(ts, tbl) && n in ts
    ensures AllLive(ts, tbl, Scan(tbl, n, p))
  {
    var ks := ScanPrefix(tbl[n], p);
    forall o | o in Scan(tbl, n, p) ensures IsLive(ts, tbl, o) {
      var i :| 0 <= i < |ks| && Scan(tbl, n, p)[i] == o;
      assert ks[i] in ks;
      assert tbl[n][ks[i]] == o;
    }
  }

  /** No object is filed twice in the scanned range. */
  ghost predicate OneKeyEach(tbl: Table, n: string, p: Key)
    requires n in tbl
  {
    forall k, k' :: k in tbl[n] && k' in tbl[n] && p <= k && p <= k' && tbl[n][k] == tbl[n][k'] ==> k == k'
  }

  lemma ScanDistinctIff(tbl: Table, n: string, p: Key)
    requires n in tbl
    ensures Distinct(Scan(tbl, n, p)) <==> OneKeyEach(tbl, n, p)
  {
    var ks := ScanPrefix(tbl[n], p);
    var objs := Scan(tbl, n, p);
    if Distinct(objs) {
      forall k, k' | k in tbl[n] && k' in tbl[n] && p <= k && p <= k' && tbl[n][k] == tbl[n][k'] ensures k == k' {
        assert k in ks && k' in ks;
        var i :| 0 <= i < |ks| && ks[i] == k;
        var j :| 0 <= j < |ks| && ks[j] == k';
        assert objs[i] == objs[j];
      }
    }
    if OneKeyEach(tbl, n, p) {
      forall i, j | 0 <= i < j < |objs| ensures objs[i] != objs[j] {
        assert ks[i] in ks && ks[j] in ks;
        LessIrreflexive(ks[i]);
        assert Less(ks[i], ks[j]);
      }
    }
  }

  /** `DeleteAll` in a consistent table deletes exactly the scanned objects before the first one
      that is filed twice in the range, counts and logs them, and leaves every entry of every
      other object in place. It succeeds, and then these are all the scanned objects, if and
      only if no object is filed twice there; its only failure is `ErrNotFound`. */
  lemma DeleteAllIff(table: string, ts: TableSchema, tbl: Table, n: string, p: Key, orders: nat -> seq<string>)
    requires Consistent(ts, tbl) && n in ts && AreOrders(orders, ts.Keys)
    ensures var objs := Scan(tbl, n, p);
            var gone := FreshPrefix([], objs);
            var r := DeleteAll(table, ts, tbl, n, p, orders);
            && Consistent(ts, r.tbl)
            && (Complete(ts, tbl) ==> Complete(ts, r.tbl))
            && (r.err.None? <==> OneKeyEach(tbl, n, p))
            && (r.err.Some? ==> r.err.value == NotFound && gone != objs)
            && (r.err.None? ==> gone == objs)
            && Distinct(gone) && (|gone| < |objs| ==> objs[|gone|] in gone)
            && r.count == |gone|
            && r.tbl == Without(ts, tbl, gone)
            && r.log == DeletionsOf(table, ts, gone)
            && forall o :: IsLive(ts, r.tbl, o) <==> IsLive(ts, tbl, o) && o !in gone
  {
    hide Sound, Complete, AllIndexable, IsOrder, DeleteEach, IsLive, Without, FreshPrefix, Scan, DeletionsOf, AreOrders, OneKeyEach;
    var objs := Scan(tbl, n, p);
    var gone := FreshPrefix([], objs);
    ScanIsLive(ts, tbl, n, p);
    DeleteEachOnScan(table, ts, tbl, objs, orders);
    ScanDistinctIff(tbl, n, p);
    WithoutNone(ts, tbl);
    DeleteEachStops(table, ts, tbl, [], objs, orders, 0);
    assert [] + gone == gone;
    FreshPrefixMeaning([], objs);
    assert AllLive(ts, tbl, gone) by {
      assert forall o :: o in gone ==> o in objs;
    }
    forall o ensures IsLive(ts, Without(ts, tbl, gone), o) <==> IsLive(ts, tbl, o) && o !in gone {
      LiveWithout(ts, tbl, gone, o);
    }
  }

  lemma DeleteEachOnScan(table: string, ts: TableSchema, tbl: Table, objs: seq<Object>, orders: nat -> seq<string>)
    requires Consistent(ts, tbl) && AreOrders(orders, ts.Keys) && AllLive(ts, tbl, objs)
    ensures var r := DeleteEach(table, ts, tbl, objs, orders, 0);
            Consistent(ts, r.tbl) && (Complete(ts, tbl) ==> Complete(ts, r.tbl)) && (r.err.None? <==> Distinct(objs))
  {
    hide Sound, Complete, AllIndexable, IsOrder, DeleteEach;
    assert forall o :: o in objs ==> LiveOrGone(ts, tbl, o);
    DeleteEachIff(table, ts, tbl, objs, orders, 0);
  }

  lemma LiveWithout(ts: TableSchema, tbl: Table, objs: seq<Object>, o: Object)
    requires Consistent(ts, tbl) && AllLive(ts, tbl, objs)
    ensures IsLive(ts, Without(ts, tbl, objs), o) <==> IsLive(ts, tbl, o) && o !in objs
  {
    if IsLive(ts, tbl, o) {
      var pk := PrimaryKey(ts, o).value;
      PrimaryStoredKeys(ts, o);
      assert pk in KeysOf(ts, ID, o);
      forall x | x in objs && pk in KeysOf(ts, ID, x) ensures x == o {
        PrimaryStoredKeys(ts, x);
      }
    }
  }

  /** Entries of objects that are not scanned stay; entries of scanned objects go. */
  lemma DeleteAllEntries(table: string, ts: TableSchema, tbl: Table, n: string, p: Key, orders: nat -> seq<string>,
                         m: string, k: Key)
    requires Agrees(ts, tbl) && n in ts && m in ts && AreOrders(orders, ts.Keys) && OneKeyEach(tbl, n, p)
    ensures var tbl' := DeleteAll(table, ts, tbl, n, p, orders).tbl;
            && (k in tbl'[m] <==> k in tbl[m] && tbl[m][k] !in Scan(tbl, n, p))
            && (k in tbl'[m] ==> tbl'[m][k] == tbl[m][k])
  {
    DeleteAllIff(table, ts, tbl, n, p, orders);
    ScanIsLive(ts, tbl, n, p);
    EntriesWithout(ts, tbl, Scan(tbl, n, p), m, k);
  }

  lemma EntriesWithout(ts: TableSchema, tbl: Table, objs: seq<Object>, m: string, k: Key)
    requires Agrees(ts, tbl) && AllLive(ts, tbl, objs) && m in ts
    ensures var tbl' := Without(ts, tbl, objs);
            && (k in tbl'[m] <==> k in tbl[m] && tbl[m][k] !in objs)
            && (k in tbl'[m] ==> tbl'[m][k] == tbl[m][k])
  {
    if k in tbl[m] {
      assert IsLive(ts, tbl, tbl[m][k]) && k in KeysOf(ts, m, tbl[m][k]);
      forall o | o in objs && k in KeysOf(ts, m, o) ensures tbl[m][k] == o {
        assert IsLive(ts, tbl, o);
      }
    }
  }

  // ---------------------------------------------------------------- DeletePrefix

  /** One entry of `DeletePrefix`: log the deletion, then clear every index but `n`. */
  function PurgeOne(table: string, ts: TableSchema, tbl: Table, o: Object, n: string, order: seq<string>): (r: Bulk)
    requires ValidTable(ts) && HasShape(ts, tbl) && IsOrder(order, ts.Keys)
    ensures HasShape(ts, r.tbl)
    ensures r.count == if r.err.Some? then 0 else 1
  {
    if ts[ID].fromObject(o).Failed? then Bulk(tbl, [], 0, Some(PrimaryFailed))
    else if PrimaryKey(ts, o).None? then Bulk(tbl, [], 0, Some(PrimaryMissing))
    else
      var id := PrimaryKey(ts, o).value;
      var existing := Existing(tbl, id);
      var logged := if existing.Some? then [Change(table, existing, None, id)] else [];
      DeleteIndexesClosed(ts, tbl, o, id, order, {n});
      var (tbl1, err) := DeleteIndexes(ts, tbl, o, id, order, {n});
      Bulk(tbl1, logged, if err.Some? then 0 else 1, err)
  }

  /** The entry loop of `DeletePrefix`. */
  ghost function PurgeEach(table: string, ts: TableSchema, tbl: Table, entries: seq<Object>, n: string,
                           orders: nat -> seq<string>, i: nat): (r: Bulk)
    requires ValidTable(ts) && HasShape(ts, tbl) && AreOrders(orders, ts.Keys)
    ensures HasShape(ts, r.tbl)
  {
    if entries == [] then Bulk(tbl, [], 0, None)
    else
      var r := PurgeOne(table, ts, tbl, entries[0], n, orders(i));
      if r.err.Some? then r else Then(r, PurgeEach(table, ts, r.tbl, entries[1..], n, orders, i + 1))
  }

  /** `Txn.DeletePrefix`: the scan uses `p`, the value of the prefix indexer; the subtree
      removal uses `raw`, the bytes of the argument itself. */
  ghost function DeletePrefix(table: string, ts: TableSchema, tbl: Table, n: string, p: Key, raw: Key,
                              orders: nat -> seq<string>): (r: Bulk)
    requires ValidTable(ts) && HasShape(ts, tbl) && AreOrders(orders, ts.Keys) && n in ts
    ensures HasShape(ts, r.tbl)
  {
    var entries := Scan(tbl, n, p);
    var r := PurgeEach(table, ts, tbl, entries, n, orders, 0);
    if r.err.Some? || entries == [] then r
    else
      var doomed := WithPrefix(r.tbl[n], raw);
      if doomed == {} then r.(err := Some(Panicked))
      else r.(tbl := r.tbl[n := r.tbl[n] - doomed])
  }

  /** Without some objects, except that index `n` is left alone. */
  function WithoutExcept(ts: TableSchema, tbl: Table, objs: seq<Object>, n: string): (r: Table)
    requires ValidTable(ts) && HasShape(ts, tbl) && n in ts
    ensures HasShape(ts, r) && r[n] == tbl[n]
  {
    Without(ts, tbl, objs)[n := tbl[n]]
  }

  /** What the entry loop needs of an entry: it can be taken out of every index, and the
      primary index still holds it. */
  ghost predicate Purgeable(ts: TableSchema, tbl: Table, o: Object)
    requires ValidTable(ts) && HasShape(ts, tbl)
  {
    IsLive(ts, tbl, o) && forall m :: m in ts ==> !ts[m].fromObject(o).Failed?
  }

  /** One entry, live or already gone: it is taken out of every index but `n`, and logged if the
      primary index still has something under its key. */
  lemma PurgeAny(table: string, ts: TableSchema, tbl: Table, o: Object, n: string, order: seq<string>)
    requires ValidTable(ts) && HasShape(ts, tbl) && n in ts && IsOrder(order, ts.Keys)
    requires PrimaryKey(ts, o).Some? && forall m :: m in ts ==> !ts[m].fromObject(o).Failed?
    ensures var id := PrimaryKey(ts, o).value;
            var existing := Existing(tbl, id);
            PurgeOne(table, ts, tbl, o, n, order)
            == Bulk(WithoutExcept(ts, tbl, [o], n), if existing.Some? then [Change(table, existing, None, id)] else [], 1, None)
  {
    hide DeleteIndexes;
    var id := PrimaryKey(ts, o).value;
    DeleteIndexesClosed(ts, tbl, o, id, order, {n});
    PurgedTable(ts, tbl, DeleteIndexes(ts, tbl, o, id, order, {n}).0, o, n);
  }

  lemma PurgedTable(ts: TableSchema, tbl: Table, tbl': Table, o: Object, n: string)
    requires ValidTable(ts) && HasShape(ts, tbl) && HasShape(ts, tbl') && PrimaryKey(ts, o).Some? && n in ts
    requires tbl'[n] == tbl[n]
    requires forall m :: m in ts && m != n ==> tbl'[m] == DeleteTree(ts[m], tbl[m], o, PrimaryKey(ts, o).value)
    ensures tbl' == WithoutExcept(ts, tbl, [o], n)
  {
    forall m | m in ts && m != n ensures tbl'[m] == tbl[m] - KeysOfAll(ts, m, [o]) {
      KeysOfOne(ts, m, o);
    }
  }

  /** The different rows of a list, each at its first place. */
  function FirstOf(done: seq<Object>, rest: seq<Object>): seq<Object>
    decreases rest
  {
    if rest == [] then []
    else if rest[0] in done then FirstOf(done, rest[1..])
    else [rest[0]] + FirstOf(done + [rest[0]], rest[1..])
  }

  lemma {:induction false} FirstOfMeaning(done: seq<Object>, rest: seq<Object>)
    requires Distinct(done)
    ensures Distinct(done + FirstOf(done, rest))
    ensures forall o :: o in done + FirstOf(done, rest) <==> o in done + rest
    decreases rest
  {
    if rest == [] {
      assert done + FirstOf(done, rest) == done;
    } else {
      var o := rest[0];
      assert rest == [o] + rest[1..];
      if o in done {
        FirstOfMeaning(done, rest[1..]);
        assert forall x :: x in done + rest <==> x in done + rest[1..];
      } else {
        DistinctSnoc(done, o);
        FirstOfMeaning(done + [o], rest[1..]);
        var tail := FirstOf(done + [o], rest[1..]);
        assert (done + [o]) + tail == done + ([o] + tail);
        assert (done + [o]) + rest[1..] == done + rest;
      }
    }
  }

  lemma {:induction false} FirstOfDistinct(done: seq<Object>, rest: seq<Object>)
    requires Distinct(done + rest)
    ensures FirstOf(done, rest) == rest
    decreases rest
  {
    if rest != [] {
      var o := rest[0];
      assert (done + rest)[|done|] == o;
      assert forall i :: 0 <= i < |done| ==> (done + rest)[i] == done[i];
      assert (done + [o]) + rest[1..] == done + rest;
      FirstOfDistinct(done + [o], rest[1..]);
      assert rest == [o] + rest[1..];
    }
  }

  lemma WithoutExceptAppend(ts: TableSchema, tbl: Table, a: seq<Object>, b: seq<Object>, n: string)
    requires ValidTable(ts) && HasShape(ts, tbl) && n in ts
    ensures WithoutExcept(ts, WithoutExcept(ts, tbl, a, n), b, n) == WithoutExcept(ts, tbl, a + b, n)
  {
    WithoutAppend(ts, tbl, a, b);
    var tbl1 := WithoutExcept(ts, tbl, a, n);
    forall m | m in ts && m != n ensures Without(ts, tbl1, b)[m] == Without(ts, tbl, a + b)[m] {
      assert Without(ts, Without(ts, tbl, a), b)[m] == tbl1[m] - KeysOfAll(ts, m, b);
    }
  }

  /** What the primary index holds for a live row, in the middle of the loop. */
  lemma ExistingAmidst(ts: TableSchema, tbl: Table, done: seq<Object>, o: Object, n: string)
    requires ValidTable(ts) && HasShape(ts, tbl) && n in ts && IsLive(ts, tbl, o) && AllLive(ts, tbl, done)
    requires n == ID ==> o !in done
    ensures Existing(WithoutExcept(ts, tbl, done, n), PrimaryKey(ts, o).value) == if o in done then None else Some(o)
  {
    var id := PrimaryKey(ts, o).value;
    PrimaryStoredKeys(ts, o);
    assert id in KeysOf(ts, ID, o);
    forall x | x in done && id in KeysOf(ts, ID, x) ensures x == o {
      assert IsLive(ts, tbl, x);
      PrimaryStoredKeys(ts, x);
    }
    assert id in KeysOfAll(ts, ID, done) <==> o in done;
  }

  /** The entry loop of `DeletePrefix` over live rows: every row leaves every index but `n`, and
      is logged once even where the scan meets it twice. */
  lemma {:induction false} PurgeEachClosed(table: string, ts: TableSchema, tbl: Table, done: seq<Object>,
                                           rest: seq<Object>, n: string, orders: nat -> seq<string>, i: nat)
    requires ValidTable(ts) && HasShape(ts, tbl) && AreOrders(orders, ts.Keys) && n in ts
    requires forall o :: o in done + rest ==> Purgeable(ts, tbl, o)
    requires n == ID ==> Distinct(done + rest)
    ensures PurgeEach(table, ts, WithoutExcept(ts, tbl, done, n), rest, n, orders, i)
            == Bulk(WithoutExcept(ts, tbl, done + rest, n), DeletionsOf(table, ts, FirstOf(done, rest)), |rest|, None)
    decreases rest
  {
    hide WithoutExcept, IsOrder, PurgeOne, Distinct;
    if rest == [] {
      assert done + rest == done;
    } else {
      var o, tbl1 := rest[0], WithoutExcept(ts, tbl, done, n);
      assert (done + [o]) + rest[1..] == done + rest;
      assert (done + rest)[|done|] == o && Purgeable(ts, tbl, o);
      assert AllLive(ts, tbl, done) by {
        assert forall x :: x in done ==> x in done + rest && Purgeable(ts, tbl, x);
      }
      NotAmongDone(done, rest, n);
      PurgeAny(table, ts, tbl1, o, n, orders(i));
      ExistingAmidst(ts, tbl, done, o, n);
      WithoutExceptAppend(ts, tbl, done, [o], n);
      PurgeEachClosed(table, ts, tbl, done + [o], rest[1..], n, orders, i + 1);
      FirstOfCons(table, ts, done, rest);
    }
  }

  lemma NotAmongDone(done: seq<Object>, rest: seq<Object>, n: string)
    requires rest != [] && (n == ID ==> Distinct(done + rest))
    ensures n == ID ==> rest[0] !in done
  {
    var all := done + rest;
    assert all[|done|] == rest[0] && forall i :: 0 <= i < |done| ==> all[i] == done[i];
  }

  lemma FirstOfCons(table: string, ts: TableSchema, done: seq<Object>, rest: seq<Object>)
    requires ValidTable(ts) && rest != []
    ensures DeletionsOf(table, ts, FirstOf(done, rest))
            == (if rest[0] in done then [] else [DeletionOf(table, ts, rest[0])])
               + DeletionsOf(table, ts, FirstOf(done + [rest[0]], rest[1..]))
  {
    if rest[0] in done {
      FirstOfSame(done, rest[0], rest[1..]);
    } else {
      DeletionsCons(table, ts, rest[0], FirstOf(done + [rest[0]], rest[1..]));
    }
  }

  /** Repeating a row in `done` makes no difference. */
  lemma FirstOfSame(done: seq<Object>, o: Object, rest: seq<Object>)
    requires o in done
    ensures FirstOf(done + [o], rest) == FirstOf(done, rest)
  {
    FirstOfAlike(done + [o], done, rest);
  }

  lemma {:induction false} FirstOfAlike(a: seq<Object>, b: seq<Object>, rest: seq<Object>)
    requires forall o :: o in a <==> o in b
    ensures FirstOf(a, rest) == FirstOf(b, rest)
    decreases rest
  {
    if rest != [] {
      if rest[0] in a {
        FirstOfAlike(a, b, rest[1..]);
      } else {
        FirstOfAlike(a + [rest[0]], b + [rest[0]], rest[1..]);
      }
    }
  }

  lemma SingleKey(ts: TableSchema, tbl: Table, n: string, k: Key)
    requires Consistent(ts, tbl) && n in ts && SingleValued(ts[n]) && k in tbl[n]
    ensures KeysOf(ts, n, tbl[n][k]) == {k}
  {
    var o := tbl[n][k];
    assert k in KeysOf(ts, n, o);
    assert SingleValue(ts[n].fromObject(o));
    assert |StoredKeys(ts[n], o, PrimaryKey(ts, o).value)| == 1;
  }

  lemma SingleValuedOneKey(ts: TableSchema, tbl: Table, n: string, p: Key)
    requires Consistent(ts, tbl) && n in ts && SingleValued(ts[n])
    ensures OneKeyEach(tbl, n, p)
    ensures KeysOfAll(ts, n, Scan(tbl, n, p)) == WithPrefix(tbl[n], p)
  {
    forall k | k in tbl[n] ensures KeysOf(ts, n, tbl[n][k]) == {k} {
      SingleKey(ts, tbl, n, k);
    }
    ScannedKeys(ts, tbl, n, p);
  }

  lemma ScannedKeys(ts: TableSchema, tbl: Table, n: string, p: Key)
    requires ValidTable(ts) && HasShape(ts, tbl) && n in ts
    requires forall k :: k in tbl[n] ==> KeysOf(ts, n, tbl[n][k]) == {k}
    ensures OneKeyEach(tbl, n, p)
    ensures KeysOfAll(ts, n, Scan(tbl, n, p)) == WithPrefix(tbl[n], p)
  {
    var ks := ScanPrefix(tbl[n], p);
    var objs := Scan(tbl, n, p);
    forall k, k' | k in tbl[n] && k' in tbl[n] && tbl[n][k] == tbl[n][k'] ensures k == k' {
      assert {k} == {k'};
      assert k in {k'};
    }
    forall k | k in WithPrefix(tbl[n], p) ensures k in KeysOfAll(ts, n, objs) {
      assert k in ks;
      var i :| 0 <= i < |ks| && ks[i] == k;
      assert objs[i] == tbl[n][k] && objs[i] in objs;
      assert k in KeysOf(ts, n, objs[i]);
    }
    forall o, k | o in objs && k in KeysOf(ts, n, o) ensures k in WithPrefix(tbl[n], p) {
      var i :| 0 <= i < |ks| && objs[i] == o;
      assert ks[i] in ks;
      assert KeysOf(ts, n, o) == {ks[i]};
    }
  }

  /** The last step of `DeletePrefix` completes the deletion exactly if the raw argument selects
      those keys of the deleted objects that index `n` has. */
  lemma SubtreeStep(ts: TableSchema, tbl: Table, objs: seq<Object>, n: string, raw: Key)
    requires ValidTable(ts) && HasShape(ts, tbl) && n in ts
    ensures var done := WithoutExcept(ts, tbl, objs, n)[n := tbl[n] - WithPrefix(tbl[n], raw)];
            done == Without(ts, tbl, objs) <==> KeysOfAll(ts, n, objs) * tbl[n].Keys == WithPrefix(tbl[n], raw)
  {
    var doomed, filed := WithPrefix(tbl[n], raw), KeysOfAll(ts, n, objs) * tbl[n].Keys;
    var done := WithoutExcept(ts, tbl, objs, n)[n := tbl[n] - doomed];
    var all := Without(ts, tbl, objs);
    assert all[n] == tbl[n] - filed;
    assert done[n] == tbl[n] - doomed;
    assert filed == tbl[n].Keys - all[n].Keys && doomed == tbl[n].Keys - done[n].Keys;
    forall m | m in ts && m != n ensures done[m] == all[m] {
    }
  }

  /** Whether the subtree of the raw argument is made up of the keys of the scanned objects. */
  ghost predicate PrefixFits(ts: TableSchema, tbl: Table, n: string, p: Key, raw: Key)
    requires ValidTable(ts) && HasShape(ts, tbl) && n in ts
  {
    || Scan(tbl, n, p) == []
    || KeysOfAll(ts, n, Scan(tbl, n, p)) * tbl[n].Keys == WithPrefix(tbl[n], raw)
  }

  lemma ScannedKeyIsFiled(ts: TableSchema, tbl: Table, n: string, p: Key)
    requires Consistent(ts, tbl) && n in ts && Scan(tbl, n, p) != []
    ensures KeysOfAll(ts, n, Scan(tbl, n, p)) * tbl[n].Keys != {}
  {
    var ks, objs := ScanPrefix(tbl[n], p), Scan(tbl, n, p);
    assert ks[0] in ks && objs[0] in objs;
    assert ks[0] in KeysOf(ts, n, objs[0]);
    assert ks[0] in KeysOfAll(ts, n, objs) * tbl[n].Keys;
  }

  /** What `DeletePrefix` leaves of a table when it ends without a panic. */
  function PrefixDeleted(ts: TableSchema, tbl: Table, objs: seq<Object>, n: string, raw: Key): Table
    requires ValidTable(ts) && HasShape(ts, tbl) && n in ts
  {
    if objs == [] then tbl else WithoutExcept(ts, tbl, objs, n)[n := tbl[n] - WithPrefix(tbl[n], raw)]
  }

  /** `DeletePrefix` in a consistent table, whatever the index: it never returns an error, logs
      each scanned object once, and panics if and only if something matched and the raw
      argument selects nothing. */
  lemma DeletePrefixClosed(table: string, ts: TableSchema, tbl: Table, n: string, p: Key, raw: Key,
                           orders: nat -> seq<string>)
    requires Consistent(ts, tbl) && n in ts && AreOrders(orders, ts.Keys)
    ensures var objs := Scan(tbl, n, p);
            var r := DeletePrefix(table, ts, tbl, n, p, raw, orders);
            && r.count == |objs|
            && r.log == DeletionsOf(table, ts, FirstOf([], objs))
            && (r.err.None? ==> r.tbl == PrefixDeleted(ts, tbl, objs, n, raw))
            && (r.err.Some? ==> r.tbl == WithoutExcept(ts, tbl, objs, n))
            && (r.err.Some? ==> r.err == Some(Panicked))
            && (r.err.Some? <==> objs != [] && WithPrefix(tbl[n], raw) == {})
  {
    hide Sound, AllIndexable, PurgeEach, FirstOf, DeletionsOf, WithoutExcept, IsOrder, Scan, AreOrders;
    PurgeScan(table, ts, tbl, n, p, orders);
  }

  /** The entry loop over the scanned rows. */
  lemma PurgeScan(table: string, ts: TableSchema, tbl: Table, n: string, p: Key, orders: nat -> seq<string>)
    requires Consistent(ts, tbl) && n in ts && AreOrders(orders, ts.Keys)
    ensures var objs := Scan(tbl, n, p);
            PurgeEach(table, ts, tbl, objs, n, orders, 0)
            == Bulk(WithoutExcept(ts, tbl, objs, n), DeletionsOf(table, ts, FirstOf([], objs)), |objs|, None)
    ensures Scan(tbl, n, p) == [] ==> WithoutExcept(ts, tbl, Scan(tbl, n, p), n) == tbl
  {
    hide Sound, Complete, PurgeEach, FirstOf, DeletionsOf, Without, IsOrder, Distinct;
    var objs := Scan(tbl, n, p);
    ScanIsLive(ts, tbl, n, p);
    forall o | o in objs ensures Purgeable(ts, tbl, o) {
      assert forall m :: m in ts ==> Indexable(ts[m], o);
    }
    if n == ID {
      SingleValuedOneKey(ts, tbl, n, p);
      ScanDistinctIff(tbl, n, p);
    }
    assert [] + objs == objs;
    WithoutNone(ts, tbl);
    assert WithoutExcept(ts, tbl, [], n) == tbl;
    PurgeEachClosed(table, ts, tbl, [], objs, n, orders, 0);
  }

  /** It removes exactly the scanned objects if and only if the raw argument selects exactly their
      keys, or nothing matched. */
  lemma DeletePrefixIff(table: string, ts: TableSchema, tbl: Table, n: string, p: Key, raw: Key,
                        orders: nat -> seq<string>)
    requires Consistent(ts, tbl) && n in ts && AreOrders(orders, ts.Keys)
    ensures var objs := Scan(tbl, n, p);
            var r := DeletePrefix(table, ts, tbl, n, p, raw, orders);
            && r.count == |objs|
            && r.log == DeletionsOf(table, ts, FirstOf([], objs))
            && (r.err.None? && r.tbl == Without(ts, tbl, objs) <==> PrefixFits(ts, tbl, n, p, raw))
            && (r.err.Some? ==> r.err == Some(Panicked))
            && (r.err.Some? <==> objs != [] && WithPrefix(tbl[n], raw) == {})
  {
    hide Sound, Complete, AllIndexable, DeletePrefix, FirstOf, DeletionsOf, Without, IsOrder, WithoutExcept, Scan, KeysOfAll;
    var objs := Scan(tbl, n, p);
    DeletePrefixClosed(table, ts, tbl, n, p, raw, orders);
    SubtreeStep(ts, tbl, objs, n, raw);
    WithoutNone(ts, tbl);
    if objs != [] {
      ScannedKeyIsFiled(ts, tbl, n, p);
    }
  }

  /** `DeletePrefix` refines `DeleteAll`: without error or panic, the same state, log and count,
      if and only if no object is filed twice in the scanned range and the raw argument selects
      exactly the keys of the scanned objects, or nothing matched. Where an object is filed
      twice, `DeleteAll` fails and `DeletePrefix` does not. */
  lemma DeletePrefixRefinesDeleteAll(table: string, ts: TableSchema, tbl: Table, n: string, p: Key, raw: Key,
                                     orders: nat -> seq<string>, orders': nat -> seq<string>)
    requires Consistent(ts, tbl) && n in ts && AreOrders(orders, ts.Keys) && AreOrders(orders', ts.Keys)
    ensures var fast := DeletePrefix(table, ts, tbl, n, p, raw, orders);
            var slow := DeleteAll(table, ts, tbl, n, p, orders');
            && (fast == slow && slow.err.None? <==> OneKeyEach(tbl, n, p) && PrefixFits(ts, tbl, n, p, raw))
            && (OneKeyEach(tbl, n, p) ==> slow.err.None? && fast.log == slow.log && fast.count == slow.count)
            && (!OneKeyEach(tbl, n, p) ==> slow.err == Some(NotFound) && fast.err != slow.err && fast.count > slow.count)
  {
    hide Sound, Complete, AllIndexable, DeletePrefix, DeleteAll, FirstOf, DeletionsOf, Without, IsOrder, FreshPrefix,
         PrefixFits, Distinct;
    var objs := Scan(tbl, n, p);
    DeletePrefixIff(table, ts, tbl, n, p, raw, orders);
    DeleteAllIff(table, ts, tbl, n, p, orders');
    ScanDistinctIff(tbl, n, p);
    if OneKeyEach(tbl, n, p) {
      var none: seq<Object> := [];
      assert none + objs == objs;
      FirstOfDistinct(none, objs);
    }
  }

  /** On a single-valued index the keys of the scanned objects are the scanned keys, and none is
      filed twice: there the refinement needs only that both prefixes select the same keys. */
  lemma SingleValuedFits(ts: TableSchema, tbl: Table, n: string, p: Key, raw: Key)
    requires Consistent(ts, tbl) && n in ts && SingleValued(ts[n])
    ensures OneKeyEach(tbl, n, p)
    ensures PrefixFits(ts, tbl, n, p, raw) <==>
            WithPrefix(tbl[n], p) == {} || WithPrefix(tbl[n], raw) == WithPrefix(tbl[n], p)
  {
    SingleValuedOneKey(ts, tbl, n, p);
    ScanEmptyIff(tbl, n, p);
    assert WithPrefix(tbl[n], p) * tbl[n].Keys == WithPrefix(tbl[n], p);
  }

  /** A key outside the prefix keeps its entry, although its object is gone from every other index:
      for a multi-valued index, equal prefixes are not enough. */
  lemma KeyOutsideStays(table: string, ts: TableSchema, tbl: Table, n: string, p: Key, k: Key, k': Key,
                        orders: nat -> seq<string>)
    requires Consistent(ts, tbl) && n in ts && n != ID && AreOrders(orders, ts.Keys)
    requires k in tbl[n] && k' in tbl[n] && tbl[n][k] == tbl[n][k'] && p <= k && !(p <= k')
    ensures var r := DeletePrefix(table, ts, tbl, n, p, p, orders);
            && r.err.None?
            && k' in r.tbl[n] && r.tbl[n][k'] == tbl[n][k'] && !IsLive(ts, r.tbl, tbl[n][k'])
            && !Consistent(ts, r.tbl)
  {
    hide AllIndexable, DeletePrefix, FirstOf, DeletionsOf, IsOrder;
    var objs, o := Scan(tbl, n, p), tbl[n][k];
    DeletePrefixClosed(table, ts, tbl, n, p, p, orders);
    ScannedObject(tbl, n, p, k);
    assert k in WithPrefix(tbl[n], p);
    assert IsLive(ts, tbl, o);
    PrimaryStoredKeys(ts, o);
    assert PrimaryKey(ts, o).value in KeysOf(ts, ID, o) && PrimaryKey(ts, o).value in KeysOfAll(ts, ID, objs);
  }

  lemma ScannedObject(tbl: Table, n: string, p: Key, k: Key)
    requires n in tbl && k in tbl[n] && p <= k
    ensures tbl[n][k] in Scan(tbl, n, p)
  {
    var ks := ScanPrefix(tbl[n], p);
    assert k in ks;
    var i :| 0 <= i < |ks| && ks[i] == k;
    assert Scan(tbl, n, p)[i] == tbl[n][k];
  }

  /** An object filed twice in the range stops `DeleteAll`, and does not stop `DeletePrefix`. */
  lemma FiledTwiceStops(table: string, ts: TableSchema, tbl: Table, n: string, p: Key, k: Key, k': Key,
                        orders: nat -> seq<string>)
    requires Consistent(ts, tbl) && n in ts && AreOrders(orders, ts.Keys)
    requires k in tbl[n] && k' in tbl[n] && tbl[n][k] == tbl[n][k'] && p <= k && p <= k' && k != k'
    ensures DeleteAll(table, ts, tbl, n, p, orders).err == Some(NotFound)
    ensures DeletePrefix(table, ts, tbl, n, p, p, orders).err == None
  {
    hide Sound, Complete, AllIndexable, DeletePrefix, DeleteAll, IsOrder, Scan;
    assert k in WithPrefix(tbl[n], p);
    DeleteAllIff(table, ts, tbl, n, p, orders);
    DeletePrefixClosed(table, ts, tbl, n, p, p, orders);
  }

  lemma ScanEmptyIff(tbl: Table, n: string, p: Key)
    requires n in tbl
    ensures Scan(tbl, n, p) == [] <==> WithPrefix(tbl[n], p) == {}
  {
    var ks := ScanPrefix(tbl[n], p);
    if ks != [] {
      assert ks[0] in ks;
      assert ks[0] in WithPrefix(tbl[n], p);
    } else {
      assert forall k :: k in WithPrefix(tbl[n], p) ==> k in ks;
    }
  }
}
