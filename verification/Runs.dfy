/**
 Whole runs of operations: index agreement for every table of a database, and the change log
 as a faithful record of what happened to the primary indexes.
 */
module Runs {
  import opened Bytes
  import opened Radix
  import opened Schema
  import opened Store
  import opened Agreement
  import opened FailedInsert
  import opened BulkDelete
  import opened Query
  import opened Ops
  import opened ChangeLog

  ghost predicate AllConsistent(schema: DBSchema, c: Content) {
    && ValidSchema(schema) && ContentHasShape(schema, c)
    && forall t :: t in schema ==> Consistent(schema[t], c[t])
  }

  ghost predicate AllComplete(schema: DBSchema, c: Content)
    requires AllConsistent(schema, c)
  {
    forall t :: t in schema ==> Complete(schema[t], c[t])
  }

  /** Every index of every table is exactly what its primary index determines. */
  ghost predicate AllAgree(schema: DBSchema, c: Content) {
    AllConsistent(schema, c) && AllComplete(schema, c)
  }

  function PrimariesOf(schema: DBSchema, c: Content): Primaries
    requires ValidSchema(schema) && ContentHasShape(schema, c)
  {
    map t | t in schema :: c[t][ID]
  }

  /** Two databases that agree and have equal primary indexes are equal. */
  lemma PrimariesDetermineContent(schema: DBSchema, a: Content, b: Content)
    requires AllAgree(schema, a) && AllAgree(schema, b) && PrimariesOf(schema, a) == PrimariesOf(schema, b)
    ensures a == b
  {
    forall t | t in schema ensures a[t] == b[t] {
      assert PrimariesOf(schema, a)[t] == PrimariesOf(schema, b)[t];
      AgreementDeterminesIndexes(schema[t], a[t], b[t]);
    }
  }

  /** A new database. */
  function EmptyContent(schema: DBSchema): Content {
    map t | t in schema :: EmptyTable(schema[t])
  }

  lemma EmptyDatabaseAgrees(schema: DBSchema)
    requires ValidSchema(schema)
    ensures AllAgree(schema, EmptyContent(schema))
  {
    hide Sound, Complete, AllIndexable;
    forall t | t in schema ensures Agrees(schema[t], EmptyTable(schema[t])) {
      EmptyAgrees(schema[t]);
    }
  }

  // ---------------------------------------------------------------- conditions on operations

  /** What soundness needs of an insert: if it succeeds, no residue; if it fails, no index rewritten. */
  ghost predicate TidyInsert(ts: TableSchema, tbl: Table, obj: Object, order: seq<string>)
    requires ValidTable(ts) && HasShape(ts, tbl) && IsOrder(order, ts.Keys)
  {
    PrimaryKey(ts, obj).Some? ==>
      if Insertable(ts, tbl, obj) then LeavesNoResidue(ts, tbl, obj) else Harmless(ts, tbl, obj, order)
  }

  /** What soundness needs of an operation, failing or not: an insert is tidy; the raw argument of a
      `DeletePrefix` that matches anything selects exactly the keys of the scanned objects. */
  ghost predicate Tidy(schema: DBSchema, c: Content, op: Op)
    requires ValidSchema(schema) && ContentHasShape(schema, c) && ProperOp(schema, op)
  {
    op.table in schema ==>
      match op
      case Insert(t, obj, order) => TidyInsert(schema[t], c[t], obj, order)
      case Delete(_, _, _) => true
      case DeleteAll(_, _, _, _) => true
      case DeletePrefix(t, index, prefix, _) =>
        var found := Resolve(schema, t, index, [Val(Str(prefix))]);
        IsPrefixName(index) && found.Found? ==> PrefixFits(schema[t], c[t], found.name, Seek(found.val), prefix)
  }

  /** What agreement needs in addition: an insert that succeeds takes no key from another live
      object. */
  ghost predicate Clean(schema: DBSchema, c: Content, op: Op)
    requires ValidSchema(schema) && ContentHasShape(schema, c) && ProperOp(schema, op)
  {
    && Tidy(schema, c, op)
    && (op.Insert? && op.table in schema && Insertable(schema[op.table], c[op.table], op.obj) ==>
          NoCollision(schema[op.table], c[op.table], op.obj))
  }

  // ---------------------------------------------------------------- one operation

  /** What one operation does to a table: it stays consistent, agreement survives if
      the operation is clean, and the log entries tell how the primary index got there. */
  ghost predicate GoodStep(ts: TableSchema, tbl: Table, tbl': Table, table: string, log: seq<Change>, clean: bool)
    requires Consistent(ts, tbl)
  {
    && Consistent(ts, tbl')
    && (Complete(ts, tbl) && clean ==> Complete(ts, tbl'))
    && LogsTo(table, tbl[ID], tbl'[ID], log)
  }

  /** The log leads from one primary tree of a table to another, whatever the other tables hold. */
  ghost predicate LogsTo(table: string, t: Tree<Object>, t': Tree<Object>, log: seq<Change>) {
    forall p: Primaries :: LogsFrom(p, table, t, t', log)
  }

  predicate LogsFrom(p: Primaries, table: string, t: Tree<Object>, t': Tree<Object>, log: seq<Change>) {
    table in p && p[table] == t ==> Chained(p, log) && Replay(p, log) == p[table := t']
  }

  lemma LogsNothing(table: string, t: Tree<Object>)
    ensures LogsTo(table, t, t, [])
  {
    forall p: Primaries ensures LogsFrom(p, table, t, t, []) {
      assert table in p && p[table] == t ==> p[table := t] == p;
    }
  }

  lemma LogsOne(table: string, t: Tree<Object>, m: Change)
    requires m.table == table && !Void(m) && m.before == if m.pk in t then Some(t[m.pk]) else None
    ensures LogsTo(table, t, if m.after.Some? then t[m.pk := m.after.value] else t - {m.pk}, [m])
  {
    var t' := if m.after.Some? then t[m.pk := m.after.value] else t - {m.pk};
    forall p: Primaries ensures LogsFrom(p, table, t, t', [m]) {
      if table in p && p[table] == t {
        ChainedOne(p, m);
      }
    }
  }

  lemma LogsConcat(table: string, t: Tree<Object>, t1: Tree<Object>, t2: Tree<Object>, a: seq<Change>, b: seq<Change>)
    requires LogsTo(table, t, t1, a) && LogsTo(table, t1, t2, b)
    ensures LogsTo(table, t, t2, a + b)
  {
    hide Chained, Replay, Known;
    forall p: Primaries ensures LogsFrom(p, table, t, t2, a + b) {
      if table in p && p[table] == t {
        var p1 := p[table := t1];
        assert LogsFrom(p, table, t, t1, a) && LogsFrom(p1, table, t1, t2, b);
        assert p1[table := t2] == p[table := t2];
        ChainedConcat(p, a, b);
      }
    }
  }

  lemma InsertStep(table: string, ts: TableSchema, tbl: Table, obj: Object, order: seq<string>)
    requires Consistent(ts, tbl) && IsOrder(order, ts.Keys) && Succeeds(Store.Insert(ts, tbl, obj, order))
    requires PrimaryKey(ts, obj).Some? ==> LeavesNoResidue(ts, tbl, obj)
    ensures PrimaryKey(ts, obj).Some?
    ensures GoodStep(ts, tbl, Store.Insert(ts, tbl, obj, order).0, table, [InsertChange(table, ts, tbl, obj)],
                     NoCollision(ts, tbl, obj))
  {
    hide Sound, Complete, AllIndexable, LeavesNoResidue, NoCollision;
    InsertOrderIndependent(ts, tbl, obj, order);
    InsertKeepsSound(ts, tbl, obj);
    if Complete(ts, tbl) && NoCollision(ts, tbl, obj) {
      InsertKeepsComplete(ts, tbl, obj);
    }
    PrimaryAfterInsert(ts, tbl, obj);
    LogsOne(table, tbl[ID], InsertChange(table, ts, tbl, obj));
  }

  lemma NoStep(table: string, ts: TableSchema, tbl: Table, clean: bool)
    requires Consistent(ts, tbl)
    ensures GoodStep(ts, tbl, tbl, table, [], clean)
  {
    LogsNothing(table, tbl[ID]);
  }

  /** In a consistent table a deletion is a good step also when it fails: it finds nothing and
      changes nothing. */
  lemma DeleteStep(table: string, ts: TableSchema, tbl: Table, obj: Object, order: seq<string>)
    requires Consistent(ts, tbl) && IsOrder(order, ts.Keys)
    ensures var r := DeleteOne(table, ts, tbl, obj, order);
            GoodStep(ts, tbl, r.tbl, table, r.log, true)
  {
    hide Sound, Complete, AllIndexable, DeleteIndexes;
    DeleteOrderIndependent(ts, tbl, obj, order);
    DeleteSucceedsIff(ts, tbl, obj);
    NoStep(table, ts, tbl, true);
    if Deletable(ts, tbl, obj) {
      var id := PrimaryKey(ts, obj).value;
      DeleteKeeps(ts, tbl, id);
      LogsOne(table, tbl[ID], DeleteChange(table, ts, tbl, obj));
    }
  }

  lemma {:induction false} DeleteEachStep(table: string, ts: TableSchema, tbl: Table, objs: seq<Object>,
                                          orders: nat -> seq<string>, i: nat)
    requires Consistent(ts, tbl) && AreOrders(orders, ts.Keys)
    ensures var r := DeleteEach(table, ts, tbl, objs, orders, i);
            GoodStep(ts, tbl, r.tbl, table, r.log, true)
    decreases objs
  {
    hide Sound, AllIndexable, Complete, LogsTo, IsOrder, DeleteOne;
    if objs == [] {
      LogsNothing(table, tbl[ID]);
    } else {
      DeleteStep(table, ts, tbl, objs[0], orders(i));
      var r := DeleteOne(table, ts, tbl, objs[0], orders(i));
      if r.err.None? {
        DeleteEachStep(table, ts, r.tbl, objs[1..], orders, i + 1);
        var rest := DeleteEach(table, ts, r.tbl, objs[1..], orders, i + 1);
        LogsConcat(table, tbl[ID], r.tbl[ID], rest.tbl[ID], r.log, rest.log);
      }
    }
  }

  /** Deleting the scanned objects one by one, each once: what `DeletePrefix` has to amount to. */
  lemma ScannedOnceStep(table: string, ts: TableSchema, tbl: Table, n: string, p: Key, orders: nat -> seq<string>)
    requires Consistent(ts, tbl) && n in ts && AreOrders(orders, ts.Keys)
    ensures var objs := Scan(tbl, n, p);
            GoodStep(ts, tbl, Without(ts, tbl, objs), table, DeletionsOf(table, ts, FirstOf([], objs)), true)
  {
    hide Sound, AllIndexable, Complete, LogsTo, IsOrder, DeleteEach, Without, DeletionsOf, FirstOf;
    var none: seq<Object> := [];
    var objs := Scan(tbl, n, p);
    var once := FirstOf(none, objs);
    ScanIsLive(ts, tbl, n, p);
    FirstOfMeaning(none, objs);
    assert none + once == once && none + objs == objs;
    assert AllLive(ts, tbl, once) && forall o :: o in once ==> LiveOrGone(ts, tbl, o);
    WithoutSame(ts, tbl, once, objs);
    DeleteEachIff(table, ts, tbl, once, orders, 0);
    DeleteEachStep(table, ts, tbl, once, orders, 0);
  }

  lemma WithoutSame(ts: TableSchema, tbl: Table, a: seq<Object>, b: seq<Object>)
    requires ValidTable(ts) && HasShape(ts, tbl) && forall o :: o in a <==> o in b
    ensures Without(ts, tbl, a) == Without(ts, tbl, b)
  {
    forall n | n in ts ensures KeysOfAll(ts, n, a) == KeysOfAll(ts, n, b) {
    }
  }

  lemma DeletePrefixStep(table: string, ts: TableSchema, tbl: Table, n: string, p: Key, raw: Key,
                         orders: nat -> seq<string>)
    requires Consistent(ts, tbl) && n in ts && AreOrders(orders, ts.Keys) && PrefixFits(ts, tbl, n, p, raw)
    ensures var r := BulkDelete.DeletePrefix(table, ts, tbl, n, p, raw, orders);
            r.err.None? && GoodStep(ts, tbl, r.tbl, table, r.log, true)
  {
    hide Sound, AllIndexable, Complete, LogsTo, IsOrder, BulkDelete.DeletePrefix, PrefixFits, Without, FirstOf, Scan;
    DeletePrefixIff(table, ts, tbl, n, p, raw, orders);
    ScannedOnceStep(table, ts, tbl, n, p, orders);
  }

  /** A `DeletePrefix` keeps agreement and tells the truth in the log if and only if its raw argument
      fits; where it panics, it does not. */
  lemma DeletePrefixAgreesIff(table: string, ts: TableSchema, tbl: Table, n: string, p: Key, raw: Key,
                              orders: nat -> seq<string>, all: Primaries)
    requires Agrees(ts, tbl) && n in ts && AreOrders(orders, ts.Keys)
    requires table in all && all[table] == tbl[ID]
    ensures var r := BulkDelete.DeletePrefix(table, ts, tbl, n, p, raw, orders);
            Agrees(ts, r.tbl) && Known(all, r.log) && Replay(all, r.log) == all[table := r.tbl[ID]]
            <==> PrefixFits(ts, tbl, n, p, raw)
  {
    hide Sound, AllIndexable, Complete, LogsTo, IsOrder, BulkDelete.DeletePrefix, PrefixFits, Without, FirstOf, Scan,
         Chained, Known, Replay, DeletionsOf;
    var r := BulkDelete.DeletePrefix(table, ts, tbl, n, p, raw, orders);
    var goal := Without(ts, tbl, Scan(tbl, n, p));
    DeletePrefixIff(table, ts, tbl, n, p, raw, orders);
    ScannedOnceStep(table, ts, tbl, n, p, orders);
    LogsAt(all, table, tbl[ID], goal[ID], r.log);
    if Agrees(ts, r.tbl) && Known(all, r.log) && Replay(all, r.log) == all[table := r.tbl[ID]] {
      assert all[table := r.tbl[ID]][table] == all[table := goal[ID]][table];
      AgreementDeterminesIndexes(ts, r.tbl, goal);
      PanicLeavesEntries(table, ts, tbl, n, p, raw, orders);
    }
  }

  /** After a panic the entries of the scanned objects are still in the scanned index. */
  lemma PanicLeavesEntries(table: string, ts: TableSchema, tbl: Table, n: string, p: Key, raw: Key,
                           orders: nat -> seq<string>)
    requires Consistent(ts, tbl) && n in ts && AreOrders(orders, ts.Keys)
    ensures var r := BulkDelete.DeletePrefix(table, ts, tbl, n, p, raw, orders);
            r.err.Some? ==> r.tbl != Without(ts, tbl, Scan(tbl, n, p))
  {
    hide Sound, AllIndexable, IsOrder, BulkDelete.DeletePrefix, Scan, FirstOf, DeletionsOf, KeysOfAll;
    DeletePrefixClosed(table, ts, tbl, n, p, raw, orders);
    if Scan(tbl, n, p) != [] {
      ScannedKeyIsFiled(ts, tbl, n, p);
      var k :| k in KeysOfAll(ts, n, Scan(tbl, n, p)) * tbl[n].Keys;
      assert k in WithoutExcept(ts, tbl, Scan(tbl, n, p), n)[n] && k !in Without(ts, tbl, Scan(tbl, n, p))[n];
    }
  }

  lemma LogsAt(all: Primaries, table: string, t: Tree<Object>, t': Tree<Object>, log: seq<Change>)
    requires LogsTo(table, t, t', log) && table in all && all[table] == t
    ensures Chained(all, log) && Known(all, log) && Replay(all, log) == all[table := t']
  {
    assert LogsFrom(all, table, t, t', log);
  }

  /** An insert, failing or not. */
  lemma AnyInsertStep(table: string, ts: TableSchema, tbl: Table, obj: Object, order: seq<string>)
    requires Consistent(ts, tbl) && IsOrder(order, ts.Keys) && TidyInsert(ts, tbl, obj, order)
    ensures var (tbl', err) := Store.Insert(ts, tbl, obj, order);
            && (err.None? ==> PrimaryKey(ts, obj).Some?)
            && GoodStep(ts, tbl, tbl', table, if err.Some? then [] else [InsertChange(table, ts, tbl, obj)],
                        Insertable(ts, tbl, obj) ==> NoCollision(ts, tbl, obj))
  {
    hide Sound, AllIndexable, Complete, LogsTo, NoCollision, LeavesNoResidue, Harmless, InsertIndexes;
    InsertOrderIndependent(ts, tbl, obj, order);
    if Insertable(ts, tbl, obj) {
      InsertStep(table, ts, tbl, obj, order);
    } else {
      NoStep(table, ts, tbl, true);
      if PrimaryKey(ts, obj).Some? {
        HarmlessChangesNothing(ts, tbl, obj, order);
      }
    }
  }

  /** An operation on a table that exists: only that table changes, by a good step. */
  ghost predicate GoodEffect(schema: DBSchema, c: Content, op: Op, r: Effect)
    requires AllConsistent(schema, c) && op.table in schema && ContentHasShape(schema, r.c)
  {
    var t := op.table;
    && r.c == c[t := r.c[t]]
    && GoodStep(schema[t], c[t], r.c[t], t, r.log,
                op.Insert? && Insertable(schema[t], c[t], op.obj) ==> NoCollision(schema[t], c[t], op.obj))
  }

  /** Every tidy operation, failing or not, is a good step of its own table and leaves the others
      alone. */
  lemma OpIsGoodStep(schema: DBSchema, c: Content, op: Op)
    requires AllConsistent(schema, c) && ProperOp(schema, op) && Tidy(schema, c, op)
    ensures var r := Apply(schema, c, op);
            if op.table !in schema then r.c == c && r.log == [] else GoodEffect(schema, c, op, r)
  {
    hide ContentHasShape, ProperOp, Tidy, GoodEffect, InsertEffect, DeleteEffect, DeleteAllEffect, DeletePrefixEffect,
         ValidSchema;
    if op.table in schema {
      if op.Insert? || op.Delete? {
        RowOpIsGoodStep(schema, c, op);
      } else {
        BulkOpIsGoodStep(schema, c, op);
      }
    }
  }

  lemma RowOpIsGoodStep(schema: DBSchema, c: Content, op: Op)
    requires AllConsistent(schema, c) && ProperOp(schema, op) && Tidy(schema, c, op)
    requires op.table in schema && (op.Insert? || op.Delete?)
    ensures GoodEffect(schema, c, op, Apply(schema, c, op))
  {
    hide Sound, AllIndexable, Complete, LogsTo, IsOrder, Store.Insert, DeleteOne, NoCollision, SingleValued, TidyInsert,
         Insertable, GoodStep;
    var t := op.table;
    match op
    case Insert(_, obj, order) =>
      AnyInsertStep(t, schema[t], c[t], obj, order);
    case Delete(_, obj, order) =>
      DeleteStep(t, schema[t], c[t], obj, order);
  }

  lemma BulkOpIsGoodStep(schema: DBSchema, c: Content, op: Op)
    requires AllConsistent(schema, c) && ProperOp(schema, op) && Tidy(schema, c, op)
    requires op.table in schema && (op.DeleteAll? || op.DeletePrefix?)
    ensures GoodEffect(schema, c, op, Apply(schema, c, op))
  {
    hide Sound, AllIndexable, Complete, LogsTo, IsOrder, BulkDelete.DeletePrefix, DeleteEach, SingleValued, Insertable,
         GoodStep, PrefixFits, IsPrefixName, Resolve;
    var t := op.table;
    assert c[t := c[t]] == c;
    NoStep(t, schema[t], c[t], true);
    match op
    case DeleteAll(_, index, args, orders) =>
      var found := Resolve(schema, t, index, args);
      if found.Found? {
        DeleteEachStep(t, schema[t], c[t], Scan(c[t], found.name, Seek(found.val)), orders, 0);
      }
    case DeletePrefix(_, index, prefix, orders) =>
      var found := Resolve(schema, t, index, [Val(Str(prefix))]);
      if IsPrefixName(index) && found.Found? {
        DeletePrefixStep(t, schema[t], c[t], found.name, Seek(found.val), prefix, orders);
      }
  }

  /** One operation on a database. */
  lemma OpKeeps(schema: DBSchema, c: Content, op: Op)
    requires AllConsistent(schema, c) && ProperOp(schema, op) && Tidy(schema, c, op)
    ensures var r := Apply(schema, c, op);
            && AllConsistent(schema, r.c)
            && (AllComplete(schema, c) && Clean(schema, c, op) ==> AllComplete(schema, r.c))
            && Chained(PrimariesOf(schema, c), r.log)
            && Replay(PrimariesOf(schema, c), r.log) == PrimariesOf(schema, r.c)
  {
    hide Apply, Sound, AllIndexable, Complete, Chained, Replay, Known, NoCollision, Tidy, Insertable;
    OpIsGoodStep(schema, c, op);
    var r := Apply(schema, c, op);
    if op.table in schema {
      StepLogs(schema, c, op.table, r.c[op.table], r.log);
    } else {
      NothingChained(PrimariesOf(schema, c), r.log);
    }
  }

  lemma NothingChained(p: Primaries, none: seq<Change>)
    requires none == []
    ensures Chained(p, none) && Replay(p, none) == p
  {
  }

  lemma StepLogs(schema: DBSchema, c: Content, table: string, tbl': Table, log: seq<Change>)
    requires AllConsistent(schema, c) && table in schema && HasShape(schema[table], tbl')
    requires LogsTo(table, c[table][ID], tbl'[ID], log)
    ensures var p := PrimariesOf(schema, c);
            Chained(p, log) && Replay(p, log) == PrimariesOf(schema, c[table := tbl'])
  {
    hide Consistent, Chained, Replay, Known;
    var p := PrimariesOf(schema, c);
    assert LogsFrom(p, table, c[table][ID], tbl'[ID], log);
    PrimariesUpdate(schema, c, table, tbl');
  }

  lemma PrimariesUpdate(schema: DBSchema, c: Content, t: string, tbl: Table)
    requires ValidSchema(schema) && ContentHasShape(schema, c) && t in schema && HasShape(schema[t], tbl)
    ensures PrimariesOf(schema, c[t := tbl]) == PrimariesOf(schema, c)[t := tbl[ID]]
  {
  }

  /** The log leads from primary indexes `p` to `q`. */
  ghost predicate Tells(p: Primaries, q: Primaries, log: seq<Change>) {
    Chained(p, log) && Known(p, log) && Replay(p, log) == q
  }

  lemma NothingTold(p: Primaries, none: seq<Change>)
    requires none == []
    ensures Tells(p, p, none)
  {
  }

  /** A log that tells how the primary indexes came about goes on telling it, with the entries of one
      more tidy operation. */
  lemma OpTells(schema: DBSchema, c: Content, op: Op, log: seq<Change>)
    requires AllConsistent(schema, c) && ProperOp(schema, op) && Tidy(schema, c, op)
    ensures var r := Apply(schema, c, op);
            && AllConsistent(schema, r.c)
            && forall p :: Tells(p, PrimariesOf(schema, c), log) ==> Tells(p, PrimariesOf(schema, r.c), log + r.log)
  {
    hide Apply, Sound, AllIndexable, Complete, Chained, Replay, Known, Tidy;
    OpKeeps(schema, c, op);
    var r := Apply(schema, c, op);
    forall p | Tells(p, PrimariesOf(schema, c), log) ensures Tells(p, PrimariesOf(schema, r.c), log + r.log) {
      ChainedConcat(p, log, r.log);
      ChainedKnown(p, log + r.log);
    }
  }

  /** Compaction keeps the message, and brings out the difference. */
  lemma CompactedTells(p: Primaries, q: Primaries, log: seq<Change>)
    requires Tells(p, q, log)
    ensures Tells(p, q, Compacted(log)) && Describes(p, q, Compacted(log))
  {
    hide Chained, Replay, Known, Describes;
    NetReplays(p, log);
    NetDescribes(p, log);
    ChainedKnown(p, Compacted(log));
  }

  /** What a step of a transaction is meant to do: every index of every table stays exact, and
      the log entries lead from the old primary indexes to the new ones. */
  ghost predicate Faithful(schema: DBSchema, c: Content, r: Effect)
    requires AllConsistent(schema, c)
  {
    && AllAgree(schema, r.c)
    && Chained(PrimariesOf(schema, c), r.log)
    && Replay(PrimariesOf(schema, c), r.log) == PrimariesOf(schema, r.c)
  }

  /** From a database that agrees, an operation, failing or not, is faithful if and only if it is
      clean. A caller can test the condition before the call. */
  lemma OpAgreesIff(schema: DBSchema, c: Content, op: Op)
    requires AllAgree(schema, c) && ProperOp(schema, op)
    ensures Faithful(schema, c, Apply(schema, c, op)) <==> Clean(schema, c, op)
  {
    hide Sound, AllIndexable, Complete, Chained, Replay, Known, NoCollision, LeavesNoResidue, PrefixFits, TidyInsert, Apply,
         Insertable;
    var r := Apply(schema, c, op);
    if Clean(schema, c, op) {
      OpKeeps(schema, c, op);
    }
    if Faithful(schema, c, r) && op.table in schema {
      if op.Insert? {
        FaithfulInsert(schema, c, op.table, op.obj, op.order);
      } else if op.DeletePrefix? && IsPrefixName(op.index)
                && Resolve(schema, op.table, op.index, [Val(Str(op.prefix))]).Found? {
        FaithfulPrefix(schema, c, op.table, op.index, op.prefix, op.orders);
      }
    }
  }

  lemma FaithfulInsert(schema: DBSchema, c: Content, t: string, obj: Object, order: seq<string>)
    requires AllAgree(schema, c) && ProperOp(schema, Op.Insert(t, obj, order)) && t in schema
    requires AllAgree(schema, Apply(schema, c, Op.Insert(t, obj, order)).c)
    ensures Clean(schema, c, Op.Insert(t, obj, order))
  {
    hide Sound, AllIndexable, Complete, NoCollision, LeavesNoResidue, Store.Insert, IsOrder, Insertable, Harmless;
    assert Agrees(schema[t], c[t]);
    var r := Apply(schema, c, Op.Insert(t, obj, order));
    assert r.c[t] == Store.Insert(schema[t], c[t], obj, order).0;
    InsertOrderIndependent(schema[t], c[t], obj, order);
    if Insertable(schema[t], c[t], obj) {
      InsertAgreesIff(schema[t], c[t], obj, order);
    } else if PrimaryKey(schema[t], obj).Some? {
      FailedInsertAgreesIff(schema[t], c[t], obj, order);
    }
  }

  lemma FaithfulPrefix(schema: DBSchema, c: Content, t: string, index: string, prefix: Key, orders: nat -> seq<string>)
    requires AllAgree(schema, c) && ProperOp(schema, Op.DeletePrefix(t, index, prefix, orders))
    requires IsPrefixName(index) && Resolve(schema, t, index, [Val(Str(prefix))]).Found?
    requires Faithful(schema, c, Apply(schema, c, Op.DeletePrefix(t, index, prefix, orders)))
    ensures Clean(schema, c, Op.DeletePrefix(t, index, prefix, orders))
  {
    hide Apply, Sound, AllIndexable, Complete, PrefixFits, BulkDelete.DeletePrefix, IsOrder, Chained, Replay, Known, Resolve;
    PrefixEffect(schema, c, t, index, prefix, orders);
    var r := Apply(schema, c, Op.DeletePrefix(t, index, prefix, orders));
    var found := Resolve(schema, t, index, [Val(Str(prefix))]);
    var tbl := BulkDelete.DeletePrefix(t, schema[t], c[t], found.name, Seek(found.val), prefix, orders).tbl;
    var p := PrimariesOf(schema, c);
    assert Agrees(schema[t], c[t]) && Agrees(schema[t], r.c[t]);
    PrimariesUpdate(schema, c, t, tbl);
    ChainedKnown(p, r.log);
    DeletePrefixAgreesIff(t, schema[t], c[t], found.name, Seek(found.val), prefix, orders, p);
  }

  lemma PrefixEffect(schema: DBSchema, c: Content, t: string, index: string, prefix: Key, orders: nat -> seq<string>)
    requires ValidSchema(schema) && ContentHasShape(schema, c) && ProperOp(schema, Op.DeletePrefix(t, index, prefix, orders))
    requires IsPrefixName(index) && Resolve(schema, t, index, [Val(Str(prefix))]).Found?
    ensures t in schema && AreOrders(orders, schema[t].Keys)
    ensures var found := Resolve(schema, t, index, [Val(Str(prefix))]);
            Apply(schema, c, Op.DeletePrefix(t, index, prefix, orders))
            == BulkEffect(c, t, BulkDelete.DeletePrefix(t, schema[t], c[t], found.name, Seek(found.val), prefix, orders))
  {
    hide BulkDelete.DeletePrefix, IsOrder;
  }

  // ---------------------------------------------------------------- runs

  /** Every operation of the run, failing or not, is tidy where it happens. */
  ghost predicate TidyRun(schema: DBSchema, c: Content, ops: seq<Op>)
    decreases |ops|
  {
    && ValidSchema(schema) && ContentHasShape(schema, c) && ProperOps(schema, ops)
    && (ops != [] ==>
          var front, op := ops[..|ops| - 1], ops[|ops| - 1];
          TidyRun(schema, c, front) && Tidy(schema, ApplyAll(schema, c, front), op))
  }

  /** Every operation of the run, failing or not, is clean where it happens. */
  ghost predicate CleanRun(schema: DBSchema, c: Content, ops: seq<Op>)
    decreases |ops|
  {
    && TidyRun(schema, c, ops)
    && (ops != [] ==>
          var front, op := ops[..|ops| - 1], ops[|ops| - 1];
          CleanRun(schema, c, front) && Clean(schema, ApplyAll(schema, c, front), op))
  }

  /** The whole uncompacted change log of a run. */
  ghost function RunLog(schema: DBSchema, c: Content, ops: seq<Op>): seq<Change>
    requires ValidSchema(schema) && ContentHasShape(schema, c) && ProperOps(schema, ops)
    decreases |ops|
  {
    if ops == [] then []
    else
      var front, op := ops[..|ops| - 1], ops[|ops| - 1];
      RunLog(schema, c, front) + Apply(schema, ApplyAll(schema, c, front), op).log
  }

  /** Over any run of tidy operations: every index entry points to a live object that
      produces its key (no assumption on unique values), and the change log is a faithful
      record of the primary indexes. */
  lemma {:induction false} RunKeepsConsistent(schema: DBSchema, c: Content, ops: seq<Op>)
    requires AllConsistent(schema, c) && TidyRun(schema, c, ops)
    ensures AllConsistent(schema, ApplyAll(schema, c, ops))
    ensures Chained(PrimariesOf(schema, c), RunLog(schema, c, ops))
    ensures Replay(PrimariesOf(schema, c), RunLog(schema, c, ops)) == PrimariesOf(schema, ApplyAll(schema, c, ops))
    decreases |ops|
  {
    hide Apply, Sound, AllIndexable, Tidy, ProperOp, ContentHasShape;
    if ops != [] {
      var front, op := ops[..|ops| - 1], ops[|ops| - 1];
      RunKeepsConsistent(schema, c, front);
      var c1 := ApplyAll(schema, c, front);
      OpKeeps(schema, c1, op);
      ChainedConcat(PrimariesOf(schema, c), RunLog(schema, c, front), Apply(schema, c1, op).log);
    }
  }

  /** Index agreement over all runs: after any sequence of clean operations each index of each table
      is exactly the index that the primary index determines. */
  lemma {:induction false} RunKeepsAgreement(schema: DBSchema, c: Content, ops: seq<Op>)
    requires AllAgree(schema, c) && CleanRun(schema, c, ops)
    ensures AllAgree(schema, ApplyAll(schema, c, ops))
    decreases |ops|
  {
    hide Apply, Sound, AllIndexable, Complete, Tidy, NoCollision, ProperOp, ContentHasShape;
    if ops != [] {
      var front, op := ops[..|ops| - 1], ops[|ops| - 1];
      RunKeepsAgreement(schema, c, front);
      OpKeeps(schema, ApplyAll(schema, c, front), op);
    }
  }

  /** Every operation of the run is faithful where it happens. */
  ghost predicate FaithfulRun(schema: DBSchema, c: Content, ops: seq<Op>)
    requires ValidSchema(schema) && ContentHasShape(schema, c) && ProperOps(schema, ops)
    decreases |ops|
  {
    ops != [] ==>
      var front, op := ops[..|ops| - 1], ops[|ops| - 1];
      && FaithfulRun(schema, c, front)
      && AllConsistent(schema, ApplyAll(schema, c, front))
      && Faithful(schema, ApplyAll(schema, c, front), Apply(schema, ApplyAll(schema, c, front), op))
  }

  /** The exact condition over runs: after every operation all indexes are exact and the log is true,
      if and only if every operation is clean. */
  lemma {:induction false} RunAgreesIff(schema: DBSchema, c: Content, ops: seq<Op>)
    requires AllAgree(schema, c) && ProperOps(schema, ops)
    ensures FaithfulRun(schema, c, ops) <==> CleanRun(schema, c, ops)
    decreases |ops|
  {
    hide Apply, Sound, AllIndexable, Complete, Tidy, NoCollision, ProperOp, ContentHasShape, Faithful, ApplyAll;
    if ops != [] {
      var front, op := ops[..|ops| - 1], ops[|ops| - 1];
      RunAgreesIff(schema, c, front);
      if CleanRun(schema, c, front) {
        RunKeepsAgreement(schema, c, front);
        OpAgreesIff(schema, ApplyAll(schema, c, front), op);
        CleanIsTidy(schema, ApplyAll(schema, c, front), op);
      }
    }
  }

  lemma CleanIsTidy(schema: DBSchema, c: Content, op: Op)
    requires ValidSchema(schema) && ContentHasShape(schema, c) && ProperOp(schema, op)
    ensures Clean(schema, c, op) ==> Tidy(schema, c, op)
  {
  }

  /** `Changes` tells the net effect of a run: it replays over the starting primary indexes to
      the current ones, and describes each difference once with its true ends. */
  lemma ChangesTellNetEffect(schema: DBSchema, c: Content, ops: seq<Op>)
    requires AllConsistent(schema, c) && TidyRun(schema, c, ops)
    ensures var p, q := PrimariesOf(schema, c), PrimariesOf(schema, ApplyAll(schema, c, ops));
            var cs := Compacted(RunLog(schema, c, ops));
            && Chained(p, cs) && Replay(p, cs) == q
            && Describes(p, q, cs)
            && ByLastMutation(RunLog(schema, c, ops), cs)
  {
    hide Apply, Chained, Replay, Known, Sound, AllIndexable, Tidy, ApplyAll, PrimariesOf;
    var p, log := PrimariesOf(schema, c), RunLog(schema, c, ops);
    RunKeepsConsistent(schema, c, ops);
    NetReplays(p, log);
    NetDescribes(p, log);
    NetOrdered(log);
  }

  // ---------------------------------------------------------------- when the conditions hold

  /** Distinct values on unique indexes and prefix-free values on the others are enough for an
      insert to take no key from another object. */
  ghost predicate Separate(ts: TableSchema, n: string, o: Object, obj: Object)
    requires n in ts
  {
    forall v, w :: v in ValuesOf(ts[n], o) && w in ValuesOf(ts[n], obj) ==>
      if ts[n].unique then v != w else (Comparable(v, w) ==> v == w)
  }

  lemma SeparateNeverCollides(ts: TableSchema, tbl: Table, obj: Object)
    requires ValidTable(ts) && HasShape(ts, tbl) && PrimaryKey(ts, obj).Some?
    requires forall n, o :: n in ts && IsLive(ts, tbl, o) && PrimaryKey(ts, o) != PrimaryKey(ts, obj) ==>
               Separate(ts, n, o, obj)
    ensures NoCollision(ts, tbl, obj)
  {
    forall n, o, k | n in ts && IsLive(ts, tbl, o) && PrimaryKey(ts, o) != PrimaryKey(ts, obj) && k in KeysOf(ts, n, o)
      ensures k !in KeysOf(ts, n, obj)
    {
      KeysApart(ts, n, o, obj, k);
    }
  }

  lemma KeysApart(ts: TableSchema, n: string, o: Object, obj: Object, k: Key)
    requires ValidTable(ts) && n in ts && Separate(ts, n, o, obj)
    requires PrimaryKey(ts, o) != PrimaryKey(ts, obj) && k in KeysOf(ts, n, o)
    ensures k !in KeysOf(ts, n, obj)
  {
    if k in KeysOf(ts, n, obj) {
      var v := KeyHasValue(ts, n, o, k);
      var w := KeyHasValue(ts, n, obj, k);
      if !ts[n].unique {
        ConcatSplit(v, PrimaryKey(ts, o).value, w, PrimaryKey(ts, obj).value);
      }
    }
  }

  lemma CleanRunSnoc(schema: DBSchema, c: Content, ops: seq<Op>, op: Op)
    requires CleanRun(schema, c, ops) && ProperOp(schema, op)
    requires Clean(schema, ApplyAll(schema, c, ops), op)
    ensures CleanRun(schema, c, ops + [op])
  {
    hide Apply, Clean, Tidy, ProperOp, ContentHasShape;
    assert (ops + [op])[..|ops|] == ops;
    ApplyAllSnoc(schema, c, ops, op);
    CleanIsTidy(schema, ApplyAll(schema, c, ops), op);
  }

  lemma NoOpsAreClean(schema: DBSchema, c: Content, none: seq<Op>)
    requires ValidSchema(schema) && ContentHasShape(schema, c) && none == []
    ensures CleanRun(schema, c, none) && ApplyAll(schema, c, none) == c
  {
  }

  lemma InsertIntoEmpty(schema: DBSchema, c: Content, t: string, obj: Object, order: seq<string>)
    requires ValidSchema(schema) && ContentHasShape(schema, c) && t in schema && IsOrder(order, schema[t].Keys)
    requires c[t] == EmptyTable(schema[t]) && Insertable(schema[t], c[t], obj)
    ensures Apply(schema, c, Op.Insert(t, obj, order)).err.None?
    ensures Clean(schema, c, Op.Insert(t, obj, order))
  {
    hide InsertIndexes;
    InsertOrderIndependent(schema[t], c[t], obj, order);
  }

  /** The first insert into a table is always clean: runs of clean operations do exist. */
  lemma FirstInsertIsClean(schema: DBSchema, t: string, obj: Object, order: seq<string>)
    requires ValidSchema(schema) && t in schema && IsOrder(order, schema[t].Keys)
    requires Insertable(schema[t], EmptyTable(schema[t]), obj)
    ensures CleanRun(schema, EmptyContent(schema), [Op.Insert(t, obj, order)])
  {
    hide Apply, Clean, CleanRun, ApplyAll, Insertable, IsOrder, TidyRun, SingleValued;
    var op, c := Op.Insert(t, obj, order), EmptyContent(schema);
    var none: seq<Op> := [];
    NoOpsAreClean(schema, c, none);
    InsertIntoEmpty(schema, c, t, obj, order);
    CleanRunSnoc(schema, c, none, op);
    assert none + [op] == [op];
  }
}
