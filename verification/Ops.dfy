/**
 The operations of a write transaction as functions on database contents, and the resolution
 of query arguments (`getIndexValue`).
 */
module Ops {
  import opened Bytes
  import opened Radix
  import opened Schema
  import opened Store
  import opened BulkDelete

  const PREFIX_SUFFIX := "_prefix"

  predicate IsPrefixName(index: string) {
    |index| >= |PREFIX_SUFFIX| && index[|index| - |PREFIX_SUFFIX|..] == PREFIX_SUFFIX
  }

  function IndexName(index: string): string {
    if IsPrefixName(index) then index[..|index| - |PREFIX_SUFFIX|] else index
  }

  /** `Found` carries the index to scan and the value to seek; no value means no arguments. */
  datatype Resolution = Found(name: string, val: Option<Key>) | Bad(err: Error)

  /** `getIndexValue`. A `_prefix` suffix is always stripped, even when an index of the full
      name exists. */
  function Resolve(schema: DBSchema, table: string, index: string, args: seq<Arg>): (r: Resolution)
    ensures r.Found? ==> table in schema && r.name in schema[table]
  {
    if table !in schema then Bad(NoSuchTable)
    else
      var name := IndexName(index);
      if name !in schema[table] then Bad(NoSuchIndex)
      else if args == [] then Found(name, None)
      else
        var ix := schema[table][name];
        if IsPrefixName(index) then
          if ix.prefixFromArgs.None? then Bad(NotAPrefixIndex)
          else if ix.prefixFromArgs.value(args).None? then Bad(BadArguments)
          else Found(name, ix.prefixFromArgs.value(args))
        else
          if ix.fromArgs(args).None? then Bad(BadArguments) else Found(name, ix.fromArgs(args))
  }

  /** An index whose own name ends in `_prefix` has no exact lookups: any query with arguments
      that reaches it goes through its prefix indexer. */
  lemma SuffixedIndexHasNoExactLookup(schema: DBSchema, table: string, index: string, args: seq<Arg>)
    requires Resolve(schema, table, index, args).Found? && args != []
    requires IsPrefixName(Resolve(schema, table, index, args).name)
    ensures var r := Resolve(schema, table, index, args);
            var ix := schema[table][r.name];
            index == r.name + PREFIX_SUFFIX && ix.prefixFromArgs.Some? && r.val == ix.prefixFromArgs.value(args)
  {
    assert IsPrefixName(index);
    assert index == index[..|index| - |PREFIX_SUFFIX|] + index[|index| - |PREFIX_SUFFIX|..];
  }

  /** Seeking to nil visits the whole tree. */
  function Seek(val: Option<Key>): Key {
    val.GetOr([])
  }

  /** Each operation carries the map iteration orders the runtime picks while it runs. */
  datatype Op =
    | Insert(table: string, obj: Object, order: seq<string>)
    | Delete(table: string, obj: Object, order: seq<string>)
    | DeleteAll(table: string, index: string, args: seq<Arg>, orders: nat -> seq<string>)
    | DeletePrefix(table: string, index: string, prefix: Key, orders: nat -> seq<string>)

  ghost predicate ProperOp(schema: DBSchema, op: Op) {
    op.table in schema ==>
      match op
      case Insert(t, _, order) => IsOrder(order, schema[t].Keys)
      case Delete(t, _, order) => IsOrder(order, schema[t].Keys)
      case DeleteAll(t, _, _, orders) => AreOrders(orders, schema[t].Keys)
      case DeletePrefix(t, _, _, orders) => AreOrders(orders, schema[t].Keys)
  }

  /** New contents, the change-log entries appended, the error, and the number of deletions. */
  datatype Effect = Effect(c: Content, log: seq<Change>, err: Option<Error>, count: nat)

  function InsertEffect(schema: DBSchema, c: Content, table: string, obj: Object, order: seq<string>): (r: Effect)
    requires ValidSchema(schema) && ContentHasShape(schema, c)
    requires table in schema && IsOrder(order, schema[table].Keys)
    ensures ContentHasShape(schema, r.c)
  {
    var ts := schema[table];
    InsertOrderIndependent(ts, c[table], obj, order);
    var (tbl, err) := Store.Insert(ts, c[table], obj, order);
    var log := if err.Some? then [] else [InsertChange(table, ts, c[table], obj)];
    Effect(c[table := tbl], log, err, 0)
  }

  function BulkEffect(c: Content, table: string, r: Bulk): Effect {
    Effect(c[table := r.tbl], r.log, r.err, r.count)
  }

  function DeleteEffect(schema: DBSchema, c: Content, table: string, obj: Object, order: seq<string>): (r: Effect)
    requires ValidSchema(schema) && ContentHasShape(schema, c)
    requires table in schema && IsOrder(order, schema[table].Keys)
    ensures ContentHasShape(schema, r.c)
    ensures r.count == if r.err.Some? then 0 else 1
  {
    BulkEffect(c, table, DeleteOne(table, schema[table], c[table], obj, order))
  }

  function PurgeEffect(schema: DBSchema, c: Content, table: string, o: Object, n: string, order: seq<string>)
    : (r: Effect)
    requires ValidSchema(schema) && ContentHasShape(schema, c)
    requires table in schema && IsOrder(order, schema[table].Keys)
    ensures ContentHasShape(schema, r.c)
    ensures r.count == if r.err.Some? then 0 else 1
  {
    BulkEffect(c, table, PurgeOne(table, schema[table], c[table], o, n, order))
  }

  /** An effect followed by the effect of the rest of a loop. */
  function Followed(r: Effect, rest: Effect): Effect {
    Effect(rest.c, r.log + rest.log, rest.err, r.count + rest.count)
  }

  /** The deletion loop of `DeleteAll`, seen from the whole database. */
  ghost function DeleteAllLoop(schema: DBSchema, c: Content, table: string, objs: seq<Object>,
                               orders: nat -> seq<string>, i: nat): (r: Effect)
    requires ValidSchema(schema) && ContentHasShape(schema, c)
    requires table in schema && AreOrders(orders, schema[table].Keys)
    ensures ContentHasShape(schema, r.c)
    decreases objs
  {
    if objs == [] then Effect(c, [], None, 0)
    else
      var r := DeleteEffect(schema, c, table, objs[0], orders(i));
      if r.err.Some? then r
      else Followed(r, DeleteAllLoop(schema, r.c, table, objs[1..], orders, i + 1))
  }

  /** The entry loop of `DeletePrefix`, seen from the whole database. */
  ghost function PurgeLoop(schema: DBSchema, c: Content, table: string, entries: seq<Object>, n: string,
                           orders: nat -> seq<string>, i: nat): (r: Effect)
    requires ValidSchema(schema) && ContentHasShape(schema, c)
    requires table in schema && AreOrders(orders, schema[table].Keys)
    ensures ContentHasShape(schema, r.c)
    decreases entries
  {
    if entries == [] then Effect(c, [], None, 0)
    else
      var r := PurgeEffect(schema, c, table, entries[0], n, orders(i));
      if r.err.Some? then r
      else Followed(r, PurgeLoop(schema, r.c, table, entries[1..], n, orders, i + 1))
  }

  /** What remains of a deletion loop after `done`, one object further. */
  lemma DeleteAllLoopStep(schema: DBSchema, table: string, objs: seq<Object>, orders: nat -> seq<string>, i: nat,
                          done: Effect)
    requires ValidSchema(schema) && ContentHasShape(schema, done.c)
    requires table in schema && AreOrders(orders, schema[table].Keys) && i < |objs| && done.err.None?
    ensures var rest := Followed(done, DeleteAllLoop(schema, done.c, table, objs[i..], orders, i));
            var r := DeleteEffect(schema, done.c, table, objs[i], orders(i));
            rest == if r.err.Some? then Followed(done, r)
                    else Followed(Followed(done, r), DeleteAllLoop(schema, r.c, table, objs[i + 1..], orders, i + 1))
  {
    assert objs[i..][0] == objs[i] && objs[i..][1..] == objs[i + 1..];
    var r := DeleteEffect(schema, done.c, table, objs[i], orders(i));
    if r.err.None? {
      FollowedAssociates(done, r, DeleteAllLoop(schema, r.c, table, objs[i + 1..], orders, i + 1));
    }
  }

  lemma DeleteAllLoopEnd(schema: DBSchema, c: Content, table: string, orders: nat -> seq<string>, none: seq<Object>, i: nat)
    requires ValidSchema(schema) && ContentHasShape(schema, c)
    requires table in schema && AreOrders(orders, schema[table].Keys) && none == []
    ensures DeleteAllLoop(schema, c, table, none, orders, i) == Effect(c, [], None, 0)
  {
  }

  lemma PurgeLoopEnd(schema: DBSchema, c: Content, table: string, n: string, orders: nat -> seq<string>,
                     none: seq<Object>, i: nat)
    requires ValidSchema(schema) && ContentHasShape(schema, c)
    requires table in schema && AreOrders(orders, schema[table].Keys) && none == []
    ensures PurgeLoop(schema, c, table, none, n, orders, i) == Effect(c, [], None, 0)
  {
  }

  lemma PurgeLoopStep(schema: DBSchema, table: string, entries: seq<Object>, n: string, orders: nat -> seq<string>, i: nat,
                      done: Effect)
    requires ValidSchema(schema) && ContentHasShape(schema, done.c)
    requires table in schema && AreOrders(orders, schema[table].Keys) && i < |entries| && done.err.None?
    ensures var rest := Followed(done, PurgeLoop(schema, done.c, table, entries[i..], n, orders, i));
            var r := PurgeEffect(schema, done.c, table, entries[i], n, orders(i));
            rest == if r.err.Some? then Followed(done, r)
                    else Followed(Followed(done, r), PurgeLoop(schema, r.c, table, entries[i + 1..], n, orders, i + 1))
  {
    assert entries[i..][0] == entries[i] && entries[i..][1..] == entries[i + 1..];
    var r := PurgeEffect(schema, done.c, table, entries[i], n, orders(i));
    if r.err.None? {
      FollowedAssociates(done, r, PurgeLoop(schema, r.c, table, entries[i + 1..], n, orders, i + 1));
    }
  }

  lemma FollowedUnits(r: Effect, c: Content)
    ensures Followed(Effect(c, [], None, 0), r) == r
    ensures Followed(r, Effect(r.c, [], None, 0)) == r.(err := None)
  {
  }

  lemma FollowedAssociates(a: Effect, b: Effect, c: Effect)
    ensures Followed(a, Followed(b, c)) == Followed(Followed(a, b), c)
  {
  }

  lemma FollowedIsLocal(c: Content, table: string, r: Bulk, rest: Bulk)
    ensures Followed(BulkEffect(c, table, r), BulkEffect(c[table := r.tbl], table, rest))
            == BulkEffect(c, table, Then(r, rest))
  {
    assert c[table := r.tbl][table := rest.tbl] == c[table := rest.tbl];
  }

  lemma {:induction false} DeleteAllLoopIsLocal(schema: DBSchema, c: Content, table: string, objs: seq<Object>,
                                                orders: nat -> seq<string>, i: nat)
    requires ValidSchema(schema) && ContentHasShape(schema, c)
    requires table in schema && AreOrders(orders, schema[table].Keys)
    ensures DeleteAllLoop(schema, c, table, objs, orders, i)
            == BulkEffect(c, table, DeleteEach(table, schema[table], c[table], objs, orders, i))
    decreases objs
  {
    if objs == [] {
      assert c[table := c[table]] == c;
    } else {
      var r := DeleteOne(table, schema[table], c[table], objs[0], orders(i));
      var c' := c[table := r.tbl];
      DeleteAllLoopIsLocal(schema, c', table, objs[1..], orders, i + 1);
      FollowedIsLocal(c, table, r, DeleteEach(table, schema[table], c'[table], objs[1..], orders, i + 1));
    }
  }

  lemma {:induction false} PurgeLoopIsLocal(schema: DBSchema, c: Content, table: string, entries: seq<Object>, n: string,
                                            orders: nat -> seq<string>, i: nat)
    requires ValidSchema(schema) && ContentHasShape(schema, c)
    requires table in schema && AreOrders(orders, schema[table].Keys)
    ensures PurgeLoop(schema, c, table, entries, n, orders, i)
            == BulkEffect(c, table, PurgeEach(table, schema[table], c[table], entries, n, orders, i))
    decreases entries
  {
    if entries == [] {
      assert c[table := c[table]] == c;
    } else {
      var r := PurgeOne(table, schema[table], c[table], entries[0], n, orders(i));
      var c' := c[table := r.tbl];
      PurgeLoopIsLocal(schema, c', table, entries[1..], n, orders, i + 1);
      FollowedIsLocal(c, table, r, PurgeEach(table, schema[table], c'[table], entries[1..], n, orders, i + 1));
    }
  }

  ghost function DeleteAllEffect(schema: DBSchema, c: Content, table: string, index: string, args: seq<Arg>,
                                 orders: nat -> seq<string>): (r: Effect)
    requires ValidSchema(schema) && ContentHasShape(schema, c)
    requires table in schema && AreOrders(orders, schema[table].Keys)
    ensures ContentHasShape(schema, r.c)
  {
    match Resolve(schema, table, index, args)
    case Bad(err) => Effect(c, [], Some(err), 0)
    case Found(name, val) =>
      BulkEffect(c, table, BulkDelete.DeleteAll(table, schema[table], c[table], name, Seek(val), orders))
  }

  ghost function DeletePrefixEffect(schema: DBSchema, c: Content, table: string, index: string, prefix: Key,
                                    orders: nat -> seq<string>): (r: Effect)
    requires ValidSchema(schema) && ContentHasShape(schema, c)
    requires table in schema && AreOrders(orders, schema[table].Keys)
    ensures ContentHasShape(schema, r.c)
  {
    if !IsPrefixName(index) then Effect(c, [], Some(NotAPrefixIndex), 0)
    else
      match Resolve(schema, table, index, [Val(Str(prefix))])
      case Bad(err) => Effect(c, [], Some(err), 0)
      case Found(name, val) =>
        BulkEffect(c, table,
                   BulkDelete.DeletePrefix(table, schema[table], c[table], name, Seek(val), prefix, orders))
  }

  /** The entry loop of `DeletePrefix` followed by the subtree removal. */
  ghost function SubtreeEffect(schema: DBSchema, c: Content, table: string, n: string, entries: seq<Object>, raw: Key,
                               orders: nat -> seq<string>): Effect
    requires ValidSchema(schema) && ContentHasShape(schema, c)
    requires table in schema && n in schema[table] && AreOrders(orders, schema[table].Keys)
  {
    var r := PurgeLoop(schema, c, table, entries, n, orders, 0);
    if r.err.Some? || entries == [] then r
    else
      var t := r.c[table][n];
      if WithPrefix(t, raw) == {} then r.(err := Some(Panicked))
      else r.(c := r.c[table := r.c[table][n := t - WithPrefix(t, raw)]])
  }

  lemma DeletePrefixIsLoop(schema: DBSchema, c: Content, table: string, n: string, p: Key, raw: Key,
                           orders: nat -> seq<string>)
    requires ValidSchema(schema) && ContentHasShape(schema, c)
    requires table in schema && n in schema[table] && AreOrders(orders, schema[table].Keys)
    ensures BulkEffect(c, table, BulkDelete.DeletePrefix(table, schema[table], c[table], n, p, raw, orders))
            == SubtreeEffect(schema, c, table, n, Scan(c[table], n, p), raw, orders)
  {
    hide PurgeEach, PurgeLoop, ValidSchema, IsOrder, AreOrders;
    PurgeLoopIsLocal(schema, c, table, Scan(c[table], n, p), n, orders, 0);
  }

  /** The effect of one operation of a write transaction. */
  ghost function Apply(schema: DBSchema, c: Content, op: Op): (r: Effect)
    requires ValidSchema(schema) && ContentHasShape(schema, c) && ProperOp(schema, op)
    ensures ContentHasShape(schema, r.c)
  {
    if op.DeletePrefix? && !IsPrefixName(op.index) then Effect(c, [], Some(NotAPrefixIndex), 0)
    else if op.table !in schema then Effect(c, [], Some(NoSuchTable), 0)
    else
      match op
      case Insert(t, obj, order) => InsertEffect(schema, c, t, obj, order)
      case Delete(t, obj, order) => DeleteEffect(schema, c, t, obj, order)
      case DeleteAll(t, index, args, orders) => DeleteAllEffect(schema, c, t, index, args, orders)
      case DeletePrefix(t, index, prefix, orders) => DeletePrefixEffect(schema, c, t, index, prefix, orders)
  }

  /** The part of an insert that follows the extraction of the primary key. */
  function UpsertEffect(ts: TableSchema, c: Content, table: string, obj: Object, id: Key, order: seq<string>): Effect
    requires table in c && HasShape(ts, c[table]) && ID in ts && forall n :: n in order ==> n in ts
  {
    var existing := Existing(c[table], id);
    var (tbl, err) := InsertIndexes(ts, c[table], existing, obj, id, order);
    Effect(c[table := tbl], if err.Some? then [] else [Change(table, existing, Some(obj), id)], err, 0)
  }

  /** The part of a delete that follows the extraction of the primary key. */
  function RemoveEffect(ts: TableSchema, c: Content, table: string, id: Key, order: seq<string>): Effect
    requires table in c && HasShape(ts, c[table]) && ID in ts && forall n :: n in order ==> n in ts
  {
    var existing := Existing(c[table], id);
    if existing.None? then Effect(c, [], Some(NotFound), 0)
    else
      var (tbl, err) := DeleteIndexes(ts, c[table], existing.value, id, order, {});
      Effect(c[table := tbl], if err.Some? then [] else [Change(table, existing, None, id)], err, if err.Some? then 0 else 1)
  }

  /** `Insert`, case by case. */
  lemma ApplyInsert(schema: DBSchema, c: Content, table: string, obj: Object, order: seq<string>)
    requires ValidSchema(schema) && ContentHasShape(schema, c) && ProperOp(schema, Insert(table, obj, order))
    ensures var r := Apply(schema, c, Insert(table, obj, order));
            if table !in schema then r == Effect(c, [], Some(NoSuchTable), 0)
            else if schema[table][ID].fromObject(obj).Failed? then r == Effect(c, [], Some(PrimaryFailed), 0)
            else if PrimaryKey(schema[table], obj).None? then r == Effect(c, [], Some(PrimaryMissing), 0)
            else
              r == UpsertEffect(schema[table], c, table, obj, PrimaryKey(schema[table], obj).value, order)
  {
    if table in schema {
      assert c[table := c[table]] == c;
    }
  }

  /** `Delete`, case by case. */
  lemma ApplyDelete(schema: DBSchema, c: Content, table: string, obj: Object, order: seq<string>)
    requires ValidSchema(schema) && ContentHasShape(schema, c) && ProperOp(schema, Delete(table, obj, order))
    ensures var r := Apply(schema, c, Delete(table, obj, order));
            if table !in schema then r == Effect(c, [], Some(NoSuchTable), 0)
            else if schema[table][ID].fromObject(obj).Failed? then r == Effect(c, [], Some(PrimaryFailed), 0)
            else if PrimaryKey(schema[table], obj).None? then r == Effect(c, [], Some(PrimaryMissing), 0)
            else
              r == RemoveEffect(schema[table], c, table, PrimaryKey(schema[table], obj).value, order)
  {
    hide DeleteIndexes, DeleteAllEffect, DeletePrefixEffect, InsertEffect;
    if table in schema {
      assert c[table := c[table]] == c;
    }
  }

  /** `DeleteAll`, case by case. */
  lemma ApplyDeleteAll(schema: DBSchema, c: Content, table: string, index: string, args: seq<Arg>,
                       orders: nat -> seq<string>)
    requires ValidSchema(schema) && ContentHasShape(schema, c)
    requires ProperOp(schema, DeleteAll(table, index, args, orders))
    ensures var r := Apply(schema, c, DeleteAll(table, index, args, orders));
            var found := Resolve(schema, table, index, args);
            if found.Bad? then r == Effect(c, [], Some(found.err), 0)
            else
              && AreOrders(orders, schema[table].Keys)
              && r == DeleteAllLoop(schema, c, table, Scan(c[table], found.name, Seek(found.val)), orders, 0)
  {
    hide DeleteEach, DeleteAllLoop, ValidSchema, IsOrder, AreOrders;
    if Resolve(schema, table, index, args).Found? {
      var Found(n, val) := Resolve(schema, table, index, args);
      DeleteAllLoopIsLocal(schema, c, table, Scan(c[table], n, Seek(val)), orders, 0);
    }
  }

  /** `DeletePrefix`, case by case. */
  lemma ApplyDeletePrefix(schema: DBSchema, c: Content, table: string, index: string, prefix: Key,
                          orders: nat -> seq<string>)
    requires ValidSchema(schema) && ContentHasShape(schema, c)
    requires ProperOp(schema, DeletePrefix(table, index, prefix, orders))
    ensures var r := Apply(schema, c, DeletePrefix(table, index, prefix, orders));
            if !IsPrefixName(index) then r == Effect(c, [], Some(NotAPrefixIndex), 0)
            else
              match Resolve(schema, table, index, [Val(Str(prefix))])
              case Bad(err) => r == Effect(c, [], Some(err), 0)
              case Found(n, val) => r == SubtreeEffect(schema, c, table, n, Scan(c[table], n, Seek(val)), prefix, orders)
  {
    hide SubtreeEffect, BulkDelete.DeletePrefix, ValidSchema, IsOrder, AreOrders;
    if IsPrefixName(index) && Resolve(schema, table, index, [Val(Str(prefix))]).Found? {
      var Found(n, val) := Resolve(schema, table, index, [Val(Str(prefix))]);
      DeletePrefixIsLoop(schema, c, table, n, Seek(val), prefix, orders);
    }
  }

  ghost predicate ProperOps(schema: DBSchema, ops: seq<Op>) {
    forall i :: 0 <= i < |ops| ==> ProperOp(schema, ops[i])
  }

  /** A whole transaction: its operations in order. */
  ghost function ApplyAll(schema: DBSchema, c: Content, ops: seq<Op>): (c': Content)
    requires ValidSchema(schema) && ContentHasShape(schema, c) && ProperOps(schema, ops)
    ensures ContentHasShape(schema, c')
    decreases |ops|
  {
    if ops == [] then c
    else Apply(schema, ApplyAll(schema, c, ops[..|ops| - 1]), ops[|ops| - 1]).c
  }

  lemma ApplyAllSnoc(schema: DBSchema, c: Content, ops: seq<Op>, op: Op)
    requires ValidSchema(schema) && ContentHasShape(schema, c) && ProperOps(schema, ops) && ProperOp(schema, op)
    ensures ProperOps(schema, ops + [op])
    ensures ApplyAll(schema, c, ops + [op]) == Apply(schema, ApplyAll(schema, c, ops), op).c
  {
    var all := ops + [op];
    assert all[..|all| - 1] == ops && all[|all| - 1] == op;
  }

  lemma {:induction false} ApplyAllConcat(schema: DBSchema, c: Content, a: seq<Op>, b: seq<Op>)
    requires ValidSchema(schema) && ContentHasShape(schema, c) && ProperOps(schema, a) && ProperOps(schema, b)
    ensures ProperOps(schema, a + b)
    ensures ApplyAll(schema, c, a + b) == ApplyAll(schema, ApplyAll(schema, c, a), b)
    decreases |b|
  {
    if b == [] {
      assert a + b == a;
    } else {
      var init, last := b[..|b| - 1], b[|b| - 1];
      ApplyAllConcat(schema, c, a, init);
      assert a + b == (a + init) + [last];
      ApplyAllSnoc(schema, c, a + init, last);
    }
  }
}
