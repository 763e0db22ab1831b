/**
 Concurrency: any interleaving of transactions on a database and its snapshots.

 A state holds databases and transactions; a step is one atomic action of the source: taking
 the writer lock, loading the root, one operation on private trees, storing the new root,
 releasing the lock, and so on. `MemDB.Txn(true)` and `Commit` are two steps each, so other
 transactions may run in between. A `Do` step relates the private trees before and after in
 the way the methods of `Database.Txn` promise.

 `origin` and `history` of a database, and `ops` and `unlocks` of a transaction, only record
 what happened; no step depends on them.
 */
module Mvcc {
  import opened Schema
  import opened Overlay
  import opened Ops
  import opened Runs

  /** One commit: the operations of the transaction and the root it stored. */
  datatype Commit = Commit(ops: seq<Op>, root: Root)

  datatype Db = Db(root: Root, locked: bool, origin: Root, history: seq<Commit>)

  /** `Locked`: holds the writer lock, has not loaded the root. `Releasing`: stored or
      abandoned its root, has not released the lock. */
  datatype Phase = Locked | Active | Releasing | Closed

  datatype Txn = Txn(db: nat, write: bool, phase: Phase, base: Root, modified: Modified, ops: seq<Op>, unlocks: nat)

  datatype State = State(dbs: seq<Db>, txns: seq<Txn>)

  datatype Step =
    | Lock(d: nat)
    | Load(t: nat)
    | BeginRead(d: nat)
    | Do(t: nat, op: Op, modified: Modified)
    | SnapshotTxn(t: nat, order: seq<TableIndex>)
    | SnapshotDb(d: nat)
    | Store(t: nat, order: seq<TableIndex>)
    | Abandon(t: nat)
    | Unlock(t: nat)
    | EndAgain(t: nat)

  function Start(root: Root): State {
    State([Db(root, false, root, [])], [])
  }

  function Reader(d: nat, root: Root): Txn {
    Txn(d, false, Active, root, map[], [], 0)
  }

  predicate ActiveWriter(s: State, t: nat) {
    t < |s.txns| && s.txns[t].write && s.txns[t].phase == Active && s.txns[t].db < |s.dbs|
  }

  ghost predicate Enabled(schema: DBSchema, s: State, step: Step)
    requires ValidSchema(schema)
  {
    match step
    case Lock(d) => d < |s.dbs| && !s.dbs[d].locked
    case Load(t) => t < |s.txns| && s.txns[t].phase == Locked && s.txns[t].db < |s.dbs|
    case BeginRead(d) => d < |s.dbs|
    case Do(t, op, modified') =>
      && ActiveWriter(s, t) && ProperOp(schema, op) && OnSchema(schema, modified')
      && var x := s.txns[t];
         View(schema, x.base, modified') == Apply(schema, View(schema, x.base, x.modified), op).c
    case SnapshotTxn(t, order) =>
      t < |s.txns| && s.txns[t].phase == Active && IsKeyOrder(order, s.txns[t].modified.Keys)
    case SnapshotDb(d) => d < |s.dbs|
    case Store(t, order) => ActiveWriter(s, t) && IsKeyOrder(order, s.txns[t].modified.Keys)
    case Abandon(t) => ActiveWriter(s, t)
    case Unlock(t) => t < |s.txns| && s.txns[t].phase == Releasing && s.txns[t].db < |s.dbs|
    case EndAgain(t) => t < |s.txns| && (!s.txns[t].write || s.txns[t].phase in {Releasing, Closed})
  }

  function SetDb(s: State, d: nat, db: Db): State
    requires d < |s.dbs|
  {
    s.(dbs := s.dbs[d := db])
  }

  function SetTxn(s: State, t: nat, x: Txn): State
    requires t < |s.txns|
  {
    s.(txns := s.txns[t := x])
  }

  function AddTxn(s: State, x: Txn): State {
    s.(txns := s.txns + [x])
  }

  ghost function After(schema: DBSchema, s: State, step: Step): State
    requires ValidSchema(schema) && Enabled(schema, s, step)
  {
    match step
    case Lock(d) =>
      AddTxn(SetDb(s, d, s.dbs[d].(locked := true)), Txn(d, true, Locked, map[], map[], [], 0))
    case Load(t) =>
      SetTxn(s, t, s.txns[t].(phase := Active, base := s.dbs[s.txns[t].db].root))
    case BeginRead(d) =>
      AddTxn(s, Reader(d, s.dbs[d].root))
    case Do(t, op, modified') =>
      SetTxn(s, t, s.txns[t].(modified := modified', ops := s.txns[t].ops + [op]))
    case SnapshotTxn(t, order) =>
      AddTxn(s, Reader(s.txns[t].db, Fold(s.txns[t].base, s.txns[t].modified, order)))
    case SnapshotDb(d) =>
      s.(dbs := s.dbs + [Db(s.dbs[d].root, false, s.dbs[d].root, [])])
    case Store(t, order) =>
      var x := s.txns[t];
      var db := s.dbs[x.db];
      var root := Fold(x.base, x.modified, order);
      SetTxn(SetDb(s, x.db, db.(root := root, history := db.history + [Commit(x.ops, root)])), t,
             x.(phase := Releasing, modified := map[]))
    case Abandon(t) =>
      SetTxn(s, t, s.txns[t].(phase := Releasing, modified := map[]))
    case Unlock(t) =>
      var x := s.txns[t];
      SetTxn(SetDb(s, x.db, s.dbs[x.db].(locked := false)), t, x.(phase := Closed, unlocks := x.unlocks + 1))
    case EndAgain(t) => s
  }

  // ---------------------------------------------------------------- the invariant

  /** A write transaction that holds, or is about to release, the lock of `d`. */
  predicate Holds(x: Txn, d: nat) {
    x.write && x.phase != Closed && x.db == d
  }

  /** At most one write transaction per database at any time, and the lock is held exactly
      while there is one. */
  ghost predicate OneWriter(s: State, d: nat)
    requires d < |s.dbs|
  {
    && (forall t, u :: 0 <= t < |s.txns| && 0 <= u < |s.txns| && Holds(s.txns[t], d) && Holds(s.txns[u], d) ==> t == u)
    && (s.dbs[d].locked <==> exists t :: 0 <= t < |s.txns| && Holds(s.txns[t], d))
  }

  function RootAt(db: Db, k: nat): Root
    requires k <= |db.history|
  {
    if k == 0 then db.origin else db.history[k - 1].root
  }

  /** Each root in the history is the transaction's operations applied to the root before it. */
  ghost predicate FollowsFrom(schema: DBSchema, db: Db, k: nat)
    requires ValidSchema(schema) && k < |db.history|
  {
    && HasPaths(schema, RootAt(db, k + 1))
    && ProperOps(schema, db.history[k].ops)
    && View(schema, RootAt(db, k + 1), map[]) == ApplyAll(schema, View(schema, RootAt(db, k), map[]), db.history[k].ops)
  }

  ghost predicate DbOk(schema: DBSchema, db: Db)
    requires ValidSchema(schema)
  {
    && HasPaths(schema, db.origin)
    && db.root == RootAt(db, |db.history|)
    && forall k :: 0 <= k < |db.history| ==> FollowsFrom(schema, db, k)
  }

  ghost predicate TxnOk(schema: DBSchema, s: State, x: Txn)
    requires ValidSchema(schema)
  {
    && x.db < |s.dbs|
    && OnSchema(schema, x.modified)
    && (x.phase != Locked ==> HasPaths(schema, x.base))
    && (!x.write ==> x.phase == Active && x.modified == map[])
    && x.unlocks == (if x.write && x.phase == Closed then 1 else 0)
    && (x.write && x.phase == Locked ==> x.modified == map[] && x.ops == [])
    && (x.write && x.phase == Active ==> WriterOk(schema, s.dbs[x.db].root, x))
  }

  /** An active writer started from the current root and reads its own operations on it. */
  ghost predicate WriterOk(schema: DBSchema, root: Root, x: Txn)
    requires ValidSchema(schema)
  {
    && x.base == root
    && ProperOps(schema, x.ops)
    && View(schema, x.base, x.modified) == ApplyAll(schema, View(schema, x.base, map[]), x.ops)
  }

  ghost predicate Inv(schema: DBSchema, s: State) {
    && ValidSchema(schema)
    && (forall d :: 0 <= d < |s.dbs| ==> DbOk(schema, s.dbs[d]) && OneWriter(s, d))
    && (forall t :: 0 <= t < |s.txns| ==> TxnOk(schema, s, s.txns[t]))
  }

  lemma StartOk(schema: DBSchema, root: Root)
    requires ValidSchema(schema) && HasPaths(schema, root)
    ensures Inv(schema, Start(root))
  {
  }

  // ---------------------------------------------------------------- the invariant is kept

  /** A transaction is added that does not hold a lock. */
  lemma AddReader(schema: DBSchema, s: State, x: Txn)
    requires Inv(schema, s) && !x.write && TxnOk(schema, s, x)
    ensures Inv(schema, AddTxn(s, x))
  {
    hide DbOk, WriterOk, HasPaths, OnSchema;
    var s' := AddTxn(s, x);
    forall d | 0 <= d < |s.dbs| ensures OneWriter(s', d) {
      assert OneWriter(s, d);
      if s.dbs[d].locked {
        var t :| 0 <= t < |s.txns| && Holds(s.txns[t], d);
        assert Holds(s'.txns[t], d);
      }
    }
  }

  /** A transaction changes without gaining or losing a lock. */
  lemma ChangeTxn(schema: DBSchema, s: State, t: nat, x: Txn)
    requires Inv(schema, s) && t < |s.txns|
    requires x.db == s.txns[t].db && Holds(x, x.db) == Holds(s.txns[t], x.db) && TxnOk(schema, s, x)
    ensures Inv(schema, SetTxn(s, t, x))
  {
    hide DbOk, WriterOk, HasPaths, OnSchema;
    var s' := SetTxn(s, t, x);
    forall d | 0 <= d < |s.dbs| ensures OneWriter(s', d) {
      assert OneWriter(s, d);
      forall u | 0 <= u < |s.txns| ensures Holds(s'.txns[u], d) == Holds(s.txns[u], d) {
      }
      if s.dbs[d].locked {
        var u :| 0 <= u < |s.txns| && Holds(s.txns[u], d);
        assert Holds(s'.txns[u], d);
      }
    }
  }

  lemma LockIsNotData(schema: DBSchema, db: Db, locked: bool)
    requires ValidSchema(schema) && DbOk(schema, db)
    ensures DbOk(schema, db.(locked := locked))
  {
    hide View, ApplyAll, ProperOps, HasPaths;
    var db' := db.(locked := locked);
    forall k | 0 <= k < |db.history| ensures FollowsFrom(schema, db', k) {
      SameHistory(schema, db, db', k);
    }
  }

  lemma LockKeeps(schema: DBSchema, s: State, d: nat)
    requires Inv(schema, s) && Enabled(schema, s, Lock(d))
    ensures Inv(schema, After(schema, s, Lock(d)))
  {
    hide WriterOk, HasPaths, OnSchema, DbOk;
    var s' := After(schema, s, Lock(d));
    LockIsNotData(schema, s.dbs[d], true);
    var n := |s.txns|;
    NothingModified(schema);
    assert Holds(s'.txns[n], d);
    assert forall t :: 0 <= t < n ==> s'.txns[t] == s.txns[t];
    forall e | 0 <= e < |s.dbs| ensures OneWriter(s', e) {
      assert OneWriter(s, e);
      if e != d && s.dbs[e].locked {
        var u :| 0 <= u < n && Holds(s.txns[u], e);
        assert Holds(s'.txns[u], e);
      }
    }
  }

  lemma NothingModified(schema: DBSchema)
    ensures OnSchema(schema, map[])
  {
  }

  lemma UnlockKeeps(schema: DBSchema, s: State, t: nat)
    requires Inv(schema, s) && Enabled(schema, s, Unlock(t))
    ensures s.txns[t].write && s.dbs[s.txns[t].db].locked
    ensures Inv(schema, After(schema, s, Unlock(t)))
  {
    hide WriterOk, HasPaths, OnSchema, DbOk;
    var x := s.txns[t];
    LockIsNotData(schema, s.dbs[x.db], false);
    var s' := After(schema, s, Unlock(t));
    assert TxnOk(schema, s, x);
    assert Holds(x, x.db);
    forall d | 0 <= d < |s.dbs| ensures OneWriter(s', d) {
      assert OneWriter(s, d);
      forall u | 0 <= u < |s.txns| && u != t ensures s'.txns[u] == s.txns[u] {
      }
      if d != x.db && s.dbs[d].locked {
        var u :| 0 <= u < |s.txns| && Holds(s.txns[u], d);
        assert Holds(s'.txns[u], d);
      }
    }
  }

  lemma StoreKeeps(schema: DBSchema, s: State, t: nat, order: seq<TableIndex>)
    requires Inv(schema, s) && PathsInjective(schema) && Enabled(schema, s, Store(t, order))
    ensures Inv(schema, After(schema, s, Store(t, order)))
  {
    hide View, HasPaths, OnSchema, ApplyAll, ProperOps, Fold, PathsInjective;
    var x := s.txns[t];
    assert TxnOk(schema, s, x);
    var db := s.dbs[x.db];
    var root := Fold(x.base, x.modified, order);
    CommitShowsView(schema, x.base, x.modified, order);
    var db' := db.(root := root, history := db.history + [Commit(x.ops, root)]);
    NewestFollows(schema, db, x.ops, root);
    HistoryGrows(schema, db, db');
    StoreSetsRoot(schema, s, t, db');
  }

  lemma SameHistory(schema: DBSchema, db: Db, db': Db, k: nat)
    requires ValidSchema(schema) && k < |db.history| && FollowsFrom(schema, db, k)
    requires db'.origin == db.origin && db.history <= db'.history
    ensures FollowsFrom(schema, db', k)
  {
    hide View, HasPaths, ApplyAll, ProperOps;
    assert RootAt(db', k) == RootAt(db, k) && RootAt(db', k + 1) == RootAt(db, k + 1);
  }

  lemma NewestFollows(schema: DBSchema, db: Db, ops: seq<Op>, root: Root)
    requires ValidSchema(schema) && DbOk(schema, db) && HasPaths(schema, root) && ProperOps(schema, ops)
    requires View(schema, root, map[]) == ApplyAll(schema, View(schema, db.root, map[]), ops)
    ensures FollowsFrom(schema, db.(root := root, history := db.history + [Commit(ops, root)]), |db.history|)
  {
    hide View, HasPaths, ApplyAll, ProperOps;
    assert RootAt(db.(root := root, history := db.history + [Commit(ops, root)]), |db.history|) == db.root;
  }

  lemma HistoryGrows(schema: DBSchema, db: Db, db': Db)
    requires ValidSchema(schema) && DbOk(schema, db)
    requires db'.origin == db.origin && db.history <= db'.history && |db'.history| == |db.history| + 1
    requires FollowsFrom(schema, db', |db.history|) && db'.root == RootAt(db', |db'.history|)
    ensures DbOk(schema, db')
  {
    hide FollowsFrom;
    forall k | 0 <= k < |db.history| ensures FollowsFrom(schema, db', k) {
      SameHistory(schema, db, db', k);
    }
  }

  /** The root of a database changes under no other active writer's feet. */
  lemma StoreSetsRoot(schema: DBSchema, s: State, t: nat, db': Db)
    requires Inv(schema, s) && ActiveWriter(s, t)
    requires DbOk(schema, db') && db'.locked == s.dbs[s.txns[t].db].locked
    ensures var x := s.txns[t]; Inv(schema, SetTxn(SetDb(s, x.db, db'), t, x.(phase := Releasing, modified := map[])))
  {
    hide DbOk, HasPaths, OnSchema, WriterOk;
    var x := s.txns[t];
    var s' := SetTxn(SetDb(s, x.db, db'), t, x.(phase := Releasing, modified := map[]));
    NothingModified(schema);
    assert Holds(x, x.db) && OneWriter(s, x.db) && TxnOk(schema, s, x);
    assert forall u, d :: 0 <= u < |s.txns| ==> Holds(s'.txns[u], d) == Holds(s.txns[u], d);
    forall u | 0 <= u < |s.txns| ensures TxnOk(schema, s', s'.txns[u]) {
      assert TxnOk(schema, s, s.txns[u]);
      assert u != t && s.txns[u].write && s.txns[u].phase == Active ==> Holds(s.txns[u], s.txns[u].db);
    }
    forall d | 0 <= d < |s.dbs| ensures OneWriter(s', d) {
      assert OneWriter(s, d);
      if s.dbs[d].locked {
        var u :| 0 <= u < |s.txns| && Holds(s.txns[u], d);
        assert Holds(s'.txns[u], d);
      }
    }
  }

  lemma SnapshotDbKeeps(schema: DBSchema, s: State, d: nat)
    requires Inv(schema, s) && Enabled(schema, s, SnapshotDb(d))
    ensures Inv(schema, After(schema, s, SnapshotDb(d)))
  {
    hide WriterOk, HasPaths, OnSchema;
    var s' := After(schema, s, SnapshotDb(d));
    assert HasPaths(schema, s.dbs[d].root) by {
      RootHasPaths(schema, s.dbs[d]);
    }
    forall e | 0 <= e < |s'.dbs| ensures DbOk(schema, s'.dbs[e]) && OneWriter(s', e) {
      if e < |s.dbs| {
        assert OneWriter(s, e);
      } else {
        forall t | 0 <= t < |s.txns| ensures !Holds(s.txns[t], e) {
          assert TxnOk(schema, s, s.txns[t]);
        }
      }
    }
    forall t | 0 <= t < |s.txns| ensures TxnOk(schema, s', s'.txns[t]) {
      assert TxnOk(schema, s, s.txns[t]);
    }
  }

  lemma RootHasPaths(schema: DBSchema, db: Db)
    requires ValidSchema(schema) && DbOk(schema, db)
    ensures HasPaths(schema, db.root)
  {
    hide HasPaths, View, ApplyAll, ProperOps;
    var n := |db.history|;
    if n > 0 {
      assert FollowsFrom(schema, db, n - 1);
    }
  }

  lemma LoadKeeps(schema: DBSchema, s: State, t: nat)
    requires Inv(schema, s) && Enabled(schema, s, Load(t))
    ensures Inv(schema, After(schema, s, Load(t)))
  {
    hide DbOk, View, HasPaths, OnSchema;
    var x := s.txns[t];
    assert TxnOk(schema, s, x);
    RootHasPaths(schema, s.dbs[x.db]);
    var x' := x.(phase := Active, base := s.dbs[x.db].root);
    assert WriterOk(schema, s.dbs[x.db].root, x');
    ChangeTxn(schema, s, t, x');
  }

  lemma DoKeeps(schema: DBSchema, s: State, t: nat, op: Op, modified: Modified)
    requires Inv(schema, s) && Enabled(schema, s, Do(t, op, modified))
    ensures Inv(schema, After(schema, s, Do(t, op, modified)))
  {
    hide DbOk, View, HasPaths, OnSchema, Apply, ApplyAll, ProperOp, ProperOps;
    var x := s.txns[t];
    assert TxnOk(schema, s, x);
    ApplyAllSnoc(schema, View(schema, x.base, map[]), x.ops, op);
    ChangeTxn(schema, s, t, x.(modified := modified, ops := x.ops + [op]));
  }

  lemma SnapshotTxnKeeps(schema: DBSchema, s: State, t: nat, order: seq<TableIndex>)
    requires Inv(schema, s) && Enabled(schema, s, SnapshotTxn(t, order))
    ensures Inv(schema, After(schema, s, SnapshotTxn(t, order)))
  {
    hide DbOk, WriterOk, Fold, HasPaths;
    var x := s.txns[t];
    assert TxnOk(schema, s, x);
    FoldHasPaths(schema, x.base, x.modified, order);
    AddReader(schema, s, Reader(x.db, Fold(x.base, x.modified, order)));
  }

  /** Every step keeps the invariant. */
  lemma StepKeeps(schema: DBSchema, s: State, step: Step)
    requires Inv(schema, s) && PathsInjective(schema) && Enabled(schema, s, step)
    ensures Inv(schema, After(schema, s, step))
  {
    hide DbOk, WriterOk, OneWriter, View, HasPaths, OnSchema, Apply, ProperOp, Fold, PathsInjective, IsKeyOrder;
    NothingModified(schema);
    match step
    case Lock(d) => LockKeeps(schema, s, d);
    case Load(t) => LoadKeeps(schema, s, t);
    case BeginRead(d) =>
      RootHasPaths(schema, s.dbs[d]);
      AddReader(schema, s, Reader(d, s.dbs[d].root));
    case Do(t, op, modified) => DoKeeps(schema, s, t, op, modified);
    case SnapshotTxn(t, order) => SnapshotTxnKeeps(schema, s, t, order);
    case SnapshotDb(d) => SnapshotDbKeeps(schema, s, d);
    case Store(t, order) => StoreKeeps(schema, s, t, order);
    case Abandon(t) => ChangeTxn(schema, s, t, s.txns[t].(phase := Releasing, modified := map[]));
    case Unlock(t) => UnlockKeeps(schema, s, t);
    case EndAgain(t) =>
  }

  // ---------------------------------------------------------------- runs

  /** The state after some steps, when each was enabled in its turn. */
  ghost function Exec(schema: DBSchema, s: State, steps: seq<Step>): Option<State>
    requires ValidSchema(schema)
  {
    if steps == [] then Some(s)
    else
      var r := Exec(schema, s, steps[..|steps| - 1]);
      var step := steps[|steps| - 1];
      if r.Some? && Enabled(schema, r.value, step) then Some(After(schema, r.value, step)) else None
  }

  /** The invariant holds in every state that any interleaving can reach. */
  lemma {:induction false} ExecKeeps(schema: DBSchema, s: State, steps: seq<Step>)
    requires Inv(schema, s) && PathsInjective(schema) && Exec(schema, s, steps).Some?
    ensures Inv(schema, Exec(schema, s, steps).value)
  {
    assert ValidSchema(schema);
    hide Inv, Enabled, After, PathsInjective, ValidSchema;
    if steps != [] {
      var front, step := steps[..|steps| - 1], steps[|steps| - 1];
      ExecKeeps(schema, s, front);
      StepKeeps(schema, Exec(schema, s, front).value, step);
    }
  }

  lemma ReachableOk(schema: DBSchema, root: Root, steps: seq<Step>)
    requires ValidSchema(schema) && PathsInjective(schema) && HasPaths(schema, root)
    requires Exec(schema, Start(root), steps).Some?
    ensures Inv(schema, Exec(schema, Start(root), steps).value)
  {
    StartOk(schema, root);
    ExecKeeps(schema, Start(root), steps);
  }

  // ---------------------------------------------------------------- what the invariant means

  /** Mutual exclusion: two live write transactions of a database are one, and the lock is
      held exactly while there is one. */
  lemma AtMostOneWriter(schema: DBSchema, s: State, t: nat, u: nat)
    requires Inv(schema, s) && t < |s.txns| && u < |s.txns|
    requires Holds(s.txns[t], s.txns[t].db) && Holds(s.txns[u], s.txns[t].db)
    ensures t == u && s.dbs[s.txns[t].db].locked
  {
    hide DbOk, WriterOk;
    assert TxnOk(schema, s, s.txns[t]);
    assert OneWriter(s, s.txns[t].db);
  }

  /** A write transaction releases the lock once, when it closes, and only while holding it. */
  lemma ReleasesOnce(schema: DBSchema, s: State, t: nat)
    requires Inv(schema, s) && t < |s.txns| && s.txns[t].write
    ensures s.txns[t].unlocks == if s.txns[t].phase == Closed then 1 else 0
    ensures Enabled(schema, s, Unlock(t)) ==> s.txns[t].unlocks == 0 && s.dbs[s.txns[t].db].locked
  {
    hide DbOk, WriterOk;
    assert TxnOk(schema, s, s.txns[t]);
    if Enabled(schema, s, Unlock(t)) {
      assert Holds(s.txns[t], s.txns[t].db);
      assert OneWriter(s, s.txns[t].db);
    }
  }

  /** No lost update: the root a transaction stores holds its operations applied to the root it
      replaces, whatever ran in between. */
  lemma NoLostUpdate(schema: DBSchema, s: State, t: nat, order: seq<TableIndex>)
    requires Inv(schema, s) && PathsInjective(schema) && Enabled(schema, s, Store(t, order))
    ensures var x := s.txns[t];
            var s' := After(schema, s, Store(t, order));
            && ProperOps(schema, x.ops)
            && View(schema, s'.dbs[x.db].root, map[]) == ApplyAll(schema, View(schema, s.dbs[x.db].root, map[]), x.ops)
  {
    hide View, HasPaths, OnSchema, ApplyAll, ProperOps, Fold, PathsInjective, DbOk;
    var x := s.txns[t];
    assert TxnOk(schema, s, x);
    CommitShowsView(schema, x.base, x.modified, order);
  }

  function AllOps(history: seq<Commit>, k: nat): seq<Op>
    requires k <= |history|
  {
    if k == 0 then [] else AllOps(history, k - 1) + history[k - 1].ops
  }

  /** One history: every committed state is the first state followed by the operations of the
      committed transactions, one whole transaction after the other. */
  lemma {:induction false} HistoryIsSerial(schema: DBSchema, db: Db, k: nat)
    requires ValidSchema(schema) && DbOk(schema, db) && k <= |db.history|
    ensures ProperOps(schema, AllOps(db.history, k))
    ensures View(schema, RootAt(db, k), map[])
            == ApplyAll(schema, View(schema, db.origin, map[]), AllOps(db.history, k))
  {
    hide View, HasPaths, ApplyAll, ProperOps;
    if k == 0 {
      NoOps(schema, View(schema, db.origin, map[]), AllOps(db.history, 0));
    } else {
      HistoryIsSerial(schema, db, k - 1);
      assert FollowsFrom(schema, db, k - 1);
      ApplyAllConcat(schema, View(schema, db.origin, map[]), AllOps(db.history, k - 1), db.history[k - 1].ops);
    }
  }

  /** Serializability: in every state that any interleaving reaches, every committed state of every
      database, the current one included, is its first state followed by whole transactions. */
  lemma Serializable(schema: DBSchema, root: Root, steps: seq<Step>, d: nat, k: nat)
    requires ValidSchema(schema) && PathsInjective(schema) && HasPaths(schema, root)
    requires Exec(schema, Start(root), steps).Some?
    requires var s := Exec(schema, Start(root), steps).value; d < |s.dbs| && k <= |s.dbs[d].history|
    ensures var db := Exec(schema, Start(root), steps).value.dbs[d];
            && db.root == RootAt(db, |db.history|)
            && ProperOps(schema, AllOps(db.history, k))
            && View(schema, RootAt(db, k), map[])
               == ApplyAll(schema, View(schema, db.origin, map[]), AllOps(db.history, k))
  {
    hide Exec, View, ApplyAll, HasPaths, ProperOps, PathsInjective, TxnOk, OneWriter, FollowsFrom;
    ReachableOk(schema, root, steps);
    var s := Exec(schema, Start(root), steps).value;
    assert DbOk(schema, s.dbs[d]);
    HistoryIsSerial(schema, s.dbs[d], k);
  }

  lemma NoOps(schema: DBSchema, c: Content, none: seq<Op>)
    requires ValidSchema(schema) && ContentHasShape(schema, c) && none == []
    ensures ProperOps(schema, none) && ApplyAll(schema, c, none) == c
  {
  }

  lemma {:induction false} HistoryAgrees(schema: DBSchema, db: Db, k: nat)
    requires ValidSchema(schema) && DbOk(schema, db) && k <= |db.history|
    requires AllAgree(schema, View(schema, db.origin, map[]))
    requires CommitsCleanly(schema, db)
    ensures AllAgree(schema, View(schema, RootAt(db, k), map[]))
  {
    hide View, HasPaths, ApplyAll, ProperOps, AllAgree, CleanRun, FollowsFrom;
    if k > 0 {
      HistoryAgrees(schema, db, k - 1);
      NextCommitAgrees(schema, db, k - 1);
    }
  }

  /** Every transaction that committed did so after a clean run. */
  ghost predicate CommitsCleanly(schema: DBSchema, db: Db) {
    forall i :: 0 <= i < |db.history| ==> CleanRun(schema, View(schema, RootAt(db, i), map[]), db.history[i].ops)
  }

  lemma NextCommitAgrees(schema: DBSchema, db: Db, k: nat)
    requires ValidSchema(schema) && k < |db.history| && FollowsFrom(schema, db, k)
    requires AllAgree(schema, View(schema, RootAt(db, k), map[]))
    requires CleanRun(schema, View(schema, RootAt(db, k), map[]), db.history[k].ops)
    ensures AllAgree(schema, View(schema, RootAt(db, k + 1), map[]))
  {
    hide View, HasPaths, ApplyAll, ProperOps, AllAgree, CleanRun;
    RunKeepsAgreement(schema, View(schema, RootAt(db, k), map[]), db.history[k].ops);
  }

  // ---------------------------------------------------------------- isolation over time

  /** What later states keep of earlier ones: every database with its origin and its history so
      far, and every reader or snapshot, unchanged in all it can ever see. */
  ghost predicate Extends(s: State, s': State) {
    && |s.dbs| <= |s'.dbs| && |s.txns| <= |s'.txns|
    && (forall d :: 0 <= d < |s.dbs| ==>
          s'.dbs[d].origin == s.dbs[d].origin && s.dbs[d].history <= s'.dbs[d].history)
    && (forall t :: 0 <= t < |s.txns| && !s.txns[t].write ==> s'.txns[t] == s.txns[t])
  }

  lemma StepExtends(schema: DBSchema, s: State, step: Step)
    requires Inv(schema, s) && Enabled(schema, s, step)
    ensures Extends(s, After(schema, s, step))
  {
    hide DbOk, OneWriter, WriterOk, View, Fold;
    assert forall t :: 0 <= t < |s.txns| ==> TxnOk(schema, s, s.txns[t]);
  }

  lemma ExtendsTransitive(a: State, b: State, c: State)
    requires Extends(a, b) && Extends(b, c)
    ensures Extends(a, c)
  {
    forall d | 0 <= d < |a.dbs| ensures a.dbs[d].history <= c.dbs[d].history {
      assert a.dbs[d].history <= b.dbs[d].history <= c.dbs[d].history;
    }
  }

  lemma {:induction false} ExecExtends(schema: DBSchema, s: State, steps: seq<Step>)
    requires Inv(schema, s) && PathsInjective(schema) && Exec(schema, s, steps).Some?
    ensures Extends(s, Exec(schema, s, steps).value)
  {
    assert ValidSchema(schema);
    hide Inv, Enabled, After, PathsInjective, ValidSchema;
    if steps != [] {
      var front, step := steps[..|steps| - 1], steps[|steps| - 1];
      ExecExtends(schema, s, front);
      ExecKeeps(schema, s, front);
      var s1 := Exec(schema, s, front).value;
      StepExtends(schema, s1, step);
      ExtendsTransitive(s, s1, After(schema, s1, step));
    }
  }

  /** Where databases come from: the first one from the initial root, each snapshot from a committed
      root of an earlier database. */
  ghost predicate Originates(s: State, root: Root, d: nat)
    requires d < |s.dbs|
  {
    || s.dbs[d].origin == root
    || exists e: nat, k: nat :: e < d && k <= |s.dbs[e].history| && s.dbs[d].origin == RootAt(s.dbs[e], k)
  }

  lemma OriginatesLater(s: State, s': State, root: Root, d: nat)
    requires Extends(s, s') && d < |s.dbs| && Originates(s, root, d)
    ensures Originates(s', root, d)
  {
    if s.dbs[d].origin != root {
      var e: nat, k: nat :| e < d && k <= |s.dbs[e].history| && s.dbs[d].origin == RootAt(s.dbs[e], k);
      assert RootAt(s'.dbs[e], k) == RootAt(s.dbs[e], k);
    }
  }

  lemma {:induction false} ExecOriginates(schema: DBSchema, root: Root, steps: seq<Step>, d: nat)
    requires ValidSchema(schema) && PathsInjective(schema) && HasPaths(schema, root)
    requires Exec(schema, Start(root), steps).Some? && d < |Exec(schema, Start(root), steps).value.dbs|
    ensures Originates(Exec(schema, Start(root), steps).value, root, d)
    decreases steps
  {
    hide Enabled, HasPaths, PathsInjective, Originates, Inv, Extends;
    if steps == [] {
      assert Originates(Start(root), root, 0) by {
        StartOriginates(root);
      }
    } else {
      var front, step := steps[..|steps| - 1], steps[|steps| - 1];
      var s := Exec(schema, Start(root), front).value;
      ReachableOk(schema, root, front);
      StepExtends(schema, s, step);
      if d < |s.dbs| {
        ExecOriginates(schema, root, front, d);
        OriginatesLater(s, After(schema, s, step), root, d);
      } else {
        SnapshotOriginates(schema, s, step, root, d);
      }
    }
  }

  lemma StartOriginates(root: Root)
    ensures Originates(Start(root), root, 0)
  {
  }

  lemma SnapshotOriginates(schema: DBSchema, s: State, step: Step, root: Root, d: nat)
    requires Inv(schema, s) && Enabled(schema, s, step) && |s.dbs| <= d < |After(schema, s, step).dbs|
    ensures Originates(After(schema, s, step), root, d)
  {
    hide OneWriter, TxnOk, FollowsFrom, View, HasPaths, Fold;
    var e := step.d;
    var s' := After(schema, s, step);
    assert DbOk(schema, s.dbs[e]);
    assert s'.dbs[e] == s.dbs[e] && s'.dbs[d].origin == RootAt(s'.dbs[e], |s'.dbs[e].history|);
  }

  /** Agreement in every interleaving: if every transaction that committed, on the database or on any
      snapshot of it, did so after a clean run, then every committed state of every database
      agrees. Failed operations may leave private trees in any state, as long as their
      transaction is aborted. */
  lemma {:induction false} CommittedStatesAgree(schema: DBSchema, root: Root, steps: seq<Step>, d: nat, k: nat)
    requires ValidSchema(schema) && PathsInjective(schema) && HasPaths(schema, root)
    requires Exec(schema, Start(root), steps).Some? && AllAgree(schema, View(schema, root, map[]))
    requires var s := Exec(schema, Start(root), steps).value;
             && d < |s.dbs| && k <= |s.dbs[d].history|
             && forall e :: 0 <= e < |s.dbs| ==> CommitsCleanly(schema, s.dbs[e])
    ensures AllAgree(schema, View(schema, RootAt(Exec(schema, Start(root), steps).value.dbs[d], k), map[]))
    decreases d
  {
    hide Exec, View, HasPaths, PathsInjective, AllAgree, CommitsCleanly, TxnOk, OneWriter, FollowsFrom;
    var s := Exec(schema, Start(root), steps).value;
    ReachableOk(schema, root, steps);
    ExecOriginates(schema, root, steps, d);
    if s.dbs[d].origin != root {
      var e: nat, i: nat :| e < d && i <= |s.dbs[e].history| && s.dbs[d].origin == RootAt(s.dbs[e], i);
      CommittedStatesAgree(schema, root, steps, e, i);
    }
    assert DbOk(schema, s.dbs[d]);
    HistoryAgrees(schema, s.dbs[d], k);
  }

  /** A read transaction sees one committed state, the newest when it began, for its whole
      life, whatever steps follow. */
  lemma ReaderSeesOneCommit(schema: DBSchema, s: State, d: nat, steps: seq<Step>)
    requires Inv(schema, s) && PathsInjective(schema) && d < |s.dbs|
    requires Exec(schema, After(schema, s, BeginRead(d)), steps).Some?
    ensures var s' := Exec(schema, After(schema, s, BeginRead(d)), steps).value;
            var k := |s.dbs[d].history|;
            && |s.txns| < |s'.txns| && d < |s'.dbs| && k <= |s'.dbs[d].history|
            && s'.txns[|s.txns|] == Reader(d, RootAt(s'.dbs[d], k))
  {
    hide Exec, OneWriter, TxnOk, PathsInjective;
    var s1 := After(schema, s, BeginRead(d));
    StepKeeps(schema, s, BeginRead(d));
    ExecExtends(schema, s1, steps);
    var s' := Exec(schema, s1, steps).value;
    assert !s1.txns[|s.txns|].write;
    assert DbOk(schema, s.dbs[d]);
    assert s1.dbs[d] == s.dbs[d];
    assert RootAt(s'.dbs[d], |s.dbs[d].history|) == RootAt(s.dbs[d], |s.dbs[d].history|);
  }

  /** `MemDB.Snapshot` starts from the newest commit of that moment, unlocked and with no commits of its
      own, and keeps that origin whatever steps follow. */
  lemma DbSnapshotStartsNewest(schema: DBSchema, s: State, d: nat, steps: seq<Step>)
    requires Inv(schema, s) && PathsInjective(schema) && d < |s.dbs|
    requires Exec(schema, After(schema, s, SnapshotDb(d)), steps).Some?
    ensures var s1, s' := After(schema, s, SnapshotDb(d)), Exec(schema, After(schema, s, SnapshotDb(d)), steps).value;
            var k, e := |s.dbs[d].history|, |s.dbs|;
            && e < |s1.dbs| <= |s'.dbs| && k <= |s'.dbs[d].history|
            && s1.dbs[e] == Db(RootAt(s'.dbs[d], k), false, RootAt(s'.dbs[d], k), [])
            && s'.dbs[e].origin == RootAt(s'.dbs[d], k)
  {
    hide Exec, OneWriter, TxnOk, PathsInjective;
    var s1 := After(schema, s, SnapshotDb(d));
    StepKeeps(schema, s, SnapshotDb(d));
    ExecExtends(schema, s1, steps);
    var s' := Exec(schema, s1, steps).value;
    assert DbOk(schema, s.dbs[d]);
    assert s1.dbs[d] == s.dbs[d];
    assert RootAt(s'.dbs[d], |s.dbs[d].history|) == RootAt(s.dbs[d], |s.dbs[d].history|);
  }

  /** A write transaction that loads the root starts from the newest commit, and stays with it until it
      ends: no other transaction commits in between. */
  lemma WriterStartsNewest(schema: DBSchema, s: State, t: nat)
    requires Inv(schema, s) && t < |s.txns| && s.txns[t].write && s.txns[t].phase == Active
    ensures s.txns[t].db < |s.dbs|
    ensures var db := s.dbs[s.txns[t].db]; s.txns[t].base == RootAt(db, |db.history|)
  {
    assert TxnOk(schema, s, s.txns[t]);
    assert DbOk(schema, s.dbs[s.txns[t].db]);
  }

  /** `Txn.Snapshot` shows what its transaction reads at that moment, and goes on showing it
      whatever the transaction and all others do later. */
  lemma SnapshotSeesOneState(schema: DBSchema, s: State, t: nat, order: seq<TableIndex>, steps: seq<Step>)
    requires Inv(schema, s) && PathsInjective(schema) && Enabled(schema, s, SnapshotTxn(t, order))
    requires Exec(schema, After(schema, s, SnapshotTxn(t, order)), steps).Some?
    ensures var s' := Exec(schema, After(schema, s, SnapshotTxn(t, order)), steps).value;
            && |s.txns| < |s'.txns|
            && var y := s'.txns[|s.txns|];
               View(schema, y.base, y.modified) == View(schema, s.txns[t].base, s.txns[t].modified)
  {
    hide Exec, OneWriter, DbOk, WriterOk, View, PathsInjective;
    var s1 := After(schema, s, SnapshotTxn(t, order));
    StepKeeps(schema, s, SnapshotTxn(t, order));
    ExecExtends(schema, s1, steps);
    assert TxnOk(schema, s, s.txns[t]);
    CommitShowsView(schema, s.txns[t].base, s.txns[t].modified, order);
    assert !s1.txns[|s.txns|].write;
  }

  /** The database a step may change. */
  function Target(s: State, step: Step): Option<nat> {
    match step
    case Lock(d) => Some(d)
    case Store(t, _) => if t < |s.txns| then Some(s.txns[t].db) else None
    case Unlock(t) => if t < |s.txns| then Some(s.txns[t].db) else None
    case _ => None
  }

  lemma StepElsewhere(schema: DBSchema, s: State, step: Step, d: nat)
    requires ValidSchema(schema) && Enabled(schema, s, step) && d < |s.dbs| && Target(s, step) != Some(d)
    ensures d < |After(schema, s, step).dbs| && After(schema, s, step).dbs[d] == s.dbs[d]
  {
  }

  /** No step of the run takes, stores under or releases the lock of `d`. */
  ghost predicate NeverTargets(schema: DBSchema, s: State, steps: seq<Step>, d: nat)
    requires ValidSchema(schema)
  {
    steps != [] ==>
      var front := steps[..|steps| - 1];
      && NeverTargets(schema, s, front, d)
      && Exec(schema, s, front).Some?
      && Target(Exec(schema, s, front).value, steps[|steps| - 1]) != Some(d)
  }

  /** Databases are independent over whole runs: whatever transactions of other databases do,
      snapshots of this one included, and whatever its own transactions read, write privately or
      abandon, its root, history and lock stay as they were. */
  lemma {:induction false} OtherDatabasesUnchanged(schema: DBSchema, s: State, steps: seq<Step>, d: nat)
    requires ValidSchema(schema) && d < |s.dbs| && Exec(schema, s, steps).Some? && NeverTargets(schema, s, steps, d)
    ensures var s' := Exec(schema, s, steps).value; d < |s'.dbs| && s'.dbs[d] == s.dbs[d]
  {
    hide Enabled, After, Target, ValidSchema;
    if steps != [] {
      var front := steps[..|steps| - 1];
      OtherDatabasesUnchanged(schema, s, front, d);
      StepElsewhere(schema, Exec(schema, s, front).value, steps[|steps| - 1], d);
    }
  }

  /** A write lock can always be given back within three steps, without changing the root. */
  lemma LockIsReleasable(schema: DBSchema, s: State, d: nat)
    requires Inv(schema, s) && d < |s.dbs| && s.dbs[d].locked
    ensures CanRelease(schema, s, d)
  {
    hide View, Fold, DbOk, WriterOk, HasPaths, CanRelease;
    assert OneWriter(s, d);
    var t :| 0 <= t < |s.txns| && Holds(s.txns[t], d);
    assert TxnOk(schema, s, s.txns[t]);
    var none: seq<Step> := [];
    ExecNone(schema, s, none);
    match s.txns[t].phase
    case Locked => FromLocked(schema, s, none, t);
    case Active => FromActive(schema, s, none, s, t);
    case Releasing => FromReleasing(schema, s, none, s, t);
  }

  ghost predicate Released(s: State, s': State, d: nat) {
    d < |s.dbs| && d < |s'.dbs| && !s'.dbs[d].locked && s'.dbs[d].root == s.dbs[d].root
  }

  lemma ExecOne(schema: DBSchema, s: State, steps: seq<Step>, step: Step)
    requires ValidSchema(schema) && Exec(schema, s, steps).Some? && Enabled(schema, Exec(schema, s, steps).value, step)
    ensures Exec(schema, s, steps + [step]) == Some(After(schema, Exec(schema, s, steps).value, step))
  {
    hide Enabled, After;
    var all := steps + [step];
    assert all[..|all| - 1] == steps && all[|all| - 1] == step;
  }

  /** A holder of a lock that has got as far as `phase`, with every database as in `s`. */
  ghost predicate HolderIn(s: State, now: State, t: nat, phase: Phase) {
    && t < |s.txns| && t < |now.txns| && now.dbs == s.dbs
    && now.txns[t].db == s.txns[t].db < |s.dbs| && now.txns[t].write && now.txns[t].phase == phase
  }

  lemma LoadReleases(schema: DBSchema, s: State, now: State, t: nat)
    requires ValidSchema(schema) && HolderIn(s, now, t, Locked)
    ensures Enabled(schema, now, Load(t)) && HolderIn(s, After(schema, now, Load(t)), t, Active)
  {
  }

  lemma AbandonReleases(schema: DBSchema, s: State, now: State, t: nat)
    requires ValidSchema(schema) && HolderIn(s, now, t, Active)
    ensures Enabled(schema, now, Abandon(t)) && HolderIn(s, After(schema, now, Abandon(t)), t, Releasing)
  {
  }

  lemma UnlockReleases(schema: DBSchema, s: State, now: State, t: nat)
    requires ValidSchema(schema) && HolderIn(s, now, t, Releasing)
    ensures Enabled(schema, now, Unlock(t)) && Released(s, After(schema, now, Unlock(t)), s.txns[t].db)
  {
  }

  /** Some steps lead to a state in which the lock is free and the root unchanged. */
  ghost predicate CanRelease(schema: DBSchema, s: State, d: nat)
    requires ValidSchema(schema)
  {
    exists steps :: |steps| <= 3 && ReleasedBy(schema, s, steps, d)
  }

  ghost predicate ReleasedBy(schema: DBSchema, s: State, steps: seq<Step>, d: nat)
    requires ValidSchema(schema)
  {
    Exec(schema, s, steps).Some? && Released(s, Exec(schema, s, steps).value, d)
  }

  lemma FromReleasing(schema: DBSchema, s: State, steps: seq<Step>, now: State, t: nat)
    requires ValidSchema(schema) && Exec(schema, s, steps) == Some(now) && |steps| <= 2
    requires HolderIn(s, now, t, Releasing)
    ensures CanRelease(schema, s, s.txns[t].db)
  {
    UnlockReleases(schema, s, now, t);
    hide Exec, Enabled, After, Released, HolderIn;
    ExecOne(schema, s, steps, Unlock(t));
    assert ReleasedBy(schema, s, steps + [Unlock(t)], s.txns[t].db);
  }

  lemma FromActive(schema: DBSchema, s: State, steps: seq<Step>, now: State, t: nat)
    requires ValidSchema(schema) && Exec(schema, s, steps) == Some(now) && |steps| <= 1
    requires HolderIn(s, now, t, Active)
    ensures CanRelease(schema, s, s.txns[t].db)
  {
    AbandonReleases(schema, s, now, t);
    hide Exec, Enabled, After, HolderIn;
    ExecOne(schema, s, steps, Abandon(t));
    FromReleasing(schema, s, steps + [Abandon(t)], After(schema, now, Abandon(t)), t);
  }

  lemma FromLocked(schema: DBSchema, s: State, none: seq<Step>, t: nat)
    requires ValidSchema(schema) && Exec(schema, s, none) == Some(s) && none == []
    requires HolderIn(s, s, t, Locked)
    ensures CanRelease(schema, s, s.txns[t].db)
  {
    LoadReleases(schema, s, s, t);
    hide Exec, Enabled, After, HolderIn;
    ExecOne(schema, s, none, Load(t));
    FromActive(schema, s, none + [Load(t)], After(schema, s, Load(t)), t);
  }

  lemma ExecNone(schema: DBSchema, s: State, none: seq<Step>)
    requires ValidSchema(schema) && none == []
    ensures Exec(schema, s, none) == Some(s)
  {
  }
}
