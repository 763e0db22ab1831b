/**
 Roots and overlays. A root maps an index path to that index's tree; a write transaction
 keeps private trees in `modified`, reads through them, and folds them into a new root.
 */
module Overlay {
  import opened Bytes
  import opened Radix
  import opened Schema

  type Root = map<string, Tree<Object>>

  datatype TableIndex = TableIndex(table: string, index: string)

  type Modified = map<TableIndex, Tree<Object>>

  /** `indexPath` (memdb.go:117). */
  function PathOf(table: string, index: string): string {
    table + "." + index
  }

  function KeyPath(ti: TableIndex): string {
    PathOf(ti.table, ti.index)
  }

  predicate InSchema(schema: DBSchema, ti: TableIndex) {
    ti.table in schema && ti.index in schema[ti.table]
  }

  ghost predicate HasPaths(schema: DBSchema, root: Root) {
    forall ti :: InSchema(schema, ti) ==> KeyPath(ti) in root
  }

  ghost predicate OnSchema(schema: DBSchema, modified: Modified) {
    forall ti :: ti in modified ==> InSchema(schema, ti)
  }

  /** The tree a transaction reads for an index. The source panics where the root has no such
      path; roots of a database always have every path of its schema (`HasPaths`). */
  function ReadIndex(root: Root, modified: Modified, ti: TableIndex): Tree<Object> {
    if ti in modified then modified[ti]
    else if KeyPath(ti) in root then root[KeyPath(ti)]
    else map[]
  }

  /** Everything a transaction can read. */
  function View(schema: DBSchema, root: Root, modified: Modified): (c: Content)
    ensures ContentHasShape(schema, c)
  {
    map t | t in schema :: map n | n in schema[t] :: ReadIndex(root, modified, TableIndex(t, n))
  }

  lemma SameContent(schema: DBSchema, a: Content, b: Content)
    requires ContentHasShape(schema, a) && ContentHasShape(schema, b)
    requires forall t, n :: t in schema && n in schema[t] ==> a[t][n] == b[t][n]
    ensures a == b
  {
    forall t | t in schema ensures a[t] == b[t] {
      assert a[t].Keys == schema[t].Keys == b[t].Keys;
    }
  }

  function WithTree(schema: DBSchema, c: Content, ti: TableIndex, tree: Tree<Object>): (c': Content)
    requires ContentHasShape(schema, c) && InSchema(schema, ti)
    ensures ContentHasShape(schema, c')
    ensures forall t, n :: t in schema && n in schema[t] && TableIndex(t, n) != ti ==> c'[t][n] == c[t][n]
    ensures c'[ti.table][ti.index] == tree
  {
    var tbl := c[ti.table][ti.index := tree];
    assert HasShape(schema[ti.table], tbl);
    c[ti.table := tbl]
  }

  lemma ViewAt(schema: DBSchema, root: Root, modified: Modified, ti: TableIndex)
    requires InSchema(schema, ti)
    ensures View(schema, root, modified)[ti.table][ti.index] == ReadIndex(root, modified, ti)
  {
  }

  /** Writing one private tree changes exactly that index of the view. */
  lemma ViewUpdate(schema: DBSchema, root: Root, modified: Modified, ti: TableIndex, tree: Tree<Object>)
    requires InSchema(schema, ti)
    ensures View(schema, root, modified[ti := tree]) == WithTree(schema, View(schema, root, modified), ti, tree)
  {
    SameContent(schema, View(schema, root, modified[ti := tree]), WithTree(schema, View(schema, root, modified), ti, tree));
  }

  /** Opening a private tree without writing to it changes nothing. */
  lemma ViewTouch(schema: DBSchema, root: Root, modified: Modified, ti: TableIndex)
    ensures View(schema, root, modified[ti := ReadIndex(root, modified, ti)]) == View(schema, root, modified)
  {
    SameContent(schema, View(schema, root, modified[ti := ReadIndex(root, modified, ti)]), View(schema, root, modified));
  }

  // ---------------------------------------------------------------- folding the overlay

  predicate IsKeyOrder(order: seq<TableIndex>, keys: set<TableIndex>) {
    && (forall ti :: ti in order ==> ti in keys)
    && (forall ti :: ti in keys ==> ti in order)
    && (forall i, j :: 0 <= i < j < |order| ==> order[i] != order[j])
  }

  /** The loop of `Commit` and of `Txn.Snapshot`, for one map iteration order. */
  function Fold(root: Root, modified: Modified, order: seq<TableIndex>): Root
    requires forall ti :: ti in order ==> ti in modified
    decreases order
  {
    if order == [] then root
    else Fold(root[KeyPath(order[0]) := modified[order[0]]], modified, order[1..])
  }

  /** `indexPath` gives different indexes of the schema different paths. */
  ghost predicate PathsInjective(schema: DBSchema) {
    forall a, b :: InSchema(schema, a) && InSchema(schema, b) && KeyPath(a) == KeyPath(b) ==> a == b
  }

  lemma {:induction false} FoldAt(schema: DBSchema, root: Root, modified: Modified, order: seq<TableIndex>, ti: TableIndex)
    requires PathsInjective(schema) && OnSchema(schema, modified) && InSchema(schema, ti)
    requires forall x :: x in order ==> x in modified
    requires forall i, j :: 0 <= i < j < |order| ==> order[i] != order[j]
    requires KeyPath(ti) in root
    ensures var r := Fold(root, modified, order);
            KeyPath(ti) in r && r[KeyPath(ti)] == if ti in order then modified[ti] else root[KeyPath(ti)]
    decreases order
  {
    if order != [] {
      var x := order[0];
      var root1 := root[KeyPath(x) := modified[x]];
      FoldAt(schema, root1, modified, order[1..], ti);
      assert InSchema(schema, x);
      assert ti in order <==> ti == x || ti in order[1..];
      assert x !in order[1..];
      assert KeyPath(x) == KeyPath(ti) ==> x == ti;
    }
  }

  /** Folding changes no path that no private tree is filed under. */
  lemma {:induction false} FoldElsewhere(root: Root, modified: Modified, order: seq<TableIndex>, path: string)
    requires forall x :: x in order ==> x in modified && KeyPath(x) != path
    ensures path in Fold(root, modified, order) <==> path in root
    ensures path in root ==> Fold(root, modified, order)[path] == root[path]
    decreases order
  {
    if order != [] {
      assert order[0] in order;
      FoldElsewhere(root[KeyPath(order[0]) := modified[order[0]]], modified, order[1..], path);
    }
  }

  lemma {:induction false} FoldKeepsPath(root: Root, modified: Modified, order: seq<TableIndex>, path: string)
    requires forall x :: x in order ==> x in modified
    ensures path in root ==> path in Fold(root, modified, order)
    decreases order
  {
    if order != [] {
      FoldKeepsPath(root[KeyPath(order[0]) := modified[order[0]]], modified, order[1..], path);
    }
  }

  lemma FoldHasPaths(schema: DBSchema, root: Root, modified: Modified, order: seq<TableIndex>)
    requires HasPaths(schema, root) && IsKeyOrder(order, modified.Keys)
    ensures HasPaths(schema, Fold(root, modified, order))
  {
    forall ti | InSchema(schema, ti) ensures KeyPath(ti) in Fold(root, modified, order) {
      FoldKeepsPath(root, modified, order, KeyPath(ti));
    }
  }

  /** Overlay refines commit: when paths are injective, a new reader of the folded root sees
      exactly what the transaction saw through its overlay, in whatever order it was folded. */
  lemma CommitShowsView(schema: DBSchema, root: Root, modified: Modified, order: seq<TableIndex>)
    requires PathsInjective(schema) && OnSchema(schema, modified) && HasPaths(schema, root)
    requires IsKeyOrder(order, modified.Keys)
    ensures HasPaths(schema, Fold(root, modified, order))
    ensures View(schema, Fold(root, modified, order), map[]) == View(schema, root, modified)
  {
    var root' := Fold(root, modified, order);
    forall ti | InSchema(schema, ti)
      ensures KeyPath(ti) in root' && ReadIndex(root', map[], ti) == ReadIndex(root, modified, ti)
    {
      FoldAt(schema, root, modified, order, ti);
    }
    var c, c' := View(schema, root, modified), View(schema, root', map[]);
    forall t, n | t in schema && n in schema[t] ensures c'[t][n] == c[t][n] {
      assert InSchema(schema, TableIndex(t, n));
    }
    SameContent(schema, c', c);
  }

  // ---------------------------------------------------------------- when paths are injective

  lemma {:induction false} DottedSplit(a: string, x: string, b: string, y: string)
    requires '.' !in a && '.' !in b
    requires a + "." + x == b + "." + y
    ensures a == b && x == y
  {
    var s, t := a + "." + x, b + "." + y;
    assert forall i :: 0 <= i < |a| ==> s[i] == a[i] && a[i] != '.';
    assert forall i :: 0 <= i < |b| ==> t[i] == b[i] && b[i] != '.';
    assert s[|a|] == '.' && t[|b|] == '.';
    assert |a| == |b|;
    assert a == s[..|a|] && b == s[..|b|];
    assert x == s[|a| + 1..] && y == s[|b| + 1..];
  }

  /** Table names without a dot are enough. */
  lemma DotFreeTablesInjective(schema: DBSchema)
    requires forall t :: t in schema ==> '.' !in t
    ensures PathsInjective(schema)
  {
    forall a, b | InSchema(schema, a) && InSchema(schema, b) && KeyPath(a) == KeyPath(b) ensures a == b {
      DottedSplit(a.table, a.index, b.table, b.index);
    }
  }

  /** With dots, two indexes can share one path. */
  lemma DottedTablesCollide()
    ensures KeyPath(TableIndex("a", "b.c")) == KeyPath(TableIndex("a.b", "c"))
    ensures TableIndex("a", "b.c") != TableIndex("a.b", "c")
  {
    assert "a" + "." + "b.c" == "a.b.c" == "a.b" + "." + "c";
  }

  ghost predicate FoldsAlike(schema: DBSchema, root: Root, modified: Modified, order: seq<TableIndex>,
                             order': seq<TableIndex>)
  {
    OnSchema(schema, modified) && HasPaths(schema, root)
    && IsKeyOrder(order, modified.Keys) && IsKeyOrder(order', modified.Keys) ==>
      Fold(root, modified, order) == Fold(root, modified, order')
  }

  ghost predicate FoldIsOrderFree(schema: DBSchema) {
    forall root, modified, order, order' :: FoldsAlike(schema, root, modified, order, order')
  }

  lemma {:induction false} FoldKeys(root: Root, modified: Modified, order: seq<TableIndex>)
    requires forall x :: x in order ==> x in modified && KeyPath(x) in root
    ensures Fold(root, modified, order).Keys == root.Keys
    decreases order
  {
    if order != [] {
      assert order[0] in order;
      FoldKeys(root[KeyPath(order[0]) := modified[order[0]]], modified, order[1..]);
    }
  }

  /** The committed root is independent of map iteration order exactly for the schemas whose
      index paths are distinct. */
  lemma CommitOrderIndependentIff(schema: DBSchema)
    ensures FoldIsOrderFree(schema) <==> PathsInjective(schema)
  {
    if PathsInjective(schema) {
      forall root, modified, order, order' ensures FoldsAlike(schema, root, modified, order, order') {
        if OnSchema(schema, modified) && HasPaths(schema, root)
           && IsKeyOrder(order, modified.Keys) && IsKeyOrder(order', modified.Keys)
        {
          FoldSame(schema, root, modified, order, order');
        }
      }
    } else {
      var a, b :| InSchema(schema, a) && InSchema(schema, b) && KeyPath(a) == KeyPath(b) && a != b;
      FoldDepends(schema, a, b);
    }
  }

  lemma FoldSame(schema: DBSchema, root: Root, modified: Modified, order: seq<TableIndex>, order': seq<TableIndex>)
    requires PathsInjective(schema) && OnSchema(schema, modified) && HasPaths(schema, root)
    requires IsKeyOrder(order, modified.Keys) && IsKeyOrder(order', modified.Keys)
    ensures Fold(root, modified, order) == Fold(root, modified, order')
  {
    FoldKeys(root, modified, order);
    FoldKeys(root, modified, order');
    var r, r' := Fold(root, modified, order), Fold(root, modified, order');
    forall path | path in root ensures r[path] == r'[path] {
      if ti :| ti in modified && KeyPath(ti) == path {
        FoldAt(schema, root, modified, order, ti);
        FoldAt(schema, root, modified, order', ti);
      } else {
        FoldElsewhere(root, modified, order, path);
        FoldElsewhere(root, modified, order', path);
      }
    }
  }

  /** Committing these private trees, in this order, shows a new reader what the transaction saw. */
  ghost predicate Shows(schema: DBSchema, root: Root, modified: Modified, order: seq<TableIndex>) {
    OnSchema(schema, modified) && HasPaths(schema, root) && IsKeyOrder(order, modified.Keys) ==>
      View(schema, Fold(root, modified, order), map[]) == View(schema, root, modified)
  }

  ghost predicate CommitsShow(schema: DBSchema) {
    forall root, modified, order :: Shows(schema, root, modified, order)
  }

  /** A new reader sees what the transaction saw, whatever it committed, exactly for the schemas
      whose index paths are distinct. */
  lemma CommitShowsViewIff(schema: DBSchema)
    ensures CommitsShow(schema) <==> PathsInjective(schema)
  {
    if PathsInjective(schema) {
      forall root, modified, order ensures Shows(schema, root, modified, order) {
        if OnSchema(schema, modified) && HasPaths(schema, root) && IsKeyOrder(order, modified.Keys) {
          CommitShowsView(schema, root, modified, order);
        }
      }
    } else {
      var a, b :| InSchema(schema, a) && InSchema(schema, b) && KeyPath(a) == KeyPath(b) && a != b;
      EmptyRootHasPaths(schema);
      CollisionHidesTree(schema, EmptyRoot(schema), TwoTrees(a, b), a, b);
    }
  }

  /** Of two private trees with one path, the first one folded is lost to new readers. */
  lemma CollisionHidesTree(schema: DBSchema, root: Root, modified: Modified, a: TableIndex, b: TableIndex)
    requires InSchema(schema, a) && InSchema(schema, b) && KeyPath(a) == KeyPath(b) && a != b
    requires HasPaths(schema, root) && modified.Keys == {a, b} && modified[a] != modified[b]
    ensures !CommitsShow(schema)
  {
    hide Fold, CommitsShow, KeyPath;
    FoldTwo(root, modified, a, b);
    PairOrder(a, b);
    var root' := Fold(root, modified, [a, b]);
    assert ReadIndex(root', map[], a) == modified[b];
    ViewAt(schema, root', map[], a);
    ViewAt(schema, root, modified, a);
    NotAllShow(schema, root, modified, [a, b]);
  }

  lemma NotAllShow(schema: DBSchema, root: Root, modified: Modified, order: seq<TableIndex>)
    requires !Shows(schema, root, modified, order)
    ensures !CommitsShow(schema)
  {
  }

  function EmptyRoot(schema: DBSchema): Root {
    map t, n | t in schema && n in schema[t] :: PathOf(t, n) := map[]
  }

  lemma EmptyRootHasPaths(schema: DBSchema)
    ensures HasPaths(schema, EmptyRoot(schema))
  {
    forall ti | InSchema(schema, ti) ensures KeyPath(ti) in EmptyRoot(schema) {
      assert ti.table in schema && ti.index in schema[ti.table];
    }
  }

  lemma FoldTwo(root: Root, modified: Modified, a: TableIndex, b: TableIndex)
    requires a in modified && b in modified && KeyPath(a) == KeyPath(b)
    ensures KeyPath(a) in Fold(root, modified, [a, b])
    ensures Fold(root, modified, [a, b])[KeyPath(a)] == modified[b]
  {
    assert [a, b][1..] == [b] && [b][1..] == [];
    var root1 := root[KeyPath(a) := modified[a]];
    assert Fold(root1, modified, [b]) == root1[KeyPath(b) := modified[b]];
  }

  lemma FoldDepends(schema: DBSchema, a: TableIndex, b: TableIndex)
    requires InSchema(schema, a) && InSchema(schema, b) && KeyPath(a) == KeyPath(b) && a != b
    ensures !FoldIsOrderFree(schema)
  {
    EmptyRootHasPaths(schema);
    FoldDependsOn(schema, EmptyRoot(schema), TwoTrees(a, b), a, b);
  }

  /** Two private trees that differ. */
  function TwoTrees(a: TableIndex, b: TableIndex): (m: Modified)
    requires a != b
    ensures m.Keys == {a, b} && m[a] != m[b]
  {
    map[a := map[], b := OneEntry(Object(map[]))]
  }

  function OneEntry(o: Object): (t: Tree<Object>)
    ensures t != map[]
  {
    var k: Key := [];
    assert k in map[k := o];
    map[k := o]
  }

  lemma FoldDependsOn(schema: DBSchema, root: Root, modified: Modified, a: TableIndex, b: TableIndex)
    requires InSchema(schema, a) && InSchema(schema, b) && KeyPath(a) == KeyPath(b) && a != b
    requires HasPaths(schema, root) && modified.Keys == {a, b} && modified[a] != modified[b]
    ensures !FoldIsOrderFree(schema)
  {
    FoldTwo(root, modified, a, b);
    FoldTwo(root, modified, b, a);
    PairOrder(a, b);
    PairOrder(b, a);
    assert {a, b} == {b, a};
    NotOrderFree(schema, root, modified, [a, b], [b, a]);
  }

  lemma NotOrderFree(schema: DBSchema, root: Root, modified: Modified, order: seq<TableIndex>, order': seq<TableIndex>)
    requires !FoldsAlike(schema, root, modified, order, order')
    ensures !FoldIsOrderFree(schema)
  {
  }

  lemma PairOrder(a: TableIndex, b: TableIndex)
    requires a != b
    ensures IsKeyOrder([a, b], {a, b})
  {
  }
}
