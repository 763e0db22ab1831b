/**
 What a query asks for: from the name of an index and its arguments to the keys it selects, and to
 the rows that the methods of a transaction return.

 A query names an index `n`, or `n` followed by `_prefix`. Without arguments it asks for every key;
 by `n` it asks for the keys that start with what the indexer makes of the arguments, by
 `n_prefix` for those that start with what its prefix indexer makes of them.
 */
module Lookup {
  import opened Bytes
  import opened Radix
  import opened Schema
  import opened Agreement
  import opened BulkDelete
  import opened Query
  import opened Ops
  import opened Runs

  ghost predicate EndsInPrefix(index: string) {
    exists n: string :: index == n + "_prefix"
  }

  /** The query asks for the keys of index `n` that start with `p`. */
  ghost predicate Asks(schema: DBSchema, table: string, index: string, args: seq<Arg>, n: string, p: Key) {
    && table in schema && n in schema[table]
    && var ix := schema[table][n];
       if index == n + "_prefix" then
         if args == [] then p == [] else ix.prefixFromArgs.Some? && ix.prefixFromArgs.value(args) == Some(p)
       else
         && index == n && !EndsInPrefix(n)
         && if args == [] then p == [] else ix.fromArgs(args) == Some(p)
  }

  lemma PrefixNames(index: string, n: string)
    ensures EndsInPrefix(index) <==> IsPrefixName(index)
    ensures index == n + "_prefix" <==> IsPrefixName(index) && IndexName(index) == n
    ensures !IsPrefixName(index) ==> IndexName(index) == index
  {
    if IsPrefixName(index) {
      assert index == IndexName(index) + "_prefix";
    }
    if EndsInPrefix(index) {
      var m: string :| index == m + "_prefix";
      assert index[|index| - 7..] == "_prefix";
    }
    if index == n + "_prefix" {
      assert index[|index| - 7..] == "_prefix" && index[..|index| - 7] == n;
    }
  }

  lemma PrefixNameDiffers(n: string)
    ensures n + "_prefix" != n
  {
    assert |n + "_prefix"| == |n| + 7;
  }

  /** The resolution of a query finds what the query asks for, and nothing else. */
  lemma ResolveIff(schema: DBSchema, table: string, index: string, args: seq<Arg>, n: string, p: Key)
    ensures Asks(schema, table, index, args, n, p) <==>
            var r := Resolve(schema, table, index, args); r.Found? && r.name == n && Seek(r.val) == p
    ensures Asks(schema, table, index, args, n, p) ==> (Resolve(schema, table, index, args).val.Some? <==> args != [])
  {
    hide IsPrefixName, IndexName, EndsInPrefix;
    PrefixNames(index, n);
  }

  /** Every query asks for one thing or is refused. */
  lemma QueryIsResolved(schema: DBSchema, table: string, index: string, args: seq<Arg>)
    ensures forall n, p :: Asks(schema, table, index, args, n, p) <==>
              var r := Resolve(schema, table, index, args); r.Found? && r.name == n && Seek(r.val) == p
    ensures Resolve(schema, table, index, args).Bad? <==> forall n, p :: !Asks(schema, table, index, args, n, p)
  {
    hide Resolve, Asks;
    forall n, p
      ensures Asks(schema, table, index, args, n, p) <==>
              var r := Resolve(schema, table, index, args); r.Found? && r.name == n && Seek(r.val) == p
    {
      ResolveIff(schema, table, index, args, n, p);
    }
    var r := Resolve(schema, table, index, args);
    if r.Found? {
      assert Asks(schema, table, index, args, r.name, Seek(r.val));
    }
  }

  /** Why a query is refused, in the order of the tests. */
  lemma Refusals(schema: DBSchema, table: string, index: string, args: seq<Arg>, n: string)
    ensures table !in schema <==> Resolve(schema, table, index, args) == Bad(NoSuchTable)
    ensures table in schema && (index == n + "_prefix" || (index == n && !EndsInPrefix(n))) ==>
              (n !in schema[table] <==> Resolve(schema, table, index, args) == Bad(NoSuchIndex))
    ensures table in schema && n in schema[table] && index == n + "_prefix" ==>
              (args != [] && schema[table][n].prefixFromArgs.None? <==>
               Resolve(schema, table, index, args) == Bad(NotAPrefixIndex))
  {
    hide IsPrefixName, IndexName, EndsInPrefix;
    PrefixNames(index, n);
  }

  // ---------------------------------------------------------------- rows

  /** The rows of a scan are the objects stored under the keys with the prefix, one for each key. */
  lemma ScannedRows(tbl: Table, n: string, p: Key, o: Object)
    requires n in tbl
    ensures o in Scan(tbl, n, p) <==> exists k :: k in tbl[n] && p <= k && tbl[n][k] == o
    ensures |Scan(tbl, n, p)| == |WithPrefix(tbl[n], p)|
  {
    var ks, rows := ScanPrefix(tbl[n], p), Scan(tbl, n, p);
    if o in rows {
      var i :| 0 <= i < |rows| && rows[i] == o;
      assert ks[i] in ks;
    }
    if k :| k in tbl[n] && p <= k && tbl[n][k] == o {
      assert k in ks;
      var i :| 0 <= i < |ks| && ks[i] == k;
      assert rows[i] == o;
    }
    AscendingSize(WithPrefix(tbl[n], p));
  }

  /** By the name of an index: the rows whose keys start with what its indexer makes of the arguments;
      where that value is prefix-free, exactly the live objects with that value. */
  lemma ExactLookup(schema: DBSchema, c: Content, table: string, n: string, args: seq<Arg>, v: Key)
    requires AllAgree(schema, c) && table in schema && n in schema[table] && !EndsInPrefix(n)
    requires args != [] && schema[table][n].fromArgs(args) == Some(v)
    ensures forall m, p :: Asks(schema, table, n, args, m, p) <==> m == n && p == v
    ensures PrefixFreeAt(schema[table], c[table], n, v) ==>
              forall o :: o in Scan(c[table], n, v) <==> IsLive(schema[table], c[table], o) && v in ValuesOf(schema[table][n], o)
  {
    hide Sound, Complete, AllIndexable, PrefixFreeAt;
    PrefixNameDiffers(n);
    forall m, p ensures Asks(schema, table, n, args, m, p) <==> m == n && p == v {
      assert n == m + "_prefix" ==> EndsInPrefix(n);
    }
    if PrefixFreeAt(schema[table], c[table], n, v) {
      GetIsExact(schema[table], c[table], n, v);
    }
  }

  /** What `First` returns: by the index's own name, with arguments and on a unique index, the row under
      exactly the key; otherwise the first row of the scan. */
  ghost predicate IsFirst(ix: IndexSchema, t: Tree<Object>, index: string, args: seq<Arg>, n: string, p: Key,
                          row: Option<Object>)
  {
    if index == n && args != [] && ix.unique then row == if p in t then Some(t[p]) else None
    else row == Head(Values(t, ScanPrefix(t, p)))
  }

  ghost predicate IsLast(ix: IndexSchema, t: Tree<Object>, index: string, args: seq<Arg>, n: string, p: Key,
                         row: Option<Object>)
  {
    if index == n && args != [] && ix.unique then row == if p in t then Some(t[p]) else None
    else row == Head(Reverse(Values(t, ScanPrefix(t, p))))
  }

  lemma EndRows(t: Tree<Object>, direct: bool, p: Key)
    ensures Fetch(t, FirstKey(t, direct, p))
            == if direct then (if p in t then Some(t[p]) else None) else Head(Values(t, ScanPrefix(t, p)))
    ensures Fetch(t, LastKey(t, direct, p))
            == if direct then (if p in t then Some(t[p]) else None) else Head(Reverse(Values(t, ScanPrefix(t, p))))
  {
    NoElements(ScanPrefix(t, p));
  }

  /** `First` and `Last` follow their branch condition. */
  lemma FirstLastFollow(schema: DBSchema, t: Tree<Object>, table: string, index: string, args: seq<Arg>, n: string, p: Key)
    requires Asks(schema, table, index, args, n, p)
    ensures Resolve(schema, table, index, args).Found?
    ensures var ix, val := schema[table][n], Resolve(schema, table, index, args).val;
            && Resolve(schema, table, index, args) == Found(n, val) && Seek(val) == p
            && IsFirst(ix, t, index, args, n, p, Fetch(t, FirstKey(t, Direct(ix, n, index, val), p)))
            && IsLast(ix, t, index, args, n, p, Fetch(t, LastKey(t, Direct(ix, n, index, val), p)))
  {
    hide Resolve, FirstKey, LastKey, Fetch, Head, Reverse, Values, ScanPrefix, EndsInPrefix;
    ResolveIff(schema, table, index, args, n, p);
    PrefixNameDiffers(n);
    EndRows(t, Direct(schema[table][n], n, index, Resolve(schema, table, index, args).val), p);
  }

  /** On `n_prefix`, and without arguments, `First` and `Last` are the ends of `Get`, whatever the
      index. */
  lemma PrefixEnds(ix: IndexSchema, t: Tree<Object>, index: string, args: seq<Arg>, n: string, p: Key,
                   first: Option<Object>, last: Option<Object>)
    requires IsFirst(ix, t, index, args, n, p, first) && IsLast(ix, t, index, args, n, p, last)
    requires index == n + "_prefix" || args == []
    ensures first == Head(Values(t, ScanPrefix(t, p))) && last == Head(Reverse(Values(t, ScanPrefix(t, p))))
  {
    PrefixNameDiffers(n);
  }

  /** By the name of the index, with arguments: the ends of `Get` under exactly these conditions. */
  lemma ExactEndsIff(ix: IndexSchema, t: Tree<Object>, index: string, args: seq<Arg>, n: string, p: Key,
                     first: Option<Object>, last: Option<Object>)
    requires IsFirst(ix, t, index, args, n, p, first) && IsLast(ix, t, index, args, n, p, last)
    requires index == n && args != []
    ensures first == Head(Values(t, ScanPrefix(t, p))) <==> !ix.unique || p in t || WithPrefix(t, p) == {}
    ensures last == Head(Reverse(Values(t, ScanPrefix(t, p)))) <==>
            !ix.unique || WithPrefix(t, p) == {} || (p in t && exists g :: Greatest(WithPrefix(t, p), g) && t[g] == t[p])
  {
    FirstAgreesIff(t, ix.unique, p);
    LastRowAgreesIff(t, ix.unique, p);
    NoElements(ScanPrefix(t, p));
    var ks := ScanPrefix(t, p);
    assert forall k :: k in WithPrefix(t, p) <==> k in ks;
  }

  /** The same for whatever a query asks for. */
  lemma EndsFollow(schema: DBSchema, c: Content, table: string, index: string, args: seq<Arg>)
    requires ValidSchema(schema) && ContentHasShape(schema, c)
    ensures forall n, p :: Asks(schema, table, index, args, n, p) ==>
              var ix, t := schema[table][n], c[table][n];
              var r := Resolve(schema, table, index, args);
              && r.Found? && r.name == n && Seek(r.val) == p
              && IsFirst(ix, t, index, args, n, p, Fetch(t, FirstKey(t, Direct(ix, n, index, r.val), p)))
              && IsLast(ix, t, index, args, n, p, Fetch(t, LastKey(t, Direct(ix, n, index, r.val), p)))
    ensures Resolve(schema, table, index, args).Bad? <==> forall n, p :: !Asks(schema, table, index, args, n, p)
  {
    hide Resolve, IsFirst, IsLast, FirstKey, LastKey, Direct, Fetch;
    QueryIsResolved(schema, table, index, args);
    forall n, p | Asks(schema, table, index, args, n, p)
      ensures var ix, t := schema[table][n], c[table][n];
              var r := Resolve(schema, table, index, args);
              && r.Found? && r.name == n && Seek(r.val) == p
              && IsFirst(ix, t, index, args, n, p, Fetch(t, FirstKey(t, Direct(ix, n, index, r.val), p)))
              && IsLast(ix, t, index, args, n, p, Fetch(t, LastKey(t, Direct(ix, n, index, r.val), p)))
    {
      FirstLastFollow(schema, c[table][n], table, index, args, n, p);
    }
  }

  // ---------------------------------------------------------------- bulk deletion

  /** `DeleteAll` of a query deletes the rows that the query asks for: it succeeds exactly if none of
      them is filed twice there, and then those rows, and no others, are gone. */
  lemma DeleteAllAsked(schema: DBSchema, c: Content, table: string, index: string, args: seq<Arg>,
                       orders: nat -> seq<string>, n: string, p: Key)
    requires AllConsistent(schema, c) && ProperOp(schema, Op.DeleteAll(table, index, args, orders))
    requires Asks(schema, table, index, args, n, p)
    ensures var r := Apply(schema, c, Op.DeleteAll(table, index, args, orders));
            && (r.err.None? <==> OneKeyEach(c[table], n, p))
            && (r.err.None? ==>
                  && r.c == c[table := Without(schema[table], c[table], Scan(c[table], n, p))]
                  && r.count == |WithPrefix(c[table][n], p)|)
  {
    hide Resolve, Asks, BulkDelete.DeleteAll, IsOrder, Without, Sound, Complete, AllIndexable, DeletionsOf, FreshPrefix;
    ResolveIff(schema, table, index, args, n, p);
    DeleteAllIff(table, schema[table], c[table], n, p, orders);
    AscendingSize(WithPrefix(c[table][n], p));
  }

  /** A refused query deletes nothing. */
  lemma DeleteAllRefused(schema: DBSchema, c: Content, table: string, index: string, args: seq<Arg>,
                         orders: nat -> seq<string>)
    requires ValidSchema(schema) && ContentHasShape(schema, c) && ProperOp(schema, Op.DeleteAll(table, index, args, orders))
    requires forall n, p :: !Asks(schema, table, index, args, n, p)
    ensures var r := Apply(schema, c, Op.DeleteAll(table, index, args, orders)); r.c == c && r.log == [] && r.err.Some?
  {
    hide Asks;
    QueryIsResolved(schema, table, index, args);
  }

  /** `DeletePrefix` runs on index `n` for the name `n_prefix`, with the scan that the query asks for
      and the subtree of the argument itself; on any other name it is refused. */
  lemma DeletePrefixAsked(schema: DBSchema, c: Content, table: string, index: string, prefix: Key,
                          orders: nat -> seq<string>, n: string, p: Key)
    requires ValidSchema(schema) && ContentHasShape(schema, c)
    requires ProperOp(schema, Op.DeletePrefix(table, index, prefix, orders))
    ensures var r := Apply(schema, c, Op.DeletePrefix(table, index, prefix, orders));
            && (!EndsInPrefix(index) ==> r == Effect(c, [], Some(NotAPrefixIndex), 0))
            && (EndsInPrefix(index) && Asks(schema, table, index, [Val(Str(prefix))], n, p) ==>
                  && AreOrders(orders, schema[table].Keys)
                  && r == BulkEffect(c, table, BulkDelete.DeletePrefix(table, schema[table], c[table], n, p, prefix, orders)))
  {
    hide Resolve, Asks, BulkDelete.DeletePrefix, IsOrder, EndsInPrefix;
    PrefixNames(index, n);
    ResolveIff(schema, table, index, [Val(Str(prefix))], n, p);
    assert Asks(schema, table, index, [Val(Str(prefix))], n, p) ==> table in schema;
  }
}
