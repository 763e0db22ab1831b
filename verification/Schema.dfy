/**
 Tables, indexes and the objects they index.

 An object is a record of fields. An indexer's `FromObject` is a function from the object to
 an `Extract`: an error, or the `ok` flag together with the values it computed. A
 single-valued indexer always returns a one-element list, even when `ok` is false.
 */
module Schema {
  import opened Bytes
  import opened Radix

  datatype Option<+T> = None | Some(value: T) {
    function GetOr(default: T): T {
      if Some? then value else default
    }
  }

  datatype Field =
    | Str(s: Key)
    | NilStr
    | Strs(items: seq<Key>)
    | StrMap(pairs: seq<(Key, Key)>)
    | Int(intSize: nat, i: int)
    | Uint(uintSize: nat, u: nat)
    | Bool(b: bool)

  datatype Object = Object(fields: map<string, Field>)

  datatype Extract = Failed | Extract(ok: bool, vals: seq<Key>)

  /** A lookup argument: nil, a value of a field type, or a raw byte slice. */
  datatype Arg = Nil | Val(f: Field) | Raw(bytes: Key)

  /** `fromArgs` and `prefixFromArgs` yield `None` for an error; an indexer that is not a
      PrefixIndexer has no `prefixFromArgs`. */
  datatype IndexSchema = IndexSchema(
    allowMissing: bool,
    unique: bool,
    fromObject: Object -> Extract,
    fromArgs: seq<Arg> -> Option<Key>,
    prefixFromArgs: Option<seq<Arg> -> Option<Key>>)

  type TableSchema = map<string, IndexSchema>

  type DBSchema = map<string, TableSchema>

  /** The contents of one table: a tree for each of its indexes. */
  type Table = map<string, Tree<Object>>

  /** The contents of a database. */
  type Content = map<string, Table>

  const ID := "id"

  /** One entry of a transaction's change log. `None` stands for nil. */
  datatype Change = Change(table: string, before: Option<Object>, after: Option<Object>, pk: Key)

  datatype Error =
    | ReadOnly
    | NoSuchTable
    | NoSuchIndex
    | NotAPrefixIndex
    | BadArguments
    | PrimaryFailed
    | PrimaryMissing
    | IndexFailed(index: string)
    | ValueMissing(index: string)
    | NotFound
    | Panicked

  predicate SingleValue(e: Extract) {
    e.Extract? ==> |e.vals| == 1
  }

  ghost predicate SingleValued(ix: IndexSchema) {
    forall o :: SingleValue(ix.fromObject(o))
  }

  /** What `TableSchema.Validate` establishes. */
  ghost predicate ValidTable(ts: TableSchema) {
    && ID in ts
    && ts[ID].unique
    && SingleValued(ts[ID])
  }

  ghost predicate ValidSchema(schema: DBSchema) {
    forall t :: t in schema ==> ValidTable(schema[t])
  }

  predicate HasShape(ts: TableSchema, tbl: Table) {
    tbl.Keys == ts.Keys
  }

  predicate ContentHasShape(schema: DBSchema, c: Content) {
    && c.Keys == schema.Keys
    && forall t :: t in schema ==> HasShape(schema[t], c[t])
  }

  /** The primary key of an object, when it has one. */
  function PrimaryKey(ts: TableSchema, o: Object): (pk: Option<Key>)
    requires ValidTable(ts)
  {
    var e := ts[ID].fromObject(o);
    assert SingleValue(e);
    if e.Extract? && e.ok then Some(e.vals[0]) else None
  }

  function Suffixed(vals: seq<Key>, id: Key): (r: seq<Key>)
    ensures |r| == |vals|
    ensures forall i :: 0 <= i < |r| ==> r[i] == vals[i] + id
  {
    seq(|vals|, i requires 0 <= i < |vals| => vals[i] + id)
  }

  /** The list the insert loop compares against and then inserts. The id is appended for a
      non-unique index, but only when the indexer reported `ok`. */
  function Candidates(ix: IndexSchema, e: Extract, id: Key): seq<Key>
    requires e.Extract?
  {
    if e.ok && !ix.unique then Suffixed(e.vals, id) else e.vals
  }

  /** The keys under which an object is filed in an index. */
  function StoredKeys(ix: IndexSchema, o: Object, id: Key): seq<Key> {
    var e := ix.fromObject(o);
    if e.Failed? || !e.ok then []
    else if ix.unique then e.vals
    else Suffixed(e.vals, id)
  }

  function KeysOf(ts: TableSchema, n: string, o: Object): set<Key>
    requires ValidTable(ts) && n in ts
  {
    var pk := PrimaryKey(ts, o);
    if pk.None? then {} else set k | k in StoredKeys(ts[n], o, pk.value)
  }

  /** An object that every index can take. */
  predicate Indexable(ix: IndexSchema, o: Object) {
    var e := ix.fromObject(o);
    e.Extract? && (e.ok || ix.allowMissing)
  }

  /** An enumeration of a table's indexes: one possible iteration order of a Go map. */
  predicate IsOrder(order: seq<string>, names: set<string>) {
    && (forall n :: n in order ==> n in names)
    && (forall n :: n in names ==> n in order)
    && (forall i, j :: 0 <= i < j < |order| ==> order[i] != order[j])
  }
}
