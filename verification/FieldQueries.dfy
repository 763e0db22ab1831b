/**
 Queries in terms of fields: exact lookups, range scans and prefix queries on an index whose
 keys are encoded tuples, for unique and non-unique indexes. A tuple may be truncated, as those of
 a compound index with `AllowMissing` are.
 */
module FieldQueries {
  import opened Bytes
  import opened Radix
  import opened Schema
  import opened Agreement
  import opened BulkDelete
  import opened Query
  import opened Codec
  import opened Indexers

  /** The index files each object under the encoding of its tuple. */
  ghost predicate Files(ix: IndexSchema, row: Object -> seq<Part>) {
    forall o :: Filed(ix, row, o)
  }

  predicate Filed(ix: IndexSchema, row: Object -> seq<Part>, o: Object) {
    var e := ix.fromObject(o);
    e.Extract? ==> |e.vals| == 1 && (e.ok ==> e.vals[0] == Join(row(o)))
  }

  /** A live object that the index holds. */
  ghost predicate Indexed(ts: TableSchema, tbl: Table, n: string, o: Object)
    requires ValidTable(ts) && HasShape(ts, tbl) && n in ts
  {
    IsLive(ts, tbl, o) && ValuesOf(ts[n], o) != []
  }

  /** A tuple of the first of some columns. */
  predicate Like(parts: seq<Part>, columns: seq<Part>) {
    AllWellFormed(parts) && |parts| <= |columns| && Alike(parts, columns)
  }

  ghost predicate WellTyped(ts: TableSchema, tbl: Table, n: string, row: Object -> seq<Part>, columns: seq<Part>)
    requires ValidTable(ts) && HasShape(ts, tbl) && n in ts
  {
    forall o :: Indexed(ts, tbl, n, o) ==> Like(row(o), columns)
  }

  lemma LikeEachOther(a: seq<Part>, b: seq<Part>, columns: seq<Part>)
    requires Like(a, columns) && Like(b, columns)
    ensures Alike(a, b)
  {
    forall i | 0 <= i < |a| && i < |b| ensures SameKind(a[i], b[i]) {
      assert SameKind(a[i], columns[i]) && SameKind(b[i], columns[i]);
    }
  }

  lemma FilesSingle(ix: IndexSchema, row: Object -> seq<Part>)
    requires Files(ix, row)
    ensures SingleValued(ix)
  {
    forall o ensures SingleValue(ix.fromObject(o)) {
      assert Filed(ix, row, o);
    }
  }

  /** What follows an object's tuple in its key. */
  function Suffix(ts: TableSchema, n: string, o: Object): Key
    requires ValidTable(ts) && n in ts
  {
    if ts[n].unique then [] else PrimaryKey(ts, o).GetOr([])
  }

  /** The entries of the index are the objects it holds, under tuple and suffix. */
  lemma EntryIsRow(ts: TableSchema, tbl: Table, n: string, row: Object -> seq<Part>, o: Object, k: Key)
    requires Agrees(ts, tbl) && n in ts && Files(ts[n], row)
    ensures k in tbl[n] && tbl[n][k] == o <==> Indexed(ts, tbl, n, o) && k == Join(row(o)) + Suffix(ts, n, o)
    ensures FiledUnder(ts, tbl, n, o, k) <==> Indexed(ts, tbl, n, o) && k == Join(row(o)) + Suffix(ts, n, o)
  {
    hide Sound, Complete, AllIndexable;
    IndexIsFiled(ts, tbl, n, o, k);
    assert Filed(ts[n], row, o);
    if Indexed(ts, tbl, n, o) {
      assert ValuesOf(ts[n], o) == [Join(row(o))];
      assert KeyFor(ts[n], Join(row(o)), PrimaryKey(ts, o).value) == Join(row(o)) + Suffix(ts, n, o);
      assert ValuesOf(ts[n], o)[0] in ValuesOf(ts[n], o);
    }
  }

  /** A scan visits the objects whose key starts with its prefix. */
  lemma InScan(ts: TableSchema, tbl: Table, n: string, row: Object -> seq<Part>, p: Key, o: Object)
    requires Agrees(ts, tbl) && n in ts && Files(ts[n], row)
    ensures o in Scan(tbl, n, p) <==> Indexed(ts, tbl, n, o) && p <= Join(row(o)) + Suffix(ts, n, o)
  {
    hide Sound, Complete, AllIndexable, Files, Indexed, Suffix;
    var ks, objs := ScanPrefix(tbl[n], p), Scan(tbl, n, p);
    if o in objs {
      var i :| 0 <= i < |ks| && objs[i] == o;
      assert ks[i] in ks;
      EntryIsRow(ts, tbl, n, row, o, ks[i]);
    }
    var k := Join(row(o)) + Suffix(ts, n, o);
    if Indexed(ts, tbl, n, o) && p <= k {
      EntryIsRow(ts, tbl, n, row, o, k);
      assert k in ks;
      var i :| 0 <= i < |ks| && ks[i] == k;
      assert objs[i] == o;
    }
  }

  // ---------------------------------------------------------------- exact lookups

  /** A row answers a full tuple of arguments: it equals them; or it is truncated, and the rest of
      the arguments happens to be the start of its primary key. */
  predicate Answers(row: seq<Part>, suffix: Key, args: seq<Part>) {
    row <= args && Join(args[|row|..]) <= suffix
  }

  lemma FullRowAnswers(row: seq<Part>, suffix: Key, args: seq<Part>)
    requires |row| == |args| || (suffix == [] && AllWellFormed(args))
    ensures Answers(row, suffix, args) <==> row == args
  {
    if row <= args {
      if |row| == |args| {
        assert args[|row|..] == [] && row == args;
      } else {
        var rest := args[|row|..];
        assert WellFormed(rest[0]);
        Lengths(rest[0]);
      }
    }
  }

  /** `Get` with a full tuple of arguments returns each row that answers them once; at most one on a
      unique index. A full row answers, and on a unique index any row, exactly if it equals the
      arguments. */
  lemma GetOnFields(ts: TableSchema, tbl: Table, n: string, row: Object -> seq<Part>, args: seq<Part>)
    requires Agrees(ts, tbl) && n in ts && Files(ts[n], row) && WellTyped(ts, tbl, n, row, args) && AllWellFormed(args)
    ensures var objs := Scan(tbl, n, Join(args));
            && (forall o :: o in objs <==> Indexed(ts, tbl, n, o) && Answers(row(o), Suffix(ts, n, o), args))
            && Distinct(objs)
            && (ts[n].unique ==> |objs| <= 1)
    ensures forall o :: |row(o)| == |args| || ts[n].unique ==>
              (Answers(row(o), Suffix(ts, n, o), args) <==> row(o) == args)
  {
    hide Sound, Complete, AllIndexable, Join, Answers, Files, Scan, SingleValued, Indexed, AllWellFormed;
    var objs := Scan(tbl, n, Join(args));
    forall o ensures o in objs <==> Indexed(ts, tbl, n, o) && Answers(row(o), Suffix(ts, n, o), args) {
      InScan(ts, tbl, n, row, Join(args), o);
      if Indexed(ts, tbl, n, o) {
        AnswersAsBytes(row(o), Suffix(ts, n, o), args);
      }
    }
    FilesSingle(ts[n], row);
    SingleValuedOneKey(ts, tbl, n, Join(args));
    ScanDistinctIff(tbl, n, Join(args));
    forall o | |row(o)| == |args| || ts[n].unique
      ensures Answers(row(o), Suffix(ts, n, o), args) <==> row(o) == args
    {
      FullRowAnswers(row(o), Suffix(ts, n, o), args);
    }
    if ts[n].unique && |objs| > 1 {
      AtMostOne(ts, tbl, n, row, args, objs[0], objs[1]);
    }
  }

  lemma AnswersAsBytes(row: seq<Part>, suffix: Key, args: seq<Part>)
    requires Like(row, args) && AllWellFormed(args)
    ensures Join(args) <= Join(row) + suffix <==> Answers(row, suffix, args)
  {
    forall i | 0 <= i < |args| && i < |row| ensures SameKind(args[i], row[i]) {
      assert SameKind(row[i], args[i]);
    }
    PrefixQueryIsExact(row, args, [], suffix);
    assert Join(args) + [] == Join(args);
    assert Join(args[|row|..]) + [] == Join(args[|row|..]);
  }

  lemma AtMostOne(ts: TableSchema, tbl: Table, n: string, row: Object -> seq<Part>, args: seq<Part>, o: Object, o': Object)
    requires Agrees(ts, tbl) && n in ts && ts[n].unique && Files(ts[n], row)
    requires Indexed(ts, tbl, n, o) && Indexed(ts, tbl, n, o') && row(o) == row(o')
    ensures o == o'
  {
    EntryIsRow(ts, tbl, n, row, o, Join(row(o)) + Suffix(ts, n, o));
    EntryIsRow(ts, tbl, n, row, o', Join(row(o)) + Suffix(ts, n, o));
  }

  // ---------------------------------------------------------------- range scans

  /** Two entries in key order are in row order. */
  lemma EntriesOrdered(ts: TableSchema, tbl: Table, n: string, row: Object -> seq<Part>, columns: seq<Part>,
                       o: Object, o': Object, k: Key, k': Key)
    requires Agrees(ts, tbl) && n in ts && Files(ts[n], row) && WellTyped(ts, tbl, n, row, columns)
    requires FiledUnder(ts, tbl, n, o, k) && FiledUnder(ts, tbl, n, o', k') && Less(k, k')
    ensures Before(ts, n, row, o, o')
  {
    hide Sound, Complete, AllIndexable, Files, Like, Join;
    EntryIsRow(ts, tbl, n, row, o, k);
    EntryIsRow(ts, tbl, n, row, o', k');
    LikeEachOther(row(o), row(o'), columns);
    LikeIsWellFormed(row(o), columns);
    LikeIsWellFormed(row(o'), columns);
    RowOrder(row(o), Suffix(ts, n, o), row(o'), Suffix(ts, n, o'));
  }

  lemma LikeIsWellFormed(a: seq<Part>, columns: seq<Part>)
    requires Like(a, columns)
    ensures AllWellFormed(a) && Alike(a, columns)
  {
  }

  /** Rows in the order of their tuples, then of their primary keys. */
  ghost predicate Before(ts: TableSchema, n: string, row: Object -> seq<Part>, o: Object, o': Object)
    requires ValidTable(ts) && n in ts
  {
    Alike(row(o), row(o')) && RowLess(row(o), Suffix(ts, n, o), row(o'), Suffix(ts, n, o'))
  }

  /** The bound against an object, as tuples and as bytes. */
  lemma BoundOnFields(ts: TableSchema, tbl: Table, n: string, row: Object -> seq<Part>, b: seq<Part>, o: Object)
    requires Agrees(ts, tbl) && n in ts && Files(ts[n], row)
    requires AllWellFormed(row(o)) && AllWellFormed(b) && Alike(row(o), b) && Alike(b, row(o)) && Indexed(ts, tbl, n, o)
    ensures InRange(ts, tbl, n, Join(b), o) <==> !RowLess(row(o), Suffix(ts, n, o), b, [])
    ensures InReverseRange(ts, tbl, n, Join(b), o) <==> !RowLess(b, [], row(o), Suffix(ts, n, o))
  {
    hide Sound, Complete, AllIndexable, Join, AllWellFormed, Alike, RowLess, Less;
    var k := Join(row(o)) + Suffix(ts, n, o);
    assert Filed(ts[n], row, o);
    assert ValuesOf(ts[n], o) == [Join(row(o))] && ValuesOf(ts[n], o)[0] in ValuesOf(ts[n], o);
    assert KeyFor(ts[n], Join(row(o)), PrimaryKey(ts, o).value) == k;
    assert Join(b) + [] == Join(b);
    RowOrder(row(o), Suffix(ts, n, o), b, []);
    RowOrder(b, [], row(o), Suffix(ts, n, o));
    AtMostIsNotLess(Join(b), k);
    AtMostIsNotLess(k, Join(b));
  }

  lemma AtMostIsNotLess(a: Key, b: Key)
    ensures AtMost(a, b) <==> !Less(b, a)
  {
    LessTotal(a, b);
    if AtMost(a, b) && Less(b, a) {
      LessIrreflexive(a);
      if Less(a, b) {
        LessAsymmetric(a, b);
      }
    }
  }

  lemma AlikeSymmetric(a: seq<Part>, b: seq<Part>)
    requires Alike(a, b)
    ensures Alike(b, a)
  {
    forall i | 0 <= i < |b| && i < |a| ensures SameKind(b[i], a[i]) {
      assert SameKind(a[i], b[i]);
    }
  }

  /** `LowerBound` returns exactly the rows not before the bound, in row order, on unique and
      non-unique indexes alike. For full rows that is: tuple at least the bound, ascending by
      tuple and then by primary key. */
  lemma LowerBoundOnFields(ts: TableSchema, tbl: Table, n: string, row: Object -> seq<Part>, b: seq<Part>)
    requires Agrees(ts, tbl) && n in ts && Files(ts[n], row) && WellTyped(ts, tbl, n, row, b) && AllWellFormed(b)
    ensures var rows := RowsFrom(tbl, n, Join(b));
            && (forall o :: o in rows <==> Indexed(ts, tbl, n, o) && Alike(row(o), b)
                                           && !RowLess(row(o), Suffix(ts, n, o), b, []))
            && (forall i, j :: 0 <= i < j < |rows| ==> Before(ts, n, row, rows[i], rows[j]))
    ensures forall o :: Alike(row(o), b) && |row(o)| == |b| ==>
              (RowLess(row(o), Suffix(ts, n, o), b, []) <==> TupleLess(row(o), b))
  {
    hide Sound, Complete, AllIndexable, Join, Files, RowLess, TupleLess, AllWellFormed, InRange, FiledUnder, Before,
         PrefixFree, SingleValued, Alike;
    var ks, rows := ScanFrom(tbl[n], Join(b)), RowsFrom(tbl, n, Join(b));
    LowerBoundIsExact(ts, tbl, n, Join(b));
    forall o ensures o in rows <==> Indexed(ts, tbl, n, o) && Alike(row(o), b)
                                    && !RowLess(row(o), Suffix(ts, n, o), b, []) {
      InRangeIndexed(ts, tbl, n, Join(b), o);
      if Indexed(ts, tbl, n, o) {
        LikeIsWellFormed(row(o), b);
        AlikeSymmetric(row(o), b);
        BoundOnFields(ts, tbl, n, row, b, o);
      }
    }
    forall i, j | 0 <= i < j < |rows| ensures Before(ts, n, row, rows[i], rows[j]) {
      EntriesOrdered(ts, tbl, n, row, b, rows[i], rows[j], ks[i], ks[j]);
    }
    forall o | Alike(row(o), b) && |row(o)| == |b|
      ensures RowLess(row(o), Suffix(ts, n, o), b, []) <==> TupleLess(row(o), b)
    {
      FullRowOrder(row(o), Suffix(ts, n, o), b, []);
      NothingBelowEmpty(Suffix(ts, n, o));
    }
  }

  lemma NothingBelowEmpty(k: Key)
    ensures !Less(k, [])
    ensures Less([], k) <==> k != []
  {
  }

  lemma InRangeIndexed(ts: TableSchema, tbl: Table, n: string, b: Key, o: Object)
    requires ValidTable(ts) && HasShape(ts, tbl) && n in ts
    ensures InRange(ts, tbl, n, b, o) ==> Indexed(ts, tbl, n, o)
    ensures InReverseRange(ts, tbl, n, b, o) ==> Indexed(ts, tbl, n, o)
  {
  }

  /** `ReverseLowerBound` returns exactly the rows that the bound is not before, in reverse row
      order. For full rows that is: tuple less than the bound, or equal to it with nothing after
      it, as on a unique index. */
  lemma ReverseLowerBoundOnFields(ts: TableSchema, tbl: Table, n: string, row: Object -> seq<Part>, b: seq<Part>)
    requires Agrees(ts, tbl) && n in ts && Files(ts[n], row) && WellTyped(ts, tbl, n, row, b) && AllWellFormed(b)
    ensures var rows := RowsDownFrom(tbl, n, Join(b));
            && (forall o :: o in rows <==> Indexed(ts, tbl, n, o) && Alike(b, row(o))
                                           && !RowLess(b, [], row(o), Suffix(ts, n, o)))
            && (forall i, j :: 0 <= i < j < |rows| ==> Before(ts, n, row, rows[j], rows[i]))
    ensures forall o :: Alike(b, row(o)) && |row(o)| == |b| ==>
              (RowLess(b, [], row(o), Suffix(ts, n, o)) <==>
               TupleLess(b, row(o)) || (b == row(o) && Suffix(ts, n, o) != []))
  {
    hide Sound, Complete, AllIndexable, Join, Files, RowLess, TupleLess, AllWellFormed, InReverseRange, FiledUnder, Before,
         PrefixFree, SingleValued, Alike;
    var ks, rows := ScanDownFrom(tbl[n], Join(b)), RowsDownFrom(tbl, n, Join(b));
    ReverseLowerBoundIsExact(ts, tbl, n, Join(b));
    forall o ensures o in rows <==> Indexed(ts, tbl, n, o) && Alike(b, row(o))
                                    && !RowLess(b, [], row(o), Suffix(ts, n, o)) {
      InRangeIndexed(ts, tbl, n, Join(b), o);
      if Indexed(ts, tbl, n, o) {
        LikeIsWellFormed(row(o), b);
        AlikeSymmetric(row(o), b);
        BoundOnFields(ts, tbl, n, row, b, o);
      }
    }
    forall i, j | 0 <= i < j < |rows| ensures Before(ts, n, row, rows[j], rows[i]) {
      EntriesOrdered(ts, tbl, n, row, b, rows[j], rows[i], ks[j], ks[i]);
    }
    forall o | Alike(b, row(o)) && |row(o)| == |b|
      ensures RowLess(b, [], row(o), Suffix(ts, n, o)) <==> TupleLess(b, row(o)) || (b == row(o) && Suffix(ts, n, o) != [])
    {
      FullRowOrder(b, [], row(o), Suffix(ts, n, o));
      NothingBelowEmpty(Suffix(ts, n, o));
    }
  }

  // ---------------------------------------------------------------- prefix queries

  /** A row answers a prefix query: its leading fields equal the full arguments and its next field
      starts with the partial one; or it is truncated, and the rest of the query happens to be
      the start of its primary key. */
  predicate AnswersPrefix(row: seq<Part>, suffix: Key, args: seq<Part>, raw: Key) {
    if |args| < |row| then args <= row && StartsWith(row[|args|], raw)
    else row <= args && Join(args[|row|..]) + raw <= suffix
  }

  /** A prefix query returns exactly the rows that answer it, on unique and non-unique indexes,
      whether rows are truncated or not. */
  lemma PrefixOnFields(ts: TableSchema, tbl: Table, n: string, row: Object -> seq<Part>, columns: seq<Part>,
                       args: seq<Part>, raw: Key, o: Object)
    requires Agrees(ts, tbl) && n in ts && Files(ts[n], row) && WellTyped(ts, tbl, n, row, columns)
    requires |args| < |columns| && AllWellFormed(args) && Alike(args, columns) && IsPartial(columns[|args|], raw)
    ensures o in Scan(tbl, n, Join(args) + raw) <==>
            Indexed(ts, tbl, n, o) && AnswersPrefix(row(o), Suffix(ts, n, o), args, raw)
  {
    hide Sound, Complete, AllIndexable, Files, Scan, Join, AnswersPrefix;
    InScan(ts, tbl, n, row, Join(args) + raw, o);
    if Indexed(ts, tbl, n, o) {
      AnswersPrefixAsBytes(row(o), Suffix(ts, n, o), columns, args, raw);
    }
  }

  lemma AnswersPrefixAsBytes(row: seq<Part>, suffix: Key, columns: seq<Part>, args: seq<Part>, raw: Key)
    requires Like(row, columns)
    requires |args| < |columns| && AllWellFormed(args) && Alike(args, columns) && IsPartial(columns[|args|], raw)
    ensures Join(args) + raw <= Join(row) + suffix <==> AnswersPrefix(row, suffix, args, raw)
  {
    forall i | 0 <= i < |args| && i < |row| ensures SameKind(args[i], row[i]) {
      assert SameKind(args[i], columns[i]) && SameKind(row[i], columns[i]);
    }
    if |args| < |row| {
      assert SameKind(row[|args|], columns[|args|]);
    }
    PrefixQueryIsExact(row, args, raw, suffix);
  }

  // ---------------------------------------------------------------- indexers that file tuples

  /** A compound index files the tuple of the columns it can read. */
  lemma CompoundFiles(c: Compound, lower: Fold, allowMissing: bool, unique: bool)
    ensures Files(CompoundSchema(c, lower, allowMissing, unique), (o: Object) => ReadRow(c.indexes, lower, o).parts)
  {
    var ix := CompoundSchema(c, lower, allowMissing, unique);
    var row := (o: Object) => ReadRow(c.indexes, lower, o).parts;
    forall o ensures Filed(ix, row, o) {
    }
  }

  function OneColumn(ix: Indexer, lower: Fold): Object -> seq<Part> {
    (o: Object) => match Read(ix, lower, o) case Present(p) => [p] case _ => []
  }

  lemma FieldFiles(ix: Indexer, lower: Fold, allowMissing: bool, unique: bool)
    ensures Files(FieldSchema(ix, lower, allowMissing, unique), OneColumn(ix, lower))
  {
    var s, row := FieldSchema(ix, lower, allowMissing, unique), OneColumn(ix, lower);
    forall o ensures Filed(s, row, o) {
      match Read(ix, lower, o)
      case Present(p) => JoinOne(p);
      case _ =>
    }
  }

  // ---------------------------------------------------------------- from argument to objects

  /** A table whose live objects all have the int field, in one width. */
  ghost predicate HasInts(ts: TableSchema, tbl: Table, field: string, size: nat)
    requires ValidTable(ts) && HasShape(ts, tbl)
  {
    IsWidth(size) &&
    forall o :: IsLive(ts, tbl, o) ==>
      field in o.fields && o.fields[field].Int? && o.fields[field].intSize == size && FitsSigned(o.fields[field].i, size)
  }

  /** The shifted number that an int is encoded as. */
  function Shifted(i: int, size: nat): (v: nat)
    requires FitsSigned(i, size)
    ensures v < Pow256(size)
  {
    FlipIsShift(i, size);
    i + Pow2(8 * size - 1)
  }

  /** Whether an int with what follows it is at least an int of any width: the same numbers where the
      widths are equal, else the shifted numbers as far as the shorter one goes. */
  predicate AtLeast(i: int, size: nat, suffix: Key, b: int, width: nat)
    requires FitsSigned(i, size) && FitsSigned(b, width)
  {
    if size == width then i >= b
    else if width < size then HighPart(Shifted(i, size), size - width) >= Shifted(b, width)
    else
      var high := HighPart(Shifted(b, width), width - size);
      Shifted(i, size) > high || (Shifted(i, size) == high && AtMost(BigEndian(Shifted(b, width), width - size), suffix))
  }

  lemma EncodedInt(i: int, size: nat)
    requires IsWidth(size) && FitsSigned(i, size)
    ensures Encode(Signed(size, i)) == BigEndian(Shifted(i, size), size)
  {
    FlipIsShift(i, size);
  }

  /** Byte order of equally long strings, each followed by something. */
  lemma SameLengthOrder(a: Key, x: Key, b: Key, y: Key)
    requires |a| == |b|
    ensures AtMost(a + x, b + y) <==> Less(a, b) || (a == b && AtMost(x, y))
  {
    if a == b {
      LessCommonPrefix(a, x, y);
      LessIrreflexive(a);
      assert a + x == a + y <==> x == y by {
        if a + x == a + y {
          ConcatSplit(a, x, a, y);
        }
      }
    } else {
      LessDiverged(a, b, x, y);
      ConcatDiffers(a, x, b, y);
    }
  }

  lemma ConcatDiffers(a: Key, x: Key, b: Key, y: Key)
    requires |a| == |b| && a != b
    ensures a + x != b + y
  {
    if a + x == b + y {
      ConcatSplit(a, x, b, y);
    }
  }

  lemma NumberOrder(v: nat, w: nat, n: nat, x: Key, y: Key)
    requires v < Pow256(n) && w < Pow256(n)
    ensures AtMost(BigEndian(v, n) + x, BigEndian(w, n) + y) <==> v < w || (v == w && AtMost(x, y))
  {
    BigEndianOrder(v, w, n);
    SameLengthOrder(BigEndian(v, n), x, BigEndian(w, n), y);
  }

  lemma AtLeastAsBytes(i: int, size: nat, suffix: Key, b: int, width: nat)
    requires IsWidth(size) && FitsSigned(i, size) && IsWidth(width) && FitsSigned(b, width)
    ensures AtMost(Encode(Signed(width, b)), Encode(Signed(size, i)) + suffix) <==> AtLeast(i, size, suffix, b, width)
  {
    hide Encode, FitsSigned, BigEndian, HighPart, Pow2, Pow256;
    EncodedInt(i, size);
    EncodedInt(b, width);
    var v, w := Shifted(i, size), Shifted(b, width);
    NothingBelowEmpty(suffix);
    if size == width {
      NumberOrder(w, v, size, [], suffix);
      assert BigEndian(w, size) + [] == BigEndian(w, size);
      ShiftedOrder(b, i, size);
    } else if width < size {
      var d := size - width;
      BigEndianSplit(v, width, d);
      HighPartFits(v, width, d);
      NumberOrder(w, HighPart(v, d), width, [], BigEndian(v, d) + suffix);
      NothingBelowEmpty(BigEndian(v, d) + suffix);
      assert BigEndian(w, width) + [] == BigEndian(w, width);
      assert (BigEndian(HighPart(v, d), width) + BigEndian(v, d)) + suffix
             == BigEndian(HighPart(v, d), width) + (BigEndian(v, d) + suffix);
    } else {
      var d := width - size;
      BigEndianSplit(w, size, d);
      HighPartFits(w, size, d);
      NumberOrder(HighPart(w, d), v, size, BigEndian(w, d), suffix);
    }
  }

  lemma ShiftedOrder(b: int, i: int, size: nat)
    requires FitsSigned(i, size) && FitsSigned(b, size)
    ensures Shifted(b, size) <= Shifted(i, size) <==> b <= i
  {
  }

  /** `LowerBound` on an int index, for an argument of any int width: the live objects whose field
      is at least the bound, smallest first, negative numbers included. An argument of another
      width than the field is compared as far as the shorter one goes. */
  lemma IntLowerBound(ts: TableSchema, tbl: Table, n: string, field: string, lower: Fold, allowMissing: bool,
                      unique: bool, size: nat, b: int, width: nat)
    requires Agrees(ts, tbl) && n in ts && ts[n] == FieldSchema(IntIx(field), lower, allowMissing, unique)
    requires HasInts(ts, tbl, field, size) && IsWidth(width) && FitsSigned(b, width)
    ensures ts[n].fromArgs([Val(Int(width, b))]).Some?
    ensures var rows := RowsFrom(tbl, n, ts[n].fromArgs([Val(Int(width, b))]).value);
            && (forall o :: o in rows <==> IsLive(ts, tbl, o) && AtLeast(o.fields[field].i, size, Suffix(ts, n, o), b, width))
            && (forall i, j :: 0 <= i < j < |rows| ==>
                  IsLive(ts, tbl, rows[i]) && IsLive(ts, tbl, rows[j]) && rows[i].fields[field].i <= rows[j].fields[field].i)
  {
    hide Sound, Complete, AllIndexable, Encode, PrefixFree, SingleValued, FiledUnder, InRange, IsLive;
    var bound := Encode(Signed(width, b));
    FieldFiles(IntIx(field), lower, allowMissing, unique);
    LowerBoundIsExact(ts, tbl, n, bound);
    var ks, rows := ScanFrom(tbl[n], bound), RowsFrom(tbl, n, bound);
    forall o ensures o in rows <==> IsLive(ts, tbl, o) && AtLeast(o.fields[field].i, size, Suffix(ts, n, o), b, width) {
      IntInRange(ts, tbl, n, field, lower, allowMissing, unique, size, b, width, o);
    }
    forall i, j | 0 <= i < j < |rows|
      ensures IsLive(ts, tbl, rows[i]) && IsLive(ts, tbl, rows[j]) && rows[i].fields[field].i <= rows[j].fields[field].i
    {
      assert rows[i] in rows && rows[j] in rows;
      IntRow(ts, tbl, n, field, lower, allowMissing, unique, size, rows[i], ks[i]);
      IntRow(ts, tbl, n, field, lower, allowMissing, unique, size, rows[j], ks[j]);
      var x, y := rows[i].fields[field].i, rows[j].fields[field].i;
      EncodedInt(x, size);
      EncodedInt(y, size);
      NumberOrder(Shifted(x, size), Shifted(y, size), size, Suffix(ts, n, rows[i]), Suffix(ts, n, rows[j]));
      ShiftedOrder(x, y, size);
    }
  }

  /** The key of an object in an int index. */
  lemma IntRow(ts: TableSchema, tbl: Table, n: string, field: string, lower: Fold, allowMissing: bool, unique: bool,
               size: nat, o: Object, k: Key)
    requires Agrees(ts, tbl) && n in ts && ts[n] == FieldSchema(IntIx(field), lower, allowMissing, unique)
    requires HasInts(ts, tbl, field, size)
    ensures FiledUnder(ts, tbl, n, o, k) <==>
            IsLive(ts, tbl, o) && k == Encode(Signed(size, o.fields[field].i)) + Suffix(ts, n, o)
  {
    hide Sound, Complete, AllIndexable, Encode;
    var row := OneColumn(IntIx(field), lower);
    FieldFiles(IntIx(field), lower, allowMissing, unique);
    EntryIsRow(ts, tbl, n, row, o, k);
    if IsLive(ts, tbl, o) {
      JoinOne(Signed(size, o.fields[field].i));
      assert row(o) == [Signed(size, o.fields[field].i)];
      assert Indexed(ts, tbl, n, o);
    }
  }

  lemma IntInRange(ts: TableSchema, tbl: Table, n: string, field: string, lower: Fold, allowMissing: bool, unique: bool,
                   size: nat, b: int, width: nat, o: Object)
    requires Agrees(ts, tbl) && n in ts && ts[n] == FieldSchema(IntIx(field), lower, allowMissing, unique)
    requires HasInts(ts, tbl, field, size) && IsWidth(width) && FitsSigned(b, width)
    ensures InRange(ts, tbl, n, Encode(Signed(width, b)), o) <==>
            IsLive(ts, tbl, o) && AtLeast(o.fields[field].i, size, Suffix(ts, n, o), b, width)
  {
    hide Sound, Complete, AllIndexable, Encode, AtLeast;
    if IsLive(ts, tbl, o) {
      var i := o.fields[field].i;
      AtLeastAsBytes(i, size, Suffix(ts, n, o), b, width);
      assert ValuesOf(ts[n], o) == [Encode(Signed(size, i))];
      assert ValuesOf(ts[n], o)[0] in ValuesOf(ts[n], o);
      assert KeyFor(ts[n], Encode(Signed(size, i)), PrimaryKey(ts, o).value) == Encode(Signed(size, i)) + Suffix(ts, n, o);
    }
  }

  /** A table whose live objects all have the string field, set or nil, free of NUL bytes after
      case folding. */
  ghost predicate HasText(ts: TableSchema, tbl: Table, field: string, lower: Fold, lowercase: bool)
    requires ValidTable(ts) && HasShape(ts, tbl)
  {
    forall o :: IsLive(ts, tbl, o) ==>
      field in o.fields && (o.fields[field].NilStr?
                            || (o.fields[field].Str? && 0 !in Folded(lower, lowercase, o.fields[field].s)))
  }

  predicate TextIs(o: Object, field: string, lower: Fold, lowercase: bool, s: Key) {
    && field in o.fields && o.fields[field].Str? && o.fields[field].s != []
    && Folded(lower, lowercase, o.fields[field].s) == Folded(lower, lowercase, s)
  }

  /** `Get` on a string index, from argument to objects: exactly the live objects whose non-empty
      field equals the argument, up to case where the index folds it, each once. */
  lemma StringGet(ts: TableSchema, tbl: Table, n: string, field: string, lowercase: bool, lower: Fold,
                  allowMissing: bool, unique: bool, s: Key)
    requires Agrees(ts, tbl) && n in ts && ts[n] == FieldSchema(StringIx(field, lowercase), lower, allowMissing, unique)
    requires HasText(ts, tbl, field, lower, lowercase) && 0 !in Folded(lower, lowercase, s)
    ensures ts[n].fromArgs([Val(Str(s))]).Some?
    ensures var objs := Scan(tbl, n, ts[n].fromArgs([Val(Str(s))]).value);
            && (forall o :: o in objs <==> IsLive(ts, tbl, o) && TextIs(o, field, lower, lowercase, s))
            && Distinct(objs)
            && (unique ==> |objs| <= 1)
  {
    hide Sound, Complete, AllIndexable, Encode;
    var ix := StringIx(field, lowercase);
    var row, text := OneColumn(ix, lower), Text(Folded(lower, lowercase, s));
    FieldFiles(ix, lower, allowMissing, unique);
    JoinOne(text);
    forall o | IsLive(ts, tbl, o)
      ensures Indexed(ts, tbl, n, o) ==> Like(row(o), [text])
      ensures Indexed(ts, tbl, n, o) && Answers(row(o), Suffix(ts, n, o), [text]) <==> TextIs(o, field, lower, lowercase, s)
    {
      TextRow(o, ix, lower, text);
      if row(o) != [] {
        FullRowAnswers(row(o), Suffix(ts, n, o), [text]);
      }
    }
    GetOnFields(ts, tbl, n, row, [text]);
  }

  lemma TextRow(o: Object, ix: Indexer, lower: Fold, text: Part)
    requires ix.StringIx? && text.Text? && ix.field in o.fields
    requires var f := o.fields[ix.field]; f.NilStr? || (f.Str? && 0 !in Folded(lower, ix.lowercase, f.s))
    ensures var f := o.fields[ix.field];
            if f.Str? && f.s != [] then
              Read(ix, lower, o) == Present(Text(Folded(lower, ix.lowercase, f.s)))
              && Like([Text(Folded(lower, ix.lowercase, f.s))], [text])
            else Read(ix, lower, o) == Missing
  {
  }
}
