/**
 Inputs the store accepts and on which it falls short of what it is meant to do. Each lemma is one
 call on a table with one row, whose second index `x` is a built-in one.
 */
module FailingInputs {
  import opened Bytes
  import opened Radix
  import opened Schema
  import opened Store
  import opened Agreement
  import opened FailedInsert
  import opened BulkDelete
  import opened Query
  import opened Codec
  import opened Indexers
  import opened MultiIndex
  import Uuid

  function Lower(s: Key): Key {
    if s == [] then [] else [if 65 <= s[0] <= 90 then s[0] + 32 else s[0]] + Lower(s[1..])
  }

  /** A table with string ids and one more index. */
  function OneIndex(ix: IndexSchema): (ts: TableSchema)
    ensures ts.Keys == {ID, "x"} && ts["x"] == ix && ts[ID] == FieldSchema(StringIx("id", false), Lower, false, true)
  {
    assert ID != "x";
    map[ID := FieldSchema(StringIx("id", false), Lower, false, true), "x" := ix]
  }

  const PK: Key := [49, 0]

  /** The row with id "1". */
  function Item(x: Field): (o: Object)
    ensures o.fields == map["id" := Str([49]), "x" := x]
  {
    Object(map["id" := Str([49]), "x" := x])
  }

  lemma ItemKeys(ix: IndexSchema, x: Field)
    ensures ValidTable(OneIndex(ix))
    ensures PrimaryKey(OneIndex(ix), Item(x)) == Some(PK)
    ensures OneIndex(ix)[ID].fromObject(Item(x)) == Extract(true, [PK])
    ensures KeysOf(OneIndex(ix), ID, Item(x)) == {PK}
  {
    var ts, o := OneIndex(ix), Item(x);
    assert "id" in o.fields && o.fields["id"] == Str([49]);
    assert [49] + [0] == PK;
    forall y ensures SingleValue(ts[ID].fromObject(y)) {
    }
    assert StoredKeys(ts[ID], o, PK) == [PK];
    assert forall k :: k in [PK] <==> k == PK;
  }

  /** The table after inserting one row. */
  function Single(ix: IndexSchema, x: Field): Table
    requires ValidTable(OneIndex(ix)) && PrimaryKey(OneIndex(ix), Item(x)).Some?
  {
    Inserted(OneIndex(ix), EmptyTable(OneIndex(ix)), Item(x))
  }

  lemma SingleRow(ix: IndexSchema, x: Field)
    requires Indexable(ix, Item(x))
    ensures ValidTable(OneIndex(ix)) && PrimaryKey(OneIndex(ix), Item(x)) == Some(PK)
    ensures var ts, o, tbl := OneIndex(ix), Item(x), Single(ix, x);
            && Insertable(ts, EmptyTable(ts), o)
            && tbl.Keys == {ID, "x"} && Agrees(ts, tbl) && IsLive(ts, tbl, o)
            && tbl[ID].Keys == {PK}
            && tbl["x"].Keys == KeysOf(ts, "x", o) && forall k :: k in tbl["x"] ==> tbl["x"][k] == o
  {
    var ts, o := OneIndex(ix), Item(x);
    ItemKeys(ix, x);
    var none := EmptyTable(ts);
    EmptyAgrees(ts);
    FirstInsertAgrees(ts, o);
    LiveAfterInsert(ts, none, o, o);
    var tbl := Single(ix, x);
    forall k | k in tbl["x"] ensures tbl["x"][k] == o && k in KeysOf(ts, "x", o) {
      LiveAfterInsert(ts, none, o, tbl["x"][k]);
    }
  }

  // ---------------------------------------------------------------- inserts that fail

  const REQUIRED := FieldSchema(StringIx("x", false), Lower, false, false)

  lemma NothingToIndex()
    ensures ValidTable(OneIndex(REQUIRED)) && PrimaryKey(OneIndex(REQUIRED), Item(NilStr)) == Some(PK)
    ensures OneIndex(REQUIRED)[ID].fromObject(Item(NilStr)) == Extract(true, [PK])
    ensures InsertError("x", REQUIRED, None, Item(NilStr)) == Some(ValueMissing("x"))
    ensures forall t: Tree<Object> :: InsertTree(REQUIRED, t, None, Item(NilStr), PK) == t
  {
    ItemKeys(REQUIRED, NilStr);
    assert REQUIRED.fromObject(Item(NilStr)) == Extract(false, [[]]);
    forall t: Tree<Object> ensures InsertTree(REQUIRED, t, None, Item(NilStr), PK) == t {
      assert Stale([], [[]]) == {} && t - {} == t;
    }
  }

  /** The insert loop on two indexes, the second of which fails. */
  lemma SecondFails(ts: TableSchema, tbl: Table, obj: Object, id: Key, m: string, n: string)
    requires HasShape(ts, tbl) && m in ts && n in ts && m != n
    requires InsertError(m, ts[m], None, obj).None? && InsertError(n, ts[n], None, obj).Some?
    ensures InsertIndexes(ts, tbl, None, obj, id, [m, n])
            == (tbl[m := InsertTree(ts[m], tbl[m], None, obj, id)][n := InsertTree(ts[n], tbl[n], None, obj, id)],
                InsertError(n, ts[n], None, obj))
    ensures InsertIndexes(ts, tbl, None, obj, id, [n, m])
            == (tbl[n := InsertTree(ts[n], tbl[n], None, obj, id)], InsertError(n, ts[n], None, obj))
  {
    hide InsertTree, InsertError;
    assert [m, n][1..] == [n];
  }

  /** A string index that does not allow missing values, and a row without one. The insert fails either
      way; if the map starts with the primary index the row is in it all the same, if it starts with
      the other index nothing has changed. */
  lemma MissingValueStaysInPrimary()
    ensures ValidTable(OneIndex(REQUIRED)) && IsOrder([ID, "x"], {ID, "x"}) && IsOrder(["x", ID], {ID, "x"})
    ensures var ts, o := OneIndex(REQUIRED), Item(NilStr);
            var bad, good := Store.Insert(ts, EmptyTable(ts), o, [ID, "x"]), Store.Insert(ts, EmptyTable(ts), o, ["x", ID]);
            && bad.1 == Some(ValueMissing("x")) && ID in bad.0 && PK in bad.0[ID] && !Agrees(ts, bad.0)
            && good == (EmptyTable(ts), Some(ValueMissing("x")))
  {
    hide Agrees, REQUIRED, InsertIndexes, InsertTree, InsertError, Item, PK, PrimaryKey, ValidTable, IsOrder, Lower, OneIndex,
         Insertable, FieldSchema;
    var ts, o := OneIndex(REQUIRED), Item(NilStr);
    var none := EmptyTable(ts);
    NothingToIndex();
    EmptyAgrees(ts);
    PrimaryGoesIn(ts, o, PK);
    TwoNames([ID, "x"]);
    TwoNames(["x", ID]);
    SecondFails(ts, none, o, PK, ID, "x");
    assert none["x"] == map[] && none[ID] == map[];
    assert none["x" := none["x"]] == none;
    ErrorPreventsInsert(ts, none, o, "x");
    var _ := FailedInsertCanBreak(ts, none, o, [ID, "x"]);
  }

  lemma ErrorPreventsInsert(ts: TableSchema, tbl: Table, obj: Object, n: string)
    requires ValidTable(ts) && HasShape(ts, tbl) && PrimaryKey(ts, obj).Some? && n in ts
    requires InsertError(n, ts[n], Existing(tbl, PrimaryKey(ts, obj).value), obj).Some?
    ensures !Insertable(ts, tbl, obj)
  {
  }

  lemma TwoNames(order: seq<string>)
    requires order == [ID, "x"] || order == ["x", ID]
    ensures IsOrder(order, {ID, "x"}) && ID != "x"
  {
    assert ID != "x" && order[0] in order && order[1] in order;
  }

  lemma PrimaryGoesIn(ts: TableSchema, o: Object, id: Key)
    requires ID in ts && ts[ID].fromObject(o) == Extract(true, [id]) && ts[ID].unique
    ensures InsertError(ID, ts[ID], None, o).None? && id in InsertTree(ts[ID], map[], None, o, id)
  {
    assert id in [id];
  }

  // ---------------------------------------------------------------- DeletePrefix

  /** The scan finds the row, the raw argument finds nothing: `DeletePrefix` panics. */
  lemma Panics(ix: IndexSchema, x: Field, key: Key, p: Key, raw: Key, orders: nat -> seq<string>)
    requires Indexable(ix, Item(x)) && AreOrders(orders, {ID, "x"})
    requires ValidTable(OneIndex(ix)) && KeysOf(OneIndex(ix), "x", Item(x)) == {key}
    requires p <= key && !(raw <= key)
    ensures PrimaryKey(OneIndex(ix), Item(x)).Some?
    ensures BulkDelete.DeletePrefix("t", OneIndex(ix), Single(ix, x), "x", p, raw, orders).err == Some(Panicked)
  {
    hide Sound, Complete, AllIndexable, IsOrder, BulkDelete.DeletePrefix;
    SingleRow(ix, x);
    var tbl := Single(ix, x);
    assert key in tbl["x"] && key in WithPrefix(tbl["x"], p);
    ScanEmptyIff(tbl, "x", p);
    assert WithPrefix(tbl["x"], raw) == {};
    DeletePrefixIff("t", OneIndex(ix), tbl, "x", p, raw, orders);
  }

  const FOLDED := FieldSchema(StringIx("x", true), Lower, true, false)

  /** A case-folding string index, a row "ab" and the prefix "A". */
  lemma UpperCasePrefixPanics(orders: nat -> seq<string>)
    requires AreOrders(orders, {ID, "x"})
    ensures FOLDED.prefixFromArgs.value([Val(Str([65]))]) == Some([97])
    ensures ValidTable(OneIndex(FOLDED)) && PrimaryKey(OneIndex(FOLDED), Item(Str([97, 98]))).Some?
    ensures BulkDelete.DeletePrefix("t", OneIndex(FOLDED), Single(FOLDED, Str([97, 98])), "x", [97], [65], orders).err
            == Some(Panicked)
  {
    hide IsOrder, AreOrders, Single, PrimaryKey, ValidTable, BulkDelete.DeletePrefix, OneIndex, KeysOf;
    var x, key := Str([97, 98]), [97, 98] + [0] + PK;
    LowerAb();
    assert FOLDED.fromObject(Item(x)) == Extract(true, [[97, 98] + [0]]);
    OneKey(FOLDED, x, [97, 98] + [0], key);
    assert key[0] == 97;
    Panics(FOLDED, x, key, [97], [65], orders);
  }

  lemma LowerAb()
    ensures Lower([97, 98]) == [97, 98] && Lower([65]) == [97]
  {
    assert [97, 98][1..] == [98] && [98][1..] == [] && [65][1..] == [];
  }

  lemma OneKey(ix: IndexSchema, x: Field, val: Key, key: Key)
    requires ix.fromObject(Item(x)) == Extract(true, [val]) && key == KeyFor(ix, val, PK)
    ensures ValidTable(OneIndex(ix)) && KeysOf(OneIndex(ix), "x", Item(x)) == {key}
  {
    ItemKeys(ix, x);
    assert StoredKeys(ix, Item(x), PK) == [key];
    assert forall k :: k in [key] <==> k == key;
  }

  const UUIDS := FieldSchema(UuidIx("x"), Lower, true, false)

  /** A UUID index, a row whose UUID starts with the byte 0xab, and the textual prefix "ab". */
  lemma UuidPrefixPanics(u: Key, orders: nat -> seq<string>)
    requires AreOrders(orders, {ID, "x"}) && |u| == 16 && u[0] == 0xab
    ensures UUIDS.prefixFromArgs.value([Val(Str([97, 98]))]) == Some([0xab])
    ensures ValidTable(OneIndex(UUIDS)) && PrimaryKey(OneIndex(UUIDS), Item(Str(Uuid.CanonicalText(u)))).Some?
    ensures BulkDelete.DeletePrefix("t", OneIndex(UUIDS), Single(UUIDS, Str(Uuid.CanonicalText(u))), "x", [0xab], [97, 98],
                                    orders).err == Some(Panicked)
  {
    hide IsOrder, AreOrders, Single, PrimaryKey, ValidTable, BulkDelete.DeletePrefix, OneIndex, KeysOf,
         Uuid.ParseString, Uuid.CanonicalText;
    var x := Str(Uuid.CanonicalText(u));
    Uuid.CanonicalRoundTrip(u, true);
    Uuid.CanonicalDigits(u);
    ParseAb();
    assert UUIDS.fromObject(Item(x)) == Extract(true, [u]);
    OneKey(UUIDS, x, u, u + PK);
    assert (u + PK)[0] == 0xab;
    Panics(UUIDS, x, u + PK, [0xab], [97, 98], orders);
  }

  lemma ParseAb()
    ensures Uuid.ParseString([97, 98], false) == Some([0xab])
  {
    var s: Key := [97, 98];
    var none: Key := [];
    assert s[1..] == [98] && s[1..][1..] == none && s[2..] == none;
    Uuid.EmptyHex(none);
    Uuid.DecodePair(97, 98, none);
    assert [97, 98] + none == s && [0xab] + none == [0xab];
  }

  // ---------------------------------------------------------------- several tags

  function Tags(a: Key, b: Key): Field {
    Strs([a, b])
  }

  const SLICE := SubSchema(SliceIx("x", false), Lower, true, false)

  lemma TagKeys(a: Key, b: Key)
    requires a != [] && b != []
    ensures SLICE.fromObject(Item(Tags(a, b))) == Extract(true, [a + [0], b + [0]])
    ensures ValidTable(OneIndex(SLICE))
    ensures KeysOf(OneIndex(SLICE), "x", Item(Tags(a, b))) == {a + [0] + PK, b + [0] + PK}
  {
    var o := Item(Tags(a, b));
    ItemKeys(SLICE, Tags(a, b));
    assert [a, b][1..] == [b] && [b][1..] == [];
    assert SliceTuples(Lower, false, [b]) == [[Text(b)]];
    var ts := SliceTuples(Lower, false, [a, b]);
    assert ts == [[Text(a)], [Text(b)]];
    JoinOne(Text(a));
    JoinOne(Text(b));
    assert JoinEach(ts)[0] == a + [0] && JoinEach(ts)[1] == b + [0];
    assert JoinEach(ts) == [a + [0], b + [0]];
    var ks := StoredKeys(SLICE, o, PK);
    assert ks == [a + [0] + PK, b + [0] + PK];
    assert forall k :: k in ks <==> k == ks[0] || k == ks[1];
  }

  lemma SlicePrefix()
    ensures SLICE.prefixFromArgs.value([Val(Str([97]))]) == Some([97])
  {
  }

  /** The table with one row, tagged twice. */
  lemma TwoTags(a: Key, b: Key)
    requires a != [] && b != []
    ensures ValidTable(OneIndex(SLICE)) && PrimaryKey(OneIndex(SLICE), Item(Tags(a, b))).Some?
    ensures var ts, tbl := OneIndex(SLICE), Single(SLICE, Tags(a, b));
            && ts.Keys == {ID, "x"} && Consistent(ts, tbl)
            && tbl["x"].Keys == {a + [0] + PK, b + [0] + PK}
            && tbl["x"][a + [0] + PK] == tbl["x"][b + [0] + PK]
  {
    TagKeys(a, b);
    hide Single, PrimaryKey, ValidTable, OneIndex, KeysOf, Sound, Complete, AllIndexable, SLICE, Tags, Item;
    SingleRow(SLICE, Tags(a, b));
    var tbl := Single(SLICE, Tags(a, b));
    assert a + [0] + PK in tbl["x"] && b + [0] + PK in tbl["x"];
  }

  /** A string-slice index, a row with tags "ab" and "cd", and the prefix "a". Both prefixes select
      the same key, no object is filed twice in the range and nothing panics, but the entry of
      the other tag stays behind and points to a deleted row. */
  lemma OtherTagStays(orders: nat -> seq<string>)
    requires AreOrders(orders, {ID, "x"})
    ensures SLICE.prefixFromArgs.value([Val(Str([97]))]) == Some([97])
    ensures ValidTable(OneIndex(SLICE)) && PrimaryKey(OneIndex(SLICE), Item(Tags([97, 98], [99, 100]))).Some?
    ensures var ts, tbl := OneIndex(SLICE), Single(SLICE, Tags([97, 98], [99, 100]));
            var r := BulkDelete.DeletePrefix("t", ts, tbl, "x", [97], [97], orders);
            && OneKeyEach(tbl, "x", [97])
            && r.err.None? && [99, 100] + [0] + PK in r.tbl["x"] && !Consistent(ts, r.tbl)
  {
    hide *;
    SlicePrefix();
    var a, b: Key := [97, 98], [99, 100];
    TwoTags(a, b);
    var ts, tbl := OneIndex(SLICE), Single(SLICE, Tags(a, b));
    assert (a + [0] + PK)[0] == 97 && (b + [0] + PK)[0] == 99;
    TwoKeys(ts, tbl, a + [0] + PK, b + [0] + PK, orders);
  }

  lemma TwoKeys(ts: TableSchema, tbl: Table, k: Key, k': Key, orders: nat -> seq<string>)
    requires Consistent(ts, tbl) && "x" in ts && AreOrders(orders, ts.Keys)
    requires tbl["x"].Keys == {k, k'} && tbl["x"][k] == tbl["x"][k'] && [97] <= k && !([97] <= k')
    ensures OneKeyEach(tbl, "x", [97])
    ensures var r := BulkDelete.DeletePrefix("t", ts, tbl, "x", [97], [97], orders);
            r.err.None? && k' in r.tbl["x"] && !Consistent(ts, r.tbl)
  {
    hide IsOrder, AreOrders, BulkDelete.DeletePrefix, Sound, Complete, AllIndexable;
    assert ID != "x";
    OnlyOneFits(tbl, "x", [97], k, k');
    KeyOutsideStays("t", ts, tbl, "x", [97], k, k', orders);
  }

  lemma OnlyOneFits(tbl: Table, n: string, p: Key, k: Key, k': Key)
    requires n in tbl && tbl[n].Keys == {k, k'} && !(p <= k')
    ensures OneKeyEach(tbl, n, p)
  {
    forall j | j in tbl[n] && p <= j ensures j == k {
      assert j in {k, k'};
    }
  }

  /** A row with tags "aa" and "ab", and everything under "a": `DeleteAll` meets the row twice and
      stops with `ErrNotFound`; `DeletePrefix` does not. */
  lemma SecondTagStopsDeleteAll(orders: nat -> seq<string>)
    requires AreOrders(orders, {ID, "x"})
    ensures ValidTable(OneIndex(SLICE)) && PrimaryKey(OneIndex(SLICE), Item(Tags([97, 97], [97, 98]))).Some?
    ensures var ts, tbl := OneIndex(SLICE), Single(SLICE, Tags([97, 97], [97, 98]));
            && BulkDelete.DeleteAll("t", ts, tbl, "x", [97], orders).err == Some(NotFound)
            && BulkDelete.DeletePrefix("t", ts, tbl, "x", [97], [97], orders).err == None
  {
    hide IsOrder, AreOrders, Single, PrimaryKey, ValidTable, BulkDelete.DeletePrefix, BulkDelete.DeleteAll, OneIndex, KeysOf,
         Sound, Complete, AllIndexable;
    var ts, x := OneIndex(SLICE), Tags([97, 97], [97, 98]);
    TagKeys([97, 97], [97, 98]);
    SingleRow(SLICE, x);
    var tbl := Single(SLICE, x);
    var aa, ab := [97, 97] + [0] + PK, [97, 98] + [0] + PK;
    assert aa[1] == 97 && ab[1] == 98;
    assert aa in tbl["x"] && ab in tbl["x"];
    FiledTwiceStops("t", ts, tbl, "x", [97], aa, ab, orders);
  }

  // ---------------------------------------------------------------- queries

  const UNIQUE_INTS := FieldSchema(IntIx("x"), Lower, true, true)

  /** A unique index on 16-bit ints, a row with 5, queried with the 8-bit int 0: its one byte is a
      prefix of the row's two. `Get` yields the row, `First` and `Last` yield nothing. */
  lemma NarrowIntMissesFirst()
    ensures UNIQUE_INTS.fromArgs([Val(Int(1, 0))]) == Some([128])
    ensures ValidTable(OneIndex(UNIQUE_INTS)) && PrimaryKey(OneIndex(UNIQUE_INTS), Item(Int(2, 5))).Some?
    ensures var tbl, direct := Single(UNIQUE_INTS, Int(2, 5)), Direct(UNIQUE_INTS, "x", "x", Some([128]));
            && Item(Int(2, 5)) in Scan(tbl, "x", [128])
            && FirstKey(tbl["x"], direct, [128]) == None
            && LastKey(tbl["x"], direct, [128]) == None
  {
    hide *;
    var x := Int(2, 5);
    NarrowKeys();
    SingleRow(UNIQUE_INTS, x);
    NarrowMisses(Single(UNIQUE_INTS, x), [128], [128, 5], Direct(UNIQUE_INTS, "x", "x", Some([128])));
  }

  lemma NarrowKeys()
    ensures UNIQUE_INTS.fromArgs([Val(Int(1, 0))]) == Some([128])
    ensures Direct(UNIQUE_INTS, "x", "x", Some([128])) && Indexable(UNIQUE_INTS, Item(Int(2, 5)))
    ensures ValidTable(OneIndex(UNIQUE_INTS)) && KeysOf(OneIndex(UNIQUE_INTS), "x", Item(Int(2, 5))) == {[128, 5]}
  {
    hide PrimaryKey, ValidTable, OneIndex, KeysOf, Encode;
    var x := Int(2, 5);
    SmallInts();
    assert UNIQUE_INTS.fromObject(Item(x)) == Extract(true, [[128, 5]]);
    OneKey(UNIQUE_INTS, x, [128, 5], [128, 5]);
  }

  lemma NarrowMisses(tbl: Table, p: Key, k: Key, direct: bool)
    requires "x" in tbl && tbl["x"].Keys == {k} && p < k && direct
    ensures tbl["x"][k] in Scan(tbl, "x", p) && FirstKey(tbl["x"], direct, p) == None && LastKey(tbl["x"], direct, p) == None
  {
    assert k in tbl["x"];
    ScannedObject(tbl, "x", p, k);
    assert p !in {k};
  }

  lemma SmallInts()
    ensures Pow2(7) == 128 && Pow2(15) == 32768
    ensures Encode(Signed(1, 0)) == [128] && Encode(Signed(2, 5)) == [128, 5]
  {
    assert BigEndian(128, 1) == BigEndian(0, 0) + [128];
    assert BigEndian(32773, 2) == BigEndian(128, 1) + [5];
  }

  const INTS := FieldSchema(IntIx("x"), Lower, true, false)

  /** A non-unique int index and a row equal to the bound: `ReverseLowerBound` leaves it out, while
      `LowerBound` returns it. */
  lemma EqualRowIsLeftOut(i: int, size: nat)
    requires IsWidth(size) && FitsSigned(i, size)
    ensures INTS.fromArgs([Val(Int(size, i))]) == Some(Encode(Signed(size, i)))
    ensures ValidTable(OneIndex(INTS)) && PrimaryKey(OneIndex(INTS), Item(Int(size, i))).Some?
    ensures Item(Int(size, i)) in RowsFrom(Single(INTS, Int(size, i)), "x", Encode(Signed(size, i)))
    ensures Item(Int(size, i)) !in RowsDownFrom(Single(INTS, Int(size, i)), "x", Encode(Signed(size, i)))
  {
    hide *;
    var x, v := Int(size, i), Encode(Signed(size, i));
    EqualKeys(i, size);
    SingleRow(INTS, x);
    OnlyRowAbove(Single(INTS, x), "x", v, v + PK);
  }

  lemma EqualKeys(i: int, size: nat)
    requires IsWidth(size) && FitsSigned(i, size)
    ensures var v := Encode(Signed(size, i));
            && INTS.fromArgs([Val(Int(size, i))]) == Some(v) && Indexable(INTS, Item(Int(size, i)))
            && ValidTable(OneIndex(INTS)) && KeysOf(OneIndex(INTS), "x", Item(Int(size, i))) == {v + PK}
            && AtMost(v, v + PK) && !AtMost(v + PK, v)
  {
    hide PrimaryKey, ValidTable, OneIndex, KeysOf, Encode, IsWidth, FitsSigned;
    var x, v := Int(size, i), Encode(Signed(size, i));
    assert INTS.fromObject(Item(x)) == Extract(true, [v]);
    OneKey(INTS, x, v, v + PK);
    PrefixAtMost(v, v + PK);
    assert |v + PK| != |v|;
    if AtMost(v + PK, v) {
      LessAsymmetric(v, v + PK);
      assert false;
    }
  }

  lemma OnlyRowAbove(tbl: Table, n: string, b: Key, k: Key)
    requires n in tbl && tbl[n].Keys == {k} && AtMost(b, k) && !AtMost(k, b)
    ensures tbl[n][k] in RowsFrom(tbl, n, b) && RowsDownFrom(tbl, n, b) == []
  {
    var up, down := ScanFrom(tbl[n], b), ScanDownFrom(tbl[n], b);
    assert k in tbl[n] && k in up;
    assert forall j :: j in tbl[n] ==> j == k;
    var i :| 0 <= i < |up| && up[i] == k;
    assert RowsFrom(tbl, n, b)[i] == tbl[n][k];
    assert forall j :: j in down ==> j in tbl[n] && AtMost(j, b);
    NoElements(down);
  }
}
