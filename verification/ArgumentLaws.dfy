/**
 From arguments to fields: which objects a query with some arguments finds, in terms of the values
 of their fields, for the single-field, compound, string-slice, string-map and multi-valued
 compound indexers.
 */
module ArgumentLaws {
  import opened Bytes
  import opened Radix
  import opened Schema
  import opened Agreement
  import opened BulkDelete
  import opened Query
  import opened Codec
  import opened Indexers
  import opened FieldQueries
  import opened MultiIndex
  import SliceWalk
  import U = Uuid

  /** A text argument that equals a text, up to case where the index folds it. */
  predicate SameText(lower: Fold, lowercase: bool, s: Key, a: Arg) {
    a.Val? && a.f.Str? && if lowercase then lower(s) == lower(a.f.s) else s == a.f.s
  }

  /** A UUID argument for a UUID text: the same digits up to case, or the bytes that they spell. */
  predicate SameUuid(s: Key, a: Arg) {
    match a
    case Val(Str(t)) => U.LowerHex(U.Digits(s)) == U.LowerHex(U.Digits(t))
    case Raw(bytes) => U.LowerHex(U.Digits(s)) == U.EncodeHex(bytes)
    case _ => false
  }

  /** The field of an object equals an argument. */
  predicate FieldIs(ix: Indexer, lower: Fold, o: Object, a: Arg) {
    && ix.field in o.fields
    && match (ix, o.fields[ix.field])
       case (StringIx(_, lc), Str(s)) => s != [] && SameText(lower, lc, s, a)
       case (IntIx(_), Int(size, i)) => a == Val(Int(size, i))
       case (UintIx(_), Uint(size, u)) => a == Val(Uint(size, u))
       case (BoolIx(_), Bool(b)) => a == Val(Bool(b))
       case (UuidIx(_), Str(s)) => s != [] && SameUuid(s, a)
       case _ => false
  }

  /** The field of an object starts with an argument. */
  predicate FieldStarts(ix: Indexer, lower: Fold, o: Object, a: Arg) {
    && ix.field in o.fields
    && match (ix, o.fields[ix.field], a)
       case (StringIx(_, lc), Str(s), Val(Str(t))) =>
         s != [] && if lc then lower(t) <= lower(s) else t <= s
       case (UuidIx(_), Str(s), Val(Str(t))) => s != [] && U.LowerHex(U.Digits(t)) <= U.LowerHex(U.Digits(s))
       case (UuidIx(_), Str(s), Raw(bytes)) => s != [] && U.EncodeHex(bytes) <= U.LowerHex(U.Digits(s))
       case _ => false
  }

  // ---------------------------------------------------------------- one field

  lemma UuidMatches(s: Key, a: Arg, r: Key, b: Key)
    requires U.DecodeHex(U.Digits(s)) == Some(r)
    requires match a
             case Val(Str(t)) => U.DecodeHex(U.Digits(t)) == Some(b)
             case Raw(bytes) => bytes == b
             case _ => false
    ensures SameUuid(s, a) <==> r == b
  {
    hide U.DecodeHex, U.Digits, U.LowerHex;
    match a
    case Val(Str(t)) => U.SameBytesIff(U.Digits(s), U.Digits(t));
    case Raw(bytes) => U.DecodesIff(U.Digits(s), bytes);
    case _ =>
  }

  /** What is read from a field and from an argument is the same exactly if the field equals the
      argument. */
  lemma ReadMatches(ix: Indexer, lower: Fold, o: Object, a: Arg)
    requires ReadArg(ix, lower, a).Some? && !Read(ix, lower, o).Invalid?
    ensures Read(ix, lower, o) == Present(ReadArg(ix, lower, a).value) <==> FieldIs(ix, lower, o, a)
  {
    hide U.DecodeHex, U.Digits, U.LowerHex, U.Hyphens, SameUuid, FitsSigned, FitsUnsigned;
    if ix.UuidIx? && Read(ix, lower, o).Present? {
      var s := o.fields[ix.field].s;
      UuidMatches(s, a, Read(ix, lower, o).part.bytes, ReadArg(ix, lower, a).value.bytes);
    }
  }

  /** The same for partial arguments. */
  lemma PartialMatches(ix: Indexer, lower: Fold, o: Object, a: Arg)
    requires ReadPartial(ix, lower, a).Some? && Read(ix, lower, o).Present?
    ensures StartsWith(Read(ix, lower, o).part, ReadPartial(ix, lower, a).value) <==> FieldStarts(ix, lower, o, a)
  {
    hide U.DecodeHex, U.Digits, U.LowerHex, U.Hyphens, U.EncodeHex, FitsSigned, FitsUnsigned;
    if ix.UuidIx? {
      var s, raw := o.fields[ix.field].s, ReadPartial(ix, lower, a).value;
      var bytes := Read(ix, lower, o).part.bytes;
      U.DecodesIff(U.Digits(s), bytes);
      U.EncodePrefix(raw, bytes);
      if a.Val? {
        U.DecodesIff(U.Digits(a.f.s), raw);
      }
    }
  }

  /** Which fields an index can read: those of its kind, and for UUIDs canonical text at least. */
  lemma KindIsReadable(ix: Indexer, lower: Fold, o: Object, u: Key)
    requires ix.field in o.fields
    requires match (ix, o.fields[ix.field])
             case (StringIx(_, _), Str(_)) => true
             case (StringIx(_, _), NilStr) => true
             case (IntIx(_), Int(size, i)) => IsWidth(size) && FitsSigned(i, size)
             case (UintIx(_), Uint(size, v)) => IsWidth(size) && FitsUnsigned(v, size)
             case (BoolIx(_), Bool(_)) => true
             case (UuidIx(_), Str(s)) => s == [] || (|u| == 16 && s == U.CanonicalText(u))
             case _ => false
    ensures !Read(ix, lower, o).Invalid?
  {
    hide U.ParseString, FitsSigned, FitsUnsigned;
    if ix.UuidIx? && |u| == 16 {
      U.CanonicalRoundTrip(u, true);
    }
  }

  /** The field of an object comes before an argument, in the order of its own type. */
  predicate FieldBefore(ix: Indexer, lower: Fold, o: Object, a: Arg) {
    && ix.field in o.fields
    && match (ix, o.fields[ix.field], a)
       case (StringIx(_, lc), Str(s), Val(Str(t))) => s != [] && if lc then Less(lower(s), lower(t)) else Less(s, t)
       case (IntIx(_), Int(size, i), Val(Int(width, j))) => size == width && i < j
       case (UintIx(_), Uint(size, u), Val(Uint(width, v))) => size == width && u < v
       case (BoolIx(_), Bool(b), Val(Bool(c))) => !b && c
       case (UuidIx(_), Str(s), Val(Str(t))) =>
         s != [] && Less(U.LowerHex(U.Digits(s)), U.LowerHex(U.Digits(t)))
       case (UuidIx(_), Str(s), Raw(bytes)) => s != [] && Less(U.LowerHex(U.Digits(s)), U.EncodeHex(bytes))
       case _ => false
  }

  /** What is read is ordered like the fields. */
  lemma ReadOrders(ix: Indexer, lower: Fold, o: Object, a: Arg)
    requires ReadArg(ix, lower, a).Some? && Read(ix, lower, o).Present?
    requires SameKind(Read(ix, lower, o).part, ReadArg(ix, lower, a).value)
    ensures PartLess(Read(ix, lower, o).part, ReadArg(ix, lower, a).value) <==> FieldBefore(ix, lower, o, a)
  {
    hide U.DecodeHex, U.Digits, U.LowerHex, U.Hyphens, U.EncodeHex, FitsSigned, FitsUnsigned, Less;
    if ix.UuidIx? {
      var s, p, q := o.fields[ix.field].s, Read(ix, lower, o).part.bytes, ReadArg(ix, lower, a).value.bytes;
      U.DecodesIff(U.Digits(s), p);
      U.HexOrder(p, q);
      if a.Val? {
        U.DecodesIff(U.Digits(a.f.s), q);
      }
    }
  }

  // ---------------------------------------------------------------- compound indexes

  predicate FieldsAre(ixs: seq<Indexer>, lower: Fold, o: Object, args: seq<Arg>) {
    forall i :: 0 <= i < |ixs| && i < |args| ==> FieldIs(ixs[i], lower, o, args[i])
  }

  lemma FieldsAreTail(ixs: seq<Indexer>, lower: Fold, o: Object, args: seq<Arg>)
    requires ixs != [] && args != []
    ensures FieldsAre(ixs, lower, o, args) <==>
            FieldIs(ixs[0], lower, o, args[0]) && FieldsAre(ixs[1..], lower, o, args[1..])
  {
    if FieldIs(ixs[0], lower, o, args[0]) && FieldsAre(ixs[1..], lower, o, args[1..]) {
      forall i | 0 <= i < |ixs| && i < |args| ensures FieldIs(ixs[i], lower, o, args[i]) {
        assert i > 0 ==> ixs[i] == ixs[1..][i - 1] && args[i] == args[1..][i - 1];
      }
    }
    if FieldsAre(ixs, lower, o, args) {
      forall i | 0 <= i < |ixs[1..]| && i < |args[1..]| ensures FieldIs(ixs[1..][i], lower, o, args[1..][i]) {
        assert FieldIs(ixs[i + 1], lower, o, args[i + 1]);
      }
    }
  }

  /** The leading columns of an object are those of the arguments exactly if its fields equal the
      arguments. */
  lemma {:induction false} RowMatches(ixs: seq<Indexer>, lower: Fold, o: Object, args: seq<Arg>)
    requires |args| <= |ixs| && ReadArgs(ixs, lower, args).Some? && ReadRow(ixs, lower, o).end != Broken
    ensures |ReadArgs(ixs, lower, args).value| == |args|
    ensures ReadArgs(ixs, lower, args).value <= ReadRow(ixs, lower, o).parts <==> FieldsAre(ixs, lower, o, args)
    decreases |args|
  {
    hide Read, ReadArg, FieldIs, FieldsAre;
    if args == [] {
      NoFields(ixs, lower, o, args);
    } else {
      ReadMatches(ixs[0], lower, o, args[0]);
      FieldsAreTail(ixs, lower, o, args);
      if Read(ixs[0], lower, o).Present? {
        RowMatches(ixs[1..], lower, o, args[1..]);
        PrefixOfCons(ReadArg(ixs[0], lower, args[0]).value, ReadArgs(ixs[1..], lower, args[1..]).value,
                     Read(ixs[0], lower, o).part, ReadRow(ixs[1..], lower, o).parts);
      } else {
        ArgsLength(ixs[1..], lower, args[1..]);
      }
    }
  }

  lemma NoFields(ixs: seq<Indexer>, lower: Fold, o: Object, none: seq<Arg>)
    requires none == []
    ensures FieldsAre(ixs, lower, o, none)
  {
  }

  lemma {:induction false} ArgsLength(ixs: seq<Indexer>, lower: Fold, args: seq<Arg>)
    requires |args| <= |ixs| && ReadArgs(ixs, lower, args).Some?
    ensures |ReadArgs(ixs, lower, args).value| == |args|
    decreases |args|
  {
    if args != [] {
      ArgsLength(ixs[1..], lower, args[1..]);
    }
  }

  lemma PrefixOfCons<T>(x: T, a: seq<T>, y: T, b: seq<T>)
    ensures [x] + a <= [y] + b <==> x == y && a <= b
  {
    assert ([x] + a)[1..] == a && ([y] + b)[1..] == b;
    if x == y && a <= b {
      assert [y] + b == ([x] + a) + b[|a|..];
    }
    if [x] + a <= [y] + b {
      assert ([x] + a)[0] == x && ([y] + b)[0] == y;
      assert a == ([y] + b)[..|a| + 1][1..];
    }
  }

  /** Where the columns of an object end. */
  lemma {:induction false} RowAt(ixs: seq<Indexer>, lower: Fold, o: Object, k: nat)
    requires k < |ixs|
    ensures var row := ReadRow(ixs, lower, o);
            && |row.parts| <= |ixs| && (row.end == Whole <==> |row.parts| == |ixs|)
            && (k < |row.parts| ==> Read(ixs[k], lower, o) == Present(row.parts[k]))
            && (k == |row.parts| && row.end != Broken ==> Read(ixs[k], lower, o).Missing?)
  {
    hide Read;
    if k > 0 {
      RowAt(ixs[1..], lower, o, k - 1);
    } else if |ixs| > 1 {
      RowAt(ixs[1..], lower, o, 0);
    }
  }

  lemma {:induction false} ArgsTake(ixs: seq<Indexer>, lower: Fold, args: seq<Arg>)
    requires |args| <= |ixs|
    ensures ReadArgs(ixs[..|args|], lower, args) == ReadArgs(ixs, lower, args)
    decreases |args|
  {
    if args != [] {
      ArgsTake(ixs[1..], lower, args[1..]);
      assert ixs[..|args|][1..] == ixs[1..][..|args| - 1];
    }
  }

  // ---------------------------------------------------------------- queries

  /** An object is found under the value of its own field. */
  lemma OwnFieldIsAccepted(ix: Indexer, lower: Fold, o: Object)
    requires Read(ix, lower, o).Present?
    ensures ReadArg(ix, lower, Val(o.fields[ix.field])) == Some(Read(ix, lower, o).part)
    ensures FieldIs(ix, lower, o, Val(o.fields[ix.field]))
    ensures ReadPartial(ix, lower, Val(o.fields[ix.field])).Some? <==> ix.StringIx? || ix.UuidIx?
    ensures ix.StringIx? || ix.UuidIx? ==> FieldStarts(ix, lower, o, Val(o.fields[ix.field]))
  {
    hide U.DecodeHex, U.Digits, U.LowerHex, U.Hyphens, U.EncodeHex, FitsSigned, FitsUnsigned;
  }

  /** The texts of a UUID that an exact argument may have: 36 bytes with at most four hyphens. A prefix may be
      shorter, but has whole pairs of digits. */
  predicate UuidForm(a: Arg, exact: bool) {
    a.Val? && a.f.Str? ==>
      |a.f.s| <= 36 && U.Hyphens(a.f.s) <= 4 && if exact then |a.f.s| == 36 else |U.Digits(a.f.s)| % 2 == 0
  }

  /** Every argument that equals the field of some object is accepted, and every one that such a field
      starts with. */
  lemma FittingIsAccepted(ix: Indexer, lower: Fold, o: Object, a: Arg)
    requires Read(ix, lower, o).Present?
    ensures FieldIs(ix, lower, o, a) && (ix.UuidIx? ==> UuidForm(a, true) && |Read(ix, lower, o).part.bytes| == 16) ==>
              ReadArg(ix, lower, a).Some?
    ensures FieldStarts(ix, lower, o, a) && (ix.UuidIx? ==> UuidForm(a, false)) ==> ReadPartial(ix, lower, a).Some?
  {
    hide U.DecodeHex, U.Digits, U.LowerHex, U.Hyphens, U.EncodeHex, FitsSigned, FitsUnsigned;
    if ix.UuidIx? {
      var s, p := o.fields[ix.field].s, Read(ix, lower, o).part.bytes;
      U.DecodesIff(U.Digits(s), p);
      if a.Val? && a.f.Str? {
        U.DecodesIff(U.Digits(a.f.s), p);
        if FieldStarts(ix, lower, o, a) && UuidForm(a, false) {
          HexPrefixDecodes(U.Digits(a.f.s), p);
        }
        U.StripLength(a.f.s);
        U.HexRoundTrip(p);
      }
      if a.Raw? && FieldIs(ix, lower, o, a) {
        U.HexRoundTrip(p);
        U.HexRoundTrip(a.bytes);
      }
    }
  }

  lemma SameSizePrefix(a: Key, b: Key, c: Key)
    requires a <= b + c && |a| == |b|
    ensures a == b
  {
    assert a == (b + c)[..|a|];
  }

  lemma HexPrefixDecodes(t: Key, p: Key)
    requires U.LowerHex(t) <= U.EncodeHex(p) && |t| % 2 == 0
    ensures U.DecodeHex(t).Some?
  {
    hide *;
    U.HexRoundTrip(p);
    var n := |t| / 2;
    U.HexConcat(p[..n], p[n..]);
    U.HexRoundTrip(p[..n]);
    assert p == p[..n] + p[n..];
    SameSizePrefix(U.LowerHex(t), U.EncodeHex(p[..n]), U.EncodeHex(p[n..]));
    U.DecodesIff(t, p[..n]);
  }

  /** `Get` on a single-field index: exactly the live objects whose field equals the argument, each
      once. */
  lemma FieldGet(ts: TableSchema, tbl: Table, n: string, ix: Indexer, lower: Fold, allowMissing: bool, unique: bool, a: Arg)
    requires Agrees(ts, tbl) && n in ts && ts[n] == FieldSchema(ix, lower, allowMissing, unique)
    requires ReadArg(ix, lower, a).Some? && WellFormed(ReadArg(ix, lower, a).value)
    requires WellTyped(ts, tbl, n, OneColumn(ix, lower), [ReadArg(ix, lower, a).value])
    ensures ts[n].fromArgs([a]).Some?
    ensures var objs := Scan(tbl, n, ts[n].fromArgs([a]).value);
            && (forall o :: o in objs <==> IsLive(ts, tbl, o) && FieldIs(ix, lower, o, a))
            && Distinct(objs)
            && (unique ==> |objs| <= 1)
  {
    hide Sound, Complete, Encode, FieldIs, Read, ReadArg, Answers, Scan, WellFormed;
    var p, row := ReadArg(ix, lower, a).value, OneColumn(ix, lower);
    FieldFiles(ix, lower, allowMissing, unique);
    JoinOne(p);
    GetOnFields(ts, tbl, n, row, [p]);
    forall o | IsLive(ts, tbl, o)
      ensures Indexed(ts, tbl, n, o) && Answers(row(o), Suffix(ts, n, o), [p]) <==> FieldIs(ix, lower, o, a)
    {
      assert Indexable(ts[n], o);
      ReadMatches(ix, lower, o, a);
      if Read(ix, lower, o).Present? {
        assert row(o) == [Read(ix, lower, o).part];
      }
    }
  }

  /** A prefix query on a string or UUID index: exactly the live objects whose field starts with the
      argument. `column` is any value of the field's kind. */
  lemma FieldPrefixGet(ts: TableSchema, tbl: Table, n: string, ix: Indexer, lower: Fold, allowMissing: bool, unique: bool,
                       a: Arg, column: Part)
    requires Agrees(ts, tbl) && n in ts && ts[n] == FieldSchema(ix, lower, allowMissing, unique)
    requires (ix.StringIx? || ix.UuidIx?) && ReadPartial(ix, lower, a).Some?
    requires IsPartial(column, ReadPartial(ix, lower, a).value)
    requires WellTyped(ts, tbl, n, OneColumn(ix, lower), [column])
    ensures ts[n].prefixFromArgs.Some? && ts[n].prefixFromArgs.value([a]).Some?
    ensures forall o :: o in Scan(tbl, n, ts[n].prefixFromArgs.value([a]).value) <==>
              IsLive(ts, tbl, o) && FieldStarts(ix, lower, o, a)
  {
    hide Sound, Complete, Encode, FieldStarts, Read, ReadPartial, Scan, WellFormed, IsPartial, WellTyped, StartsWith;
    var raw, row := ReadPartial(ix, lower, a).value, OneColumn(ix, lower);
    var none: seq<Part> := [];
    FieldFiles(ix, lower, allowMissing, unique);
    assert Join(none) + raw == raw;
    forall o ensures o in Scan(tbl, n, raw) <==> IsLive(ts, tbl, o) && FieldStarts(ix, lower, o, a) {
      PrefixOnFields(ts, tbl, n, row, [column], none, raw, o);
      if IsLive(ts, tbl, o) {
        assert Indexable(ts[n], o);
        PresentIff(ix, lower, o);
        if Read(ix, lower, o).Present? {
          PartialMatches(ix, lower, o, a);
          assert row(o) == [Read(ix, lower, o).part] && none <= row(o);
        } else if FieldStarts(ix, lower, o, a) {
          StartNeedsField(ix, lower, o, a);
          assert false;
        }
      }
    }
  }

  /** `LowerBound` on a single-field index: exactly the live objects that have the field, not before the
      argument. */
  lemma FieldLowerBound(ts: TableSchema, tbl: Table, n: string, ix: Indexer, lower: Fold, allowMissing: bool, unique: bool,
                        a: Arg, o: Object)
    requires Agrees(ts, tbl) && n in ts && ts[n] == FieldSchema(ix, lower, allowMissing, unique)
    requires ReadArg(ix, lower, a).Some? && WellFormed(ReadArg(ix, lower, a).value)
    requires WellTyped(ts, tbl, n, OneColumn(ix, lower), [ReadArg(ix, lower, a).value])
    ensures ts[n].fromArgs([a]).Some?
    ensures o in RowsFrom(tbl, n, ts[n].fromArgs([a]).value) <==>
            IsLive(ts, tbl, o) && HasField(ix, o) && !FieldBefore(ix, lower, o, a)
  {
    hide Sound, Complete, Encode, FieldBefore, Read, ReadArg, RowsFrom, WellFormed, RowLess, PartLess, HasField, Before;
    var p, row := ReadArg(ix, lower, a).value, OneColumn(ix, lower);
    FieldFiles(ix, lower, allowMissing, unique);
    JoinOne(p);
    LowerBoundOnFields(ts, tbl, n, row, [p]);
    if IsLive(ts, tbl, o) {
      assert Indexable(ts[n], o);
      PresentIff(ix, lower, o);
      if Read(ix, lower, o).Present? {
        var q := Read(ix, lower, o).part;
        assert row(o) == [q];
        assert Indexed(ts, tbl, n, o) && Like(row(o), [p]);
        ReadOrders(ix, lower, o, a);
        OneColumnLess(q, p);
      }
    }
  }

  lemma OneColumnLess(q: Part, p: Part)
    requires Alike([q], [p])
    ensures SameKind(q, p) && (TupleLess([q], [p]) <==> PartLess(q, p))
  {
    assert SameKind([q][0], [p][0]);
  }

  /** `Get` on a compound index, with an argument for each of its fields: the live objects whose fields
      all equal the arguments; on a unique index and without `AllowMissing` no others. */
  lemma CompoundGet(ts: TableSchema, tbl: Table, n: string, c: Compound, lower: Fold, allowMissing: bool, unique: bool,
                    args: seq<Arg>)
    requires Agrees(ts, tbl) && n in ts && ts[n] == CompoundSchema(c, lower, allowMissing, unique)
    requires |args| == |c.indexes| && ReadArgs(c.indexes, lower, args).Some?
    requires AllWellFormed(ReadArgs(c.indexes, lower, args).value)
    requires WellTyped(ts, tbl, n, (o: Object) => ReadRow(c.indexes, lower, o).parts, ReadArgs(c.indexes, lower, args).value)
    ensures ts[n].fromArgs(args).Some?
    ensures var objs := Scan(tbl, n, ts[n].fromArgs(args).value);
            && (forall o :: IsLive(ts, tbl, o) && c.indexes != [] && FieldsAre(c.indexes, lower, o, args) ==> o in objs)
            && (unique || !c.allowMissing ==>
                  forall o :: o in objs ==> IsLive(ts, tbl, o) && FieldsAre(c.indexes, lower, o, args))
            && Distinct(objs)
  {
    hide Sound, Complete, Join, FieldsAre, Read, ReadArg, Answers, Scan, AllWellFormed, Like, ReadRow, ReadArgs;
    var parts := ReadArgs(c.indexes, lower, args).value;
    var row := (o: Object) => ReadRow(c.indexes, lower, o).parts;
    CompoundFiles(c, lower, allowMissing, unique);
    GetOnFields(ts, tbl, n, row, parts);
    ArgsLength(c.indexes, lower, args);
    forall o | IsLive(ts, tbl, o) && c.indexes != []
      ensures FieldsAre(c.indexes, lower, o, args) ==>
                Indexed(ts, tbl, n, o) && Answers(row(o), Suffix(ts, n, o), parts)
      ensures (unique || !c.allowMissing) && Indexed(ts, tbl, n, o) && Answers(row(o), Suffix(ts, n, o), parts) ==>
                FieldsAre(c.indexes, lower, o, args)
    {
      assert Indexable(ts[n], o);
      RowMatches(c.indexes, lower, o, args);
      RowAt(c.indexes, lower, o, 0);
    }
    if c.indexes == [] {
      forall o ensures FieldsAre(c.indexes, lower, o, args) {
        NoFields(c.indexes, lower, o, args);
      }
    }
  }

  predicate HasField(ix: Indexer, o: Object) {
    ix.field in o.fields && o.fields[ix.field] != NilStr && o.fields[ix.field] != Str([])
  }

  predicate HasFields(ixs: seq<Indexer>, o: Object) {
    forall i :: 0 <= i < |ixs| ==> HasField(ixs[i], o)
  }

  lemma PresentIff(ix: Indexer, lower: Fold, o: Object)
    requires !Read(ix, lower, o).Invalid?
    ensures Read(ix, lower, o).Present? <==> HasField(ix, o)
  {
    hide U.ParseString, FitsSigned, FitsUnsigned;
  }

  lemma WholeIff(ixs: seq<Indexer>, lower: Fold, o: Object)
    requires ReadRow(ixs, lower, o).end != Broken
    ensures ReadRow(ixs, lower, o).end == Whole <==> HasFields(ixs, o)
  {
    hide Read, HasField, ReadRow;
    var row := ReadRow(ixs, lower, o);
    if ixs == [] {
      NoColumns(ixs, lower, o);
    } else {
      RowAt(ixs, lower, o, 0);
      if row.end == Whole {
        forall i | 0 <= i < |ixs| ensures HasField(ixs[i], o) {
          RowAt(ixs, lower, o, i);
          PresentIff(ixs[i], lower, o);
        }
      } else {
        var i := |row.parts|;
        RowAt(ixs, lower, o, i);
        PresentIff(ixs[i], lower, o);
      }
    }
  }

  /** The leading fields equal the arguments, and the next one starts with the last argument. */
  predicate FieldsStart(ixs: seq<Indexer>, lower: Fold, o: Object, args: seq<Arg>)
    requires args != [] && |args| <= |ixs|
  {
    var k := |args| - 1; FieldsAre(ixs, lower, o, args[..k]) && FieldStarts(ixs[k], lower, o, args[k])
  }

  lemma StartNeedsField(ix: Indexer, lower: Fold, o: Object, a: Arg)
    requires FieldStarts(ix, lower, o, a)
    ensures HasField(ix, o)
  {
  }

  lemma PrefixAnswer(ixs: seq<Indexer>, lower: Fold, o: Object, args: seq<Arg>, suffix: Key)
    requires args != [] && |args| <= |ixs| && ReadRow(ixs, lower, o).end != Broken
    requires var k := |args| - 1; ReadArgs(ixs, lower, args[..k]).Some? && ReadPartial(ixs[k], lower, args[k]).Some?
    ensures var k, row := |args| - 1, ReadRow(ixs, lower, o).parts;
            FieldsStart(ixs, lower, o, args) <==>
            k < |row| && AnswersPrefix(row, suffix, ReadArgs(ixs, lower, args[..k]).value, ReadPartial(ixs[k], lower, args[k]).value)
  {
    hide Read, ReadArgs, ReadRow, ReadPartial, FieldsAre, FieldStarts, StartsWith, HasField;
    var k, row := |args| - 1, ReadRow(ixs, lower, o).parts;
    var front := ReadArgs(ixs, lower, args[..k]).value;
    RowMatches(ixs, lower, o, args[..k]);
    RowAt(ixs, lower, o, k);
    if k < |row| {
      PartialMatches(ixs[k], lower, o, args[k]);
    } else if FieldsStart(ixs, lower, o, args) {
      assert front <= row;
      StartNeedsField(ixs[k], lower, o, args[k]);
      PresentIff(ixs[k], lower, o);
      assert false;
    }
  }

  /** A prefix query on a compound index finds the live objects in the index whose leading fields equal
      the arguments and whose next field starts with the last one. Without `AllowMissing` these are
      objects with all fields of the index, and no others are found. */
  lemma CompoundPrefixGet(ts: TableSchema, tbl: Table, n: string, c: Compound, lower: Fold, allowMissing: bool, unique: bool,
                          args: seq<Arg>, columns: seq<Part>)
    requires Agrees(ts, tbl) && n in ts && ts[n] == CompoundSchema(c, lower, allowMissing, unique)
    requires args != []
    requires WellTyped(ts, tbl, n, (o: Object) => ReadRow(c.indexes, lower, o).parts, columns)
    requires var k := |args| - 1;
             && k < |columns| && |args| <= |c.indexes| && ReadArgs(c.indexes, lower, args[..k]).Some?
             && AllWellFormed(ReadArgs(c.indexes, lower, args[..k]).value)
             && Alike(ReadArgs(c.indexes, lower, args[..k]).value, columns)
             && ReadPartial(c.indexes[k], lower, args[k]).Some?
             && IsPartial(columns[k], ReadPartial(c.indexes[k], lower, args[k]).value)
    ensures ts[n].prefixFromArgs.Some? && ts[n].prefixFromArgs.value(args).Some?
    ensures var objs := Scan(tbl, n, ts[n].prefixFromArgs.value(args).value);
            if c.allowMissing then
              forall o :: IsLive(ts, tbl, o) && FieldsStart(c.indexes, lower, o, args) ==> o in objs
            else
              forall o :: o in objs <==> IsLive(ts, tbl, o) && HasFields(c.indexes, o) && FieldsStart(c.indexes, lower, o, args)
  {
    hide Sound, Complete, Join, FieldsStart, HasFields, Read, ReadArg, ReadPartial, AnswersPrefix, Scan, AllWellFormed, Like,
         ReadRow, ReadArgs, StartsWith, IsPartial, Alike, WellTyped;
    var k := |args| - 1;
    ArgsTake(c.indexes, lower, args[..k]);
    ArgsLength(c.indexes, lower, args[..k]);
    assert c.indexes[..k] == c.indexes[..|args[..k]|];
    var front, raw := ReadArgs(c.indexes, lower, args[..k]).value, ReadPartial(c.indexes[k], lower, args[k]).value;
    var row := (o: Object) => ReadRow(c.indexes, lower, o).parts;
    CompoundFiles(c, lower, allowMissing, unique);
    assert ts[n].prefixFromArgs.value(args).value == Join(front) + raw;
    forall o
      ensures o in Scan(tbl, n, Join(front) + raw) <==>
              Indexed(ts, tbl, n, o) && AnswersPrefix(row(o), Suffix(ts, n, o), front, raw)
      ensures IsLive(ts, tbl, o) ==>
                (Indexed(ts, tbl, n, o) <==> c.allowMissing || HasFields(c.indexes, o))
                && (FieldsStart(c.indexes, lower, o, args) <==>
                    k < |row(o)| && AnswersPrefix(row(o), Suffix(ts, n, o), front, raw))
                && (HasFields(c.indexes, o) ==> k < |row(o)|)
    {
      PrefixOnFields(ts, tbl, n, row, columns, front, raw, o);
      if IsLive(ts, tbl, o) {
        assert Indexable(ts[n], o);
        PrefixAnswer(c.indexes, lower, o, args, Suffix(ts, n, o));
        WholeIff(c.indexes, lower, o);
        RowAt(c.indexes, lower, o, k);
      }
    }
  }

  // ---------------------------------------------------------------- string slices, string maps, and multi-valued compounds

  /** A sub-index finds an object under its arguments: some non-empty item equals the argument; some
      pair with a non-empty key equals the two arguments; or the field equals the argument. */
  predicate GroupIs(ix: Sub, lower: Fold, o: Object, g: seq<Arg>) {
    match ix
    case Single(s) => |g| == 1 && FieldIs(s, lower, o, g[0])
    case SliceIx(f, lc) =>
      && |g| == 1 && f in o.fields && o.fields[f].Strs?
      && exists i :: 0 <= i < |o.fields[f].items| && ItemIs(lower, lc, o.fields[f].items[i], g[0])
    case MapIx(f, lc) =>
      && |g| == 2 && f in o.fields && o.fields[f].StrMap?
      && exists i :: 0 <= i < |o.fields[f].pairs| && PairIs(lower, lc, o.fields[f].pairs[i], g[0], g[1])
  }

  predicate ItemIs(lower: Fold, lowercase: bool, item: Key, a: Arg) {
    item != [] && SameText(lower, lowercase, item, a)
  }

  predicate PairIs(lower: Fold, lowercase: bool, pair: (Key, Key), k: Arg, v: Arg) {
    pair.0 != [] && SameText(lower, lowercase, pair.0, k) && SameText(lower, lowercase, pair.1, v)
  }

  lemma {:induction false} InSliceTuples(lower: Fold, lowercase: bool, items: seq<Key>, a: Arg)
    requires TextOf(lower, lowercase, a).Some?
    ensures [TextOf(lower, lowercase, a).value] in SliceTuples(lower, lowercase, items)
            <==> exists i :: 0 <= i < |items| && ItemIs(lower, lowercase, items[i], a)
  {
    if items != [] {
      InSliceTuples(lower, lowercase, items[1..], a);
      if i :| 0 <= i < |items[1..]| && ItemIs(lower, lowercase, items[1..][i], a) {
        assert ItemIs(lower, lowercase, items[i + 1], a);
      }
      if i :| 0 <= i < |items| && ItemIs(lower, lowercase, items[i], a) {
        assert i > 0 ==> items[i] == items[1..][i - 1];
      }
      assert items[0] != [] ==>
               (Text(Folded(lower, lowercase, items[0])) == TextOf(lower, lowercase, a).value
                <==> ItemIs(lower, lowercase, items[0], a));
      HeadOrTail([Text(Folded(lower, lowercase, items[0]))], SliceTuples(lower, lowercase, items[1..]),
                 [TextOf(lower, lowercase, a).value]);
    }
  }

  lemma HeadOrTail<T>(x: seq<T>, rest: seq<seq<T>>, y: seq<T>)
    ensures y in [x] + rest <==> x == y || y in rest
  {
  }

  lemma {:induction false} InMapTuples(lower: Fold, lowercase: bool, pairs: seq<(Key, Key)>, k: Arg, v: Arg)
    requires TextOf(lower, lowercase, k).Some? && TextOf(lower, lowercase, v).Some?
    ensures [TextOf(lower, lowercase, k).value, TextOf(lower, lowercase, v).value] in MapTuples(lower, lowercase, pairs)
            <==> exists i :: 0 <= i < |pairs| && PairIs(lower, lowercase, pairs[i], k, v)
  {
    if pairs != [] {
      InMapTuples(lower, lowercase, pairs[1..], k, v);
      if i :| 0 <= i < |pairs[1..]| && PairIs(lower, lowercase, pairs[1..][i], k, v) {
        assert PairIs(lower, lowercase, pairs[i + 1], k, v);
      }
      if i :| 0 <= i < |pairs| && PairIs(lower, lowercase, pairs[i], k, v) {
        assert i > 0 ==> pairs[i] == pairs[1..][i - 1];
      }
      var x := [Text(Folded(lower, lowercase, pairs[0].0)), Text(Folded(lower, lowercase, pairs[0].1))];
      var y := [TextOf(lower, lowercase, k).value, TextOf(lower, lowercase, v).value];
      assert x == y <==> x[0] == y[0] && x[1] == y[1];
      assert pairs[0].0 != [] ==> (x == y <==> PairIs(lower, lowercase, pairs[0], k, v));
      HeadOrTail(x, MapTuples(lower, lowercase, pairs[1..]), y);
    }
  }

  lemma {:induction false} MapTuplesArePairs(lower: Fold, lowercase: bool, pairs: seq<(Key, Key)>, t: seq<Part>)
    ensures t in MapTuples(lower, lowercase, pairs) ==> |t| == 2
  {
    if pairs != [] {
      MapTuplesArePairs(lower, lowercase, pairs[1..], t);
    }
  }

  /** One sub-index: what it reads from its arguments is among what it reads from the object exactly if
      the object has the value. */
  lemma SubMatches(ix: Sub, lower: Fold, o: Object, g: seq<Arg>)
    requires |g| == WidthOf(ix) && ReadGroup(ix, lower, g).Some? && !ReadSub(ix, lower, o).BadField?
    ensures ReadSub(ix, lower, o).Values? && ReadGroup(ix, lower, g).value in ReadSub(ix, lower, o).tuples
            <==> GroupIs(ix, lower, o, g)
  {
    hide SliceTuples, MapTuples, Read, ReadArg, FieldIs, ItemIs, PairIs;
    match ix
    case Single(s) =>
      ReadMatches(s, lower, o, g[0]);
    case SliceIx(f, lc) =>
      InSliceTuples(lower, lc, o.fields[f].items, g[0]);
    case MapIx(f, lc) =>
      if g[1].Nil? {
        MapTuplesArePairs(lower, lc, o.fields[f].pairs, ReadGroup(ix, lower, g).value);
        NilIsNoPair(lower, lc, g[0], g[1]);
      } else {
        InMapTuples(lower, lc, o.fields[f].pairs, g[0], g[1]);
      }
  }

  lemma NilIsNoPair(lower: Fold, lowercase: bool, k: Arg, v: Arg)
    requires v.Nil?
    ensures forall pair :: !PairIs(lower, lowercase, pair, k, v)
  {
  }

  /** The arguments of sub-index `i`. */
  function GroupOf(ixs: seq<Sub>, args: seq<Arg>, i: nat): seq<Arg>
    requires i < |ixs| && Width(ixs[..i + 1]) <= |args|
  {
    WidthSnoc(ixs, i);
    args[Width(ixs[..i])..Width(ixs[..i + 1])]
  }

  /** The first `j` sub-indexes find the object under their arguments. */
  predicate GroupsAre(ixs: seq<Sub>, lower: Fold, o: Object, args: seq<Arg>, j: nat)
    requires j <= |ixs| && Width(ixs[..j]) <= |args|
  {
    forall i :: 0 <= i < j ==> GroupAt(ixs, lower, o, args, j, i)
  }

  predicate GroupAt(ixs: seq<Sub>, lower: Fold, o: Object, args: seq<Arg>, j: nat, i: nat)
    requires i < j <= |ixs| && Width(ixs[..j]) <= |args|
  {
    WidthMonotone(ixs, i + 1, j);
    GroupIs(ixs[i], lower, o, GroupOf(ixs, args, i))
  }

  lemma {:induction false} WidthTail(ixs: seq<Sub>, i: nat)
    requires ixs != [] && 0 < i <= |ixs|
    ensures Width(ixs[..i]) == WidthOf(ixs[0]) + Width(ixs[1..][..i - 1])
  {
    assert ixs[..i][0] == ixs[0] && ixs[..i][1..] == ixs[1..][..i - 1];
  }

  lemma NoWidth(ixs: seq<Sub>)
    ensures Width(ixs[..0]) == 0
  {
  }

  lemma GroupsAreTail(ixs: seq<Sub>, lower: Fold, o: Object, args: seq<Arg>, j: nat)
    requires ixs != [] && 0 < j <= |ixs| && Width(ixs[..j]) <= |args|
    ensures WidthOf(ixs[0]) <= |args| && Width(ixs[1..][..j - 1]) <= |args[WidthOf(ixs[0])..]|
    ensures var w := WidthOf(ixs[0]);
            GroupsAre(ixs, lower, o, args, j) <==>
            GroupIs(ixs[0], lower, o, args[..w]) && GroupsAre(ixs[1..], lower, o, args[w..], j - 1)
  {
    hide GroupIs, Width, WidthOf;
    var w := WidthOf(ixs[0]);
    WidthTail(ixs, j);
    GroupShift(ixs, lower, o, args, j, 0);
    if GroupIs(ixs[0], lower, o, args[..w]) && GroupsAre(ixs[1..], lower, o, args[w..], j - 1) {
      forall i | 0 <= i < j ensures GroupAt(ixs, lower, o, args, j, i) {
        GroupShift(ixs, lower, o, args, j, i);
        assert i > 0 ==> GroupAt(ixs[1..], lower, o, args[w..], j - 1, i - 1);
      }
    }
    if GroupsAre(ixs, lower, o, args, j) {
      var rest, others, k := ixs[1..], args[w..], j - 1;
      forall i | 0 <= i < k ensures GroupAt(rest, lower, o, others, k, i) {
        GroupShift(ixs, lower, o, args, j, i + 1);
        assert GroupAt(ixs, lower, o, args, j, i + 1);
      }
    }
  }

  lemma GroupShift(ixs: seq<Sub>, lower: Fold, o: Object, args: seq<Arg>, j: nat, i: nat)
    requires i < j <= |ixs| && Width(ixs[..j]) <= |args|
    ensures WidthOf(ixs[0]) <= |args| && Width(ixs[1..][..j - 1]) <= |args[WidthOf(ixs[0])..]|
    ensures var w := WidthOf(ixs[0]);
            GroupAt(ixs, lower, o, args, j, i) <==>
            if i == 0 then GroupIs(ixs[0], lower, o, args[..w]) else GroupAt(ixs[1..], lower, o, args[w..], j - 1, i - 1)
  {
    hide GroupIs, WidthOf, Width;
    var w := WidthOf(ixs[0]);
    WidthTail(ixs, j);
    WidthTail(ixs, i + 1);
    WidthMonotone(ixs, i + 1, j);
    if i == 0 {
      NoWidth(ixs);
      NoWidth(ixs[1..]);
    } else {
      WidthTail(ixs, i);
      WidthMonotone(ixs[1..], i, j - 1);
      var a, b := Width(ixs[1..][..i - 1]), Width(ixs[1..][..i]);
      WidthSnoc(ixs[1..], i - 1);
      assert args[w..][a..b] == args[w + a..w + b];
    }
  }

  /** All sub-indexes that got arguments. */
  lemma {:induction false} LevelsMatch(ixs: seq<Sub>, lower: Fold, o: Object, args: seq<Arg>, j: nat)
    requires j <= |ixs| && Width(ixs[..j]) == |args| && ReadGroups(ixs, lower, args).Some?
    requires ReadLevels(ixs, lower, o).end != Broken
    ensures var ts, levels := ReadGroups(ixs, lower, args).value, ReadLevels(ixs, lower, o).levels;
            && |ts| == j
            && (|ts| <= |levels| && (forall i :: 0 <= i < |ts| ==> ts[i] in levels[i]) <==> GroupsAre(ixs, lower, o, args, j))
    decreases j
  {
    hide ReadSub, ReadGroup, GroupIs, GroupsAre;
    GroupsCount(ixs, lower, args, j);
    if j == 0 {
      NoGroupsAre(ixs, lower, o, args);
    } else {
      var w := WidthOf(ixs[0]);
      WidthTail(ixs, j);
      GroupsAreTail(ixs, lower, o, args, j);
      SubMatches(ixs[0], lower, o, args[..w]);
      if ReadSub(ixs[0], lower, o).Values? {
        LevelsMatch(ixs[1..], lower, o, args[w..], j - 1);
        EachIn(ReadGroup(ixs[0], lower, args[..w]).value, ReadGroups(ixs[1..], lower, args[w..]).value,
               ReadSub(ixs[0], lower, o).tuples, ReadLevels(ixs[1..], lower, o).levels);
      }
    }
  }

  lemma NoGroupsAre(ixs: seq<Sub>, lower: Fold, o: Object, args: seq<Arg>)
    requires Width(ixs[..0]) <= |args|
    ensures GroupsAre(ixs, lower, o, args, 0)
  {
  }

  predicate AllIn<T(==)>(ts: seq<T>, levels: seq<seq<T>>) {
    |ts| <= |levels| && forall i :: 0 <= i < |ts| ==> ts[i] in levels[i]
  }

  lemma EachIn<T>(t: T, ts: seq<T>, level: seq<T>, levels: seq<seq<T>>)
    ensures AllIn([t] + ts, [level] + levels) <==> t in level && AllIn(ts, levels)
  {
    var a, b := [t] + ts, [level] + levels;
    if t in level && AllIn(ts, levels) {
      forall i | 0 <= i < |a| ensures a[i] in b[i] {
        assert i > 0 ==> a[i] == ts[i - 1] && b[i] == levels[i - 1];
      }
    }
    if AllIn(a, b) {
      assert a[0] in b[0];
      forall i | 0 <= i < |ts| ensures ts[i] in levels[i] {
        assert a[i + 1] in b[i + 1];
      }
    }
  }

  predicate IsUuid(ix: Sub) {
    ix.Single? && ix.ix.UuidIx?
  }

  /** Arguments that an object has are accepted. A UUID is, too, in the text form of the field itself
      (`OwnFieldIsAccepted`); other text forms of the same bytes may have the wrong length. */
  lemma MatchingIsAccepted(ix: Sub, lower: Fold, o: Object, g: seq<Arg>)
    requires GroupIs(ix, lower, o, g) && !IsUuid(ix) && !ReadSub(ix, lower, o).BadField?
    ensures |g| == WidthOf(ix) && ReadGroup(ix, lower, g).Some?
  {
    match ix
    case Single(_) =>
    case SliceIx(f, lc) =>
      var i :| 0 <= i < |o.fields[f].items| && ItemIs(lower, lc, o.fields[f].items[i], g[0]);
    case MapIx(f, lc) =>
      var i :| 0 <= i < |o.fields[f].pairs| && PairIs(lower, lc, o.fields[f].pairs[i], g[0], g[1]);
  }

  lemma {:induction false} AllAccepted(ixs: seq<Sub>, lower: Fold, o: Object, args: seq<Arg>, j: nat)
    requires j <= |ixs| && Width(ixs[..j]) == |args| && GroupsAre(ixs, lower, o, args, j)
    requires ReadLevels(ixs, lower, o).end != Broken && forall i :: 0 <= i < j ==> !IsUuid(ixs[i])
    ensures ReadGroups(ixs, lower, args).Some?
    decreases j
  {
    hide ReadSub, ReadGroup, GroupIs, GroupsAre, IsUuid;
    if j == 0 {
      assert ixs[..0] == [];
    } else {
      var w := WidthOf(ixs[0]);
      WidthTail(ixs, j);
      GroupsAreTail(ixs, lower, o, args, j);
      MatchingIsAccepted(ixs[0], lower, o, args[..w]);
      SubMatches(ixs[0], lower, o, args[..w]);
      AllAccepted(ixs[1..], lower, o, args[w..], j - 1);
    }
  }

  /** An object has a value for a sub-index. */
  predicate HasSub(ix: Sub, o: Object) {
    match ix
    case Single(s) => HasField(s, o)
    case SliceIx(f, _) => f in o.fields && o.fields[f].Strs? && exists i :: 0 <= i < |o.fields[f].items| && o.fields[f].items[i] != []
    case MapIx(f, _) =>
      f in o.fields && o.fields[f].StrMap? && exists i :: 0 <= i < |o.fields[f].pairs| && o.fields[f].pairs[i].0 != []
  }

  lemma {:induction false} SliceTuplesIff(lower: Fold, lowercase: bool, items: seq<Key>)
    ensures SliceTuples(lower, lowercase, items) != [] <==> exists i :: 0 <= i < |items| && items[i] != []
  {
    if items != [] {
      SliceTuplesIff(lower, lowercase, items[1..]);
      if i :| 0 <= i < |items[1..]| && items[1..][i] != [] {
        assert items[i + 1] != [];
      }
      if i :| 0 <= i < |items| && items[i] != [] {
        assert i > 0 ==> items[1..][i - 1] != [];
      }
    }
  }

  lemma {:induction false} MapTuplesIff(lower: Fold, lowercase: bool, pairs: seq<(Key, Key)>)
    ensures MapTuples(lower, lowercase, pairs) != [] <==> exists i :: 0 <= i < |pairs| && pairs[i].0 != []
  {
    if pairs != [] {
      MapTuplesIff(lower, lowercase, pairs[1..]);
      if i :| 0 <= i < |pairs[1..]| && pairs[1..][i].0 != [] {
        assert pairs[i + 1].0 != [];
      }
      if i :| 0 <= i < |pairs| && pairs[i].0 != [] {
        assert i > 0 ==> pairs[1..][i - 1].0 != [];
      }
    }
  }

  lemma HasSubIff(ix: Sub, lower: Fold, o: Object)
    requires !ReadSub(ix, lower, o).BadField?
    ensures ReadSub(ix, lower, o).Values? <==> HasSub(ix, o)
  {
    hide SliceTuples, MapTuples, Read, HasField;
    match ix
    case Single(s) => PresentIff(s, lower, o);
    case SliceIx(f, lc) => SliceTuplesIff(lower, lc, o.fields[f].items);
    case MapIx(f, lc) => MapTuplesIff(lower, lc, o.fields[f].pairs);
  }

  /** The levels of an object stop at the first sub-index it has no value for; without `AllowMissing`
      such an object is not indexed at all. */
  lemma {:induction false} LevelsIff(ixs: seq<Sub>, lower: Fold, o: Object)
    requires ReadLevels(ixs, lower, o).end != Broken
    ensures var all := ReadLevels(ixs, lower, o);
            && |all.levels| <= |ixs| && (all.end == Whole <==> |all.levels| == |ixs|)
            && (forall i :: 0 <= i < |all.levels| ==> HasSub(ixs[i], o))
            && (all.end == Gap ==> |all.levels| < |ixs| && !HasSub(ixs[|all.levels|], o))
  {
    hide ReadSub, HasSub;
    if ixs != [] {
      HasSubIff(ixs[0], lower, o);
      if ReadSub(ixs[0], lower, o).Values? {
        LevelsIff(ixs[1..], lower, o);
        var all := ReadLevels(ixs, lower, o);
        forall i | 0 <= i < |all.levels| ensures HasSub(ixs[i], o) {
          assert i > 0 ==> ixs[i] == ixs[1..][i - 1];
        }
      }
    }
  }

  /** Lookup on a `CompoundMultiIndex`, from arguments to fields: the key of `FromArgs` is among the keys
      of an object, and without `AllowMissing` or with constant middle levels in the slices that
      `FromObject` leaves, if and only if each sub-index that got arguments finds the object under
      them. */
  lemma MultiLookup(m: Multi, lower: Fold, o: Object, args: seq<Arg>, j: nat, grow: SliceWalk.Growth)
    requires Matches(m, |args|, j) && args != [] && ReadGroups(m.indexes, lower, args).Some?
    requires var all := ReadLevels(m.indexes, lower, o);
             (all.end == Whole || (all.end == Gap && m.allowMissing)) && all.levels != []
             && Typed(all.levels, ReadGroups(m.indexes, lower, args).value)
    ensures var x := SliceWalk.Input(LevelKeys(ReadLevels(m.indexes, lower, o).levels), m.allowMissing, grow);
            var key := JoinAll(ReadGroups(m.indexes, lower, args).value);
            && (key in SliceWalk.Keys(x, [], 0, 0) <==> GroupsAre(m.indexes, lower, o, args, j))
            && (!m.allowMissing || SliceWalk.ConstantFrom(x.levels, 1) ==>
                  (InOutput(SliceWalk.Walk(x, SliceWalk.Fresh(), SliceWalk.NIL, 0, 0), key)
                   <==> GroupsAre(m.indexes, lower, o, args, j)))
  {
    hide ReadLevels, ReadGroups, Typed, JoinAll, SliceWalk.Walk, SliceWalk.Keys, SliceWalk.ConstantFrom, LevelKeys, InOutput,
         GroupsAre;
    assert Acceptable(m, |args|);
    LookupAgrees(m, lower, o, args, grow);
    LevelsMatch(m.indexes, lower, o, args, j);
    if !m.allowMissing || SliceWalk.ConstantFrom(LevelKeys(ReadLevels(m.indexes, lower, o).levels), 1) {
      LookupInOutput(m, lower, o, args, grow);
    }
  }

  /** A string-slice or string-map index by itself. */
  lemma SubLookup(ix: Sub, lower: Fold, allowMissing: bool, unique: bool, o: Object, g: seq<Arg>)
    requires !ix.Single? && |g| == WidthOf(ix) && ReadGroup(ix, lower, g).Some? && forall i :: 0 <= i < |g| ==> !g[i].Nil?
    requires !ReadSub(ix, lower, o).BadField?
    requires ReadSub(ix, lower, o).Values? ==> AllSameColumns(ReadGroup(ix, lower, g).value, ReadSub(ix, lower, o).tuples)
    ensures var s := SubSchema(ix, lower, allowMissing, unique);
            s.fromArgs(g).Some? && (s.fromArgs(g).value in ValuesOf(s, o) <==> GroupIs(ix, lower, o, g))
  {
    hide Join, GroupIs;
    var t := ReadGroup(ix, lower, g).value;
    SubMatches(ix, lower, o, g);
    if ReadSub(ix, lower, o).Values? {
      var ts := ReadSub(ix, lower, o).tuples;
      if Join(t) in JoinEach(ts) {
        var u := InJoinEach(ts, Join(t));
        FullKeysPrefixFree(t, u);
      }
      if t in ts {
        var i :| 0 <= i < |ts| && ts[i] == t;
        assert JoinEach(ts)[i] == Join(t);
      }
    }
  }

  predicate KeyIs(lower: Fold, lowercase: bool, pair: (Key, Key), k: Arg) {
    pair.0 != [] && SameText(lower, lowercase, pair.0, k)
  }

  /** Some value of a map reads `p` in its first column. */
  predicate SomeKey(tuples: seq<seq<Part>>, p: Part) {
    exists i :: 0 <= i < |tuples| && tuples[i] != [] && tuples[i][0] == p
  }

  lemma {:induction false} InMapKeys(lower: Fold, lowercase: bool, pairs: seq<(Key, Key)>, k: Arg)
    requires TextOf(lower, lowercase, k).Some?
    ensures SomeKey(MapTuples(lower, lowercase, pairs), TextOf(lower, lowercase, k).value)
            <==> exists i :: 0 <= i < |pairs| && KeyIs(lower, lowercase, pairs[i], k)
  {
    if pairs != [] {
      InMapKeys(lower, lowercase, pairs[1..], k);
      var p := TextOf(lower, lowercase, k).value;
      var rest := MapTuples(lower, lowercase, pairs[1..]);
      if i :| 0 <= i < |pairs[1..]| && KeyIs(lower, lowercase, pairs[1..][i], k) {
        assert KeyIs(lower, lowercase, pairs[i + 1], k);
      }
      if i :| 0 <= i < |pairs| && KeyIs(lower, lowercase, pairs[i], k) {
        assert i > 0 ==> pairs[i] == pairs[1..][i - 1];
      }
      var x := [Text(Folded(lower, lowercase, pairs[0].0)), Text(Folded(lower, lowercase, pairs[0].1))];
      assert pairs[0].0 != [] ==> (x[0] == p <==> KeyIs(lower, lowercase, pairs[0], k));
      SomeKeyCons(x, rest, p);
    }
  }

  lemma SomeKeyCons(x: seq<Part>, rest: seq<seq<Part>>, p: Part)
    requires x != []
    ensures SomeKey([x] + rest, p) <==> x[0] == p || SomeKey(rest, p)
  {
    var all := [x] + rest;
    if x[0] == p {
      assert all[0][0] == p;
    }
    if i :| 0 <= i < |rest| && rest[i] != [] && rest[i][0] == p {
      assert all[i + 1][0] == p;
    }
    if i :| 0 <= i < |all| && all[i] != [] && all[i][0] == p {
      assert i > 0 ==> all[i] == rest[i - 1];
    }
  }

  /** A string-map index with one argument. Its bytes are never a stored value, as the documentation of
      `FromArgs` warns, but they start exactly the values of pairs with that key, so that a scan
      finds these. */
  lemma MapKeyLookup(field: string, lowercase: bool, lower: Fold, allowMissing: bool, unique: bool, o: Object, k: Arg)
    requires TextOf(lower, lowercase, k).Some? && WellFormed(TextOf(lower, lowercase, k).value)
    requires field in o.fields && o.fields[field].StrMap?
    requires ValuesTyped(MapTuples(lower, lowercase, o.fields[field].pairs))
    ensures var s := SubSchema(MapIx(field, lowercase), lower, allowMissing, unique);
            && s.fromArgs([k]).Some?
            && var v := s.fromArgs([k]).value;
            && v !in ValuesOf(s, o)
            && ((exists i :: 0 <= i < |ValuesOf(s, o)| && v <= ValuesOf(s, o)[i]) <==>
                exists i :: 0 <= i < |o.fields[field].pairs| && KeyIs(lower, lowercase, o.fields[field].pairs[i], k))
  {
    hide MapTuples, KeyIs, Join, TextOf;
    var p := TextOf(lower, lowercase, k).value;
    var s, pairs := SubSchema(MapIx(field, lowercase), lower, allowMissing, unique), o.fields[field].pairs;
    var ts := MapTuples(lower, lowercase, pairs);
    TextIsText(lower, lowercase, k);
    InMapKeys(lower, lowercase, pairs, k);
    assert s.fromArgs([k]) == Some(Join([p]));
    forall i | 0 <= i < |ts| ensures |ts[i]| == 2 && (Join([p]) <= Join(ts[i]) <==> ts[i][0] == p) && Join([p]) != Join(ts[i]) {
      assert ts[i] in ts;
      MapTuplesArePairs(lower, lowercase, pairs, ts[i]);
      MapTuplesAreText(lower, lowercase, pairs, ts[i]);
      FirstColumn(p, ts[i]);
    }
    assert ValuesOf(s, o) == JoinEach(ts) by {
      assert ts == [] ==> JoinEach(ts) == [];
    }
  }

  lemma TextIsText(lower: Fold, lowercase: bool, k: Arg)
    requires TextOf(lower, lowercase, k).Some?
    ensures TextOf(lower, lowercase, k).value.Text?
  {
  }

  lemma {:induction false} MapTuplesAreText(lower: Fold, lowercase: bool, pairs: seq<(Key, Key)>, t: seq<Part>)
    ensures t in MapTuples(lower, lowercase, pairs) ==> forall i :: 0 <= i < |t| ==> t[i].Text?
  {
    if pairs != [] {
      MapTuplesAreText(lower, lowercase, pairs[1..], t);
    }
  }

  /** One column against two. */
  lemma FirstColumn(p: Part, t: seq<Part>)
    requires |t| == 2 && AllWellFormed(t) && WellFormed(p) && SameKind(p, t[0])
    ensures Join([p]) <= Join(t) <==> t[0] == p
    ensures Join([p]) != Join(t)
  {
    hide Encode, WellFormed;
    var none: Key := [];
    assert WellFormed(t[0]) && WellFormed(t[1]);
    Lengths(t[1]);
    JoinOne(p);
    JoinOne(t[0]);
    JoinSnoc([t[0]], t[1]);
    assert [t[0]] + [t[1]] == t;
    if Join([p]) <= Join(t) {
      PrefixesComparable(Encode(p), Encode(t[0]), Join(t));
      PartOrder(p, t[0]);
    }
  }

  /** Some key of a list starts with `p`. */
  predicate SomeStarts(vals: seq<Key>, p: Key) {
    exists i :: 0 <= i < |vals| && p <= vals[i]
  }

  lemma SomeStartsCons(k: Key, rest: seq<Key>, p: Key)
    ensures SomeStarts([k] + rest, p) <==> p <= k || SomeStarts(rest, p)
  {
    var all := [k] + rest;
    assert all[0] == k;
    if i :| 0 <= i < |rest| && p <= rest[i] {
      assert all[i + 1] == rest[i];
    }
    if i :| 0 <= i < |all| && p <= all[i] {
      assert i > 0 ==> all[i] == rest[i - 1];
    }
  }

  predicate ItemStarts(lower: Fold, lowercase: bool, item: Key, a: Arg) {
    && item != [] && a.Val? && a.f.Str?
    && if lowercase then lower(a.f.s) <= lower(item) else a.f.s <= item
  }

  predicate SomeItemStarts(lower: Fold, lowercase: bool, items: seq<Key>, a: Arg) {
    exists i :: 0 <= i < |items| && ItemStarts(lower, lowercase, items[i], a)
  }

  lemma SomeItemCons(lower: Fold, lowercase: bool, items: seq<Key>, a: Arg)
    requires items != []
    ensures SomeItemStarts(lower, lowercase, items, a) <==>
            ItemStarts(lower, lowercase, items[0], a) || SomeItemStarts(lower, lowercase, items[1..], a)
  {
    hide ItemStarts;
    if i :| 0 <= i < |items[1..]| && ItemStarts(lower, lowercase, items[1..][i], a) {
      assert ItemStarts(lower, lowercase, items[i + 1], a);
    }
    if i :| 0 <= i < |items| && ItemStarts(lower, lowercase, items[i], a) {
      assert i > 0 ==> items[i] == items[1..][i - 1];
    }
  }

  /** A prefix query on a string-slice index by itself: its bytes start a value of the object exactly if
      some non-empty item starts with the argument. */
  lemma SlicePrefixLookup(field: string, lowercase: bool, lower: Fold, allowMissing: bool, unique: bool, o: Object, a: Arg)
    requires TextOf(lower, lowercase, a).Some? && WellFormed(TextOf(lower, lowercase, a).value)
    requires field in o.fields && o.fields[field].Strs?
    ensures var s := SubSchema(SliceIx(field, lowercase), lower, allowMissing, unique);
            && s.prefixFromArgs.Some? && s.prefixFromArgs.value([a]).Some?
            && (SomeStarts(ValuesOf(s, o), s.prefixFromArgs.value([a]).value) <==>
                SomeItemStarts(lower, lowercase, o.fields[field].items, a))
  {
    hide SliceTuples, SomeItemStarts, SomeStarts, Join;
    var items := o.fields[field].items;
    var s := SubSchema(SliceIx(field, lowercase), lower, allowMissing, unique);
    var ts := SliceTuples(lower, lowercase, items);
    SliceStarts(lower, lowercase, items, a);
    assert ValuesOf(s, o) == JoinEach(ts) by {
      assert ts == [] ==> JoinEach(ts) == [];
    }
  }

  lemma {:induction false} SliceStarts(lower: Fold, lowercase: bool, items: seq<Key>, a: Arg)
    requires TextOf(lower, lowercase, a).Some? && WellFormed(TextOf(lower, lowercase, a).value)
    ensures SomeStarts(JoinEach(SliceTuples(lower, lowercase, items)), TextOf(lower, lowercase, a).value.s) <==>
            SomeItemStarts(lower, lowercase, items, a)
  {
    if items != [] {
      hide Join, SomeItemStarts, SomeStarts;
      SliceStarts(lower, lowercase, items[1..], a);
      SomeItemCons(lower, lowercase, items, a);
      var p := TextOf(lower, lowercase, a).value.s;
      var here := Folded(lower, lowercase, items[0]);
      if items[0] != [] {
        var rest := JoinEach(SliceTuples(lower, lowercase, items[1..]));
        JoinOne(Text(here));
        TextStarts(p, here);
        SomeStartsCons(here + [0], rest, p);
        assert JoinEach(SliceTuples(lower, lowercase, items)) == [here + [0]] + rest;
      }
    }
  }

  lemma TextStarts(p: Key, s: Key)
    requires 0 !in p
    ensures p <= s + [0] <==> p <= s
  {
    assert |p| == |s| + 1 ==> p[|s|] in p;
  }

  /** How many arguments a lookup takes. */
  lemma ArgumentCounts(ix: Indexer, c: Compound, sub: Sub, lower: Fold, allowMissing: bool, unique: bool, args: seq<Arg>)
    ensures FieldSchema(ix, lower, allowMissing, unique).fromArgs(args).Some? ==> |args| == 1
    ensures CompoundSchema(c, lower, allowMissing, unique).fromArgs(args).Some? ==> |args| == |c.indexes|
    ensures CompoundSchema(c, lower, allowMissing, unique).prefixFromArgs.value(args).Some? ==> |args| <= |c.indexes|
    ensures !sub.Single? && SubSchema(sub, lower, allowMissing, unique).fromArgs(args).Some? ==>
              |args| == 1 || (|args| == 2 && sub.MapIx?)
  {
    hide ReadArg, ReadArgs, ReadPartial;
  }
}
