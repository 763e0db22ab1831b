/**
 The single-valued indexers and `CompoundIndex`.

 Reading a field yields a `Part`; the key is its encoding. `lower` stands for the Unicode
 `strings.ToLower`; an index that does not fold case ignores it.
 */
module Indexers {
  import opened Bytes
  import opened Schema
  import opened Store
  import opened Agreement
  import opened Codec
  import Uuid

  type Fold = Key -> Key

  datatype Indexer =
    | StringIx(field: string, lowercase: bool)
    | IntIx(field: string)
    | UintIx(field: string)
    | BoolIx(field: string)
    | UuidIx(field: string)

  datatype Reading = Invalid | Missing | Present(part: Part)

  function Folded(lower: Fold, lowercase: bool, s: Key): Key {
    if lowercase then lower(s) else s
  }

  function Parsed(bytes: Option<Key>): Reading {
    if bytes.Some? then Present(Uuid(bytes.value)) else Invalid
  }

  /** What `FromObject` reads; a field of another kind is an error. */
  function Read(ix: Indexer, lower: Fold, o: Object): Reading {
    if ix.field !in o.fields then Invalid
    else
      match (ix, o.fields[ix.field])
      case (StringIx(_, lc), Str(s)) => if s == [] then Missing else Present(Text(Folded(lower, lc, s)))
      case (StringIx(_, _), NilStr) => Missing
      case (IntIx(_), Int(size, i)) =>
        if IsWidth(size) && FitsSigned(i, size) then Present(Signed(size, i)) else Invalid
      case (UintIx(_), Uint(size, u)) =>
        if IsWidth(size) && FitsUnsigned(u, size) then Present(Unsigned(size, u)) else Invalid
      case (BoolIx(_), Bool(b)) => Present(Flag(b))
      case (UuidIx(_), Str(s)) => if s == [] then Missing else Parsed(Uuid.ParseString(s, true))
      case _ => Invalid
  }

  /** What `FromArgs` reads from its one argument. An integer is encoded in its own width. */
  function ReadArg(ix: Indexer, lower: Fold, a: Arg): Option<Part> {
    match (ix, a)
    case (StringIx(_, lc), Val(Str(s))) => Some(Text(Folded(lower, lc, s)))
    case (IntIx(_), Val(Int(size, i))) =>
      if IsWidth(size) && FitsSigned(i, size) then Some(Signed(size, i)) else None
    case (UintIx(_), Val(Uint(size, u))) =>
      if IsWidth(size) && FitsUnsigned(u, size) then Some(Unsigned(size, u)) else None
    case (BoolIx(_), Val(Bool(b))) => Some(Flag(b))
    case (UuidIx(_), Val(Str(s))) =>
      var r := Uuid.ParseString(s, true); if r.Some? then Some(Uuid(r.value)) else None
    case (UuidIx(_), Raw(bytes)) => if |bytes| == 16 then Some(Uuid(bytes)) else None
    case _ => None
  }

  /** `PrefixFromArgs` of the two prefix indexers: the text without its terminator, or the
      leading bytes of a UUID. */
  function ReadPartial(ix: Indexer, lower: Fold, a: Arg): Option<Key> {
    match (ix, a)
    case (StringIx(_, lc), Val(Str(s))) => Some(Folded(lower, lc, s))
    case (UuidIx(_), Val(Str(s))) => Uuid.ParseString(s, false)
    case (UuidIx(_), Raw(bytes)) => Some(bytes)
    case _ => None
  }

  function FromObject(ix: Indexer, lower: Fold, o: Object): Extract {
    match Read(ix, lower, o)
    case Invalid => Failed
    case Missing => Extract(false, [[]])
    case Present(p) => Extract(true, [Encode(p)])
  }

  // ---------------------------------------------------------------- CompoundIndex

  datatype Compound = Compound(indexes: seq<Indexer>, allowMissing: bool)

  /** How far the columns of an object could be read. */
  datatype End = Whole | Gap | Broken

  datatype Row = Row(parts: seq<Part>, end: End)

  function ReadRow(ixs: seq<Indexer>, lower: Fold, o: Object): Row {
    if ixs == [] then Row([], Whole)
    else
      match Read(ixs[0], lower, o)
      case Invalid => Row([], Broken)
      case Missing => Row([], Gap)
      case Present(p) => var rest := ReadRow(ixs[1..], lower, o); Row([p] + rest.parts, rest.end)
  }

  function ReadArgs(ixs: seq<Indexer>, lower: Fold, args: seq<Arg>): Option<seq<Part>>
    requires |args| <= |ixs|
    decreases |args|
  {
    if args == [] then Some([])
    else
      var p, rest := ReadArg(ixs[0], lower, args[0]), ReadArgs(ixs[1..], lower, args[1..]);
      if p.Some? && rest.Some? then Some([p.value] + rest.value) else None
  }

  /** The key of the columns read: all of them, or with `AllowMissing` those before the gap. */
  function RowExtract(row: Row, allowMissing: bool): Extract {
    match row.end
    case Broken => Failed
    case Gap => if allowMissing then Extract(true, [Join(row.parts)]) else Extract(false, [[]])
    case Whole => Extract(true, [Join(row.parts)])
  }

  function TupleKey(parts: Option<seq<Part>>): Option<Key> {
    if parts.Some? then Some(Join(parts.value)) else None
  }

  function PrefixKey(ixs: seq<Indexer>, lower: Fold, args: seq<Arg>): Option<Key> {
    if |args| > |ixs| then None
    else if args == [] then Some([])
    else
      var n := |args| - 1;
      var front := ReadArgs(ixs[..n], lower, args[..n]);
      var raw := ReadPartial(ixs[n], lower, args[n]);
      if front.Some? && raw.Some? then Some(Join(front.value) + raw.value) else None
  }

  lemma {:induction false} JoinConcat(a: seq<Part>, b: seq<Part>)
    ensures Join(a + b) == Join(a) + Join(b)
  {
    if a == [] {
      assert a + b == b;
    } else {
      assert (a + b)[1..] == a[1..] + b;
      JoinConcat(a[1..], b);
    }
  }

  lemma JoinSnoc(a: seq<Part>, p: Part)
    ensures Join(a + [p]) == Join(a) + Encode(p)
  {
    JoinConcat(a, [p]);
    assert Join([p]) == Encode(p) + Join([p][1..]);
  }

  /** One round of the loops below: what is left of a list, one column further. */
  lemma Shift<T>(done: seq<T>, p: T, rest: seq<T>)
    ensures done + ([p] + rest) == (done + [p]) + rest
    ensures [] + rest == rest && done + [] == done
  {
  }

  lemma RowStep(ixs: seq<Indexer>, lower: Fold, o: Object, i: nat)
    requires i < |ixs|
    ensures ReadRow(ixs[i..], lower, o) ==
            match Read(ixs[i], lower, o)
            case Invalid => Row([], Broken)
            case Missing => Row([], Gap)
            case Present(p) => var rest := ReadRow(ixs[i + 1..], lower, o); Row([p] + rest.parts, rest.end)
  {
    assert ixs[i..][0] == ixs[i] && ixs[i..][1..] == ixs[i + 1..];
  }

  lemma ArgsStep(ixs: seq<Indexer>, lower: Fold, args: seq<Arg>, i: nat)
    requires i < |args| <= |ixs|
    ensures ReadArgs(ixs[i..], lower, args[i..]) ==
            var p, rest := ReadArg(ixs[i], lower, args[i]), ReadArgs(ixs[i + 1..], lower, args[i + 1..]);
            if p.Some? && rest.Some? then Some([p.value] + rest.value) else None
  {
    assert ixs[i..][0] == ixs[i] && ixs[i..][1..] == ixs[i + 1..];
    assert args[i..][0] == args[i] && args[i..][1..] == args[i + 1..];
  }

  lemma NoColumns(ixs: seq<Indexer>, lower: Fold, o: Object)
    requires ixs == []
    ensures ReadRow(ixs, lower, o) == Row([], Whole)
  {
  }

  lemma NoArgs(ixs: seq<Indexer>, lower: Fold, args: seq<Arg>)
    requires args == []
    ensures ReadArgs(ixs, lower, args) == Some([])
  {
  }

  /** A list read so far, and what there is still to read. */
  function Resume(done: seq<Part>, rest: Option<seq<Part>>): Option<seq<Part>> {
    if rest.Some? then Some(done + rest.value) else None
  }

  /** `CompoundIndex.FromObject`. */
  method CompoundFromObject(c: Compound, lower: Fold, o: Object) returns (e: Extract)
    ensures e == RowExtract(ReadRow(c.indexes, lower, o), c.allowMissing)
  {
    hide Read, ReadRow, Encode, Join;
    var out: Key := [];
    ghost var done: seq<Part> := [];
    JoinNone(done);
    ghost var all := ReadRow(c.indexes, lower, o);
    assert c.indexes[0..] == c.indexes && done + all.parts == all.parts;
    var i := 0;
    while i < |c.indexes|
      invariant 0 <= i <= |c.indexes| && out == Join(done)
      invariant all.end == ReadRow(c.indexes[i..], lower, o).end
      invariant all.parts == done + ReadRow(c.indexes[i..], lower, o).parts
    {
      RowStep(c.indexes, lower, o, i);
      match Read(c.indexes[i], lower, o)
      case Invalid =>
        return Failed;
      case Missing =>
        if !c.allowMissing {
          return Extract(false, [[]]);
        }
        assert done + [] == done;
        return Extract(true, [out]);
      case Present(p) =>
        Shift(done, p, ReadRow(c.indexes[i + 1..], lower, o).parts);
        JoinSnoc(done, p);
        done := done + [p];
        out := out + Encode(p);
        i := i + 1;
    }
    NoColumns(c.indexes[i..], lower, o);
    assert done + [] == done;
    e := Extract(true, [out]);
  }

  lemma JoinNone(none: seq<Part>)
    requires none == []
    ensures Join(none) == []
  {
  }

  /** `CompoundIndex.FromArgs`. */
  method CompoundFromArgs(c: Compound, lower: Fold, args: seq<Arg>) returns (key: Option<Key>)
    ensures key == if |args| != |c.indexes| then None else TupleKey(ReadArgs(c.indexes, lower, args))
  {
    if |args| != |c.indexes| {
      return None;
    }
    key := JoinArgs(c.indexes, lower, args);
  }

  /** The loop that `FromArgs` and `PrefixFromArgs` share. */
  method JoinArgs(ixs: seq<Indexer>, lower: Fold, args: seq<Arg>) returns (key: Option<Key>)
    requires |args| <= |ixs|
    ensures key == TupleKey(ReadArgs(ixs, lower, args))
  {
    hide ReadArg, ReadArgs, Encode, Join;
    var out: Key := [];
    ghost var done: seq<Part> := [];
    JoinNone(done);
    ghost var all := ReadArgs(ixs, lower, args);
    assert args[0..] == args && ixs[0..] == ixs;
    assert all.Some? ==> done + all.value == all.value;
    var i := 0;
    while i < |args|
      invariant 0 <= i <= |args| && out == Join(done)
      invariant all == Resume(done, ReadArgs(ixs[i..], lower, args[i..]))
    {
      ArgsStep(ixs, lower, args, i);
      var p := ReadArg(ixs[i], lower, args[i]);
      if p.None? {
        return None;
      }
      ghost var rest := ReadArgs(ixs[i + 1..], lower, args[i + 1..]);
      if rest.Some? {
        Shift(done, p.value, rest.value);
      }
      JoinSnoc(done, p.value);
      done := done + [p.value];
      out := out + Encode(p.value);
      i := i + 1;
    }
    NoArgs(ixs[i..], lower, args[i..]);
    assert done + [] == done;
    key := Some(out);
  }

  /** `CompoundIndex.PrefixFromArgs`. */
  method CompoundPrefixFromArgs(c: Compound, lower: Fold, args: seq<Arg>) returns (key: Option<Key>)
    ensures key == PrefixKey(c.indexes, lower, args)
  {
    if |args| > |c.indexes| {
      return None;
    }
    if args == [] {
      return Some([]);
    }
    var n := |args| - 1;
    var front := JoinArgs(c.indexes[..n], lower, args[..n]);
    if front.None? {
      return None;
    }
    var raw := ReadPartial(c.indexes[n], lower, args[n]);
    if raw.None? {
      return None;
    }
    key := Some(front.value + raw.value);
  }

  /** The index schema of a compound index. */
  function CompoundSchema(c: Compound, lower: Fold, allowMissing: bool, unique: bool): IndexSchema {
    IndexSchema(
      allowMissing, unique,
      (o: Object) => RowExtract(ReadRow(c.indexes, lower, o), c.allowMissing),
      (args: seq<Arg>) =>
        if |args| != |c.indexes| then None else TupleKey(ReadArgs(c.indexes, lower, args)),
      Some((args: seq<Arg>) => PrefixKey(c.indexes, lower, args)))
  }

  /** The index schema of a single field; it files the one-column tuple. */
  function FieldSchema(ix: Indexer, lower: Fold, allowMissing: bool, unique: bool): IndexSchema {
    IndexSchema(
      allowMissing, unique,
      (o: Object) => FromObject(ix, lower, o),
      (args: seq<Arg>) =>
        if |args| != 1 then None
        else var p := ReadArg(ix, lower, args[0]); if p.Some? then Some(Encode(p.value)) else None,
      if ix.StringIx? || ix.UuidIx? then
        Some((args: seq<Arg>) => if |args| != 1 then None else ReadPartial(ix, lower, args[0]))
      else None)
  }

  lemma JoinOne(p: Part)
    ensures Join([p]) == Encode(p)
  {
    assert Join([p]) == Encode(p) + Join([p][1..]);
  }

  // ---------------------------------------------------------------- missing values

  /** Whatever a field index reads has a non-empty encoding. */
  lemma PresentNonEmpty(ix: Indexer, lower: Fold, o: Object)
    ensures Read(ix, lower, o).Present? ==> Encode(Read(ix, lower, o).part) != []
  {
    if Read(ix, lower, o).Present? {
      var p := Read(ix, lower, o).part;
      match p
      case Signed(size, i) =>
        FlipIsShift(i, size);
        assert |Encode(p)| == size;
      case Uuid(bytes) =>
        Uuid.EnforcedLengthIff(o.fields[ix.field].s);
      case _ =>
    }
  }

  lemma WholeNonEmpty(ixs: seq<Indexer>, lower: Fold, o: Object)
    requires ixs != [] && ReadRow(ixs, lower, o).end == Whole
    ensures Join(ReadRow(ixs, lower, o).parts) != []
  {
    PresentNonEmpty(ixs[0], lower, o);
    var rest := ReadRow(ixs[1..], lower, o).parts;
    assert ReadRow(ixs, lower, o).parts == [Read(ixs[0], lower, o).part] + rest;
    assert ([Read(ixs[0], lower, o).part] + rest)[1..] == rest;
  }

  /** A field index never leaves a residue of a missing value, for any objects: it reports nil,
      and no key it has stored is empty. */
  lemma FieldLeavesNoResidue(ix: Indexer, lower: Fold, allowMissing: bool, unique: bool, existing: Option<Object>,
                             obj: Object, id: Key)
    ensures NoResidue(FieldSchema(ix, lower, allowMissing, unique), existing, obj, id)
  {
    var s := FieldSchema(ix, lower, allowMissing, unique);
    if existing.Some? {
      PresentNonEmpty(ix, lower, existing.value);
    }
    forall k | k in OldKeys(s, existing, id) ensures k != [] {
      var ks := OldKeys(s, existing, id);
      assert |ks| == 1 && k == ks[0];
    }
    NilLeavesNoResidue(s, existing, obj, id);
  }

  /** Neither does a compound index: where it can report a missing value, its stored keys have
      all columns. */
  lemma CompoundLeavesNoResidue(c: Compound, lower: Fold, allowMissing: bool, unique: bool, existing: Option<Object>,
                                obj: Object, id: Key)
    ensures NoResidue(CompoundSchema(c, lower, allowMissing, unique), existing, obj, id)
  {
    var s := CompoundSchema(c, lower, allowMissing, unique);
    var e := s.fromObject(obj);
    if e.Extract? && !e.ok {
      assert c.indexes != [] && !c.allowMissing;
      if existing.Some? && ReadRow(c.indexes, lower, existing.value).end == Whole {
        WholeNonEmpty(c.indexes, lower, existing.value);
      }
      forall k | k in OldKeys(s, existing, id) ensures k != [] {
        var ks := OldKeys(s, existing, id);
        assert |ks| == 1 && k == ks[0];
      }
      NilLeavesNoResidue(s, existing, obj, id);
    }
  }
}
