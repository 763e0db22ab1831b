/**
 `CompoundMultiIndex`: the two-pass argument matcher of `FromArgs`, and agreement of lookups
 with the keys that `FromObject` produces, at value level (`SliceWalk` treats storage).
 */
module MultiIndex {
  import opened Bytes
  import opened Schema
  import opened Store
  import opened Agreement
  import opened Codec
  import opened Indexers
  import SliceWalk

  /** A sub-index: single-valued, a string slice, or a string map. */
  datatype Sub =
    | Single(ix: Indexer)
    | SliceIx(field: string, lowercase: bool)
    | MapIx(field: string, lowercase: bool)

  datatype Multi = Multi(indexes: seq<Sub>, allowMissing: bool)

  // ---------------------------------------------------------------- the argument matcher

  /** Arguments a sub-index takes: two for a string map, else one. */
  function WidthOf(ix: Sub): nat {
    if ix.MapIx? then 2 else 1
  }

  function Width(ixs: seq<Sub>): nat {
    if ixs == [] then 0 else WidthOf(ixs[0]) + Width(ixs[1..])
  }

  /** `n` arguments are exactly what the first `j` sub-indexes take. */
  predicate Matches(m: Multi, n: nat, j: nat) {
    j <= |m.indexes| && Width(m.indexes[..j]) == n && (m.allowMissing || j == |m.indexes|)
  }

  ghost predicate Acceptable(m: Multi, n: nat) {
    exists j :: Matches(m, n, j)
  }

  lemma {:induction false} WidthSnoc(ixs: seq<Sub>, j: nat)
    requires j < |ixs|
    ensures Width(ixs[..j + 1]) == Width(ixs[..j]) + WidthOf(ixs[j])
  {
    if j == 0 {
      assert ixs[..1][1..] == [] && ixs[..0] == [];
    } else {
      assert ixs[..j + 1][1..] == ixs[1..][..j] && ixs[..j][1..] == ixs[1..][..j - 1];
      WidthSnoc(ixs[1..], j - 1);
    }
  }

  lemma {:induction false} WidthMonotone(ixs: seq<Sub>, i: nat, j: nat)
    requires i <= j <= |ixs|
    ensures Width(ixs[..i]) + (j - i) <= Width(ixs[..j])
    ensures Width(ixs[..j]) <= j + MapCount(ixs[..j])
    decreases j
  {
    if j == 0 {
      assert ixs[..0] == [];
    } else {
      WidthSnoc(ixs, j - 1);
      MapCountSnoc(ixs, j - 1);
      if i < j {
        WidthMonotone(ixs, i, j - 1);
      } else {
        WidthMonotone(ixs, j - 1, j - 1);
      }
    }
  }

  function MapCount(ixs: seq<Sub>): nat {
    if ixs == [] then 0 else (if ixs[0].MapIx? then 1 else 0) + MapCount(ixs[1..])
  }

  lemma {:induction false} MapCountSnoc(ixs: seq<Sub>, j: nat)
    requires j < |ixs|
    ensures MapCount(ixs[..j + 1]) == MapCount(ixs[..j]) + if ixs[j].MapIx? then 1 else 0
  {
    if j == 0 {
      assert ixs[..1][1..] == [] && ixs[..0] == [];
    } else {
      assert ixs[..j + 1][1..] == ixs[1..][..j] && ixs[..j][1..] == ixs[1..][..j - 1];
      MapCountSnoc(ixs[1..], j - 1);
    }
  }

  /** Nothing but the first `j` sub-indexes can match, once they take at least `n`. */
  lemma OnlyMatch(m: Multi, n: nat, j: nat, i: nat)
    requires j <= |m.indexes| && n <= Width(m.indexes[..j])
    requires j > 0 ==> Width(m.indexes[..j - 1]) < n
    ensures Matches(m, n, i) ==> i == j && n == Width(m.indexes[..j])
  {
    if i <= |m.indexes| {
      if i < j {
        WidthMonotone(m.indexes, i, j - 1);
      } else if i > j {
        WidthMonotone(m.indexes, j, i);
      }
    }
  }

  /** The first pass of `FromArgs`: count arguments and string maps, then compare. */
  method CountArgs(m: Multi, n: nat) returns (ok: bool)
    ensures ok <==> Acceptable(m, n)
  {
    var stringMapCount, argCount := 0, 0;
    var i := 0;
    while i < |m.indexes| && argCount < n
      invariant 0 <= i <= |m.indexes|
      invariant argCount == Width(m.indexes[..i]) == i + stringMapCount
      invariant argCount <= n
      invariant i > 0 ==> Width(m.indexes[..i - 1]) < n
    {
      WidthSnoc(m.indexes, i);
      if m.indexes[i].MapIx? {
        if argCount + 1 >= n {
          Straddles(m, n, i);
          return false;
        }
        stringMapCount := stringMapCount + 1;
        argCount := argCount + 2;
      } else {
        argCount := argCount + 1;
      }
      i := i + 1;
    }
    if m.allowMissing {
      ok := n <= |m.indexes| + stringMapCount;
    } else {
      ok := n == |m.indexes| + stringMapCount;
    }
    CountDecides(m, n, i, stringMapCount);
  }

  /** A string map that would be left with one argument: no match. */
  lemma Straddles(m: Multi, n: nat, i: nat)
    requires i < |m.indexes| && m.indexes[i].MapIx?
    requires Width(m.indexes[..i]) + 1 == n
    ensures !Acceptable(m, n)
  {
    WidthSnoc(m.indexes, i);
    forall j: nat ensures !Matches(m, n, j) {
      OnlyMatch(m, n, i + 1, j);
    }
  }

  /** The comparison after the first pass decides. */
  lemma CountDecides(m: Multi, n: nat, i: nat, maps: nat)
    requires i <= |m.indexes| && Width(m.indexes[..i]) == i + maps <= n
    requires i > 0 ==> Width(m.indexes[..i - 1]) < n
    requires i == |m.indexes| || Width(m.indexes[..i]) == n
    ensures Acceptable(m, n) <==>
            if m.allowMissing then n <= |m.indexes| + maps else n == |m.indexes| + maps
  {
    if Width(m.indexes[..i]) == n {
      forall j: nat ensures Matches(m, n, j) ==> j == i {
        OnlyMatch(m, n, i, j);
      }
      assert Acceptable(m, n) ==> Matches(m, n, i);
      assert m.allowMissing || i == |m.indexes| ==> Matches(m, n, i);
    } else {
      forall j: nat ensures !Matches(m, n, j) {
        if j <= i {
          WidthMonotone(m.indexes, j, i);
        }
      }
    }
  }

  /** How the second pass shares the arguments out. */
  function Groups(ixs: seq<Sub>, args: seq<Arg>): seq<seq<Arg>> {
    if args == [] || ixs == [] || WidthOf(ixs[0]) > |args| then []
    else [args[..WidthOf(ixs[0])]] + Groups(ixs[1..], args[WidthOf(ixs[0])..])
  }

  function Flatten<T>(groups: seq<seq<T>>): seq<T> {
    if groups == [] then [] else groups[0] + Flatten(groups[1..])
  }

  /** Every argument belongs to exactly one group, in order, and each group has the width of
      its sub-index. */
  lemma {:induction false} GroupsCover(ixs: seq<Sub>, args: seq<Arg>, j: nat)
    requires j <= |ixs| && Width(ixs[..j]) == |args|
    ensures Flatten(Groups(ixs, args)) == args
    ensures |Groups(ixs, args)| == j
    ensures forall i :: 0 <= i < j ==> |Groups(ixs, args)[i]| == WidthOf(ixs[i])
  {
    if j == 0 {
      assert ixs[..0] == [];
    } else {
      var w := WidthOf(ixs[0]);
      assert ixs[..j][1..] == ixs[1..][..j - 1];
      GroupsCover(ixs[1..], args[w..], j - 1);
      assert args == args[..w] + args[w..];
    }
  }

  // ---------------------------------------------------------------- lookups

  function TextOf(lower: Fold, lowercase: bool, a: Arg): Option<Part> {
    if a.Val? && a.f.Str? then Some(Text(Folded(lower, lowercase, a.f.s))) else None
  }

  /** The columns that a sub-index reads from its group of arguments. A string map with a nil
      second argument yields only the key. */
  function ReadGroup(ix: Sub, lower: Fold, group: seq<Arg>): Option<seq<Part>>
    requires |group| == WidthOf(ix)
  {
    match ix
    case Single(s) =>
      var p := ReadArg(s, lower, group[0]); if p.Some? then Some([p.value]) else None
    case SliceIx(_, lc) =>
      var p := TextOf(lower, lc, group[0]); if p.Some? then Some([p.value]) else None
    case MapIx(_, lc) =>
      var k := TextOf(lower, lc, group[0]);
      if k.None? then None
      else if group[1].Nil? then Some([k.value])
      else
        var v := TextOf(lower, lc, group[1]);
        if v.Some? then Some([k.value, v.value]) else None
  }

  function ReadGroups(ixs: seq<Sub>, lower: Fold, args: seq<Arg>): Option<seq<seq<Part>>> {
    if args == [] || ixs == [] || WidthOf(ixs[0]) > |args| then Some([])
    else
      var first := ReadGroup(ixs[0], lower, args[..WidthOf(ixs[0])]);
      var rest := ReadGroups(ixs[1..], lower, args[WidthOf(ixs[0])..]);
      if first.Some? && rest.Some? then Some([first.value] + rest.value) else None
  }

  function JoinAll(tuples: seq<seq<Part>>): Key {
    if tuples == [] then [] else Join(tuples[0]) + JoinAll(tuples[1..])
  }

  lemma {:induction false} JoinAllSnoc(a: seq<seq<Part>>, t: seq<Part>)
    ensures JoinAll(a + [t]) == JoinAll(a) + Join(t)
  {
    if a == [] {
      assert [t][1..] == [] && JoinAll([t]) == Join(t) + JoinAll([t][1..]);
      assert a + [t] == [t];
    } else {
      assert (a + [t])[1..] == a[1..] + [t];
      JoinAllSnoc(a[1..], t);
    }
  }

  lemma GroupsStep(ixs: seq<Sub>, lower: Fold, args: seq<Arg>, i: nat, k: nat)
    requires i < |ixs| && k + WidthOf(ixs[i]) <= |args|
    ensures var w := WidthOf(ixs[i]);
            ReadGroups(ixs[i..], lower, args[k..]) ==
            var first, rest := ReadGroup(ixs[i], lower, args[k..k + w]), ReadGroups(ixs[i + 1..], lower, args[k + w..]);
            if first.Some? && rest.Some? then Some([first.value] + rest.value) else None
  {
    var w := WidthOf(ixs[i]);
    assert ixs[i..][0] == ixs[i] && ixs[i..][1..] == ixs[i + 1..];
    assert args[k..][..w] == args[k..k + w] && args[k..][w..] == args[k + w..];
  }

  /** What is read so far and what is left to read. */
  function ResumeGroups(done: seq<seq<Part>>, rest: Option<seq<seq<Part>>>): Option<seq<seq<Part>>> {
    if rest.Some? then Some(done + rest.value) else None
  }

  lemma NoGroups(ixs: seq<Sub>, lower: Fold, args: seq<Arg>)
    requires args == []
    ensures ReadGroups(ixs, lower, args) == Some([])
  {
  }

  /** `CompoundMultiIndex.FromArgs`. The second pass reads `args` only where the first pass
      promised an argument: every index below is in range. */
  method FromArgs(m: Multi, lower: Fold, args: seq<Arg>) returns (key: Option<Key>)
    ensures key.Some? <==> Acceptable(m, |args|) && ReadGroups(m.indexes, lower, args).Some?
    ensures key.Some? ==> key.value == JoinAll(ReadGroups(m.indexes, lower, args).value)
  {
    hide ReadGroups, ReadGroup, Join, JoinAll;
    var ok := CountArgs(m, |args|);
    if !ok {
      return None;
    }
    ghost var k :| Matches(m, |args|, k);
    var out: Key := [];
    ghost var done: seq<seq<Part>> := [];
    JoinNothing(done);
    ghost var all := ReadGroups(m.indexes, lower, args);
    assert m.indexes[0..] == m.indexes && args[0..] == args && m.indexes[..0] == [];
    assert all.Some? ==> done + all.value == all.value;
    var argCount, i := 0, 0;
    while i < |m.indexes| && argCount < |args|
      invariant 0 <= i <= |m.indexes| && argCount == Width(m.indexes[..i]) <= |args|
      invariant out == JoinAll(done)
      invariant all == ResumeGroups(done, ReadGroups(m.indexes[i..], lower, args[argCount..]))
    {
      NextFits(m, |args|, k, i);
      var w := WidthOf(m.indexes[i]);
      GroupsStep(m.indexes, lower, args, i, argCount);
      WidthSnoc(m.indexes, i);
      var val := ReadGroup(m.indexes[i], lower, args[argCount..argCount + w]);
      if val.None? {
        return None;
      }
      ghost var rest := ReadGroups(m.indexes[i + 1..], lower, args[argCount + w..]);
      if rest.Some? {
        Shift(done, val.value, rest.value);
      }
      JoinAllSnoc(done, val.value);
      done := done + [val.value];
      out := out + Join(val.value);
      argCount, i := argCount + w, i + 1;
    }
    AllConsumed(m, |args|, k, i);
    NoGroups(m.indexes[i..], lower, args[argCount..]);
    assert done + [] == done;
    key := Some(out);
  }

  lemma JoinNothing(none: seq<seq<Part>>)
    requires none == []
    ensures JoinAll(none) == []
  {
  }

  /** While arguments are left, the next sub-index gets all it takes. */
  lemma NextFits(m: Multi, n: nat, k: nat, i: nat)
    requires Matches(m, n, k) && i < |m.indexes| && Width(m.indexes[..i]) < n
    ensures Width(m.indexes[..i]) + WidthOf(m.indexes[i]) <= n
  {
    WidthSnoc(m.indexes, i);
    if k <= i {
      WidthMonotone(m.indexes, k, i);
    } else {
      WidthMonotone(m.indexes, i + 1, k);
    }
  }

  lemma AllConsumed(m: Multi, n: nat, k: nat, i: nat)
    requires Matches(m, n, k) && i <= |m.indexes| && Width(m.indexes[..i]) <= n
    requires i == |m.indexes| || Width(m.indexes[..i]) >= n
    ensures Width(m.indexes[..i]) == n
  {
    if i == |m.indexes| {
      WidthMonotone(m.indexes, k, i);
    }
  }

  // ---------------------------------------------------------------- keys of an object

  /** What a sub-index reads from an object: the columns of each of its values. */
  datatype Values = BadField | NoValue | Values(tuples: seq<seq<Part>>)

  function SliceTuples(lower: Fold, lowercase: bool, items: seq<Key>): seq<seq<Part>> {
    if items == [] then []
    else
      var rest := SliceTuples(lower, lowercase, items[1..]);
      if items[0] == [] then rest else [[Text(Folded(lower, lowercase, items[0]))]] + rest
  }

  function MapTuples(lower: Fold, lowercase: bool, pairs: seq<(Key, Key)>): seq<seq<Part>> {
    if pairs == [] then []
    else
      var rest := MapTuples(lower, lowercase, pairs[1..]);
      if pairs[0].0 == [] then rest
      else [[Text(Folded(lower, lowercase, pairs[0].0)), Text(Folded(lower, lowercase, pairs[0].1))]] + rest
  }

  function NonEmpty(tuples: seq<seq<Part>>): Values {
    if tuples == [] then NoValue else Values(tuples)
  }

  function ReadSub(ix: Sub, lower: Fold, o: Object): Values {
    match ix
    case Single(s) =>
      (match Read(s, lower, o)
       case Invalid => BadField
       case Missing => NoValue
       case Present(p) => Values([[p]]))
    case SliceIx(f, lc) =>
      if f in o.fields && o.fields[f].Strs? then NonEmpty(SliceTuples(lower, lc, o.fields[f].items)) else BadField
    case MapIx(f, lc) =>
      if f in o.fields && o.fields[f].StrMap? then NonEmpty(MapTuples(lower, lc, o.fields[f].pairs)) else BadField
  }

  datatype Levels = Levels(levels: seq<seq<seq<Part>>>, end: End)

  function ReadLevels(ixs: seq<Sub>, lower: Fold, o: Object): Levels {
    if ixs == [] then Levels([], Whole)
    else
      match ReadSub(ixs[0], lower, o)
      case BadField => Levels([], Broken)
      case NoValue => Levels([], Gap)
      case Values(ts) => var rest := ReadLevels(ixs[1..], lower, o); Levels([ts] + rest.levels, rest.end)
  }

  function JoinEach(tuples: seq<seq<Part>>): (r: seq<Key>)
    ensures |r| == |tuples|
    ensures forall i :: 0 <= i < |r| ==> r[i] == Join(tuples[i])
  {
    seq(|tuples|, i requires 0 <= i < |tuples| => Join(tuples[i]))
  }

  function LevelKeys(levels: seq<seq<seq<Part>>>): (r: seq<seq<Key>>)
    ensures |r| == |levels|
    ensures forall i :: 0 <= i < |r| ==> r[i] == JoinEach(levels[i])
  {
    seq(|levels|, i requires 0 <= i < |levels| => JoinEach(levels[i]))
  }

  lemma LevelsStep(ixs: seq<Sub>, lower: Fold, o: Object, i: nat)
    requires i < |ixs|
    ensures ReadLevels(ixs[i..], lower, o) ==
            match ReadSub(ixs[i], lower, o)
            case BadField => Levels([], Broken)
            case NoValue => Levels([], Gap)
            case Values(ts) => var rest := ReadLevels(ixs[i + 1..], lower, o); Levels([ts] + rest.levels, rest.end)
  {
    assert ixs[i..][0] == ixs[i] && ixs[i..][1..] == ixs[i + 1..];
  }

  lemma NoLevels(ixs: seq<Sub>, lower: Fold, o: Object)
    requires ixs == []
    ensures ReadLevels(ixs, lower, o) == Levels([], Whole)
  {
  }

  lemma LevelKeysSnoc(levels: seq<seq<seq<Part>>>, ts: seq<seq<Part>>)
    ensures LevelKeys(levels + [ts]) == LevelKeys(levels) + [JoinEach(ts)]
  {
    hide JoinEach;
  }

  /** The loop of `CompoundMultiIndex.FromObject`, up to the walk. */
  method Build(m: Multi, lower: Fold, o: Object) returns (end: End, builder: seq<seq<Key>>)
    ensures var all := ReadLevels(m.indexes, lower, o); end == all.end && builder == LevelKeys(all.levels)
  {
    hide ReadLevels, ReadSub, LevelKeys, JoinEach;
    builder := [];
    ghost var done: seq<seq<seq<Part>>> := [];
    NoKeys(done);
    ghost var all := ReadLevels(m.indexes, lower, o);
    assert m.indexes[0..] == m.indexes && done + all.levels == all.levels;
    var i := 0;
    while i < |m.indexes|
      invariant 0 <= i <= |m.indexes| && builder == LevelKeys(done)
      invariant all.end == ReadLevels(m.indexes[i..], lower, o).end
      invariant all.levels == done + ReadLevels(m.indexes[i..], lower, o).levels
    {
      LevelsStep(m.indexes, lower, o, i);
      match ReadSub(m.indexes[i], lower, o)
      case BadField =>
        assert done + [] == done;
        return Broken, builder;
      case NoValue =>
        assert done + [] == done;
        return Gap, builder;
      case Values(ts) =>
        Shift(done, ts, ReadLevels(m.indexes[i + 1..], lower, o).levels);
        LevelKeysSnoc(done, ts);
        done := done + [ts];
        builder := builder + [JoinEach(ts)];
        i := i + 1;
    }
    NoLevels(m.indexes[i..], lower, o);
    assert done + [] == done;
    end := Whole;
  }

  lemma NoKeys(none: seq<seq<seq<Part>>>)
    requires none == []
    ensures LevelKeys(none) == []
  {
  }

  /** `CompoundMultiIndex.FromObject`: an error, nothing, or the slices the walk leaves. */
  datatype Output = BadObject | NoKeysAtAll | Output(mem: SliceWalk.Memory, out: seq<SliceWalk.Slice>)

  method FromObject(m: Multi, lower: Fold, o: Object, grow: SliceWalk.Growth) returns (r: Output)
    ensures var all := ReadLevels(m.indexes, lower, o);
            var x := SliceWalk.Input(LevelKeys(all.levels), m.allowMissing, grow);
            && (r.BadObject? <==> all.end == Broken)
            && (r.NoKeysAtAll? <==> all.end == Gap && !m.allowMissing)
            && (r.Output? ==>
                  SliceWalk.State(r.mem, r.out) ==
                  if all.levels == [] then SliceWalk.Fresh() else SliceWalk.Walk(x, SliceWalk.Fresh(), SliceWalk.NIL, 0, 0))
  {
    hide ReadLevels, LevelKeys, SliceWalk.Walk;
    var end, builder := Build(m, lower, o);
    if end == Broken {
      return BadObject;
    }
    if end == Gap && !m.allowMissing {
      return NoKeysAtAll;
    }
    var walker := new SliceWalk.Walker(SliceWalk.Input(builder, m.allowMissing, grow));
    walker.WalkVals(SliceWalk.NIL, 0);
    r := Output(walker.mem, walker.out);
  }

  /** `FromArgs` of these indexes by themselves; a string map takes one or two arguments. */
  function SubKey(ix: Sub, lower: Fold, args: seq<Arg>): Option<Key>
    requires !ix.Single?
  {
    if args == [] || |args| > WidthOf(ix) then None
    else
      var p := TextOf(lower, ix.lowercase, args[0]);
      if |args| == 1 then (if p.Some? then Some(Join([p.value])) else None)
      else
        var q := TextOf(lower, ix.lowercase, args[1]);
        if p.Some? && q.Some? then Some(Join([p.value, q.value])) else None
  }

  /** The index schema of a string-slice or string-map field. A missing value is reported with no
      values at all. Only the slice index supports prefix queries. */
  function SubSchema(ix: Sub, lower: Fold, allowMissing: bool, unique: bool): IndexSchema
    requires !ix.Single?
  {
    IndexSchema(
      allowMissing, unique,
      (o: Object) =>
        match ReadSub(ix, lower, o)
        case BadField => Failed
        case NoValue => Extract(false, [])
        case Values(ts) => Extract(true, JoinEach(ts)),
      (args: seq<Arg>) => SubKey(ix, lower, args),
      if ix.SliceIx? then
        Some((args: seq<Arg>) =>
          if |args| != 1 then None
          else var p := TextOf(lower, ix.lowercase, args[0]); if p.Some? then Some(p.value.s) else None)
      else None)
  }

  /** These indexes leave no residue of a missing value either. */
  lemma SubLeavesNoResidue(ix: Sub, lower: Fold, allowMissing: bool, unique: bool, existing: Option<Object>, obj: Object,
                           id: Key)
    requires !ix.Single?
    ensures NoResidue(SubSchema(ix, lower, allowMissing, unique), existing, obj, id)
  {
    var s := SubSchema(ix, lower, allowMissing, unique);
    var e := s.fromObject(obj);
    if e.Extract? && !e.ok {
      assert e.vals == [];
      NoValuesNoResidue(OldKeys(s, existing, id), e.vals);
    }
  }

  lemma NoValuesNoResidue(was: seq<Key>, none: seq<Key>)
    requires none == []
    ensures forall k :: k in was ==> k in Stale(was, none)
  {
  }

  // ---------------------------------------------------------------- lookup agrees with indexing

  function Cat(g: seq<Key>): Key {
    if g == [] then [] else g[0] + Cat(g[1..])
  }

  /** One value of each of the first levels from `depth` on. */
  predicate Path(levels: seq<seq<Key>>, depth: nat, g: seq<Key>, allowMissing: bool) {
    && g != [] && depth + |g| <= |levels| && (allowMissing || depth + |g| == |levels|)
    && forall i :: 0 <= i < |g| ==> g[i] in levels[depth + i]
  }

  lemma {:induction false} PathIsKey(x: SliceWalk.Input, prefix: Key, depth: nat, j: nat, g: seq<Key>)
    requires Path(x.levels, depth, g, x.allowMissing)
    requires j <= |x.levels[depth]| && g[0] in x.levels[depth][j..]
    ensures prefix + Cat(g) in SliceWalk.Keys(x, prefix, depth, j)
    decreases |x.levels| - depth, |x.levels[depth]| - j
  {
    var v := x.levels[depth][j];
    if v != g[0] {
      assert x.levels[depth][j..][1..] == x.levels[depth][j + 1..];
      PathIsKey(x, prefix, depth, j + 1, g);
    } else {
      assert prefix + Cat(g) == (prefix + v) + Cat(g[1..]);
      if |g| > 1 {
        assert Path(x.levels, depth + 1, g[1..], x.allowMissing);
        assert g[1] in x.levels[depth + 1] && x.levels[depth + 1][0..] == x.levels[depth + 1];
        PathIsKey(x, prefix + v, depth + 1, 0, g[1..]);
      } else {
        assert Cat(g[1..]) == [] && (prefix + v) + [] == prefix + v;
      }
    }
  }

  lemma {:induction false} KeyIsPath(x: SliceWalk.Input, prefix: Key, depth: nat, j: nat, key: Key) returns (g: seq<Key>)
    requires depth < |x.levels| && j <= |x.levels[depth]|
    requires key in SliceWalk.Keys(x, prefix, depth, j)
    ensures Path(x.levels, depth, g, x.allowMissing) && key == prefix + Cat(g)
    decreases |x.levels| - depth, |x.levels[depth]| - j
  {
    var v := x.levels[depth][j];
    if key == prefix + v && (x.allowMissing || depth == |x.levels| - 1) {
      g := [v];
      assert g[1..] == [] && Cat(g) == v + Cat(g[1..]);
    } else if key in SliceWalk.Keys(x, prefix, depth, j + 1) {
      g := KeyIsPath(x, prefix, depth, j + 1, key);
    } else {
      var h := KeyIsPath(x, prefix + v, depth + 1, 0, key);
      g := [v] + h;
      assert g[1..] == h;
      assert key == prefix + Cat(g);
    }
  }

  /** `b` cannot be read as `a` differently: values are not prefixes of each other, nor empty. */
  predicate Apart(a: Key, b: Key) {
    a != [] && b != [] && (Comparable(a, b) ==> a == b)
  }

  lemma {:induction false} UniqueSplit(g: seq<Key>, h: seq<Key>)
    requires forall i :: 0 <= i < |g| && i < |h| ==> Apart(g[i], h[i])
    requires (forall i :: 0 <= i < |g| ==> g[i] != []) && (forall i :: 0 <= i < |h| ==> h[i] != [])
    requires Cat(g) == Cat(h)
    ensures g == h
  {
    if g != [] && h != [] {
      assert Apart(g[0], h[0]);
      ConcatSplit(g[0], Cat(g[1..]), h[0], Cat(h[1..]));
      UniqueSplit(g[1..], h[1..]);
      assert g == [g[0]] + g[1..] && h == [h[0]] + h[1..];
    }
  }

  /** Arguments against the values of the levels they meet. */
  predicate AllApart(levels: seq<seq<Key>>, g: seq<Key>) {
    && (forall i :: 0 <= i < |g| ==> g[i] != [])
    && (forall i, v :: 0 <= i < |levels| && v in levels[i] ==> v != [] && (i < |g| ==> Apart(g[i], v)))
  }

  /** A lookup key is among the keys of an object exactly if its parts are values of the first
      levels: with `AllowMissing` for any number of arguments, else for all of them. */
  lemma KeyFoundIff(x: SliceWalk.Input, g: seq<Key>)
    requires |x.levels| > 0 && g != [] && AllApart(x.levels, g)
    ensures Cat(g) in SliceWalk.Keys(x, [], 0, 0) <==> Path(x.levels, 0, g, x.allowMissing)
  {
    hide SliceWalk.Keys, Cat;
    assert [] + Cat(g) == Cat(g);
    if Path(x.levels, 0, g, x.allowMissing) {
      assert g[0] in x.levels[0] && x.levels[0][0..] == x.levels[0];
      PathIsKey(x, [], 0, 0, g);
    }
    if Cat(g) in SliceWalk.Keys(x, [], 0, 0) {
      var h := KeyIsPath(x, [], 0, 0, Cat(g));
      assert [] + Cat(h) == Cat(h);
      forall i | 0 <= i < |h| ensures h[i] != [] && (i < |g| ==> Apart(g[i], h[i])) {
        assert h[i] in x.levels[i];
      }
      UniqueSplit(g, h);
    }
  }

  /** Tuples of one column list. */
  predicate SameColumns(a: seq<Part>, b: seq<Part>) {
    AllWellFormed(a) && AllWellFormed(b) && Alike(a, b) && |a| == |b|
  }

  /** Each argument tuple has the columns of the values it is compared with. */
  predicate Typed(levels: seq<seq<seq<Part>>>, ts: seq<seq<Part>>) {
    && (forall i :: 0 <= i < |ts| ==> ts[i] != [] && AllWellFormed(ts[i]))
    && (forall i :: 0 <= i < |levels| ==> ValuesTyped(levels[i]))
    && (forall i :: 0 <= i < |levels| && i < |ts| ==> AllSameColumns(ts[i], levels[i]))
  }

  predicate ValuesTyped(tuples: seq<seq<Part>>) {
    forall t :: t in tuples ==> t != [] && AllWellFormed(t)
  }

  predicate AllSameColumns(a: seq<Part>, tuples: seq<seq<Part>>) {
    forall t :: t in tuples ==> SameColumns(a, t)
  }

  lemma JoinNonEmpty(t: seq<Part>)
    requires t != [] && AllWellFormed(t)
    ensures Join(t) != []
  {
    Lengths(t[0]);
  }

  lemma {:induction false} JoinAllIsCat(ts: seq<seq<Part>>)
    ensures JoinAll(ts) == Cat(JoinEach(ts))
  {
    if ts != [] {
      assert JoinEach(ts)[1..] == JoinEach(ts[1..]);
      JoinAllIsCat(ts[1..]);
    }
  }

  lemma InJoinEach(tuples: seq<seq<Part>>, k: Key) returns (t: seq<Part>)
    requires k in JoinEach(tuples)
    ensures t in tuples && k == Join(t)
  {
    var i :| 0 <= i < |tuples| && JoinEach(tuples)[i] == k;
    t := tuples[i];
  }

  lemma TypedApart(levels: seq<seq<seq<Part>>>, ts: seq<seq<Part>>)
    requires Typed(levels, ts)
    ensures AllApart(LevelKeys(levels), JoinEach(ts))
  {
    hide Join;
    forall i | 0 <= i < |ts| ensures JoinEach(ts)[i] != [] {
      JoinNonEmpty(ts[i]);
    }
    forall i, v | 0 <= i < |levels| && v in LevelKeys(levels)[i]
      ensures v != [] && (i < |ts| ==> Apart(JoinEach(ts)[i], v))
    {
      assert LevelKeys(levels)[i] == JoinEach(levels[i]) && ValuesTyped(levels[i]);
      var t := InJoinEach(levels[i], v);
      JoinNonEmpty(t);
      if i < |ts| {
        assert AllSameColumns(ts[i], levels[i]);
        JoinNonEmpty(ts[i]);
        FullKeysPrefixFree(ts[i], t);
      }
    }
  }

  lemma TypedMember(levels: seq<seq<seq<Part>>>, ts: seq<seq<Part>>, i: nat)
    requires Typed(levels, ts) && i < |levels| && i < |ts|
    ensures Join(ts[i]) in JoinEach(levels[i]) <==> ts[i] in levels[i]
  {
    hide Join;
    if Join(ts[i]) in JoinEach(levels[i]) {
      assert AllSameColumns(ts[i], levels[i]);
      var t := InJoinEach(levels[i], Join(ts[i]));
      FullKeysPrefixFree(ts[i], t);
    }
    if ts[i] in levels[i] {
      var k :| 0 <= k < |levels[i]| && levels[i][k] == ts[i];
      assert JoinEach(levels[i])[k] == Join(ts[i]);
    }
  }

  /** Lookup agrees with indexing. For an object that the index takes and arguments that
      `FromArgs` accepts, the lookup key is among the object's keys if and only if the object
      has a matching value for each sub-index that got arguments. */
  lemma LookupAgrees(m: Multi, lower: Fold, o: Object, args: seq<Arg>, grow: SliceWalk.Growth)
    requires Acceptable(m, |args|) && args != [] && ReadGroups(m.indexes, lower, args).Some?
    requires var all := ReadLevels(m.indexes, lower, o);
             (all.end == Whole || (all.end == Gap && m.allowMissing)) && all.levels != []
             && Typed(all.levels, ReadGroups(m.indexes, lower, args).value)
    ensures var ts := ReadGroups(m.indexes, lower, args).value;
            var levels := ReadLevels(m.indexes, lower, o).levels;
            JoinAll(ts) in SliceWalk.Keys(SliceWalk.Input(LevelKeys(levels), m.allowMissing, grow), [], 0, 0)
            <==> |ts| <= |levels| && forall i :: 0 <= i < |ts| ==> ts[i] in levels[i]
  {
    hide ReadLevels, ReadGroups, ReadGroup, SliceWalk.Keys, Typed, JoinAll, Join;
    var ts := ReadGroups(m.indexes, lower, args).value;
    var levels := ReadLevels(m.indexes, lower, o).levels;
    var x := SliceWalk.Input(LevelKeys(levels), m.allowMissing, grow);
    var j :| Matches(m, |args|, j);
    GroupsCount(m.indexes, lower, args, j);
    LevelsCount(m.indexes, lower, o);
    NonEmptyArgs(m, |args|, j);
    TypedApart(levels, ts);
    JoinAllIsCat(ts);
    KeyFoundIff(x, JoinEach(ts));
    forall i | 0 <= i < |ts| && i < |levels| ensures JoinEach(ts)[i] in x.levels[i] <==> ts[i] in levels[i] {
      TypedMember(levels, ts, i);
    }
  }

  /** Some slice of the output holds the key when the walk is over. */
  predicate InOutput(st: SliceWalk.State, key: Key) {
    exists i :: 0 <= i < |st.out| && SliceWalk.Holds(st.mem, st.out[i], key)
  }

  lemma ExactOutput(x: SliceWalk.Input, key: Key)
    requires |x.levels| > 0 && SliceWalk.Exact(x)
    ensures InOutput(SliceWalk.Walk(x, SliceWalk.Fresh(), SliceWalk.NIL, 0, 0), key) <==> key in SliceWalk.Keys(x, [], 0, 0)
  {
    hide SliceWalk.Walk, SliceWalk.Keys;
    var st, keys := SliceWalk.Walk(x, SliceWalk.Fresh(), SliceWalk.NIL, 0, 0), SliceWalk.Keys(x, [], 0, 0);
    if InOutput(st, key) {
      var i :| 0 <= i < |st.out| && SliceWalk.Holds(st.mem, st.out[i], key);
      assert SliceWalk.Holds(st.mem, st.out[i], keys[i]);
    }
    if key in keys {
      var i :| 0 <= i < |keys| && keys[i] == key;
      assert SliceWalk.Holds(st.mem, st.out[i], key);
    }
  }

  /** The same for the slices that `FromObject` leaves, which share storage: without
      `AllowMissing`, and with it wherever the walk is exact, the key of `FromArgs` is among
      them if and only if the object has the matching values. */
  lemma LookupInOutput(m: Multi, lower: Fold, o: Object, args: seq<Arg>, grow: SliceWalk.Growth)
    requires Acceptable(m, |args|) && args != [] && ReadGroups(m.indexes, lower, args).Some?
    requires var all := ReadLevels(m.indexes, lower, o);
             (all.end == Whole || (all.end == Gap && m.allowMissing)) && all.levels != []
             && Typed(all.levels, ReadGroups(m.indexes, lower, args).value)
             && (!m.allowMissing || SliceWalk.ConstantFrom(LevelKeys(all.levels), 1))
    ensures var ts := ReadGroups(m.indexes, lower, args).value;
            var levels := ReadLevels(m.indexes, lower, o).levels;
            var x := SliceWalk.Input(LevelKeys(levels), m.allowMissing, grow);
            InOutput(SliceWalk.Walk(x, SliceWalk.Fresh(), SliceWalk.NIL, 0, 0), JoinAll(ts))
            <==> |ts| <= |levels| && forall i :: 0 <= i < |ts| ==> ts[i] in levels[i]
  {
    hide ReadLevels, ReadGroups, Typed, JoinAll, SliceWalk.Walk, SliceWalk.Keys, SliceWalk.Exact, LevelKeys, InOutput;
    var levels := ReadLevels(m.indexes, lower, o).levels;
    var x := SliceWalk.Input(LevelKeys(levels), m.allowMissing, grow);
    if m.allowMissing {
      SliceWalk.ConstantMiddlesAreExact(x);
    } else {
      SliceWalk.FullTuplesAreExact(x);
    }
    ExactOutput(x, JoinAll(ReadGroups(m.indexes, lower, args).value));
    LookupAgrees(m, lower, o, args, grow);
  }

  /** Some leaf of the output holds the key when the walk is over. */
  predicate InLeaves(x: SliceWalk.Input, st: SliceWalk.State, key: Key)
    requires |x.levels| > 0
  {
    exists i :: 0 <= i < |st.out| && i < |SliceWalk.Leaves(x, 0, 0)| && SliceWalk.Leaves(x, 0, 0)[i]
                && SliceWalk.Holds(st.mem, st.out[i], key)
  }

  lemma ExactLeaves(x: SliceWalk.Input, key: Key)
    requires |x.levels| > 0
    ensures InLeaves(x, SliceWalk.Walk(x, SliceWalk.Fresh(), SliceWalk.NIL, 0, 0), key)
            <==> key in SliceWalk.Keys(x.(allowMissing := false), [], 0, 0)
  {
    hide SliceWalk.Walk, SliceWalk.Keys, SliceWalk.Leaves;
    var st, keys := SliceWalk.Walk(x, SliceWalk.Fresh(), SliceWalk.NIL, 0, 0), SliceWalk.Keys(x, [], 0, 0);
    var leaves := SliceWalk.Leaves(x, 0, 0);
    SliceWalk.LeavesAreExact(x, SliceWalk.Fresh(), SliceWalk.NIL, 0, 0, []);
    SliceWalk.WalkFrames(x, SliceWalk.Fresh(), SliceWalk.NIL, 0, 0);
    assert st.out[0..] == st.out;
    SliceWalk.LeafKeys(x, [], 0, 0, key);
    if InLeaves(x, st, key) {
      var i :| 0 <= i < |st.out| && i < |leaves| && leaves[i] && SliceWalk.Holds(st.mem, st.out[i], key);
      assert SliceWalk.Holds(st.mem, st.out[i], keys[i]);
    }
    if SliceWalk.Flagged(keys, leaves, key) {
      var i :| 0 <= i < |keys| && i < |leaves| && leaves[i] && keys[i] == key;
      assert SliceWalk.Holds(st.mem, st.out[i], key);
    }
  }

  /** The leaves alone, whatever the middle levels: the key of `FromArgs` is in some leaf slice if and
      only if there are arguments for every level the object has, and it has the matching values.
      No growth policy loses such a key. */
  lemma LookupInLeaves(m: Multi, lower: Fold, o: Object, args: seq<Arg>, grow: SliceWalk.Growth)
    requires Acceptable(m, |args|) && args != [] && ReadGroups(m.indexes, lower, args).Some?
    requires var all := ReadLevels(m.indexes, lower, o);
             all.levels != [] && Typed(all.levels, ReadGroups(m.indexes, lower, args).value)
    ensures var ts := ReadGroups(m.indexes, lower, args).value;
            var levels := ReadLevels(m.indexes, lower, o).levels;
            var x := SliceWalk.Input(LevelKeys(levels), m.allowMissing, grow);
            var st := SliceWalk.Walk(x, SliceWalk.Fresh(), SliceWalk.NIL, 0, 0);
            && (InLeaves(x, st, JoinAll(ts)) <==> |ts| == |levels| && forall i :: 0 <= i < |ts| ==> ts[i] in levels[i])
            && (InLeaves(x, st, JoinAll(ts)) ==> InOutput(st, JoinAll(ts)))
  {
    hide ReadLevels, ReadGroups, ReadGroup, SliceWalk.Keys, SliceWalk.Walk, SliceWalk.Leaves, Typed, JoinAll, Join;
    var ts := ReadGroups(m.indexes, lower, args).value;
    var levels := ReadLevels(m.indexes, lower, o).levels;
    var x := SliceWalk.Input(LevelKeys(levels), m.allowMissing, grow);
    var j :| Matches(m, |args|, j);
    GroupsCount(m.indexes, lower, args, j);
    NonEmptyArgs(m, |args|, j);
    TypedApart(levels, ts);
    JoinAllIsCat(ts);
    ExactLeaves(x, JoinAll(ts));
    KeyFoundIff(x.(allowMissing := false), JoinEach(ts));
    forall i | 0 <= i < |ts| && i < |levels| ensures JoinEach(ts)[i] in x.levels[i] <==> ts[i] in levels[i] {
      TypedMember(levels, ts, i);
    }
  }

  lemma NonEmptyArgs(m: Multi, n: nat, j: nat)
    requires Matches(m, n, j) && n > 0
    ensures j > 0
  {
    assert m.indexes[..0] == [];
  }

  lemma {:induction false} GroupsCount(ixs: seq<Sub>, lower: Fold, args: seq<Arg>, j: nat)
    requires j <= |ixs| && Width(ixs[..j]) == |args| && ReadGroups(ixs, lower, args).Some?
    ensures |ReadGroups(ixs, lower, args).value| == j
  {
    if j == 0 {
      assert ixs[..0] == [];
    } else {
      assert ixs[..j][1..] == ixs[1..][..j - 1];
      GroupsCount(ixs[1..], lower, args[WidthOf(ixs[0])..], j - 1);
    }
  }

  lemma {:induction false} LevelsCount(ixs: seq<Sub>, lower: Fold, o: Object)
    ensures var all := ReadLevels(ixs, lower, o);
            |all.levels| <= |ixs| && (all.end == Whole ==> |all.levels| == |ixs|)
  {
    if ixs != [] {
      LevelsCount(ixs[1..], lower, o);
    }
  }
}

