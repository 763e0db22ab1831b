/**
 The loop that turns the values of a non-unique index into keys, `vals[i] = append(vals[i], idVal...)`,
 on the slices that the walk of `CompoundMultiIndex` leaves.

 Interior prefixes share arrays, so the bytes appended to one can land in another. An insert keeps
 all the results and files the object under them when the loop is over; an update and a delete
 make the same appends but use each result at once.
 */
module SuffixLoop {
  import opened Bytes
  import opened SliceWalk

  ghost predicate AllInMem(st: State) {
    forall i :: 0 <= i < |st.out| ==> InMem(st.mem, st.out[i])
  }

  /** One round. */
  function Step(st: State, id: Key, grow: Growth, i: nat): (st': State)
    requires i < |st.out| && InMem(st.mem, st.out[i])
  {
    var (mem, s) := Append(st.mem, st.out[i], id, grow);
    State(mem, st.out[i := s])
  }

  /** The state after `i` rounds. */
  ghost function After(st: State, id: Key, grow: Growth, i: nat): (st': State)
    requires AllInMem(st) && i <= |st.out|
    ensures AllInMem(st') && |st'.out| == |st.out|
  {
    if i == 0 then st else Step(After(st, id, grow, i - 1), id, grow, i - 1)
  }

  /** The loop of `Insert`. */
  method AppendIds(st: State, id: Key, grow: Growth) returns (st': State)
    requires AllInMem(st)
    ensures st' == After(st, id, grow, |st.out|)
  {
    var mem, vals := st.mem, st.out;
    var i := 0;
    while i < |vals|
      invariant 0 <= i <= |vals| == |st.out|
      invariant State(mem, vals) == After(st, id, grow, i)
    {
      var (mem', val) := Append(mem, vals[i], id, grow);
      mem, vals := mem', vals[i := val];
      i := i + 1;
    }
    return State(mem, vals);
  }

  // ---------------------------------------------------------------- when the loop is exact

  /** Whenever two slices share an array, their keys followed by the primary key agree as far as the
      shorter one goes. */
  ghost predicate Compatible(out: seq<Slice>, keys: seq<Key>, id: Key) {
    && |out| == |keys|
    && forall i, j :: 0 <= i < |out| && 0 <= j < |out| && out[i].arr == out[j].arr ==>
         Comparable(keys[i] + id, keys[j] + id)
  }

  /** What the slices hold after `i` rounds. */
  ghost predicate HoldUpTo(st: State, keys: seq<Key>, id: Key, i: nat) {
    && |st.out| == |keys|
    && forall j :: 0 <= j < |keys| ==> Holds(st.mem, st.out[j], if j < i then keys[j] + id else keys[j])
  }

  /** An append leaves the other slices of its array as they are, if it agrees with them. */
  lemma AppendKeeps(mem: Memory, s: Slice, key: Key, id: Key, grow: Growth, t: Slice, other: Key, full: Key)
    requires Holds(mem, s, key) && Holds(mem, t, other) && other <= full
    requires s.arr == t.arr ==> Comparable(key + id, full)
    ensures Holds(Append(mem, s, id, grow).0, t, other)
  {
    var (mem', r) := Append(mem, s, id, grow);
    if FitsIn(mem, s, id) && s.arr == t.arr {
      forall i | 0 <= i < t.len ensures mem'[t.arr][i] == other[i] {
        assert mem[t.arr][i] == mem[t.arr][..t.len][i] == other[i] == full[i];
        if s.len <= i < s.len + |id| {
          assert (key + id)[i] == id[i - s.len];
          assert i < |key + id| && i < |full|;
        }
      }
      assert mem'[t.arr][..t.len] == other;
    }
  }

  lemma CompatibleStep(st: State, keys: seq<Key>, id: Key, grow: Growth, i: nat)
    requires i < |keys| && HoldUpTo(st, keys, id, i) && Compatible(st.out, keys, id)
    ensures Compatible(Step(st, id, grow, i).out, keys, id)
  {
    AppendFrames(st.mem, st.out[i], id, grow);
    var out := Step(st, id, grow, i).out;
    forall j, k | 0 <= j < |out| && 0 <= k < |out| && out[j].arr == out[k].arr
      ensures Comparable(keys[j] + id, keys[k] + id)
    {
      assert Holds(st.mem, st.out[j], if j < i then keys[j] + id else keys[j]);
      assert Holds(st.mem, st.out[k], if k < i then keys[k] + id else keys[k]);
      assert j != k ==> st.out[j].arr == st.out[k].arr;
    }
  }

  lemma HoldStep(st: State, keys: seq<Key>, id: Key, grow: Growth, i: nat)
    requires i < |keys| && HoldUpTo(st, keys, id, i) && Compatible(st.out, keys, id)
    ensures HoldUpTo(Step(st, id, grow, i), keys, id, i + 1)
  {
    hide Append;
    var s := st.out[i];
    assert Holds(st.mem, s, keys[i]);
    AppendFrames(st.mem, s, id, grow);
    var st' := Step(st, id, grow, i);
    forall j | 0 <= j < |keys| ensures Holds(st'.mem, st'.out[j], if j < i + 1 then keys[j] + id else keys[j]) {
      if j != i {
        AppendKeeps(st.mem, s, keys[i], id, grow, st.out[j], if j < i then keys[j] + id else keys[j], keys[j] + id);
      }
    }
  }

  /** The invariant of the loop. */
  ghost predicate OnTrack(st: State, keys: seq<Key>, id: Key, i: nat) {
    HoldUpTo(st, keys, id, i) && Compatible(st.out, keys, id)
  }

  lemma TrackStep(st: State, keys: seq<Key>, id: Key, grow: Growth, i: nat)
    requires i < |keys| && OnTrack(st, keys, id, i)
    ensures |st.out| == |keys| && InMem(st.mem, st.out[i])
    ensures OnTrack(Step(st, id, grow, i), keys, id, i + 1)
  {
    assert Holds(st.mem, st.out[i], keys[i]);
    hide Step, HoldUpTo, Compatible, Holds;
    CompatibleStep(st, keys, id, grow, i);
    HoldStep(st, keys, id, grow, i);
  }

  lemma {:induction false} StaysOnTrack(st: State, keys: seq<Key>, id: Key, grow: Growth, i: nat)
    requires AllInMem(st) && OnTrack(st, keys, id, 0) && |st.out| == |keys| && i <= |keys|
    ensures OnTrack(After(st, id, grow, i), keys, id, i)
  {
    hide OnTrack, Step, AllInMem;
    if i > 0 {
      StaysOnTrack(st, keys, id, grow, i - 1);
      TrackStep(After(st, id, grow, i - 1), keys, id, grow, i - 1);
    }
  }

  /** Compatible slices that hold their keys end up holding their suffixed keys, and each does so from
      its own round on. */
  lemma CompatibleIsExact(st: State, keys: seq<Key>, id: Key, grow: Growth, i: nat)
    requires AllHold(st.mem, st.out, keys) && Compatible(st.out, keys, id) && i <= |st.out|
    ensures AllInMem(st)
    ensures HoldUpTo(After(st, id, grow, i), keys, id, i)
  {
    hide After;
    assert forall j :: 0 <= j < |st.out| ==> Holds(st.mem, st.out[j], keys[j]);
    StaysOnTrack(st, keys, id, grow, i);
  }

  // ---------------------------------------------------------------- which arrays a walk shares

  /** The arrays of output slices: the array of the prefix they extend or newer ones, and a leaf shares
      its array with nobody. */
  ghost predicate LeavesApart(out: seq<Slice>, leaves: seq<bool>, own: nat, lo: nat, hi: nat) {
    && |out| == |leaves|
    && (forall i :: 0 <= i < |out| ==> out[i].arr == own || lo <= out[i].arr < hi)
    && (forall i :: 0 <= i < |out| && leaves[i] ==> lo <= out[i].arr < hi)
    && (forall i, j :: 0 <= i < |out| && 0 <= j < |out| && leaves[i] && out[i].arr == out[j].arr ==> i == j)
  }

  lemma ApartAppend(a: seq<Slice>, b: seq<Slice>, la: seq<bool>, lb: seq<bool>, own: nat, lo: nat, mid: nat, hi: nat)
    requires LeavesApart(a, la, own, lo, mid) && LeavesApart(b, lb, own, mid, hi)
    requires own < lo <= mid <= hi
    ensures LeavesApart(a + b, la + lb, own, lo, hi)
  {
  }

  /** Slices below a prefix, seen from the prefix above it. */
  lemma ApartBelow(next: Slice, wanted: bool, deep: seq<Slice>, dl: seq<bool>, own: nat, lo: nat, low: nat, mid: nat)
    requires LeavesApart(deep, dl, next.arr, low, mid)
    requires next.arr == own || lo <= next.arr < low
    requires own < lo <= low <= mid
    ensures LeavesApart(Head(wanted, next) + deep, Head(wanted, false) + dl, own, lo, mid)
  {
    var out, leaves := Head(wanted, next) + deep, Head(wanted, false) + dl;
    var h := |Head(wanted, next)|;
    assert forall i :: 0 <= i < |out| ==> if i < h then out[i] == next && !leaves[i] else out[i] == deep[i - h] && leaves[i] == dl[i - h];
  }

  lemma {:induction false} WalkApart(x: Input, st: State, cur: Slice, depth: nat, j: nat)
    requires InMem(st.mem, cur) && depth < |x.levels| && j <= |x.levels[depth]|
    ensures LeavesApart(NewOut(x, st, cur, depth, j), Leaves(x, depth, j), cur.arr, |st.mem|,
                        |Walk(x, st, cur, depth, j).mem|)
    decreases |x.levels| - depth, |x.levels[depth]| - j
  {
    if j == |x.levels[depth]| {
      NothingLeft(x, st, cur, depth);
    } else {
      hide Inner, Leaf, Walk, Keys, Leaves, NewOut, LeavesApart, Framed;
      var v := x.levels[depth][j];
      var prefix := Read(st.mem, cur);
      if depth == |x.levels| - 1 {
        LeafStep(x, st, cur, depth, j, prefix);
        LeafFrames(x, st, cur, v);
        var st1 := Leaf(x, st, cur, v);
        WalkApart(x, st1, cur, depth, j + 1);
        NewLeafApart(st1.out[|st.out|], cur.arr, |st.mem|, |st1.mem|);
        ApartAppend([st1.out[|st.out|]], NewOut(x, st1, cur, depth, j + 1), [true], Leaves(x, depth, j + 1),
                    cur.arr, |st.mem|, |st1.mem|, |Walk(x, st1, cur, depth, j + 1).mem|);
      } else {
        InnerStep(x, st, cur, depth, j, prefix);
        InnerOut(x, st, cur, depth, j);
        InnerFrames(x, st, cur, depth, j, prefix);
        var (st1, next) := Inner(x, st, cur, v);
        var st2 := Walk(x, st1, next, depth + 1, 0);
        WalkApart(x, st1, next, depth + 1, 0);
        WalkApart(x, st2, cur, depth, j + 1);
        ApartBelow(next, x.allowMissing, NewOut(x, st1, next, depth + 1, 0), Leaves(x, depth + 1, 0),
                   cur.arr, |st.mem|, |st1.mem|, |st2.mem|);
        ApartAppend(Head(x.allowMissing, next) + NewOut(x, st1, next, depth + 1, 0), NewOut(x, st2, cur, depth, j + 1),
                    Head(x.allowMissing, false) + Leaves(x, depth + 1, 0), Leaves(x, depth, j + 1),
                    cur.arr, |st.mem|, |st2.mem|, |Walk(x, st2, cur, depth, j + 1).mem|);
      }
    }
  }

  lemma NewLeafApart(leaf: Slice, own: nat, lo: nat, hi: nat)
    requires lo <= leaf.arr < hi
    ensures LeavesApart([leaf], [true], own, lo, hi)
  {
  }

  // ---------------------------------------------------------------- constant middle levels

  /** What the one path through the middle levels adds from level `d` on. */
  function Middle(levels: seq<seq<Key>>, d: nat): Key
    decreases |levels| - d
  {
    if d >= |levels| - 1 || levels[d] == [] then [] else levels[d][0] + Middle(levels, d + 1)
  }

  /** The primary key repeats what the middle levels add, as far as it goes. */
  predicate Repeats(levels: seq<seq<Key>>, id: Key) {
    forall d :: 1 <= d < |levels| - 1 ==> id <= Middle(levels, d) + id
  }

  /** Every interior key, suffixed, agrees with the longest one. */
  ghost predicate FitSpine(keys: seq<Key>, leaves: seq<bool>, id: Key, f: Key) {
    |keys| == |leaves| && forall i :: 0 <= i < |keys| && !leaves[i] ==> keys[i] + id <= f + id
  }

  lemma FitConcat(a: seq<Key>, b: seq<Key>, la: seq<bool>, lb: seq<bool>, id: Key, f: Key)
    requires FitSpine(a, la, id, f) && FitSpine(b, lb, id, f)
    ensures FitSpine(a + b, la + lb, id, f)
  {
  }

  lemma FitOne(key: Key, wanted: bool, id: Key, rest: Key)
    requires id <= rest + id
    ensures FitSpine(Head(wanted, key), Head(wanted, false), id, key + rest)
  {
    PrefixAfter(key, id, rest + id);
    assert key + (rest + id) == (key + rest) + id;
  }

  lemma NoneFit(none: seq<Key>, leaves: seq<bool>, id: Key, f: Key)
    requires none == [] && leaves == []
    ensures FitSpine(none, leaves, id, f)
  {
  }

  lemma OneLeafFits(key: Key, id: Key, f: Key)
    ensures FitSpine([key], [true], id, f)
  {
  }

  lemma {:induction false} KeysFitSpine(x: Input, prefix: Key, depth: nat, j: nat, id: Key)
    requires 1 <= depth < |x.levels| && j <= |x.levels[depth]|
    requires ConstantFrom(x.levels, depth) && Repeats(x.levels, id)
    ensures FitSpine(Keys(x, prefix, depth, j), Leaves(x, depth, j), id, prefix + Middle(x.levels, depth))
    decreases |x.levels| - depth, |x.levels[depth]| - j
  {
    hide FitSpine;
    var f := prefix + Middle(x.levels, depth);
    if j == |x.levels[depth]| {
      NoneFit(Keys(x, prefix, depth, j), Leaves(x, depth, j), id, f);
    } else {
      var v := x.levels[depth][j];
      var key := prefix + v;
      KeysFitSpine(x, prefix, depth, j + 1, id);
      if depth == |x.levels| - 1 {
        OneLeafFits(key, id, f);
        FitConcat([key], Keys(x, prefix, depth, j + 1), [true], Leaves(x, depth, j + 1), id, f);
      } else {
        var rest, w := Middle(x.levels, depth + 1), x.allowMissing;
        assert Constant(x.levels[depth]);
        assert f == key + rest by {
          assert prefix + (v + rest) == (prefix + v) + rest;
        }
        KeysFitSpine(x, key, depth + 1, 0, id);
        RestRepeats(x.levels, id, depth + 1);
        FitOne(key, w, id, rest);
        FitConcat(Head(w, key), Keys(x, key, depth + 1, 0), Head(w, false), Leaves(x, depth + 1, 0), id, f);
        FitConcat(Head(w, key) + Keys(x, key, depth + 1, 0), Keys(x, prefix, depth, j + 1),
                  Head(w, false) + Leaves(x, depth + 1, 0), Leaves(x, depth, j + 1), id, f);
      }
    }
  }

  lemma RestRepeats(levels: seq<seq<Key>>, id: Key, d: nat)
    requires 1 <= d < |levels| && Repeats(levels, id)
    ensures id <= Middle(levels, d) + id
  {
    assert [] + id == id;
  }

  /** Slices of which only interior ones share arrays, with keys along one spine. */
  lemma SpineIsCompatible(out: seq<Slice>, keys: seq<Key>, leaves: seq<bool>, own: nat, lo: nat, hi: nat, id: Key, f: Key)
    requires LeavesApart(out, leaves, own, lo, hi) && FitSpine(keys, leaves, id, f)
    ensures Compatible(out, keys, id)
  {
    forall i, j | 0 <= i < |out| && 0 <= j < |out| && out[i].arr == out[j].arr
      ensures Comparable(keys[i] + id, keys[j] + id)
    {
      if !leaves[i] && !leaves[j] {
        PrefixesComparable(keys[i] + id, keys[j] + id, f + id);
      }
    }
  }

  lemma CompatibleAppend(a: seq<Slice>, b: seq<Slice>, ka: seq<Key>, kb: seq<Key>, id: Key, mid: nat)
    requires Compatible(a, ka, id) && Compatible(b, kb, id)
    requires (forall i :: 0 <= i < |a| ==> a[i].arr < mid) && (forall i :: 0 <= i < |b| ==> b[i].arr >= mid)
    ensures Compatible(a + b, ka + kb, id)
  {
  }

  ghost predicate ArraysFrom(out: seq<Slice>, lo: nat) {
    forall i :: 0 <= i < |out| ==> out[i].arr >= lo
  }

  /** One value of the top level with everything below it. */
  lemma BlockIsCompatible(x: Input, st: State, cur: Slice, v: Key, id: Key)
    requires |x.levels| > 1 && ConstantFrom(x.levels, 1) && Repeats(x.levels, id)
    requires InMem(st.mem, cur) && cur.arr > 0
    ensures var out := Head(x.allowMissing, cur) + NewOut(x, st, cur, 1, 0);
            && Compatible(out, Head(x.allowMissing, v) + Keys(x, v, 1, 0), id)
            && forall i :: 0 <= i < |out| ==> cur.arr <= out[i].arr < |Walk(x, st, cur, 1, 0).mem|
  {
    hide Walk, Keys, NewOut, Leaves, FitSpine, Repeats, ConstantFrom;
    var w, rest := x.allowMissing, Middle(x.levels, 1);
    WalkApart(x, st, cur, 1, 0);
    KeysFitSpine(x, v, 1, 0, id);
    RestRepeats(x.levels, id, 1);
    FitOne(v, w, id, rest);
    FitConcat(Head(w, v), Keys(x, v, 1, 0), Head(w, false), Leaves(x, 1, 0), id, v + rest);
    ApartBelow(cur, w, NewOut(x, st, cur, 1, 0), Leaves(x, 1, 0), 0, cur.arr, |st.mem|, |Walk(x, st, cur, 1, 0).mem|);
    SpineIsCompatible(Head(w, cur) + NewOut(x, st, cur, 1, 0), Head(w, v) + Keys(x, v, 1, 0),
                      Head(w, false) + Leaves(x, 1, 0), 0, cur.arr, |Walk(x, st, cur, 1, 0).mem|, id, v + rest);
  }

  lemma {:induction false} TopIsCompatible(x: Input, st: State, j: nat, id: Key)
    requires |x.levels| > 0 && j <= |x.levels[0]| && ConstantFrom(x.levels, 1) && Repeats(x.levels, id)
    requires st.mem != [] && st.mem[0] == [] && forall i :: 0 <= i < |x.levels[0]| ==> x.levels[0][i] != []
    ensures InMem(st.mem, NIL)
    ensures Compatible(NewOut(x, st, NIL, 0, j), Keys(x, [], 0, j), id) && ArraysFrom(NewOut(x, st, NIL, 0, j), |st.mem|)
    decreases |x.levels[0]| - j
  {
    if |x.levels| == 1 {
      hide Walk, NewOut, Keys, Leaves;
      WalkApart(x, st, NIL, 0, j);
      LeavesOnly(x, 0, j);
      KeysMatchLeaves(x, [], 0, j);
    } else if j == |x.levels[0]| {
      NothingLeft(x, st, NIL, 0);
    } else {
      hide Walk, NewOut, Keys, Leaves, Compatible, ConstantFrom, Repeats, ArraysFrom;
      TopBlock(x, st, j, id);
    }
  }

  lemma TopBlock(x: Input, st: State, j: nat, id: Key)
    requires |x.levels| > 1 && j < |x.levels[0]| && ConstantFrom(x.levels, 1) && Repeats(x.levels, id)
    requires st.mem != [] && st.mem[0] == [] && forall i :: 0 <= i < |x.levels[0]| ==> x.levels[0][i] != []
    ensures InMem(st.mem, NIL)
    ensures Compatible(NewOut(x, st, NIL, 0, j), Keys(x, [], 0, j), id) && ArraysFrom(NewOut(x, st, NIL, 0, j), |st.mem|)
    decreases |x.levels[0]| - j, 0
  {
    hide Inner, Walk, Keys, NewOut, Leaves, Framed, Compatible, ConstantFrom, Repeats, ArraysFrom, Append, Holds;
    var v := x.levels[0][j];
    TopMoves(x, st, v);
    InnerStep(x, st, NIL, 0, j, []);
    InnerOut(x, st, NIL, 0, j);
    InnerFrames(x, st, NIL, 0, j, []);
    var (st1, next) := Inner(x, st, NIL, v);
    var st2 := Walk(x, st1, next, 1, 0);
    assert [] + v == v;
    BlockIsCompatible(x, st1, next, v, id);
    TopFrames(st.mem, st2.mem, NIL);
    TopIsCompatible(x, st2, j + 1, id);
    CombineBlock(Head(x.allowMissing, next) + NewOut(x, st1, next, 1, 0), NewOut(x, st2, NIL, 0, j + 1),
                 Head(x.allowMissing, v) + Keys(x, v, 1, 0), Keys(x, [], 0, j + 1), id, |st.mem|, |st2.mem|);
  }

  lemma CombineBlock(a: seq<Slice>, b: seq<Slice>, ka: seq<Key>, kb: seq<Key>, id: Key, lo: nat, mid: nat)
    requires Compatible(a, ka, id) && Compatible(b, kb, id) && lo <= mid
    requires (forall i :: 0 <= i < |a| ==> lo <= a[i].arr < mid) && ArraysFrom(b, mid)
    ensures Compatible(a + b, ka + kb, id) && ArraysFrom(a + b, lo)
  {
    hide Compatible;
    CompatibleAppend(a, b, ka, kb, id, mid);
  }

  /** The nil slice has no room for a value. */
  lemma TopMoves(x: Input, st: State, v: Key)
    requires st.mem != [] && st.mem[0] == [] && v != []
    ensures Holds(st.mem, NIL, []) && InMem(st.mem, NIL) && Inner(x, st, NIL, v).1.arr == |st.mem| > 0
  {
  }

  // ---------------------------------------------------------------- the loop on the output of a walk

  lemma {:induction false} WalkInMem(x: Input, st: State, cur: Slice, depth: nat, j: nat)
    requires AllInMem(st) && InMem(st.mem, cur) && depth < |x.levels| && j <= |x.levels[depth]|
    ensures AllInMem(Walk(x, st, cur, depth, j))
    decreases |x.levels| - depth, |x.levels[depth]| - j
  {
    if j < |x.levels[depth]| {
      hide Append, Copied;
      var v := x.levels[depth][j];
      if depth == |x.levels| - 1 {
        WalkInMem(x, Leaf(x, st, cur, v), cur, depth, j + 1);
      } else {
        var (st1, next) := Inner(x, st, cur, v);
        WalkInMem(x, st1, next, depth + 1, 0);
        WalkInMem(x, Walk(x, st1, next, depth + 1, 0), cur, depth, j + 1);
      }
    }
  }

  ghost function Output(x: Input): (st: State)
    requires |x.levels| > 0
    ensures AllInMem(st)
  {
    WalkInMem(x, Fresh(), NIL, 0, 0);
    Walk(x, Fresh(), NIL, 0, 0)
  }

  /** When the loop is over each value is the key it should be: what an insert needs. */
  ghost predicate Kept(x: Input, id: Key)
    requires |x.levels| > 0
  {
    var st := Output(x);
    HoldUpTo(After(st, id, x.grow, |st.out|), Keys(x, [], 0, 0), id, |st.out|)
  }

  /** Each value is the key it should be right after its own round: what a delete needs. */
  ghost predicate UsedAtOnce(x: Input, id: Key)
    requires |x.levels| > 0
  {
    var st, keys := Output(x), Keys(x, [], 0, 0);
    |st.out| == |keys| && forall i :: 0 <= i < |keys| ==> HoldsAfter(st, keys[i] + id, id, x.grow, i)
  }

  ghost predicate HoldsAfter(st: State, key: Key, id: Key, grow: Growth, i: nat)
    requires AllInMem(st) && i < |st.out|
  {
    var st' := After(st, id, grow, i + 1);
    Holds(st'.mem, st'.out[i], key)
  }

  lemma CompatibleOutput(x: Input, id: Key)
    requires |x.levels| > 0 && Exact(x) && Compatible(Output(x).out, Keys(x, [], 0, 0), id)
    ensures Kept(x, id) && UsedAtOnce(x, id)
  {
    hide Walk, Keys, After, Compatible, AllInMem;
    var st, keys := Output(x), Keys(x, [], 0, 0);
    CompatibleIsExact(st, keys, id, x.grow, |st.out|);
    forall i | 0 <= i < |keys| ensures HoldsAfter(st, keys[i] + id, id, x.grow, i) {
      CompatibleIsExact(st, keys, id, x.grow, i + 1);
    }
  }

  /** Without `AllowMissing` no slices share an array, and both loops are exact. */
  lemma FullTuplesAreSuffixed(x: Input, id: Key)
    requires |x.levels| > 0 && !x.allowMissing
    ensures Kept(x, id) && UsedAtOnce(x, id)
  {
    hide Walk, Keys, Leaves, Kept, UsedAtOnce, Exact;
    FullTuplesAreExact(x);
    AllLeaves(x, 0, 0);
    KeysMatchLeaves(x, [], 0, 0);
    WalkApart(x, Fresh(), NIL, 0, 0);
    OutputIsNew(x);
    SpineIsCompatible(Output(x).out, Keys(x, [], 0, 0), Leaves(x, 0, 0), 0, 1, |Output(x).mem|, id, []);
    CompatibleOutput(x, id);
  }

  lemma OutputIsNew(x: Input)
    requires |x.levels| > 0
    ensures Output(x).out == NewOut(x, Fresh(), NIL, 0, 0)
    ensures |Fresh().mem| == 1 && NIL.arr == 0
  {
    hide Walk;
    WalkFrames(x, Fresh(), NIL, 0, 0);
    assert Output(x).out[0..] == Output(x).out;
  }

  /** With constant middle levels and a primary key that repeats what they add, so are both loops. */
  lemma RepeatsAreSuffixed(x: Input, id: Key)
    requires |x.levels| > 0 && ConstantFrom(x.levels, 1) && Repeats(x.levels, id)
    requires forall i :: 0 <= i < |x.levels[0]| ==> x.levels[0][i] != []
    ensures Kept(x, id) && UsedAtOnce(x, id)
  {
    hide Walk, Keys, Kept, UsedAtOnce, Exact, ConstantFrom, Repeats, Compatible;
    ConstantMiddlesAreExact(x);
    TopIsCompatible(x, Fresh(), 0, id);
    OutputIsNew(x);
    CompatibleOutput(x, id);
  }

  // ---------------------------------------------------------------- when a key is lost

  predicate Spare(levels: seq<seq<Key>>, mem: Memory, cur: Slice, depth: nat, extra: nat) {
    InMem(mem, cur) && cur.len + Need(levels, depth) + extra <= |mem[cur.arr]|
  }

  /** The interior slices share one array, which has room behind each of them. */
  ghost predicate Share(out: seq<Slice>, leaves: seq<bool>, own: nat, cap: nat, extra: nat) {
    |out| == |leaves| && forall i :: 0 <= i < |out| && !leaves[i] ==> out[i].arr == own && out[i].len + extra <= cap
  }

  lemma ShareAppend(a: seq<Slice>, b: seq<Slice>, la: seq<bool>, lb: seq<bool>, own: nat, cap: nat, extra: nat)
    requires Share(a, la, own, cap, extra) && Share(b, lb, own, cap, extra)
    ensures Share(a + b, la + lb, own, cap, extra)
  {
  }

  lemma ShareOne(next: Slice, wanted: bool, own: nat, cap: nat, extra: nat)
    requires next.arr == own && next.len + extra <= cap
    ensures Share(Head(wanted, next), Head(wanted, false), own, cap, extra)
  {
  }

  lemma SpareForOne(x: Input, st: State, cur: Slice, depth: nat, j: nat, extra: nat)
    requires depth < |x.levels| && j < |x.levels[depth]| && Spare(x.levels, st.mem, cur, depth, extra)
    ensures var (st1, next) := Inner(x, st, cur, x.levels[depth][j]);
            && next.arr == cur.arr && Spare(x.levels, st1.mem, next, depth + 1, extra)
            && |st1.mem[cur.arr]| == |st.mem[cur.arr]| && next.len + extra <= |st.mem[cur.arr]|
  {
    TotalCovers(x.levels[depth], j);
  }

  lemma SpareRemains(levels: seq<seq<Key>>, mem: Memory, mem': Memory, cur: Slice, depth: nat, extra: nat)
    requires Spare(levels, mem, cur, depth, extra) && Framed(mem, mem', cur)
    ensures Spare(levels, mem', cur, depth, extra) && |mem'[cur.arr]| == |mem[cur.arr]|
  {
  }

  lemma LeavesShare(out: seq<Slice>, leaves: seq<bool>, own: nat, cap: nat, extra: nat)
    requires |out| == |leaves| && forall i :: 0 <= i < |leaves| ==> leaves[i]
    ensures Share(out, leaves, own, cap, extra)
  {
  }

  lemma {:induction false} InteriorShares(x: Input, st: State, cur: Slice, depth: nat, j: nat, extra: nat)
    requires depth < |x.levels| && j <= |x.levels[depth]| && Spare(x.levels, st.mem, cur, depth, extra)
    ensures Share(NewOut(x, st, cur, depth, j), Leaves(x, depth, j), cur.arr, |st.mem[cur.arr]|, extra)
    decreases |x.levels| - depth, |x.levels[depth]| - j
  {
    hide Inner, Walk, Keys, Leaves, NewOut, Framed, Share, Spare, Append;
    SpareInMem(x.levels, st.mem, cur, depth, extra);
    WalkApart(x, st, cur, depth, j);
    if depth == |x.levels| - 1 {
      LeavesOnly(x, depth, j);
      LeavesShare(NewOut(x, st, cur, depth, j), Leaves(x, depth, j), cur.arr, |st.mem[cur.arr]|, extra);
    } else if j == |x.levels[depth]| {
      NothingLeft(x, st, cur, depth);
      NoLeavesLeft(x, depth);
      LeavesShare(NewOut(x, st, cur, depth, j), Leaves(x, depth, j), cur.arr, |st.mem[cur.arr]|, extra);
    } else {
      InteriorRound(x, st, cur, depth, j, extra);
    }
  }

  lemma SpareInMem(levels: seq<seq<Key>>, mem: Memory, cur: Slice, depth: nat, extra: nat)
    requires Spare(levels, mem, cur, depth, extra)
    ensures InMem(mem, cur)
  {
  }

  lemma NoLeavesLeft(x: Input, depth: nat)
    requires depth < |x.levels|
    ensures Leaves(x, depth, |x.levels[depth]|) == []
  {
  }

  lemma InteriorRound(x: Input, st: State, cur: Slice, depth: nat, j: nat, extra: nat)
    requires depth < |x.levels| - 1 && j < |x.levels[depth]| && Spare(x.levels, st.mem, cur, depth, extra)
    ensures Share(NewOut(x, st, cur, depth, j), Leaves(x, depth, j), cur.arr, |st.mem[cur.arr]|, extra)
    decreases |x.levels| - depth, |x.levels[depth]| - j, 0
  {
    SpareInMem(x.levels, st.mem, cur, depth, extra);
    hide Inner, Walk, Keys, Leaves, NewOut, Framed, Share, Spare, Append, Need;
    var prefix := Read(st.mem, cur);
    InnerStep(x, st, cur, depth, j, prefix);
    InnerOut(x, st, cur, depth, j);
    InnerFrames(x, st, cur, depth, j, prefix);
    SpareForOne(x, st, cur, depth, j, extra);
    var (st1, next) := Inner(x, st, cur, x.levels[depth][j]);
    var st2, w, cap := Walk(x, st1, next, depth + 1, 0), x.allowMissing, |st.mem[cur.arr]|;
    InteriorShares(x, st1, next, depth + 1, 0, extra);
    SpareRemains(x.levels, st.mem, st2.mem, cur, depth, extra);
    InteriorShares(x, st2, cur, depth, j + 1, extra);
    ShareOne(next, w, cur.arr, cap, extra);
    ShareAppend(Head(w, next), NewOut(x, st1, next, depth + 1, 0), Head(w, false), Leaves(x, depth + 1, 0),
                cur.arr, cap, extra);
    ShareAppend(Head(w, next) + NewOut(x, st1, next, depth + 1, 0), NewOut(x, st2, cur, depth, j + 1),
                Head(w, false) + Leaves(x, depth + 1, 0), Leaves(x, depth, j + 1), cur.arr, cap, extra);
  }

  predicate HasSpare(mem: Memory, s: Slice, id: Key) {
    InMem(mem, s) && FitsIn(mem, s, id)
  }

  /** Where there is room, the loop writes in place. */
  ghost predicate InPlace(st: State, st': State, id: Key, i: nat) {
    && |st.out| == |st'.out| && |st.mem| <= |st'.mem|
    && (forall a :: 0 <= a < |st.mem| ==> |st'.mem[a]| == |st.mem[a]|)
    && (forall j :: i <= j < |st.out| ==> st'.out[j] == st.out[j])
    && (forall j :: 0 <= j < i && j < |st.out| && HasSpare(st.mem, st.out[j], id) ==>
          st'.out[j] == Slice(st.out[j].arr, st.out[j].len + |id|))
  }

  lemma InPlaceStep(st: State, st': State, id: Key, grow: Growth, i: nat)
    requires InPlace(st, st', id, i) && i < |st.out| && AllInMem(st) && AllInMem(st')
    ensures InPlace(st, Step(st', id, grow, i), id, i + 1)
  {
    var st2 := Step(st', id, grow, i);
    forall a | 0 <= a < |st.mem| ensures |st2.mem[a]| == |st.mem[a]| {
      assert |st'.mem[a]| == |st.mem[a]|;
    }
  }

  lemma StartsInPlace(st: State, id: Key)
    ensures InPlace(st, st, id, 0)
  {
  }

  lemma {:induction false} StaysInPlace(st: State, id: Key, grow: Growth, i: nat)
    requires AllInMem(st) && i <= |st.out|
    ensures InPlace(st, After(st, id, grow, i), id, i)
  {
    hide InPlace, Step, AllInMem;
    if i == 0 {
      StartsInPlace(st, id);
    } else {
      StaysInPlace(st, id, grow, i - 1);
      InPlaceStep(st, After(st, id, grow, i - 1), id, grow, i - 1);
    }
  }

  /** Two slices with room in one array can only both end up right if their keys agree. */
  lemma KeptPair(st: State, keys: seq<Key>, id: Key, grow: Growth, i: nat, j: nat)
    requires AllInMem(st) && HoldUpTo(After(st, id, grow, |st.out|), keys, id, |st.out|)
    requires i < |st.out| && j < |st.out| && st.out[i].arr == st.out[j].arr
    requires HasSpare(st.mem, st.out[i], id) && HasSpare(st.mem, st.out[j], id)
    ensures |st.out| == |keys| && Comparable(keys[i] + id, keys[j] + id)
  {
    hide After;
    var st' := After(st, id, grow, |st.out|);
    StaysInPlace(st, id, grow, |st.out|);
    assert Holds(st'.mem, st'.out[i], keys[i] + id) && Holds(st'.mem, st'.out[j], keys[j] + id);
    PrefixesComparable(keys[i] + id, keys[j] + id, st'.mem[st.out[i].arr]);
  }

  /** The second slice is read while the first one's primary key is in the array. */
  lemma UsedPair(st: State, a: Key, b: Key, id: Key, grow: Growth)
    requires AllInMem(st) && |st.out| > 1 && st.out[0].arr == st.out[1].arr
    requires HasSpare(st.mem, st.out[0], id) && HasSpare(st.mem, st.out[1], id)
    requires HoldsAfter(st, a + id, id, grow, 0) && HoldsAfter(st, b + id, id, grow, 1)
    ensures Comparable(a + id, b)
  {
    StaysInPlace(st, id, grow, 1);
    StaysInPlace(st, id, grow, 2);
    hide After;
    var st1, st2 := After(st, id, grow, 1), After(st, id, grow, 2);
    SecondRound(st, id, grow);
    var s := st1.out[1];
    AppendFrames(st1.mem, s, id, grow);
    assert Holds(st2.mem, st2.out[1], Read(st1.mem, s) + id) && Holds(st2.mem, st2.out[1], b + id);
    assert |b| == |Read(st1.mem, s)|;
    assert (Read(st1.mem, s) + id)[..|b|] == (b + id)[..|b|];
    PrefixesComparable(a + id, b, st1.mem[s.arr]);
  }

  lemma SecondRound(st: State, id: Key, grow: Growth)
    requires AllInMem(st) && |st.out| > 1
    ensures After(st, id, grow, 2) == Step(After(st, id, grow, 1), id, grow, 1)
  {
  }

  // ---------------------------------------------------------------- which keys agree

  /** The first value of each level from `depth` up to `d`. */
  function FirstPath(levels: seq<seq<Key>>, prefix: Key, depth: nat, d: nat): Key
    requires d <= |levels| && forall i :: 0 <= i < |levels| ==> levels[i] != []
    decreases d - depth
  {
    if depth >= d then prefix else FirstPath(levels, prefix + levels[depth][0], depth + 1, d)
  }

  /** Value `k` of level `d`, behind the first values above it, is an interior key. */
  lemma {:induction false} InnerKeyAt(x: Input, prefix: Key, depth: nat, j: nat, d: nat, k: nat) returns (i: nat)
    requires x.allowMissing && depth <= d < |x.levels| - 1 && k < |x.levels[d]|
    requires forall l :: 0 <= l < |x.levels| ==> x.levels[l] != []
    requires j <= if depth == d then k else 0
    ensures i < |Keys(x, prefix, depth, j)| == |Leaves(x, depth, j)| && !Leaves(x, depth, j)[i]
    ensures Keys(x, prefix, depth, j)[i] == FirstPath(x.levels, prefix, depth, d) + x.levels[d][k]
    decreases |x.levels| - depth, |x.levels[depth]| - j
  {
    var v := x.levels[depth][j];
    var key := prefix + v;
    KeysMatchLeaves(x, prefix, depth, j);
    KeysMatchLeaves(x, prefix, depth, j + 1);
    KeysMatchLeaves(x, key, depth + 1, 0);
    if depth < d {
      i := InnerKeyAt(x, key, depth + 1, 0, d, k);
      i := i + 1;
    } else if j == k {
      i := 0;
    } else {
      i := InnerKeyAt(x, prefix, depth, j + 1, d, k);
      i := 1 + |Keys(x, key, depth + 1, 0)| + i;
    }
  }

  /** Any two interior keys, suffixed, agree as far as the shorter one goes. */
  ghost predicate AllAgree(keys: seq<Key>, leaves: seq<bool>, id: Key) {
    && |keys| == |leaves|
    && forall i, j :: 0 <= i < |keys| && 0 <= j < |keys| && !leaves[i] && !leaves[j] ==> Comparable(keys[i] + id, keys[j] + id)
  }

  lemma SuffixedComparable(a: Key, b: Key, id: Key)
    requires Comparable(a + id, b + id)
    ensures Comparable(a, b)
  {
    if a + id <= b + id {
      PrefixesComparable(a, b, b + id);
    } else {
      PrefixesComparable(a, b, a + id);
    }
  }

  /** Then each middle level has one value. */
  lemma AgreeingIsConstant(x: Input, v: Key, id: Key, d: nat, k: nat)
    requires x.allowMissing && PrefixFreeLevels(x.levels) && 1 <= d < |x.levels| - 1 && k < |x.levels[d]|
    requires AllAgree([v] + Keys(x, v, 1, 0), [false] + Leaves(x, 1, 0), id)
    ensures x.levels[d] != [] && x.levels[d][k] == x.levels[d][0]
  {
    assert forall l :: 0 <= l < |x.levels| ==> PrefixFreeLevel(x.levels[l]);
    var i := InnerKeyAt(x, v, 1, 0, d, k);
    var j := InnerKeyAt(x, v, 1, 0, d, 0);
    var q := FirstPath(x.levels, v, 1, d);
    var keys, leaves := [v] + Keys(x, v, 1, 0), [false] + Leaves(x, 1, 0);
    assert keys[i + 1] == q + x.levels[d][k] && !leaves[i + 1];
    assert keys[j + 1] == q + x.levels[d][0] && !leaves[j + 1];
    SuffixedComparable(q + x.levels[d][k], q + x.levels[d][0], id);
    ComparableAfter(q, x.levels[d][k], x.levels[d][0]);
  }

  /** The key of the whole spine is the key above level `d` and what the rest adds. */
  lemma {:induction false} FirstPathIsMiddle(levels: seq<seq<Key>>, prefix: Key, depth: nat)
    requires depth < |levels| && forall i :: 0 <= i < |levels| ==> levels[i] != []
    ensures FirstPath(levels, prefix, depth, |levels| - 1) == prefix + Middle(levels, depth)
    decreases |levels| - depth
  {
    if depth == |levels| - 1 {
      assert prefix + [] == prefix;
    } else {
      FirstPathIsMiddle(levels, prefix + levels[depth][0], depth + 1);
      assert (prefix + levels[depth][0]) + Middle(levels, depth + 1) == prefix + (levels[depth][0] + Middle(levels, depth + 1));
    }
  }

  lemma {:induction false} FirstPathSplits(levels: seq<seq<Key>>, prefix: Key, depth: nat, d: nat, e: nat)
    requires depth <= d <= e <= |levels| && forall i :: 0 <= i < |levels| ==> levels[i] != []
    ensures FirstPath(levels, prefix, depth, e) == FirstPath(levels, FirstPath(levels, prefix, depth, d), d, e)
    decreases d - depth
  {
    if depth < d {
      FirstPathSplits(levels, prefix + levels[depth][0], depth + 1, d, e);
    }
  }

  /** The key of the first values down to level `d` is interior. */
  lemma SpineKeyAt(x: Input, v: Key, d: nat) returns (i: nat)
    requires x.allowMissing && 1 <= d < |x.levels| && forall l :: 0 <= l < |x.levels| ==> x.levels[l] != []
    ensures var keys, leaves := [v] + Keys(x, v, 1, 0), [false] + Leaves(x, 1, 0);
            i < |keys| == |leaves| && !leaves[i] && keys[i] == FirstPath(x.levels, v, 1, d)
  {
    KeysMatchLeaves(x, v, 1, 0);
    if d == 1 {
      i := 0;
    } else {
      i := InnerKeyAt(x, v, 1, 0, d - 1, 0);
      FirstPathSplits(x.levels, v, 1, d - 1, d);
      i := i + 1;
    }
  }

  /** And the primary key repeats what the middle levels add. */
  lemma AgreeingRepeats(x: Input, v: Key, id: Key, d: nat)
    requires x.allowMissing && PrefixFreeLevels(x.levels) && 1 <= d < |x.levels| - 1
    requires AllAgree([v] + Keys(x, v, 1, 0), [false] + Leaves(x, 1, 0), id)
    ensures id <= Middle(x.levels, d) + id
  {
    assert forall l :: 0 <= l < |x.levels| ==> PrefixFreeLevel(x.levels[l]);
    hide Keys, Leaves;
    var i := SpineKeyAt(x, v, d);
    var j := SpineKeyAt(x, v, |x.levels| - 1);
    var keys := [v] + Keys(x, v, 1, 0);
    var rest := Middle(x.levels, d);
    FirstPathSplits(x.levels, v, 1, d, |x.levels| - 1);
    FirstPathIsMiddle(x.levels, keys[i], d);
    assert keys[j] == keys[i] + rest;
    assert Comparable(keys[i] + id, keys[j] + id);
    assert keys[j] + id == keys[i] + (rest + id);
    PrefixAfter(keys[i], id, rest + id);
    PrefixAfter(keys[i], rest + id, id);
    assert |rest + id| >= |id|;
  }

  // ---------------------------------------------------------------- the exact conditions

  lemma TopSpare(x: Input, extra: nat)
    requires |x.levels| > 1 && x.levels[0] != [] && x.levels[0][0] != []
    requires x.grow(0, |x.levels[0][0]|) >= Need(x.levels, 1) + extra
    ensures var (st1, next) := Inner(x, Fresh(), NIL, x.levels[0][0]);
            next.arr == 1 && Spare(x.levels, st1.mem, next, 1, extra) && next.len + extra <= |st1.mem[next.arr]|
  {
  }

  lemma BlockHasSpare(st: State, next: Slice, deep: seq<Slice>, rest: seq<Slice>, dl: seq<bool>, cap: nat, id: Key)
    requires AllInMem(st) && st.out == [next] + deep + rest && Share(deep, dl, next.arr, cap, |id|)
    requires next.len + |id| <= cap && next.arr < |st.mem| && |st.mem[next.arr]| == cap
    ensures var leaves := [false] + dl;
            forall i :: 0 <= i < |leaves| && !leaves[i] ==> st.out[i].arr == next.arr && HasSpare(st.mem, st.out[i], id)
  {
    var leaves := [false] + dl;
    forall i | 0 <= i < |leaves| && !leaves[i] ensures st.out[i].arr == next.arr && HasSpare(st.mem, st.out[i], id) {
      assert st.out[i] == if i == 0 then next else deep[i - 1];
      assert i > 0 ==> leaves[i] == dl[i - 1];
    }
  }

  /** The first value of the top level with everything below it, under a policy that leaves room. */
  lemma FirstBlock(x: Input, id: Key)
    requires x.allowMissing && PrefixFreeLevels(x.levels) && |x.levels| > 1
    requires x.grow(0, |x.levels[0][0]|) >= Need(x.levels, 1) + |id|
    ensures var v := x.levels[0][0];
            var keys, leaves := [v] + Keys(x, v, 1, 0), [false] + Leaves(x, 1, 0);
            var st := Output(x);
            && keys <= Keys(x, [], 0, 0) && |keys| == |leaves| <= |st.out| == |Keys(x, [], 0, 0)|
            && forall i :: 0 <= i < |keys| && !leaves[i] ==> st.out[i].arr == 1 && HasSpare(st.mem, st.out[i], id)
  {
    hide Walk, Keys, Leaves, NewOut, Framed, Inner, Share, Spare, LeavesHold;
    assert PrefixFreeLevel(x.levels[0]);
    var v, st0 := x.levels[0][0], Fresh();
    assert [] + v == v;
    TopSpare(x, |id|);
    InnerStep(x, st0, NIL, 0, 0, []);
    InnerOut(x, st0, NIL, 0, 0);
    InnerFrames(x, st0, NIL, 0, 0, []);
    var (st1, next) := Inner(x, st0, NIL, v);
    var st2 := Walk(x, st1, next, 1, 0);
    InteriorShares(x, st1, next, 1, 0, |id|);
    KeysMatchLeaves(x, v, 1, 0);
    LostSizes(x, st1, next, 1, 0, v);
    LostSizes(x, st0, NIL, 0, 0, []);
    OutputIsNew(x);
    SpareRemains(x.levels, st1.mem, st2.mem, next, 1, |id|);
    WalkFrames(x, st2, NIL, 0, 1);
    BlockHasSpare(Output(x), next, NewOut(x, st1, next, 1, 0), NewOut(x, st2, NIL, 0, 1), Leaves(x, 1, 0),
                  |st1.mem[next.arr]|, id);
  }

  lemma KeptForces(x: Input, id: Key)
    requires x.allowMissing && PrefixFreeLevels(x.levels) && |x.levels| > 1
    requires x.grow(0, |x.levels[0][0]|) >= Need(x.levels, 1) + |id|
    requires Kept(x, id)
    ensures ConstantFrom(x.levels, 1) && Repeats(x.levels, id)
  {
    hide Output, Keys, Leaves, After, HoldUpTo;
    FirstBlock(x, id);
    var v, st := x.levels[0][0], Output(x);
    var keys, leaves := [v] + Keys(x, v, 1, 0), [false] + Leaves(x, 1, 0);
    forall i, j | 0 <= i < |keys| && 0 <= j < |keys| && !leaves[i] && !leaves[j]
      ensures Comparable(keys[i] + id, keys[j] + id)
    {
      KeptPair(st, Keys(x, [], 0, 0), id, x.grow, i, j);
    }
    forall d | 1 <= d < |x.levels| - 1 ensures Constant(x.levels[d]) {
      assert PrefixFreeLevel(x.levels[d]);
      forall k | 0 <= k < |x.levels[d]| ensures x.levels[d][k] == x.levels[d][0] {
        AgreeingIsConstant(x, v, id, d, k);
      }
    }
    forall d | 1 <= d < |x.levels| - 1 ensures id <= Middle(x.levels, d) + id {
      AgreeingRepeats(x, v, id, d);
    }
  }

  /** Room for one value of each level and a primary key. */
  function RoomyFor(levels: seq<seq<Key>>, id: Key): Growth {
    (cap: nat, needed: nat) => Need(levels, 1) + |id|
  }

  ghost predicate KeptAlways(levels: seq<seq<Key>>, id: Key)
    requires |levels| > 0
  {
    forall grow: Growth :: Kept(Input(levels, true, grow), id)
  }

  ghost predicate UsedAlways(levels: seq<seq<Key>>, id: Key)
    requires |levels| > 0
  {
    forall grow: Growth :: UsedAtOnce(Input(levels, true, grow), id)
  }

  /** With `AllowMissing`, an insert ends up with the right keys under every growth policy if and only
      if each middle level has one distinct value and the primary key repeats what the middle
      levels add. Two levels have no middle. */
  lemma KeptExactIff(levels: seq<seq<Key>>, id: Key)
    requires |levels| > 0 && PrefixFreeLevels(levels)
    ensures KeptAlways(levels, id) <==> ConstantFrom(levels, 1) && Repeats(levels, id)
  {
    hide Kept, ConstantFrom, Repeats;
    assert PrefixFreeLevel(levels[0]);
    if ConstantFrom(levels, 1) && Repeats(levels, id) {
      forall grow: Growth ensures Kept(Input(levels, true, grow), id) {
        RepeatsAreSuffixed(Input(levels, true, grow), id);
      }
    }
    if KeptAlways(levels, id) {
      if |levels| > 1 {
        KeptForces(Input(levels, true, RoomyFor(levels, id)), id);
      } else {
        NoMiddle(levels, id);
      }
    }
  }

  lemma NoMiddle(levels: seq<seq<Key>>, id: Key)
    requires |levels| <= 2
    ensures ConstantFrom(levels, 1) && Repeats(levels, id)
  {
  }

  /** The first two outputs, where there is a middle level. */
  lemma FirstTwoKeys(x: Input)
    requires x.allowMissing && PrefixFreeLevels(x.levels) && |x.levels| > 2
    ensures var v, w := x.levels[0][0], x.levels[1][0];
            && |Keys(x, v, 1, 0)| > 0 && Keys(x, v, 1, 0)[0] == v + w
            && |Leaves(x, 1, 0)| > 0 && !Leaves(x, 1, 0)[0]
  {
    assert PrefixFreeLevel(x.levels[0]) && PrefixFreeLevel(x.levels[1]);
  }

  /** Already the first append spoils the second value, unless it writes what is there. */
  lemma UsedForces(x: Input, id: Key)
    requires x.allowMissing && PrefixFreeLevels(x.levels) && |x.levels| > 2
    requires x.grow(0, |x.levels[0][0]|) >= Need(x.levels, 1) + |id|
    requires UsedAtOnce(x, id)
    ensures x.levels[1] != [] && Comparable(id, x.levels[1][0])
  {
    hide Output, Keys, Leaves, HoldsAfter;
    FirstBlock(x, id);
    FirstTwoKeys(x);
    assert PrefixFreeLevel(x.levels[0]) && PrefixFreeLevel(x.levels[1]);
    var v, w, st, all := x.levels[0][0], x.levels[1][0], Output(x), Keys(x, [], 0, 0);
    var keys, leaves := [v] + Keys(x, v, 1, 0), [false] + Leaves(x, 1, 0);
    assert !leaves[0] && !leaves[1] && all[0] == keys[0] == v && all[1] == keys[1] == v + w;
    UsedPair(st, v, v + w, id, x.grow);
    ComparableAfter(v, id, w);
  }

  /** The ordinary case, in which the primary key and the first middle value do not begin alike: an
      insert, and a delete, is exact under every growth policy if and only if there are at most two
      levels. */
  lemma OrdinaryKeysIff(levels: seq<seq<Key>>, id: Key)
    requires |levels| > 0 && PrefixFreeLevels(levels)
    requires |levels| > 2 ==> levels[1] != [] && !Comparable(id, levels[1][0])
    ensures KeptAlways(levels, id) <==> |levels| <= 2
    ensures UsedAlways(levels, id) <==> |levels| <= 2
  {
    hide Kept, UsedAtOnce;
    assert PrefixFreeLevel(levels[0]);
    if |levels| <= 2 {
      NoMiddle(levels, id);
      forall grow: Growth
        ensures Kept(Input(levels, true, grow), id) && UsedAtOnce(Input(levels, true, grow), id)
      {
        RepeatsAreSuffixed(Input(levels, true, grow), id);
      }
    } else {
      KeptExactIff(levels, id);
      if id <= Middle(levels, 1) + id {
        StartsAlike(levels[1][0], Middle(levels, 2), id);
      }
      if UsedAlways(levels, id) {
        UsedForces(Input(levels, true, RoomyFor(levels, id)), id);
      }
    }
  }

  lemma StartsAlike(w: Key, rest: Key, id: Key)
    requires id <= (w + rest) + id
    ensures Comparable(id, w)
  {
    assert (w + rest) + id == w + (rest + id);
    PrefixesComparable(id, w, w + (rest + id));
  }

  function Chain(): seq<seq<Key>> {
    [[[97, 0]], [[98, 0]], [[99, 0]]]
  }

  /** Three levels with one value each, and a primary key "1": in a Go array of eight bytes the key of
      the first two values is lost, for an insert and for a delete. */
  lemma ChainIsOverwritten()
    ensures !Kept(Input(Chain(), true, EightBytes()), [49, 0])
    ensures !UsedAtOnce(Input(Chain(), true, EightBytes()), [49, 0])
  {
    hide Kept, UsedAtOnce, Repeats;
    var levels, id: Key := Chain(), [49, 0];
    var x := Input(levels, true, EightBytes());
    ChainFits();
    if UsedAtOnce(x, id) {
      UsedForces(x, id);
      assert false;
    }
    if Kept(x, id) {
      KeptForces(x, id);
      ChainDiffers();
      assert false;
    }
  }

  lemma ChainFits()
    ensures PrefixFreeLevels(Chain()) && Need(Chain(), 1) == 4 && !Comparable([49, 0], [98, 0])
  {
    var levels, none: seq<Key> := Chain(), [];
    assert PrefixFreeLevel(levels[0]) && PrefixFreeLevel(levels[1]) && PrefixFreeLevel(levels[2]);
    assert levels[1][1..] == none && levels[2][1..] == none;
    assert Total(levels[1]) == 2 && Total(levels[2]) == 2;
    assert Need(levels, 3) == 0 && Need(levels, 2) == 2;
    var a, b: Key := [49, 0], [98, 0];
    assert a[0] != b[0];
  }

  lemma ChainDiffers()
    ensures !Repeats(Chain(), [49, 0])
  {
    var id: Key := [49, 0];
    if id <= Middle(Chain(), 1) + id {
      StartsAlike([98, 0], Middle(Chain(), 2), id);
      ChainFits();
      assert false;
    }
  }
}
