/**
 The depth-first walk of `CompoundMultiIndex.FromObject` under Go's slice semantics.

 A slice is a backing array and a length; its capacity is the length of the array (every slice
 here starts at the front of its array). `append` writes in place when the capacity allows
 and otherwise moves to a new array with some spare room, for which any growth policy is
 possible. Array 0 has no room and is the backing of the nil slice.

 `append(currPrefix, v...)` can therefore write over bytes that an earlier interior prefix
 shares. Leaves are copied first, so they are always exact; the theorems at the end say
 exactly for which inputs the interior prefixes are.
 */
module SliceWalk {
  import opened Bytes

  datatype Slice = Slice(arr: nat, len: nat)

  type Memory = seq<Key>

  /** Spare capacity of a new array, given the old capacity and the length needed. */
  type Growth = (nat, nat) -> nat

  const NIL := Slice(0, 0)

  predicate InMem(mem: Memory, s: Slice) {
    s.arr < |mem| && s.len <= |mem[s.arr]|
  }

  function Read(mem: Memory, s: Slice): Key
    requires InMem(mem, s)
  {
    mem[s.arr][..s.len]
  }

  function Zeros(n: nat): (r: Key)
    ensures |r| == n
  {
    seq(n, _ => 0)
  }

  predicate FitsIn(mem: Memory, s: Slice, v: Key)
    requires InMem(mem, s)
  {
    s.len + |v| <= |mem[s.arr]|
  }

  /** Go's `append(s, v...)`. */
  function Append(mem: Memory, s: Slice, v: Key, grow: Growth): (r: (Memory, Slice))
    requires InMem(mem, s)
    ensures InMem(r.0, r.1)
    ensures |mem| <= |r.0| && forall a :: 0 <= a < |mem| ==> |r.0[a]| == |mem[a]|
  {
    var n := s.len + |v|;
    if FitsIn(mem, s, v) then
      (mem[s.arr := mem[s.arr][..s.len] + v + mem[s.arr][n..]], Slice(s.arr, n))
    else
      (mem + [Read(mem, s) + v + Zeros(grow(|mem[s.arr]|, n))], Slice(|mem|, n))
  }

  /** `make([]byte, len(s))` and `copy`. */
  function Copied(mem: Memory, s: Slice): (r: (Memory, Slice))
    requires InMem(mem, s)
    ensures InMem(r.0, r.1)
    ensures |mem| <= |r.0| && forall a :: 0 <= a < |mem| ==> |r.0[a]| == |mem[a]|
  {
    (mem + [Read(mem, s)], Slice(|mem|, s.len))
  }

  /** What `walkVals` captures: memory and the output slice. */
  datatype State = State(mem: Memory, out: seq<Slice>)

  /** The values each sub-index gave, and whether interior prefixes are wanted. */
  datatype Input = Input(levels: seq<seq<Key>>, allowMissing: bool, grow: Growth)

  /** One leaf. */
  function Leaf(x: Input, st: State, cur: Slice, v: Key): (st': State)
    requires InMem(st.mem, cur)
    ensures |st.mem| <= |st'.mem| && forall a :: 0 <= a < |st.mem| ==> |st'.mem[a]| == |st.mem[a]|
  {
    var (mem1, outcome) := Copied(st.mem, cur);
    var (mem2, full) := Append(mem1, outcome, v, x.grow);
    State(mem2, st.out + [full])
  }

  /** One interior value: the state in which the walk goes deeper, and the slice it takes. */
  function Inner(x: Input, st: State, cur: Slice, v: Key): (r: (State, Slice))
    requires InMem(st.mem, cur)
    ensures InMem(r.0.mem, r.1) && InMem(r.0.mem, cur)
    ensures |st.mem| <= |r.0.mem| && forall a :: 0 <= a < |st.mem| ==> |r.0.mem[a]| == |st.mem[a]|
  {
    var (mem1, next) := Append(st.mem, cur, v, x.grow);
    (State(mem1, if x.allowMissing then st.out + [next] else st.out), next)
  }

  /** `walkVals` from value `j` of a level on. */
  function Walk(x: Input, st: State, cur: Slice, depth: nat, j: nat): (st': State)
    requires InMem(st.mem, cur) && depth < |x.levels| && j <= |x.levels[depth]|
    ensures |st.mem| <= |st'.mem| && forall a :: 0 <= a < |st.mem| ==> |st'.mem[a]| == |st.mem[a]|
    decreases |x.levels| - depth, |x.levels[depth]| - j
  {
    if j == |x.levels[depth]| then st
    else
      var v := x.levels[depth][j];
      if depth == |x.levels| - 1 then
        Walk(x, Leaf(x, st, cur, v), cur, depth, j + 1)
      else
        var (st1, next) := Inner(x, st, cur, v);
        Walk(x, Walk(x, st1, next, depth + 1, 0), cur, depth, j + 1)
  }

  class Walker {
    const x: Input
    var mem: Memory
    var out: seq<Slice>

    ghost function Now(): State
      reads this`mem, this`out
    {
      State(mem, out)
    }

    constructor (x: Input)
      ensures this.x == x && mem == [[]] && out == []
    {
      this.x := x;
      mem := [[]];
      out := [];
    }

    method AppendTo(s: Slice, v: Key) returns (r: Slice)
      requires InMem(mem, s)
      modifies this`mem
      ensures (mem, r) == Append(old(mem), s, v, x.grow)
    {
      var n := s.len + |v|;
      if n <= |mem[s.arr]| {
        mem := mem[s.arr := mem[s.arr][..s.len] + v + mem[s.arr][n..]];
        r := Slice(s.arr, n);
      } else {
        r := Slice(|mem|, n);
        mem := mem + [mem[s.arr][..s.len] + v + Zeros(x.grow(|mem[s.arr]|, n))];
      }
    }

    method MakeCopy(s: Slice) returns (r: Slice)
      requires InMem(mem, s)
      modifies this`mem
      ensures (mem, r) == Copied(old(mem), s)
    {
      r := Slice(|mem|, s.len);
      mem := mem + [mem[s.arr][..s.len]];
    }

    /** The leaf case of `walkVals`. */
    method AddLeaf(currPrefix: Slice, v: Key)
      requires InMem(mem, currPrefix)
      modifies this`mem, this`out
      ensures Now() == Leaf(x, old(Now()), currPrefix, v)
    {
      var outcome := MakeCopy(currPrefix);
      var full := AppendTo(outcome, v);
      out := out + [full];
    }

    /** The interior case, up to the recursive call. */
    method AddInner(currPrefix: Slice, v: Key) returns (nextPrefix: Slice)
      requires InMem(mem, currPrefix)
      modifies this`mem, this`out
      ensures (Now(), nextPrefix) == Inner(x, old(Now()), currPrefix, v)
    {
      nextPrefix := AppendTo(currPrefix, v);
      if x.allowMissing {
        out := out + [nextPrefix];
      }
    }

    /** `walkVals`. */
    method WalkVals(currPrefix: Slice, depth: nat)
      requires InMem(mem, currPrefix)
      modifies this`mem, this`out
      ensures Now() == if depth < |x.levels| then Walk(x, old(Now()), currPrefix, depth, 0) else old(Now())
      decreases |x.levels| - depth
    {
      hide Append, Leaf, Inner;
      if depth >= |x.levels| {
        return;
      }
      var j := 0;
      while j < |x.levels[depth]|
        invariant 0 <= j <= |x.levels[depth]| && InMem(mem, currPrefix)
        invariant Walk(x, Now(), currPrefix, depth, j) == Walk(x, old(Now()), currPrefix, depth, 0)
      {
        var v := x.levels[depth][j];
        if depth == |x.levels| - 1 {
          AddLeaf(currPrefix, v);
        } else {
          var nextPrefix := AddInner(currPrefix, v);
          WalkVals(nextPrefix, depth + 1);
        }
        j := j + 1;
      }
    }
  }

  // ---------------------------------------------------------------- values

  /** The keys the walk is meant to produce, in depth-first order. */
  function Keys(x: Input, prefix: Key, depth: nat, j: nat): seq<Key>
    requires depth < |x.levels| && j <= |x.levels[depth]|
    decreases |x.levels| - depth, |x.levels[depth]| - j
  {
    if j == |x.levels[depth]| then []
    else
      var key := prefix + x.levels[depth][j];
      var rest := Keys(x, prefix, depth, j + 1);
      if depth == |x.levels| - 1 then [key] + rest
      else (if x.allowMissing then [key] else []) + Keys(x, key, depth + 1, 0) + rest
  }

  /** Which of those keys are leaves. */
  function Leaves(x: Input, depth: nat, j: nat): seq<bool>
    requires depth < |x.levels| && j <= |x.levels[depth]|
    decreases |x.levels| - depth, |x.levels[depth]| - j
  {
    if j == |x.levels[depth]| then []
    else
      var rest := Leaves(x, depth, j + 1);
      if depth == |x.levels| - 1 then [true] + rest
      else (if x.allowMissing then [false] else []) + Leaves(x, depth + 1, 0) + rest
  }

  /** A slice that holds a key. */
  predicate Holds(mem: Memory, s: Slice, key: Key) {
    InMem(mem, s) && Read(mem, s) == key
  }

  // ---------------------------------------------------------------- what a walk leaves alone

  /** A walk writes to no array that exists already, except past the end of its own prefix. */
  ghost predicate Framed(mem: Memory, mem': Memory, cur: Slice)
    requires InMem(mem, cur)
  {
    && |mem| <= |mem'|
    && (forall a :: 0 <= a < |mem| ==> |mem'[a]| == |mem[a]|)
    && (forall a :: 0 <= a < |mem| && a != cur.arr ==> mem'[a] == mem[a])
    && mem'[cur.arr][..cur.len] == mem[cur.arr][..cur.len]
  }

  lemma AppendFrames(mem: Memory, s: Slice, v: Key, grow: Growth)
    requires InMem(mem, s)
    ensures var (mem', r) := Append(mem, s, v, grow);
            && Framed(mem, mem', s)
            && Holds(mem', r, Read(mem, s) + v)
            && (r.arr == s.arr || r.arr == |mem|)
            && (r.arr == s.arr <==> FitsIn(mem, s, v))
  {
  }

  lemma CopyFrames(mem: Memory, s: Slice)
    requires InMem(mem, s)
    ensures var (mem', r) := Copied(mem, s);
            Framed(mem, mem', s) && mem'[..|mem|] == mem && r.arr == |mem| && Holds(mem', r, Read(mem, s))
  {
  }

  /** A leaf is a new array that nobody else holds. */
  lemma LeafFrames(x: Input, st: State, cur: Slice, v: Key)
    requires InMem(st.mem, cur)
    ensures var st' := Leaf(x, st, cur, v);
            && |st.mem| < |st'.mem| && st'.mem[..|st.mem|] == st.mem
            && |st'.out| == |st.out| + 1 && st'.out[..|st.out|] == st.out
            && st'.out[|st.out|].arr >= |st.mem|
            && Holds(st'.mem, st'.out[|st.out|], Read(st.mem, cur) + v)
            && Framed(st.mem, st'.mem, cur)
  {
    CopyFrames(st.mem, cur);
    var (mem1, outcome) := Copied(st.mem, cur);
    AppendFrames(mem1, outcome, v, x.grow);
    var mem' := Leaf(x, st, cur, v).mem;
    assert mem'[..|st.mem|] == st.mem;
    assert forall a :: 0 <= a < |st.mem| ==> mem'[a] == mem'[..|st.mem|][a];
  }

  lemma FramedHolds(a: Memory, b: Memory, cur: Slice, prefix: Key)
    requires Holds(a, cur, prefix) && Framed(a, b, cur)
    ensures Holds(b, cur, prefix)
  {
  }

  lemma FramedTransitive(a: Memory, b: Memory, c: Memory, cur: Slice)
    requires InMem(a, cur) && Framed(a, b, cur) && Framed(b, c, cur)
    ensures Framed(a, c, cur)
  {
    forall i | 0 <= i < |a| ensures |c[i]| == |a[i]| {
      assert |b[i]| == |a[i]|;
    }
    forall i | 0 <= i < |a| && i != cur.arr ensures c[i] == a[i] {
      assert b[i] == a[i];
    }
  }

  /** Going deeper writes past the longer prefix, hence past the shorter one. */
  lemma DeeperFrames(a: Memory, b: Memory, c: Memory, cur: Slice, next: Slice)
    requires InMem(a, cur) && Framed(a, b, cur) && InMem(b, next) && Framed(b, c, next)
    requires next.arr == cur.arr || next.arr >= |a|
    requires next.len >= cur.len
    ensures Framed(a, c, cur)
  {
    forall i | 0 <= i < |a| ensures |c[i]| == |a[i]| {
      assert |b[i]| == |a[i]|;
    }
    forall i | 0 <= i < |a| && i != cur.arr ensures c[i] == a[i] {
      assert b[i] == a[i];
    }
    if next.arr == cur.arr {
      assert c[cur.arr][..cur.len] == c[cur.arr][..next.len][..cur.len];
    }
  }

  lemma InnerIsAppend(x: Input, st: State, cur: Slice, v: Key)
    requires InMem(st.mem, cur)
    ensures var (st1, next) := Inner(x, st, cur, v);
            (st1.mem, next) == Append(st.mem, cur, v, x.grow) && st.out <= st1.out && next.len == cur.len + |v|
  {
  }

  lemma {:induction false} WalkFrames(x: Input, st: State, cur: Slice, depth: nat, j: nat)
    requires InMem(st.mem, cur) && depth < |x.levels| && j <= |x.levels[depth]|
    ensures Framed(st.mem, Walk(x, st, cur, depth, j).mem, cur)
    ensures st.out <= Walk(x, st, cur, depth, j).out
    decreases |x.levels| - depth, |x.levels[depth]| - j
  {
    assert Framed(st.mem, st.mem, cur);
    hide Append, Leaf, Inner, Framed;
    if j < |x.levels[depth]| {
      var v := x.levels[depth][j];
      if depth == |x.levels| - 1 {
        var st1 := Leaf(x, st, cur, v);
        LeafFrames(x, st, cur, v);
        WalkFrames(x, st1, cur, depth, j + 1);
        FramedTransitive(st.mem, st1.mem, Walk(x, st1, cur, depth, j + 1).mem, cur);
      } else {
        AppendFrames(st.mem, cur, v, x.grow);
        InnerIsAppend(x, st, cur, v);
        var (st1, next) := Inner(x, st, cur, v);
        var st2 := Walk(x, st1, next, depth + 1, 0);
        WalkFrames(x, st1, next, depth + 1, 0);
        DeeperFrames(st.mem, st1.mem, st2.mem, cur, next);
        WalkFrames(x, st2, cur, depth, j + 1);
        FramedTransitive(st.mem, st2.mem, Walk(x, st2, cur, depth, j + 1).mem, cur);
      }
    }
  }

  // ---------------------------------------------------------------- leaves

  /** Output slices against keys: each leaf holds its key, in an array numbered from `bound`. */
  ghost predicate LeavesHold(mem: Memory, out: seq<Slice>, keys: seq<Key>, leaves: seq<bool>, bound: nat) {
    && |out| == |keys| == |leaves|
    && forall i :: 0 <= i < |leaves| && leaves[i] ==> out[i].arr >= bound && Holds(mem, out[i], keys[i])
  }

  /** Leaves survive whatever a walk with an older prefix does later. */
  lemma LeavesSurvive(mem: Memory, mem': Memory, cur: Slice, out: seq<Slice>, keys: seq<Key>, leaves: seq<bool>, bound: nat)
    requires LeavesHold(mem, out, keys, leaves, bound)
    requires InMem(mem, cur) && cur.arr < bound && Framed(mem, mem', cur)
    ensures LeavesHold(mem', out, keys, leaves, bound)
  {
  }

  lemma LeavesAppend(mem: Memory, a: seq<Slice>, b: seq<Slice>, ka: seq<Key>, kb: seq<Key>, la: seq<bool>, lb: seq<bool>,
                     bound: nat)
    requires LeavesHold(mem, a, ka, la, bound) && LeavesHold(mem, b, kb, lb, bound)
    ensures LeavesHold(mem, a + b, ka + kb, la + lb, bound)
  {
  }

  /** The new output slices of a walk. */
  function NewOut(x: Input, st: State, cur: Slice, depth: nat, j: nat): seq<Slice>
    requires InMem(st.mem, cur) && depth < |x.levels| && j <= |x.levels[depth]|
  {
    WalkFrames(x, st, cur, depth, j);
    Walk(x, st, cur, depth, j).out[|st.out|..]
  }

  /** The output of one round and of the rest. */
  lemma NewOutSplit(a: seq<Slice>, b: seq<Slice>, c: seq<Slice>)
    requires a <= b <= c
    ensures c[|a|..] == b[|a|..] + c[|b|..]
  {
  }

  /** Every leaf key is exactly one root-to-leaf concatenation, all of them appear in depth-first
      order, and none is altered later, however the interior prefixes share storage. */
  lemma {:induction false} LeavesAreExact(x: Input, st: State, cur: Slice, depth: nat, j: nat, prefix: Key)
    requires Holds(st.mem, cur, prefix) && depth < |x.levels| && j <= |x.levels[depth]|
    ensures LeavesHold(Walk(x, st, cur, depth, j).mem, NewOut(x, st, cur, depth, j),
                       Keys(x, prefix, depth, j), Leaves(x, depth, j), |st.mem|)
    decreases |x.levels| - depth, |x.levels[depth]| - j
  {
    hide Framed, Append, Copied;
    if j < |x.levels[depth]| {
      var v := x.levels[depth][j];
      if depth == |x.levels| - 1 {
        LeafRound(x, st, cur, depth, j, prefix);
      } else {
        InnerRound(x, st, cur, depth, j, prefix);
      }
    }
  }

  /** One leaf round: the walk, its output, its keys and its leaves. */
  lemma LeafStep(x: Input, st: State, cur: Slice, depth: nat, j: nat, prefix: Key)
    requires InMem(st.mem, cur) && depth == |x.levels| - 1 && j < |x.levels[depth]|
    ensures var st1 := Leaf(x, st, cur, x.levels[depth][j]);
            && InMem(st1.mem, cur) && |st1.out| == |st.out| + 1
            && Walk(x, st, cur, depth, j) == Walk(x, st1, cur, depth, j + 1)
            && NewOut(x, st, cur, depth, j) == [st1.out[|st.out|]] + NewOut(x, st1, cur, depth, j + 1)
    ensures Keys(x, prefix, depth, j) == [prefix + x.levels[depth][j]] + Keys(x, prefix, depth, j + 1)
    ensures Leaves(x, depth, j) == [true] + Leaves(x, depth, j + 1)
  {
    hide Leaf, Framed;
    var st1 := Leaf(x, st, cur, x.levels[depth][j]);
    LeafFrames(x, st, cur, x.levels[depth][j]);
    WalkFrames(x, st1, cur, depth, j + 1);
    assert st1.out[|st.out|..] == [st1.out[|st.out|]];
    NewOutSplit(st.out, st1.out, Walk(x, st1, cur, depth, j + 1).out);
  }

  lemma LeafRound(x: Input, st: State, cur: Slice, depth: nat, j: nat, prefix: Key)
    requires Holds(st.mem, cur, prefix) && depth == |x.levels| - 1 && j < |x.levels[depth]|
    ensures LeavesHold(Walk(x, st, cur, depth, j).mem, NewOut(x, st, cur, depth, j),
                       Keys(x, prefix, depth, j), Leaves(x, depth, j), |st.mem|)
    decreases |x.levels| - depth, |x.levels[depth]| - j, 0
  {
    HoldsInMem(st.mem, cur, prefix);
    hide Leaf, Walk, Keys, Leaves, NewOut, Framed;
    var key := prefix + x.levels[depth][j];
    LeafStep(x, st, cur, depth, j, prefix);
    var st1 := Leaf(x, st, cur, x.levels[depth][j]);
    LeafFrames(x, st, cur, x.levels[depth][j]);
    FramedHolds(st.mem, st1.mem, cur, prefix);
    WalkFrames(x, st1, cur, depth, j + 1);
    LeavesAreExact(x, st1, cur, depth, j + 1, prefix);
    CombineLeaf(st, st1, Walk(x, st1, cur, depth, j + 1), cur, st1.out[|st.out|], key,
                NewOut(x, st1, cur, depth, j + 1), Keys(x, prefix, depth, j + 1), Leaves(x, depth, j + 1));
  }

  lemma CombineLeaf(st: State, st1: State, st2: State, cur: Slice, leaf: Slice, key: Key,
                    rest: seq<Slice>, rk: seq<Key>, rl: seq<bool>)
    requires |st.mem| <= |st1.mem| && cur.arr < |st.mem| && leaf.arr >= |st.mem|
    requires Holds(st1.mem, leaf, key) && LeavesHold(st2.mem, rest, rk, rl, |st1.mem|)
    requires InMem(st1.mem, cur) && Framed(st1.mem, st2.mem, cur)
    ensures LeavesHold(st2.mem, [leaf] + rest, [key] + rk, [true] + rl, |st.mem|)
  {
    hide Framed, Holds;
    assert LeavesHold(st1.mem, [leaf], [key], [true], |st.mem|);
    assert LeavesHold(st2.mem, rest, rk, rl, |st.mem|);
    LeavesSurvive(st1.mem, st2.mem, cur, [leaf], [key], [true], |st.mem|);
    LeavesAppend(st2.mem, [leaf], rest, [key], rk, [true], rl, |st.mem|);
  }

  function Head<T>(wanted: bool, t: T): seq<T> {
    if wanted then [t] else []
  }

  /** One interior round: the walk, its keys and its leaves, step by step. */
  lemma InnerStep(x: Input, st: State, cur: Slice, depth: nat, j: nat, prefix: Key)
    requires InMem(st.mem, cur) && depth < |x.levels| - 1 && j < |x.levels[depth]|
    ensures var v := x.levels[depth][j];
            var (st1, next) := Inner(x, st, cur, v);
            && InMem(st1.mem, next) && st1.out == st.out + Head(x.allowMissing, next)
            && var st2 := Walk(x, st1, next, depth + 1, 0);
            && InMem(st2.mem, cur)
            && Walk(x, st, cur, depth, j) == Walk(x, st2, cur, depth, j + 1)
    ensures var key := prefix + x.levels[depth][j];
            && Keys(x, prefix, depth, j)
               == Head(x.allowMissing, key) + Keys(x, key, depth + 1, 0) + Keys(x, prefix, depth, j + 1)
            && Leaves(x, depth, j) == Head(x.allowMissing, false) + Leaves(x, depth + 1, 0) + Leaves(x, depth, j + 1)
  {
    assert st.out + [] == st.out;
  }

  /** The output of an interior round: its own prefix, what lies below, and the rest. */
  lemma InnerOut(x: Input, st: State, cur: Slice, depth: nat, j: nat)
    requires InMem(st.mem, cur) && depth < |x.levels| - 1 && j < |x.levels[depth]|
    ensures var (st1, next) := Inner(x, st, cur, x.levels[depth][j]);
            && InMem(st1.mem, next) && InMem(Walk(x, st1, next, depth + 1, 0).mem, cur)
            && var st2 := Walk(x, st1, next, depth + 1, 0);
               NewOut(x, st, cur, depth, j)
               == Head(x.allowMissing, next) + NewOut(x, st1, next, depth + 1, 0) + NewOut(x, st2, cur, depth, j + 1)
  {
    hide Inner, Walk, Framed;
    InnerStep(x, st, cur, depth, j, []);
    var (st1, next) := Inner(x, st, cur, x.levels[depth][j]);
    var st2 := Walk(x, st1, next, depth + 1, 0);
    var st3 := Walk(x, st2, cur, depth, j + 1);
    WalkFrames(x, st1, next, depth + 1, 0);
    WalkFrames(x, st2, cur, depth, j + 1);
    assert st1.out[|st.out|..] == Head(x.allowMissing, next);
    NewOutSplit(st.out, st1.out, st2.out);
    NewOutSplit(st.out, st2.out, st3.out);
  }

  /** The frames of an interior round. */
  lemma InnerFrames(x: Input, st: State, cur: Slice, depth: nat, j: nat, prefix: Key)
    requires Holds(st.mem, cur, prefix) && depth < |x.levels| - 1 && j < |x.levels[depth]|
    ensures var v := x.levels[depth][j];
            var (st1, next) := Inner(x, st, cur, v);
            && Holds(st1.mem, next, prefix + v) && |st.mem| <= |st1.mem|
            && (next.arr == cur.arr || next.arr == |st.mem|) && next.len == cur.len + |v|
            && var st2 := Walk(x, st1, next, depth + 1, 0);
            && Framed(st1.mem, st2.mem, next)
            && Framed(st.mem, st2.mem, cur)
            && Holds(st2.mem, cur, prefix)
            && Framed(st2.mem, Walk(x, st2, cur, depth, j + 1).mem, cur)
  {
    hide Append, Walk;
    var v := x.levels[depth][j];
    AppendFrames(st.mem, cur, v, x.grow);
    var (st1, next) := Inner(x, st, cur, v);
    var st2 := Walk(x, st1, next, depth + 1, 0);
    WalkFrames(x, st1, next, depth + 1, 0);
    DeeperFrames(st.mem, st1.mem, st2.mem, cur, next);
    WalkFrames(x, st2, cur, depth, j + 1);
  }

  lemma InnerRound(x: Input, st: State, cur: Slice, depth: nat, j: nat, prefix: Key)
    requires Holds(st.mem, cur, prefix) && depth < |x.levels| - 1 && j < |x.levels[depth]|
    ensures LeavesHold(Walk(x, st, cur, depth, j).mem, NewOut(x, st, cur, depth, j),
                       Keys(x, prefix, depth, j), Leaves(x, depth, j), |st.mem|)
    decreases |x.levels| - depth, |x.levels[depth]| - j, 0
  {
    hide Inner, Walk, Keys, Leaves, NewOut, LeavesHold, Framed, Holds;
    var v := x.levels[depth][j];
    HoldsInMem(st.mem, cur, prefix);
    InnerStep(x, st, cur, depth, j, prefix);
    InnerOut(x, st, cur, depth, j);
    InnerFrames(x, st, cur, depth, j, prefix);
    var (st1, next) := Inner(x, st, cur, v);
    var st2 := Walk(x, st1, next, depth + 1, 0);
    LeavesAreExact(x, st1, next, depth + 1, 0, prefix + v);
    LeavesAreExact(x, st2, cur, depth, j + 1, prefix);
    CombineRound(st, st1, st2, Walk(x, st2, cur, depth, j + 1), cur, next, x.allowMissing, prefix + v,
                 NewOut(x, st1, next, depth + 1, 0), Keys(x, prefix + v, depth + 1, 0), Leaves(x, depth + 1, 0),
                 NewOut(x, st2, cur, depth, j + 1), Keys(x, prefix, depth, j + 1), Leaves(x, depth, j + 1));
  }

  lemma HoldsInMem(mem: Memory, s: Slice, key: Key)
    requires Holds(mem, s, key)
    ensures InMem(mem, s) && s.len == |key| && s.arr < |mem|
  {
  }

  lemma CombineRound(st: State, st1: State, st2: State, st3: State, cur: Slice, next: Slice, wanted: bool, key: Key,
                     deep: seq<Slice>, dk: seq<Key>, dl: seq<bool>, rest: seq<Slice>, rk: seq<Key>, rl: seq<bool>)
    requires |st.mem| <= |st1.mem| && |st.mem| <= |st2.mem| && cur.arr < |st.mem|
    requires LeavesHold(st2.mem, deep, dk, dl, |st1.mem|)
    requires LeavesHold(st3.mem, rest, rk, rl, |st2.mem|)
    requires InMem(st2.mem, cur) && Framed(st2.mem, st3.mem, cur)
    ensures LeavesHold(st3.mem, Head(wanted, next) + deep + rest, Head(wanted, key) + dk + rk,
                       Head(wanted, false) + dl + rl, |st.mem|)
  {
    hide Framed, Holds;
    assert LeavesHold(st2.mem, deep, dk, dl, |st.mem|);
    assert LeavesHold(st3.mem, rest, rk, rl, |st.mem|);
    assert LeavesHold(st2.mem, Head(wanted, next), Head(wanted, key), Head(wanted, false), |st.mem|);
    LeavesAppend(st2.mem, Head(wanted, next), deep, Head(wanted, key), dk, Head(wanted, false), dl, |st.mem|);
    LeavesSurvive(st2.mem, st3.mem, cur, Head(wanted, next) + deep, Head(wanted, key) + dk, Head(wanted, false) + dl, |st.mem|);
    LeavesAppend(st3.mem, Head(wanted, next) + deep, rest, Head(wanted, key) + dk, rk, Head(wanted, false) + dl, rl, |st.mem|);
  }

  /** `key` is listed at a place that is flagged. */
  predicate Flagged(keys: seq<Key>, flags: seq<bool>, key: Key) {
    exists i :: 0 <= i < |keys| && i < |flags| && flags[i] && keys[i] == key
  }

  lemma FlaggedAppend(a: seq<Key>, b: seq<Key>, fa: seq<bool>, fb: seq<bool>, key: Key)
    requires |a| == |fa|
    ensures Flagged(a + b, fa + fb, key) <==> Flagged(a, fa, key) || Flagged(b, fb, key)
  {
    if Flagged(a, fa, key) {
      var i :| 0 <= i < |a| && fa[i] && a[i] == key;
      assert (a + b)[i] == key && (fa + fb)[i];
    }
    if Flagged(b, fb, key) {
      var i :| 0 <= i < |b| && i < |fb| && fb[i] && b[i] == key;
      assert (a + b)[|a| + i] == key && (fa + fb)[|a| + i];
    }
  }

  lemma FlaggedOne(k: Key, flag: bool, wanted: bool, key: Key)
    ensures Flagged(Head(wanted, k), Head(wanted, flag), key) <==> wanted && flag && k == key
  {
    if wanted && flag && k == key {
      assert Head(wanted, k)[0] == key;
    }
  }

  lemma {:induction false} KeysMatchLeaves(x: Input, prefix: Key, depth: nat, j: nat)
    requires depth < |x.levels| && j <= |x.levels[depth]|
    ensures |Keys(x, prefix, depth, j)| == |Leaves(x, depth, j)|
    decreases |x.levels| - depth, |x.levels[depth]| - j
  {
    if j < |x.levels[depth]| {
      KeysMatchLeaves(x, prefix, depth, j + 1);
      if depth < |x.levels| - 1 {
        KeysMatchLeaves(x, prefix + x.levels[depth][j], depth + 1, 0);
      }
    }
  }

  /** The leaf keys are the keys of a walk that wants no interior prefixes. */
  lemma {:induction false} LeafKeys(x: Input, prefix: Key, depth: nat, j: nat, key: Key)
    requires depth < |x.levels| && j <= |x.levels[depth]|
    ensures Flagged(Keys(x, prefix, depth, j), Leaves(x, depth, j), key)
            <==> key in Keys(x.(allowMissing := false), prefix, depth, j)
    decreases |x.levels| - depth, |x.levels[depth]| - j
  {
    if j < |x.levels[depth]| {
      var here := prefix + x.levels[depth][j];
      var rest, flags := Keys(x, prefix, depth, j + 1), Leaves(x, depth, j + 1);
      LeafKeys(x, prefix, depth, j + 1, key);
      KeysMatchLeaves(x, prefix, depth, j + 1);
      if depth == |x.levels| - 1 {
        hide Flagged;
        FlaggedAppend(Head(true, here), rest, Head(true, true), flags, key);
        FlaggedOne(here, true, true, key);
      } else {
        hide Flagged;
        var deep, below := Keys(x, here, depth + 1, 0), Leaves(x, depth + 1, 0);
        LeafKeys(x, here, depth + 1, 0, key);
        KeysMatchLeaves(x, here, depth + 1, 0);
        FlaggedAppend(Head(x.allowMissing, here) + deep, rest, Head(x.allowMissing, false) + below, flags, key);
        FlaggedAppend(Head(x.allowMissing, here), deep, Head(x.allowMissing, false), below, key);
        FlaggedOne(here, false, x.allowMissing, key);
      }
    }
  }

  // ---------------------------------------------------------------- interior prefixes

  /** Every output slice holds the key it was made for when the walk is over. */
  ghost predicate AllHold(mem: Memory, out: seq<Slice>, keys: seq<Key>) {
    |out| == |keys| && forall i :: 0 <= i < |out| ==> Holds(mem, out[i], keys[i])
  }

  function Fresh(): State {
    State([[]], [])
  }

  /** The whole output of `FromObject` is right under this growth policy. */
  ghost predicate Exact(x: Input)
    requires |x.levels| > 0
  {
    var st := Walk(x, Fresh(), NIL, 0, 0);
    AllHold(st.mem, st.out, Keys(x, [], 0, 0))
  }

  lemma {:induction false} AllLeaves(x: Input, depth: nat, j: nat)
    requires !x.allowMissing && depth < |x.levels| && j <= |x.levels[depth]|
    ensures forall i :: 0 <= i < |Leaves(x, depth, j)| ==> Leaves(x, depth, j)[i]
    decreases |x.levels| - depth, |x.levels[depth]| - j
  {
    if j < |x.levels[depth]| {
      AllLeaves(x, depth, j + 1);
      if depth < |x.levels| - 1 {
        AllLeaves(x, depth + 1, 0);
      }
    }
  }

  /** Without `AllowMissing` only leaves are produced, and the whole output is exact. */
  lemma FullTuplesAreExact(x: Input)
    requires !x.allowMissing && |x.levels| > 0
    ensures Exact(x)
  {
    LeavesAreExact(x, Fresh(), NIL, 0, 0, []);
    AllLeaves(x, 0, 0);
    WalkFrames(x, Fresh(), NIL, 0, 0);
    var st := Walk(x, Fresh(), NIL, 0, 0);
    assert st.out[0..] == st.out;
  }

  /** All values of a level are the same. */
  predicate Constant(level: seq<Key>) {
    level != [] && forall i :: 0 <= i < |level| ==> level[i] == level[0]
  }

  /** The levels between the first and the last, from `depth` on. */
  predicate ConstantFrom(levels: seq<seq<Key>>, depth: nat) {
    forall d :: depth <= d < |levels| - 1 ==> Constant(levels[d])
  }

  /** The one path through constant middle levels. */
  function Spine(levels: seq<seq<Key>>, prefix: Key, depth: nat): (f: Key)
    requires ConstantFrom(levels, depth)
    ensures prefix <= f
    decreases |levels| - depth
  {
    if depth >= |levels| - 1 then prefix
    else
      var f := Spine(levels, prefix + levels[depth][0], depth + 1);
      assert prefix <= prefix + levels[depth][0] <= f;
      f
  }

  /** A slice that holds a piece of the spine. */
  predicate Along(mem: Memory, s: Slice, f: Key) {
    InMem(mem, s) && s.len <= |f| && Read(mem, s) == f[..s.len]
  }

  lemma AppendAlong(mem: Memory, cur: Slice, v: Key, grow: Growth, f: Key, s: Slice)
    requires Along(mem, cur, f) && Along(mem, s, f) && Read(mem, cur) + v <= f
    ensures var (mem', next) := Append(mem, cur, v, grow); Along(mem', s, f) && Along(mem', next, f)
  {
    var (mem', next) := Append(mem, cur, v, grow);
    var n := cur.len + |v|;
    assert (Read(mem, cur) + v) == f[..n];
    if FitsIn(mem, cur, v) && s.arr == cur.arr {
      forall i | 0 <= i < s.len ensures mem'[s.arr][i] == f[i] {
        assert mem[s.arr][i] == mem[s.arr][..s.len][i] == f[i];
        if cur.len <= i < n {
          assert (Read(mem, cur) + v)[i] == v[i - cur.len] == f[i];
        }
      }
      assert mem'[s.arr][..s.len] == f[..s.len];
    }
  }

  /** Below constant middle levels, a walk rewrites shared bytes only with what they were. */
  lemma {:induction false} WalkAlong(x: Input, st: State, cur: Slice, depth: nat, j: nat, prefix: Key, f: Key, s: Slice)
    requires Holds(st.mem, cur, prefix) && depth < |x.levels| && j <= |x.levels[depth]|
    requires ConstantFrom(x.levels, depth) && f == Spine(x.levels, prefix, depth)
    requires Along(st.mem, s, f)
    ensures Along(Walk(x, st, cur, depth, j).mem, s, f)
    decreases |x.levels| - depth, |x.levels[depth]| - j
  {
    hide Append, Copied, Framed, Spine;
    if j < |x.levels[depth]| {
      var v := x.levels[depth][j];
      if depth == |x.levels| - 1 {
        LeafFrames(x, st, cur, v);
        var st1 := Leaf(x, st, cur, v);
        assert st1.mem[cur.arr] == st.mem[cur.arr] && st1.mem[s.arr] == st.mem[s.arr];
        WalkAlong(x, st1, cur, depth, j + 1, prefix, f, s);
      } else {
        InnerAlong(x, st, cur, depth, j, prefix, f, s);
      }
    }
  }

  lemma SpineStep(levels: seq<seq<Key>>, prefix: Key, depth: nat, j: nat)
    requires ConstantFrom(levels, depth) && depth < |levels| - 1 && j < |levels[depth]|
    ensures Spine(levels, prefix, depth) == Spine(levels, prefix + levels[depth][j], depth + 1)
    ensures prefix + levels[depth][j] <= Spine(levels, prefix, depth)
  {
    assert Constant(levels[depth]);
  }

  lemma InnerAlong(x: Input, st: State, cur: Slice, depth: nat, j: nat, prefix: Key, f: Key, s: Slice)
    requires Holds(st.mem, cur, prefix) && depth < |x.levels| - 1 && j < |x.levels[depth]|
    requires ConstantFrom(x.levels, depth) && f == Spine(x.levels, prefix, depth)
    requires Along(st.mem, s, f)
    ensures Along(Walk(x, st, cur, depth, j).mem, s, f)
    decreases |x.levels| - depth, |x.levels[depth]| - j, 0
  {
    hide Append, Walk, Framed, Spine;
    var v := x.levels[depth][j];
    InnerStep(x, st, cur, depth, j, prefix);
    InnerFrames(x, st, cur, depth, j, prefix);
    SpineStep(x.levels, prefix, depth, j);
    var (st1, next) := Inner(x, st, cur, v);
    var st2 := Walk(x, st1, next, depth + 1, 0);
    AppendAlong(st.mem, cur, v, x.grow, f, s);
    WalkAlong(x, st1, next, depth + 1, 0, prefix + v, f, s);
    WalkAlong(x, st2, cur, depth, j + 1, prefix, f, s);
  }

  /** Output slices along a spine: leaves in newer arrays, interior prefixes on the spine. */
  ghost predicate SpineHolds(mem: Memory, out: seq<Slice>, keys: seq<Key>, leaves: seq<bool>, bound: nat, f: Key) {
    && LeavesHold(mem, out, keys, leaves, bound)
    && forall i :: 0 <= i < |leaves| && !leaves[i] ==> Along(mem, out[i], f) && keys[i] == f[..out[i].len]
  }

  lemma SpineSurvives(x: Input, st: State, cur: Slice, depth: nat, j: nat, prefix: Key, f: Key,
                      out: seq<Slice>, keys: seq<Key>, leaves: seq<bool>, bound: nat)
    requires Holds(st.mem, cur, prefix) && depth < |x.levels| && j <= |x.levels[depth]|
    requires ConstantFrom(x.levels, depth) && f == Spine(x.levels, prefix, depth)
    requires cur.arr < bound && SpineHolds(st.mem, out, keys, leaves, bound, f)
    ensures SpineHolds(Walk(x, st, cur, depth, j).mem, out, keys, leaves, bound, f)
  {
    hide Walk, Framed, Along, Spine;
    WalkFrames(x, st, cur, depth, j);
    LeavesSurvive(st.mem, Walk(x, st, cur, depth, j).mem, cur, out, keys, leaves, bound);
    forall i | 0 <= i < |leaves| && !leaves[i] ensures Along(Walk(x, st, cur, depth, j).mem, out[i], f) {
      WalkAlong(x, st, cur, depth, j, prefix, f, out[i]);
    }
  }

  lemma SpineAppend(mem: Memory, a: seq<Slice>, b: seq<Slice>, ka: seq<Key>, kb: seq<Key>, la: seq<bool>, lb: seq<bool>,
                    bound: nat, f: Key)
    requires SpineHolds(mem, a, ka, la, bound, f) && SpineHolds(mem, b, kb, lb, bound, f)
    ensures SpineHolds(mem, a + b, ka + kb, la + lb, bound, f)
  {
    hide Along;
    LeavesAppend(mem, a, b, ka, kb, la, lb, bound);
  }

  /** Under constant middle levels everything a walk puts out is right, and stays right. */
  lemma {:induction false} SpineIsExact(x: Input, st: State, cur: Slice, depth: nat, j: nat, prefix: Key, f: Key)
    requires Holds(st.mem, cur, prefix) && depth < |x.levels| && j <= |x.levels[depth]|
    requires ConstantFrom(x.levels, depth) && f == Spine(x.levels, prefix, depth)
    ensures SpineHolds(Walk(x, st, cur, depth, j).mem, NewOut(x, st, cur, depth, j),
                       Keys(x, prefix, depth, j), Leaves(x, depth, j), |st.mem|, f)
    decreases |x.levels| - depth, |x.levels[depth]| - j
  {
    hide Append, Copied, Framed, Spine, Walk, NewOut, Holds;
    LeavesAreExact(x, st, cur, depth, j, prefix);
    if j < |x.levels[depth]| {
      if depth == |x.levels| - 1 {
        LeavesOnly(x, depth, j);
      } else {
        SpineRound(x, st, cur, depth, j, prefix, f);
      }
    }
  }

  lemma {:induction false} LeavesOnly(x: Input, depth: nat, j: nat)
    requires depth == |x.levels| - 1 && j <= |x.levels[depth]|
    ensures forall i :: 0 <= i < |Leaves(x, depth, j)| ==> Leaves(x, depth, j)[i]
    decreases |x.levels[depth]| - j
  {
    if j < |x.levels[depth]| {
      LeavesOnly(x, depth, j + 1);
    }
  }

  lemma SpineRound(x: Input, st: State, cur: Slice, depth: nat, j: nat, prefix: Key, f: Key)
    requires Holds(st.mem, cur, prefix) && depth < |x.levels| - 1 && j < |x.levels[depth]|
    requires ConstantFrom(x.levels, depth) && f == Spine(x.levels, prefix, depth)
    ensures SpineHolds(Walk(x, st, cur, depth, j).mem, NewOut(x, st, cur, depth, j),
                       Keys(x, prefix, depth, j), Leaves(x, depth, j), |st.mem|, f)
    decreases |x.levels| - depth, |x.levels[depth]| - j, 0
  {
    hide Inner, Walk, Keys, Leaves, NewOut, SpineHolds, Framed, Spine;
    var v := x.levels[depth][j];
    var key := prefix + v;
    InnerStep(x, st, cur, depth, j, prefix);
    InnerOut(x, st, cur, depth, j);
    InnerFrames(x, st, cur, depth, j, prefix);
    SpineStep(x.levels, prefix, depth, j);
    var (st1, next) := Inner(x, st, cur, v);
    var st2 := Walk(x, st1, next, depth + 1, 0);
    SpineIsExact(x, st1, next, depth + 1, 0, key, f);
    SpineIsExact(x, st2, cur, depth, j + 1, prefix, f);
    WalkAlong(x, st1, next, depth + 1, 0, key, f, next);
    CombineSpine(x, st, st1, st2, cur, next, depth, j + 1, prefix, key, f,
                 NewOut(x, st1, next, depth + 1, 0), Keys(x, key, depth + 1, 0), Leaves(x, depth + 1, 0));
  }

  lemma CombineSpine(x: Input, st: State, st1: State, st2: State, cur: Slice, next: Slice, depth: nat, j: nat,
                     prefix: Key, key: Key, f: Key, deep: seq<Slice>, dk: seq<Key>, dl: seq<bool>)
    requires |st.mem| <= |st1.mem| && |st.mem| <= |st2.mem| && cur.arr < |st.mem|
    requires Holds(st2.mem, cur, prefix) && depth < |x.levels| && j <= |x.levels[depth]|
    requires ConstantFrom(x.levels, depth) && f == Spine(x.levels, prefix, depth)
    requires Along(st2.mem, next, f) && key == f[..next.len]
    requires SpineHolds(st2.mem, deep, dk, dl, |st1.mem|, f)
    requires SpineHolds(Walk(x, st2, cur, depth, j).mem, NewOut(x, st2, cur, depth, j),
                        Keys(x, prefix, depth, j), Leaves(x, depth, j), |st2.mem|, f)
    ensures var w := x.allowMissing;
            SpineHolds(Walk(x, st2, cur, depth, j).mem, Head(w, next) + deep + NewOut(x, st2, cur, depth, j),
                       Head(w, key) + dk + Keys(x, prefix, depth, j), Head(w, false) + dl + Leaves(x, depth, j), |st.mem|, f)
  {
    HoldsInMem(st2.mem, cur, prefix);
    hide Walk, Keys, Leaves, NewOut, Spine, Along, Holds;
    var w, mem := x.allowMissing, Walk(x, st2, cur, depth, j).mem;
    assert SpineHolds(st2.mem, deep, dk, dl, |st.mem|, f);
    assert SpineHolds(mem, NewOut(x, st2, cur, depth, j), Keys(x, prefix, depth, j), Leaves(x, depth, j), |st.mem|, f);
    assert SpineHolds(st2.mem, Head(w, next), Head(w, key), Head(w, false), |st.mem|, f);
    SpineAppend(st2.mem, Head(w, next), deep, Head(w, key), dk, Head(w, false), dl, |st.mem|, f);
    SpineSurvives(x, st2, cur, depth, j, prefix, f, Head(w, next) + deep, Head(w, key) + dk, Head(w, false) + dl, |st.mem|);
    SpineAppend(mem, Head(w, next) + deep, NewOut(x, st2, cur, depth, j), Head(w, key) + dk, Keys(x, prefix, depth, j),
                Head(w, false) + dl, Leaves(x, depth, j), |st.mem|, f);
  }

  /** The top level: the nil slice has no room, so each value gets an array of its own. */
  lemma TopFrames(mem: Memory, mem': Memory, s: Slice)
    requires mem != [] && mem[0] == [] && InMem(mem, NIL) && Framed(mem, mem', NIL) && InMem(mem, s)
    ensures mem'[0] == [] && InMem(mem', s) && Read(mem', s) == Read(mem, s)
  {
    assert |mem'[0]| == |mem[0]|;
    assert s.arr == 0 ==> s.len == 0;
  }

  lemma AllHoldAppend(mem: Memory, a: seq<Slice>, b: seq<Slice>, ka: seq<Key>, kb: seq<Key>)
    requires AllHold(mem, a, ka) && AllHold(mem, b, kb)
    ensures AllHold(mem, a + b, ka + kb)
  {
  }

  lemma AllSurviveTop(mem: Memory, mem': Memory, out: seq<Slice>, keys: seq<Key>)
    requires mem != [] && mem[0] == [] && InMem(mem, NIL) && Framed(mem, mem', NIL) && AllHold(mem, out, keys)
    ensures AllHold(mem', out, keys)
  {
    hide Framed;
    forall i | 0 <= i < |out| ensures Holds(mem', out[i], keys[i]) {
      TopFrames(mem, mem', out[i]);
    }
  }

  lemma SpineAllHold(mem: Memory, out: seq<Slice>, keys: seq<Key>, leaves: seq<bool>, bound: nat, f: Key)
    requires SpineHolds(mem, out, keys, leaves, bound, f)
    ensures AllHold(mem, out, keys)
  {
    forall i | 0 <= i < |out| ensures Holds(mem, out[i], keys[i]) {
      if !leaves[i] {
        assert Along(mem, out[i], f);
      }
    }
  }

  lemma LeavesAllHold(mem: Memory, out: seq<Slice>, keys: seq<Key>, leaves: seq<bool>, bound: nat)
    requires LeavesHold(mem, out, keys, leaves, bound) && forall i :: 0 <= i < |leaves| ==> leaves[i]
    ensures AllHold(mem, out, keys)
  {
  }

  lemma {:induction false} TopIsExact(x: Input, st: State, j: nat)
    requires |x.levels| > 0 && j <= |x.levels[0]| && ConstantFrom(x.levels, 1)
    requires st.mem != [] && st.mem[0] == []
    ensures InMem(st.mem, NIL) && AllHold(Walk(x, st, NIL, 0, j).mem, NewOut(x, st, NIL, 0, j), Keys(x, [], 0, j))
    decreases |x.levels[0]| - j
  {
    hide Append, Framed, Walk, NewOut, Spine;
    LeavesAreExact(x, st, NIL, 0, j, []);
    if |x.levels| == 1 {
      LeavesOnly(x, 0, j);
      LeavesAllHold(Walk(x, st, NIL, 0, j).mem, NewOut(x, st, NIL, 0, j), Keys(x, [], 0, j), Leaves(x, 0, j), |st.mem|);
    } else if j == |x.levels[0]| {
      NothingLeft(x, st, NIL, 0);
    } else {
      TopRound(x, st, j);
    }
  }

  lemma NothingLeft(x: Input, st: State, cur: Slice, depth: nat)
    requires InMem(st.mem, cur) && depth < |x.levels|
    ensures NewOut(x, st, cur, depth, |x.levels[depth]|) == []
    ensures Walk(x, st, cur, depth, |x.levels[depth]|) == st
  {
  }

  lemma TopRound(x: Input, st: State, j: nat)
    requires |x.levels| > 1 && j < |x.levels[0]| && ConstantFrom(x.levels, 1)
    requires st.mem != [] && st.mem[0] == []
    ensures InMem(st.mem, NIL) && AllHold(Walk(x, st, NIL, 0, j).mem, NewOut(x, st, NIL, 0, j), Keys(x, [], 0, j))
    decreases |x.levels[0]| - j, 0
  {
    hide Inner, Walk, Keys, NewOut, Framed, AllHold, ConstantFrom;
    var v := x.levels[0][j];
    InnerStep(x, st, NIL, 0, j, []);
    InnerOut(x, st, NIL, 0, j);
    InnerFrames(x, st, NIL, 0, j, []);
    var (st1, next) := Inner(x, st, NIL, v);
    var st2 := Walk(x, st1, next, 1, 0);
    assert [] + v == v;
    BelowTop(x, st1, next, v);
    TopFrames(st.mem, st2.mem, NIL);
    TopIsExact(x, st2, j + 1);
    CombineTop(st2.mem, Walk(x, st2, NIL, 0, j + 1).mem, x.allowMissing, next, v,
               NewOut(x, st1, next, 1, 0), Keys(x, v, 1, 0), NewOut(x, st2, NIL, 0, j + 1), Keys(x, [], 0, j + 1));
  }

  /** One value of the top level with everything below it. */
  lemma BelowTop(x: Input, st: State, cur: Slice, v: Key)
    requires |x.levels| > 1 && ConstantFrom(x.levels, 1) && Holds(st.mem, cur, v)
    ensures InMem(st.mem, cur)
    ensures var mem := Walk(x, st, cur, 1, 0).mem;
            && AllHold(mem, Head(x.allowMissing, cur), Head(x.allowMissing, v))
            && AllHold(mem, NewOut(x, st, cur, 1, 0), Keys(x, v, 1, 0))
  {
    hide Walk, Keys, NewOut, Framed, Spine, SpineHolds, AllHold, Leaves;
    var f := Spine(x.levels, v, 1);
    var mem := Walk(x, st, cur, 1, 0).mem;
    SpineIsExact(x, st, cur, 1, 0, v, f);
    SpineAllHold(mem, NewOut(x, st, cur, 1, 0), Keys(x, v, 1, 0), Leaves(x, 1, 0), |st.mem|, f);
    WalkFrames(x, st, cur, 1, 0);
    FramedHolds(st.mem, mem, cur, v);
    OneHolds(mem, x.allowMissing, cur, v);
  }

  lemma CombineTop(mem: Memory, mem': Memory, wanted: bool, next: Slice, key: Key, deep: seq<Slice>, dk: seq<Key>,
                   rest: seq<Slice>, rk: seq<Key>)
    requires mem != [] && mem[0] == [] && InMem(mem, NIL) && Framed(mem, mem', NIL)
    requires AllHold(mem, Head(wanted, next), Head(wanted, key)) && AllHold(mem, deep, dk) && AllHold(mem', rest, rk)
    ensures AllHold(mem', Head(wanted, next) + deep + rest, Head(wanted, key) + dk + rk)
  {
    hide Framed, AllHold;
    AllHoldAppend(mem, Head(wanted, next), deep, Head(wanted, key), dk);
    AllSurviveTop(mem, mem', Head(wanted, next) + deep, Head(wanted, key) + dk);
    AllHoldAppend(mem', Head(wanted, next) + deep, rest, Head(wanted, key) + dk, rk);
  }

  lemma OneHolds(mem: Memory, wanted: bool, s: Slice, key: Key)
    requires Holds(mem, s, key)
    ensures AllHold(mem, Head(wanted, s), Head(wanted, key))
  {
  }

  /** With constant middle levels, in particular with at most two levels, the whole output is
      exact, interior prefixes included, whatever the growth policy. */
  lemma ConstantMiddlesAreExact(x: Input)
    requires |x.levels| > 0 && ConstantFrom(x.levels, 1)
    ensures Exact(x)
  {
    TopIsExact(x, Fresh(), 0);
    WalkFrames(x, Fresh(), NIL, 0, 0);
    var st := Walk(x, Fresh(), NIL, 0, 0);
    assert st.out[0..] == st.out;
  }

  // ---------------------------------------------------------------- when interior prefixes are lost

  function Total(level: seq<Key>): nat {
    if level == [] then 0 else |level[0]| + Total(level[1..])
  }

  lemma {:induction false} TotalCovers(level: seq<Key>, j: nat)
    requires j < |level|
    ensures |level[j]| <= Total(level)
  {
    if j > 0 {
      TotalCovers(level[1..], j - 1);
    }
  }

  /** Room for one value of each level from `depth` on. */
  function Need(levels: seq<seq<Key>>, depth: nat): nat
    decreases |levels| - depth
  {
    if depth >= |levels| then 0 else Total(levels[depth]) + Need(levels, depth + 1)
  }

  /** A growth policy that always leaves that much room. */
  function Roomy(levels: seq<seq<Key>>): Growth {
    (cap: nat, needed: nat) => Need(levels, 0)
  }

  predicate HasRoom(levels: seq<seq<Key>>, mem: Memory, cur: Slice, depth: nat) {
    InMem(mem, cur) && cur.len + Need(levels, depth) <= |mem[cur.arr]|
  }

  /** Values of a level are not prefixes of each other, as all index encodings guarantee. */
  ghost predicate PrefixFreeLevels(levels: seq<seq<Key>>) {
    forall d :: 0 <= d < |levels| ==> PrefixFreeLevel(levels[d])
  }

  ghost predicate PrefixFreeLevel(level: seq<Key>) {
    && level != []
    && (forall i :: 0 <= i < |level| ==> level[i] != [])
    && (forall i, k :: 0 <= i < |level| && 0 <= k < |level| && Comparable(level[i], level[k]) ==> level[i] == level[k])
  }

  function LastOf(level: seq<Key>): Key
    requires level != []
  {
    level[|level| - 1]
  }

  lemma AppendInPlace(x: Input, st: State, cur: Slice, depth: nat, j: nat)
    requires depth < |x.levels| && j < |x.levels[depth]| && HasRoom(x.levels, st.mem, cur, depth)
    ensures var (st1, next) := Inner(x, st, cur, x.levels[depth][j]);
            next.arr == cur.arr && HasRoom(x.levels, st1.mem, next, depth + 1)
  {
    TotalCovers(x.levels[depth], j);
  }

  lemma RoomRemains(levels: seq<seq<Key>>, mem: Memory, mem': Memory, cur: Slice, depth: nat)
    requires HasRoom(levels, mem, cur, depth) && Framed(mem, mem', cur)
    ensures HasRoom(levels, mem', cur, depth)
  {
  }

  /** With room, the array of a prefix ends up with the last value of the next level in it. */
  lemma {:induction false} EndsWithLast(x: Input, st: State, cur: Slice, depth: nat, j: nat, prefix: Key)
    requires Holds(st.mem, cur, prefix) && depth < |x.levels| - 1 && j < |x.levels[depth]|
    requires HasRoom(x.levels, st.mem, cur, depth)
    ensures var last := LastOf(x.levels[depth]);
            Holds(Walk(x, st, cur, depth, j).mem, Slice(cur.arr, cur.len + |last|), prefix + last)
    decreases |x.levels[depth]| - j
  {
    hide Inner, Walk, Framed, HasRoom;
    var v := x.levels[depth][j];
    InnerStep(x, st, cur, depth, j, prefix);
    InnerFrames(x, st, cur, depth, j, prefix);
    AppendInPlace(x, st, cur, depth, j);
    var (st1, next) := Inner(x, st, cur, v);
    var st2 := Walk(x, st1, next, depth + 1, 0);
    FramedHolds(st1.mem, st2.mem, next, prefix + v);
    if j == |x.levels[depth]| - 1 {
      NothingLeft(x, st2, cur, depth);
    } else {
      RoomRemains(x.levels, st.mem, st2.mem, cur, depth);
      EndsWithLast(x, st2, cur, depth, j + 1, prefix);
    }
  }

  /** Some slice of a list does not hold its key. */
  ghost predicate SomeLost(mem: Memory, out: seq<Slice>, keys: seq<Key>) {
    |out| == |keys| && exists i :: 0 <= i < |out| && !Holds(mem, out[i], keys[i])
  }

  lemma LostInPart(mem: Memory, a: seq<Slice>, b: seq<Slice>, c: seq<Slice>, ka: seq<Key>, kb: seq<Key>, kc: seq<Key>)
    requires |a| == |ka| && |b| == |kb| && |c| == |kc|
    requires SomeLost(mem, a, ka) || SomeLost(mem, b, kb) || SomeLost(mem, c, kc)
    ensures SomeLost(mem, a + b + c, ka + kb + kc)
  {
    hide Holds;
    var out, keys := a + b + c, ka + kb + kc;
    if SomeLost(mem, a, ka) {
      var i :| 0 <= i < |a| && !Holds(mem, a[i], ka[i]);
      assert out[i] == a[i] && keys[i] == ka[i];
    } else if SomeLost(mem, b, kb) {
      var i :| 0 <= i < |b| && !Holds(mem, b[i], kb[i]);
      assert out[|a| + i] == b[i] && keys[|a| + i] == kb[i];
    } else {
      var i :| 0 <= i < |c| && !Holds(mem, c[i], kc[i]);
      assert out[|a| + |b| + i] == c[i] && keys[|a| + |b| + i] == kc[i];
    }
  }

  /** A value that differs from the last one is overwritten by it. */
  lemma Overwritten(mem: Memory, arr: nat, prefix: Key, v: Key, last: Key)
    requires Holds(mem, Slice(arr, |prefix| + |last|), prefix + last) && !Comparable(v, last)
    ensures !Holds(mem, Slice(arr, |prefix| + |v|), prefix + v)
  {
    if Holds(mem, Slice(arr, |prefix| + |v|), prefix + v) {
      assert prefix + v <= mem[arr] && prefix + last <= mem[arr];
      PrefixesComparable(prefix + v, prefix + last, mem[arr]);
      ComparableAfter(prefix, v, last);
    }
  }

  /** A value from `j` on that is not the last one, or a deeper middle level that varies. */
  ghost predicate Varies(levels: seq<seq<Key>>, depth: nat, j: nat)
    requires depth < |levels| && levels[depth] != []
  {
    (exists k :: j <= k < |levels[depth]| && levels[depth][k] != LastOf(levels[depth])) || !ConstantFrom(levels, depth + 1)
  }

  /** Below a prefix with room, a middle level that varies loses some interior prefix. */
  lemma {:induction false} Loses(x: Input, st: State, cur: Slice, depth: nat, j: nat, prefix: Key)
    requires x.allowMissing && PrefixFreeLevels(x.levels)
    requires Holds(st.mem, cur, prefix) && depth < |x.levels| - 1 && j < |x.levels[depth]|
    requires HasRoom(x.levels, st.mem, cur, depth) && Varies(x.levels, depth, j)
    ensures SomeLost(Walk(x, st, cur, depth, j).mem, NewOut(x, st, cur, depth, j), Keys(x, prefix, depth, j))
    decreases |x.levels| - depth, |x.levels[depth]| - j
  {
    hide Inner, Walk, Keys, Leaves, NewOut, Framed, HasRoom, Holds, PrefixFreeLevel, SomeLost, Varies, LeavesHold;
    HoldsInMem(st.mem, cur, prefix);
    var level := x.levels[depth];
    var v := level[j];
    InnerStep(x, st, cur, depth, j, prefix);
    InnerOut(x, st, cur, depth, j);
    InnerFrames(x, st, cur, depth, j, prefix);
    AppendInPlace(x, st, cur, depth, j);
    var (st1, next) := Inner(x, st, cur, v);
    var st2 := Walk(x, st1, next, depth + 1, 0);
    var st3 := Walk(x, st2, cur, depth, j + 1);
    LostSizes(x, st1, next, depth + 1, 0, prefix + v);
    LostSizes(x, st2, cur, depth, j + 1, prefix);
    assert PrefixFreeLevel(level) && PrefixFreeLevel(x.levels[depth + 1]);
    NonEmptyLevel(level);
    if v != LastOf(level) {
      NotLast(level, j);
      EndsWithLast(x, st, cur, depth, j, prefix);
      Overwritten(st3.mem, cur.arr, prefix, v, LastOf(level));
      OneLost(st3.mem, next, prefix + v);
    } else {
      VariesLater(x.levels, depth, j);
      if j == |level| - 1 {
        NothingLeft(x, st2, cur, depth);
        NonEmptyLevel(x.levels[depth + 1]);
        Loses(x, st1, next, depth + 1, 0, prefix + v);
      } else {
        RoomRemains(x.levels, st.mem, st2.mem, cur, depth);
        Loses(x, st2, cur, depth, j + 1, prefix);
      }
    }
    LostInPart(st3.mem, [next], NewOut(x, st1, next, depth + 1, 0), NewOut(x, st2, cur, depth, j + 1),
               [prefix + v], Keys(x, prefix + v, depth + 1, 0), Keys(x, prefix, depth, j + 1));
  }

  lemma NonEmptyLevel(level: seq<Key>)
    requires PrefixFreeLevel(level)
    ensures level != []
  {
  }

  lemma NotLast(level: seq<Key>, j: nat)
    requires PrefixFreeLevel(level) && j < |level| && level[j] != LastOf(level)
    ensures !Comparable(level[j], LastOf(level))
  {
  }

  lemma OneLost(mem: Memory, s: Slice, key: Key)
    requires !Holds(mem, s, key)
    ensures SomeLost(mem, [s], [key])
  {
    assert [s][0] == s && [key][0] == key;
  }

  lemma LostSizes(x: Input, st: State, cur: Slice, depth: nat, j: nat, prefix: Key)
    requires Holds(st.mem, cur, prefix) && depth < |x.levels| && j <= |x.levels[depth]|
    ensures InMem(st.mem, cur) && |NewOut(x, st, cur, depth, j)| == |Keys(x, prefix, depth, j)|
  {
    LeavesAreExact(x, st, cur, depth, j, prefix);
  }

  /** After a value that equals the last one, the variation lies further on or deeper. */
  lemma VariesLater(levels: seq<seq<Key>>, depth: nat, j: nat)
    requires depth < |levels| - 1 && j < |levels[depth]| && Varies(levels, depth, j)
    requires levels[depth][j] == LastOf(levels[depth]) && PrefixFreeLevels(levels)
    ensures j < |levels[depth]| - 1 ==> Varies(levels, depth, j + 1)
    ensures j == |levels[depth]| - 1 ==> depth + 1 < |levels| - 1 && levels[depth + 1] != [] && Varies(levels, depth + 1, 0)
  {
    if j == |levels[depth]| - 1 {
      assert !ConstantFrom(levels, depth + 1);
      var d :| depth + 1 <= d < |levels| - 1 && !Constant(levels[d]);
      assert PrefixFreeLevel(levels[depth + 1]);
      if d == depth + 1 {
        ConstantIffLast(levels[d]);
      }
    }
  }

  lemma ConstantIffLast(level: seq<Key>)
    requires level != []
    ensures Constant(level) <==> forall k :: 0 <= k < |level| ==> level[k] == LastOf(level)
  {
  }

  /** At the top level each value moves to a new array, with as much room as the policy gives. */
  lemma TopAppend(x: Input, st: State, j: nat)
    requires |x.levels| > 1 && j < |x.levels[0]| && x.levels[0][j] != []
    requires st.mem != [] && st.mem[0] == [] && x.grow(0, |x.levels[0][j]|) >= Need(x.levels, 1)
    ensures InMem(st.mem, NIL)
    ensures var (st1, next) := Inner(x, st, NIL, x.levels[0][j]); HasRoom(x.levels, st1.mem, next, 1)
  {
  }

  lemma {:induction false} TopLoses(x: Input, st: State, j: nat)
    requires x.allowMissing && PrefixFreeLevels(x.levels) && |x.levels| > 0 && j < |x.levels[0]|
    requires st.mem != [] && st.mem[0] == [] && !ConstantFrom(x.levels, 1)
    requires forall i :: 0 <= i < |x.levels[0]| ==> x.grow(0, |x.levels[0][i]|) >= Need(x.levels, 1)
    ensures InMem(st.mem, NIL) && SomeLost(Walk(x, st, NIL, 0, j).mem, NewOut(x, st, NIL, 0, j), Keys(x, [], 0, j))
    decreases |x.levels[0]| - j
  {
    hide Inner, Walk, Keys, NewOut, Framed, HasRoom, SomeLost, Varies;
    var v := x.levels[0][j];
    assert PrefixFreeLevel(x.levels[0]) && PrefixFreeLevel(x.levels[1]);
    assert [] + v == v;
    TopAppend(x, st, j);
    InnerStep(x, st, NIL, 0, j, []);
    InnerOut(x, st, NIL, 0, j);
    InnerFrames(x, st, NIL, 0, j, []);
    var (st1, next) := Inner(x, st, NIL, v);
    var st2 := Walk(x, st1, next, 1, 0);
    LostSizes(x, st1, next, 1, 0, v);
    LostSizes(x, st2, NIL, 0, j + 1, []);
    if j == |x.levels[0]| - 1 {
      NothingLeft(x, st2, NIL, 0);
      VariesBelow(x.levels);
      Loses(x, st1, next, 1, 0, v);
    } else {
      TopFrames(st.mem, st2.mem, NIL);
      TopLoses(x, st2, j + 1);
    }
    LostInPart(Walk(x, st2, NIL, 0, j + 1).mem, [next], NewOut(x, st1, next, 1, 0), NewOut(x, st2, NIL, 0, j + 1),
               [v], Keys(x, v, 1, 0), Keys(x, [], 0, j + 1));
  }

  lemma VariesBelow(levels: seq<seq<Key>>)
    requires PrefixFreeLevels(levels) && |levels| > 0 && !ConstantFrom(levels, 1)
    ensures 1 < |levels| - 1 && levels[1] != [] && Varies(levels, 1, 0)
  {
    var d :| 1 <= d < |levels| - 1 && !Constant(levels[d]);
    assert PrefixFreeLevel(levels[1]);
    if d == 1 {
      ConstantIffLast(levels[1]);
    }
  }

  /** Where a middle level varies, a policy that leaves room loses an interior prefix. */
  lemma VaryingMiddleIsInexact(x: Input)
    requires x.allowMissing && |x.levels| > 0 && PrefixFreeLevels(x.levels) && !ConstantFrom(x.levels, 1)
    requires forall i :: 0 <= i < |x.levels[0]| ==> x.grow(0, |x.levels[0][i]|) >= Need(x.levels, 1)
    ensures !Exact(x)
  {
    hide Walk, Keys;
    assert PrefixFreeLevel(x.levels[0]);
    TopLoses(x, Fresh(), 0);
    WalkFrames(x, Fresh(), NIL, 0, 0);
    var st := Walk(x, Fresh(), NIL, 0, 0);
    assert st.out[0..] == st.out;
  }

  ghost predicate ExactAlways(levels: seq<seq<Key>>)
    requires |levels| > 0
  {
    forall grow: Growth :: Exact(Input(levels, true, grow))
  }

  /** With `AllowMissing` and index values that are not prefixes of each other, the output is
      exact under every growth policy if and only if each level strictly between the first
      and the last has only one distinct value. Two levels have no middle. */
  lemma InteriorExactIff(levels: seq<seq<Key>>)
    requires |levels| > 0 && PrefixFreeLevels(levels)
    ensures ExactAlways(levels) <==> ConstantFrom(levels, 1)
  {
    if ConstantFrom(levels, 1) {
      forall grow: Growth ensures Exact(Input(levels, true, grow)) {
        ConstantMiddlesAreExact(Input(levels, true, grow));
      }
    } else {
      var x := Input(levels, true, Roomy(levels));
      assert forall i :: 0 <= i < |levels[0]| ==> x.grow(0, |levels[0][i]|) >= Need(levels, 1);
      VaryingMiddleIsInexact(x);
    }
  }

  /** Rounding small arrays up to eight bytes, as Go's allocator does. */
  function EightBytes(): Growth {
    (cap: nat, needed: nat) => if needed <= 8 then 8 - needed else 0
  }

  function Siblings(): seq<seq<Key>> {
    [[[97, 0]], [[98, 0], [99, 0]], [[100, 0]]]
  }

  /** Three levels with two values in the middle: the prefix of the first sibling is lost. */
  lemma SiblingIsOverwritten()
    ensures !Exact(Input(Siblings(), true, EightBytes()))
  {
    var levels := Siblings();
    var x := Input(levels, true, EightBytes());
    assert levels[1][0] != levels[1][1] by {
      assert levels[1][0][0] != levels[1][1][0];
    }
    assert !Constant(levels[1]);
    SiblingsPrefixFree();
    var none: seq<Key> := [];
    assert levels[1][1..] == [[99, 0]] && levels[1][1..][1..] == none && levels[2][1..] == none;
    assert Total(levels[1]) == 4 && Total(levels[2]) == 2;
    assert Need(levels, 3) == 0 && Need(levels, 2) == 2 && Need(levels, 1) == 6;
    VaryingMiddleIsInexact(x);
  }

  lemma SiblingsPrefixFree()
    ensures PrefixFreeLevels(Siblings())
  {
    var levels := Siblings();
    assert levels[1][0][0] != levels[1][1][0];
    assert PrefixFreeLevel(levels[0]) && PrefixFreeLevel(levels[1]) && PrefixFreeLevel(levels[2]);
  }
}
