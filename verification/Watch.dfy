/**
 Waiting on a set of channels: the chunk loop of `watchMany`, the interleavings of its watcher
 goroutines with the caller, and `WatchSet`.

 A channel is a number, or `None` for the nil channel, which is never ready. A watch channel is
 closed once and stays ready. `watchFew` is one select over 32 slots and a context.
 */
module Watch {
  import opened Schema

  const A_FEW := 32

  type Ch = Option<nat>

  type Chunk = seq<Ch>

  // ---------------------------------------------------------------- WatchSet

  /** `None` is the nil map. */
  class WatchSet {
    var chans: Option<set<Ch>>

    constructor ()
      ensures chans == Some({})
    {
      chans := Some({});
    }

    method Add(watchCh: Ch)
      modifies this
      ensures chans == Added(old(chans), watchCh)
    {
      if chans.None? {
        return;
      }
      if watchCh !in chans.value {
        chans := Some(chans.value + {watchCh});
      }
    }

    method AddWithLimit(softLimit: int, watchCh: Ch, altCh: Ch)
      modifies this
      ensures chans == AddedWithLimit(old(chans), softLimit, watchCh, altCh)
    {
      if Size(chans) < softLimit {
        Add(watchCh);
      } else {
        Add(altCh);
      }
    }
  }

  function Size(w: Option<set<Ch>>): nat {
    if w.Some? then |w.value| else 0
  }

  /** Adding to a nil set does nothing; adding a nil channel to a real one does add it. */
  function Added(w: Option<set<Ch>>, ch: Ch): (r: Option<set<Ch>>)
    ensures w.Some? ==> r == Some(w.value + {ch})
    ensures w.None? ==> r.None?
  {
    if w.Some? && ch in w.value then
      assert w.value + {ch} == w.value;
      w
    else if w.Some? then Some(w.value + {ch})
    else None
  }

  function AddedWithLimit(w: Option<set<Ch>>, softLimit: int, ch: Ch, alt: Ch): Option<set<Ch>> {
    if Size(w) < softLimit then Added(w, ch) else Added(w, alt)
  }

  function AddedAll(w: Option<set<Ch>>, softLimit: int, chs: seq<Ch>, alt: Ch): Option<set<Ch>> {
    if chs == [] then w
    else AddedWithLimit(AddedAll(w, softLimit, chs[..|chs| - 1], alt), softLimit, chs[|chs| - 1], alt)
  }

  function Max(a: int, b: int): int {
    if a < b then b else a
  }

  /** With one alternate channel the soft limit is exceeded by at most one channel, and every
      channel offered is watched itself or through the alternate. */
  lemma {:induction false} LimitHolds(w: set<Ch>, softLimit: int, chs: seq<Ch>, alt: Ch)
    requires |w| <= Max(softLimit, 0)
    ensures var r := AddedAll(Some(w), softLimit, chs, alt);
            && r.Some? && w <= r.value
            && |r.value| <= Max(softLimit, 0) + 1
            && (|r.value| == Max(softLimit, 0) + 1 ==> alt in r.value)
            && (forall ch :: ch in chs ==> ch in r.value || alt in r.value)
  {
    if chs != [] {
      LimitHolds(w, softLimit, chs[..|chs| - 1], alt);
      var before := AddedAll(Some(w), softLimit, chs[..|chs| - 1], alt).value;
      var last := chs[|chs| - 1];
      assert chs == chs[..|chs| - 1] + [last];
      GrowsByOne(before, last);
      GrowsByOne(before, alt);
    }
  }

  function WithAll(w: set<Ch>, chs: seq<Ch>): set<Ch> {
    w + set ch | ch in chs
  }

  lemma WithAllSnoc(w: set<Ch>, chs: seq<Ch>)
    ensures chs == [] ==> WithAll(w, chs) == w
    ensures chs != [] ==>
              var front, last := chs[..|chs| - 1], chs[|chs| - 1];
              WithAll(w, chs) == WithAll(w, front) + {last} && |WithAll(w, front)| <= |WithAll(w, chs)|
  {
    if chs != [] {
      var front, last := chs[..|chs| - 1], chs[|chs| - 1];
      assert chs == front + [last];
      assert WithAll(w, chs) == WithAll(w, front) + {last};
      GrowsByOne(WithAll(w, front), last);
    }
  }

  /** While the set with all channels but the last is below the limit, each of them is watched itself,
      and no alternate; otherwise the alternate is watched. */
  lemma {:induction false} AlternateIff(w: set<Ch>, softLimit: int, chs: seq<Ch>, alt: Ch)
    requires chs != []
    ensures var r := AddedAll(Some(w), softLimit, chs, alt);
            && r.Some?
            && if |WithAll(w, chs[..|chs| - 1])| < softLimit then r.value == WithAll(w, chs) else alt in r.value
  {
    hide WithAll;
    var front := chs[..|chs| - 1];
    WithAllSnoc(w, chs);
    WithAllSnoc(w, front);
    if front != [] {
      AlternateIff(w, softLimit, front, alt);
    }
  }

  lemma GrowsByOne(s: set<Ch>, ch: Ch)
    ensures |s + {ch}| == if ch in s then |s| else |s| + 1
  {
    if ch in s {
      assert s + {ch} == s;
    }
  }

  // ---------------------------------------------------------------- the chunk loop

  function SlotOf(order: seq<Ch>, i: nat): Ch {
    if i < |order| then order[i] else None
  }

  function ChunkCount(n: nat): nat {
    (n + A_FEW - 1) / A_FEW
  }

  /** The chunk that holds the channels from position `A_FEW * k` on. */
  function ChunkAt(order: seq<Ch>, k: nat): (c: Chunk)
    ensures |c| == A_FEW
    ensures forall j :: 0 <= j < A_FEW ==> c[j] == SlotOf(order, A_FEW * k + j)
  {
    seq(A_FEW, j requires 0 <= j < A_FEW => SlotOf(order, A_FEW * k + j))
  }

  /** The chunk loop of `watchMany`; `order` is the order in which the runtime enumerates the
      set. The result lists the arrays handed to the watcher goroutines. Every array is fresh
      and none is written after its launch. */
  method LaunchChunks(order: seq<Ch>) returns (launched: seq<array<Ch>>)
    ensures |launched| == ChunkCount(|order|)
    ensures forall k :: 0 <= k < |launched| ==> fresh(launched[k]) && launched[k][..] == ChunkAt(order, k)
  {
    launched := [];
    var idx := 0;
    var chunk := new Ch[A_FEW](_ => None);
    while idx < |order|
      invariant 0 <= idx <= |order| && |launched| == idx / A_FEW
      invariant chunk.Length == A_FEW && fresh(chunk) && chunk !in launched
      invariant forall j :: 0 <= j < A_FEW ==>
                  chunk[j] == if j < idx % A_FEW then order[idx - idx % A_FEW + j] else None
      invariant forall k :: 0 <= k < |launched| ==> fresh(launched[k]) && launched[k][..] == ChunkAt(order, k)
    {
      var subIdx := idx % A_FEW;
      chunk[subIdx] := order[idx];
      idx := idx + 1;
      if idx % A_FEW == 0 {
        ChunkFull(order, idx, chunk[..]);
        launched := launched + [chunk];
        chunk := new Ch[A_FEW](_ => None);
      }
    }
    if idx % A_FEW != 0 {
      ChunkPart(order, chunk[..]);
      launched := launched + [chunk];
    }
  }

  lemma ChunkFull(order: seq<Ch>, idx: nat, chunk: Chunk)
    requires 0 < idx <= |order| && idx % A_FEW == 0 && |chunk| == A_FEW
    requires forall j :: 0 <= j < A_FEW ==> chunk[j] == order[idx - A_FEW + j]
    ensures idx / A_FEW > 0 && chunk == ChunkAt(order, idx / A_FEW - 1)
  {
    var k := idx / A_FEW - 1;
    assert A_FEW * k == idx - A_FEW;
    assert forall j :: 0 <= j < A_FEW ==> chunk[j] == ChunkAt(order, k)[j];
  }

  lemma ChunkPart(order: seq<Ch>, chunk: Chunk)
    requires |chunk| == A_FEW
    requires var n := |order|; forall j :: 0 <= j < A_FEW ==> chunk[j] == if j < n % A_FEW then order[n - n % A_FEW + j] else None
    ensures chunk == ChunkAt(order, |order| / A_FEW)
  {
    var k := |order| / A_FEW;
    assert A_FEW * k == |order| - |order| % A_FEW;
    assert forall j :: 0 <= j < A_FEW ==> chunk[j] == ChunkAt(order, k)[j];
  }

  /** For a small set, `WatchCtx` fills one chunk itself. */
  method FillChunk(order: seq<Ch>) returns (chunk: array<Ch>)
    requires |order| <= A_FEW
    ensures fresh(chunk) && chunk[..] == ChunkAt(order, 0)
  {
    chunk := new Ch[A_FEW](_ => None);
    var idx := 0;
    while idx < |order|
      invariant 0 <= idx <= |order|
      invariant forall j :: 0 <= j < A_FEW ==> chunk[j] == if j < idx then order[j] else None
    {
      chunk[idx] := order[idx];
      idx := idx + 1;
    }
  }

  ghost predicate Distinct(order: seq<Ch>) {
    forall i, j :: 0 <= i < j < |order| ==> order[i] != order[j]
  }

  /** Position `i` of the enumeration is slot `i % 32` of chunk `i / 32`. */
  predicate Sits(order: seq<Ch>, ch: Ch, k: nat, j: nat) {
    k < ChunkCount(|order|) && j < A_FEW && A_FEW * k + j < |order| && ChunkAt(order, k)[j] == ch
  }

  /** Every channel of the set is in exactly one slot of exactly one launched chunk, and no slot
      holds anything else but nil. */
  lemma EachInOneSlot(order: seq<Ch>, i: nat)
    requires Distinct(order) && i < |order|
    ensures Sits(order, order[i], i / A_FEW, i % A_FEW)
    ensures forall k, j :: Sits(order, order[i], k, j) ==> k == i / A_FEW && j == i % A_FEW
  {
    var k, j := i / A_FEW, i % A_FEW;
    assert A_FEW * k + j == i;
    forall k', j' | Sits(order, order[i], k', j') ensures k' == k && j' == j {
      assert order[A_FEW * k' + j'] == order[i];
    }
  }

  lemma SlotsAreMembers(order: seq<Ch>, k: nat, j: nat)
    requires j < A_FEW
    ensures ChunkAt(order, k)[j] == None || ChunkAt(order, k)[j] in order
  {
  }

  // ---------------------------------------------------------------- the machine

  datatype Phase = Selecting | Sending | Finished

  datatype Watcher = Watcher(chunk: Chunk, phase: Phase)

  /** The caller: launching chunk `k`, waiting, or back with nil or an error. */
  datatype Caller = Launching(k: nat) | Waiting | ReturnedNil | ReturnedErr

  /** `token` is the one slot of `triggerCh`; the watchers' context is done when the caller's is
      or when the caller has returned. */
  datatype Machine = Machine(order: seq<Ch>, ready: set<nat>, ctxDone: bool, token: bool, caller: Caller, watchers: seq<Watcher>)

  datatype Step =
    | Fire(ch: nat)
    | CtxDone
    | Launch
    | Wait
    | Wake(i: nat)
    | GiveUp(i: nat)
    | Send(i: nat)
    | TakeToken
    | TakeErr

  predicate Returned(m: Machine) {
    m.caller.ReturnedNil? || m.caller.ReturnedErr?
  }

  predicate WatcherCtxDone(m: Machine) {
    m.ctxDone || Returned(m)
  }

  predicate IsReady(m: Machine, ch: Ch) {
    ch.Some? && ch.value in m.ready
  }

  predicate HasReady(m: Machine, chunk: Chunk) {
    exists j :: 0 <= j < |chunk| && IsReady(m, chunk[j])
  }

  predicate Enabled(m: Machine, s: Step) {
    match s
    case Fire(_) => true
    case CtxDone => true
    case Launch => m.caller.Launching? && m.caller.k < ChunkCount(|m.order|)
    case Wait => m.caller.Launching? && m.caller.k == ChunkCount(|m.order|)
    case Wake(i) => i < |m.watchers| && m.watchers[i].phase == Selecting && HasReady(m, m.watchers[i].chunk)
    case GiveUp(i) => i < |m.watchers| && m.watchers[i].phase == Selecting && WatcherCtxDone(m)
    case Send(i) => i < |m.watchers| && m.watchers[i].phase == Sending
    case TakeToken => m.caller == Waiting && m.token
    case TakeErr => m.caller == Waiting && m.ctxDone
  }

  function SetPhase(m: Machine, i: nat, phase: Phase): Machine
    requires i < |m.watchers|
  {
    m.(watchers := m.watchers[i := m.watchers[i].(phase := phase)])
  }

  /** `Send` puts the token, or does nothing when it is there already; it never waits. */
  function After(m: Machine, s: Step): Machine
    requires Enabled(m, s)
  {
    match s
    case Fire(ch) => m.(ready := m.ready + {ch})
    case CtxDone => m.(ctxDone := true)
    case Launch =>
      m.(caller := Launching(m.caller.k + 1), watchers := m.watchers + [Watcher(ChunkAt(m.order, m.caller.k), Selecting)])
    case Wait => m.(caller := Waiting)
    case Wake(i) => SetPhase(m, i, Sending)
    case GiveUp(i) => SetPhase(m, i, Finished)
    case Send(i) => SetPhase(m, i, Finished).(token := true)
    case TakeToken => m.(caller := ReturnedNil, token := false)
    case TakeErr => m.(caller := ReturnedErr)
  }

  function Begin(order: seq<Ch>): Machine {
    Machine(order, {}, false, false, Launching(0), [])
  }

  predicate MemberReady(m: Machine) {
    exists ch :: ch in m.order && IsReady(m, ch)
  }

  ghost predicate WatchersOk(m: Machine) {
    && (forall i :: 0 <= i < |m.watchers| ==> m.watchers[i].chunk == ChunkAt(m.order, i))
    && (forall i :: 0 <= i < |m.watchers| && m.watchers[i].phase == Sending ==> HasReady(m, m.watchers[i].chunk))
    && (forall i :: 0 <= i < |m.watchers| && m.watchers[i].phase == Finished ==> m.token || WatcherCtxDone(m))
  }

  ghost predicate Inv(m: Machine) {
    && WatchersOk(m)
    && |m.watchers| == (if m.caller.Launching? then m.caller.k else ChunkCount(|m.order|))
    && (m.caller.Launching? ==> m.caller.k <= ChunkCount(|m.order|))
    && (m.token ==> MemberReady(m))
    && (m.caller.ReturnedNil? ==> MemberReady(m))
    && (m.caller.ReturnedErr? ==> m.ctxDone)
  }

  lemma BeginOk(order: seq<Ch>)
    ensures Inv(Begin(order))
  {
  }

  lemma ChunkReadyIsMember(m: Machine, k: nat)
    requires HasReady(m, ChunkAt(m.order, k))
    ensures MemberReady(m)
  {
    var c := ChunkAt(m.order, k);
    var j :| 0 <= j < |c| && IsReady(m, c[j]);
    SlotsAreMembers(m.order, k, j);
  }

  lemma ReadyGrows(m: Machine, m': Machine, chunk: Chunk)
    requires m.ready <= m'.ready && HasReady(m, chunk)
    ensures HasReady(m', chunk)
  {
    var j :| 0 <= j < |chunk| && IsReady(m, chunk[j]);
    assert IsReady(m', chunk[j]);
  }

  lemma MemberGrows(m: Machine, m': Machine)
    requires m.ready <= m'.ready && m.order == m'.order && MemberReady(m)
    ensures MemberReady(m')
  {
    var ch :| ch in m.order && IsReady(m, ch);
    assert IsReady(m', ch);
  }

  /** Every step of every goroutine keeps the invariant. */
  lemma StepKeeps(m: Machine, s: Step)
    requires Inv(m) && Enabled(m, s)
    ensures Inv(After(m, s))
  {
    hide ChunkAt, HasReady, MemberReady, ChunkCount;
    var m' := After(m, s);
    assert m.ready <= m'.ready && m'.order == m.order;
    if MemberReady(m) {
      MemberGrows(m, m');
    }
    forall i | 0 <= i < |m.watchers| && HasReady(m, m.watchers[i].chunk)
      ensures HasReady(m', m.watchers[i].chunk) && MemberReady(m')
    {
      ReadyGrows(m, m', m.watchers[i].chunk);
      ChunkReadyIsMember(m', i);
    }
  }

  /** The machine after some steps, when each was enabled in its turn. */
  function Exec(m: Machine, steps: seq<Step>): Option<Machine> {
    if steps == [] then Some(m)
    else
      var r := Exec(m, steps[..|steps| - 1]);
      if r.Some? && Enabled(r.value, steps[|steps| - 1]) then Some(After(r.value, steps[|steps| - 1])) else None
  }

  /** In every interleaving: a nil result means that some channel of the set became ready, an
      error means that the context was done. */
  lemma {:induction false} ResultIsJustified(order: seq<Ch>, steps: seq<Step>)
    requires Exec(Begin(order), steps).Some?
    ensures var m := Exec(Begin(order), steps).value;
            && Inv(m) && m.order == order
            && (m.caller.ReturnedNil? ==> MemberReady(m))
            && (m.caller.ReturnedErr? ==> m.ctxDone)
  {
    hide Inv, Enabled, MemberReady;
    if steps == [] {
      BeginOk(order);
    } else {
      ResultIsJustified(order, steps[..|steps| - 1]);
      StepKeeps(Exec(Begin(order), steps[..|steps| - 1]).value, steps[|steps| - 1]);
    }
    InvResults(Exec(Begin(order), steps).value);
  }

  lemma InvResults(m: Machine)
    requires Inv(m)
    ensures m.caller.ReturnedNil? ==> MemberReady(m)
    ensures m.caller.ReturnedErr? ==> m.ctxDone
  {
  }

  predicate IsWatcherStep(s: Step) {
    s.Wake? || s.GiveUp? || s.Send?
  }

  function PhaseRank(p: Phase): nat {
    match p
    case Selecting => 2
    case Sending => 1
    case Finished => 0
  }

  function Pending(ws: seq<Watcher>): nat {
    if ws == [] then 0 else PhaseRank(ws[0].phase) + Pending(ws[1..])
  }

  lemma {:induction false} PendingUpdate(ws: seq<Watcher>, i: nat, w: Watcher)
    requires i < |ws|
    ensures Pending(ws[i := w]) + PhaseRank(ws[i].phase) == Pending(ws) + PhaseRank(w.phase)
  {
    if i == 0 {
      assert ws[i := w][1..] == ws[1..];
    } else {
      assert ws[i := w][1..] == ws[1..][i - 1 := w];
      PendingUpdate(ws[1..], i - 1, w);
    }
  }

  lemma {:induction false} PendingPositive(ws: seq<Watcher>) returns (i: nat)
    requires Pending(ws) > 0
    ensures i < |ws| && ws[i].phase != Finished
  {
    if ws[0].phase != Finished {
      i := 0;
    } else {
      i := PendingPositive(ws[1..]);
      i := i + 1;
    }
  }

  /** No watcher is left behind: once the caller has returned, every watcher that has not
      finished can take a step, and each watcher step uses up some of the bounded work left,
      so that all finish. No step of another goroutine creates more. */
  lemma NoWatcherBlocks(m: Machine, i: nat)
    requires Returned(m) && i < |m.watchers| && m.watchers[i].phase != Finished
    ensures Enabled(m, if m.watchers[i].phase == Selecting then GiveUp(i) else Send(i))
  {
  }

  lemma WatcherWorkShrinks(m: Machine, s: Step)
    requires Returned(m) && Enabled(m, s)
    ensures Returned(After(m, s))
    ensures Pending(After(m, s).watchers) <= Pending(m.watchers)
    ensures IsWatcherStep(s) ==> Pending(After(m, s).watchers) < Pending(m.watchers)
  {
    match s
    case Wake(i) => PendingUpdate(m.watchers, i, m.watchers[i].(phase := Sending));
    case GiveUp(i) => PendingUpdate(m.watchers, i, m.watchers[i].(phase := Finished));
    case Send(i) => PendingUpdate(m.watchers, i, m.watchers[i].(phase := Finished));
    case _ =>
  }

  ghost predicate AllFinished(m: Machine) {
    forall i :: 0 <= i < |m.watchers| ==> m.watchers[i].phase == Finished
  }

  /** From any state after the return, the watchers alone can run to completion. */
  lemma {:induction false} WatchersFinish(m: Machine) returns (steps: seq<Step>)
    requires Returned(m)
    ensures forall k :: 0 <= k < |steps| ==> IsWatcherStep(steps[k])
    ensures Exec(m, steps).Some? && AllFinished(Exec(m, steps).value)
    decreases Pending(m.watchers)
  {
    if Pending(m.watchers) == 0 {
      steps := [];
      NothingPending(m.watchers);
    } else {
      var i := PendingPositive(m.watchers);
      NoWatcherBlocks(m, i);
      var s := if m.watchers[i].phase == Selecting then GiveUp(i) else Send(i);
      WatcherWorkShrinks(m, s);
      var rest := WatchersFinish(After(m, s));
      steps := [s] + rest;
      ExecCons(m, s, rest);
    }
  }

  lemma {:induction false} NothingPending(ws: seq<Watcher>)
    requires Pending(ws) == 0
    ensures forall i :: 0 <= i < |ws| ==> ws[i].phase == Finished
  {
    if ws != [] {
      NothingPending(ws[1..]);
      assert forall i :: 1 <= i < |ws| ==> ws[i] == ws[1..][i - 1];
    }
  }

  lemma {:induction false} ExecCons(m: Machine, s: Step, rest: seq<Step>)
    requires Enabled(m, s)
    ensures Exec(m, [s] + rest) == Exec(After(m, s), rest)
  {
    hide Enabled, After;
    var all := [s] + rest;
    if rest == [] {
      assert all[..0] == [];
      assert all[|all| - 1] == s;
      ExecNone(m, all[..0]);
    } else {
      assert all[..|all| - 1] == [s] + rest[..|rest| - 1];
      ExecCons(m, s, rest[..|rest| - 1]);
    }
  }

  lemma ExecNone(m: Machine, none: seq<Step>)
    requires none == []
    ensures Exec(m, none) == Some(m)
  {
  }

  /** No lost wake-up: while the caller waits and some channel of the set is ready, the caller can
      return at once, or the watcher of that channel can take a step towards it. */
  lemma NoLostWakeup(m: Machine, i: nat)
    requires Inv(m) && m.caller == Waiting && i < |m.order| && IsReady(m, m.order[i])
    ensures i / A_FEW < |m.watchers|
    ensures Enabled(m, TakeToken) || Enabled(m, TakeErr) || Enabled(m, Wake(i / A_FEW)) || Enabled(m, Send(i / A_FEW))
  {
    var k, j := i / A_FEW, i % A_FEW;
    assert A_FEW * k + j == i;
    assert k < ChunkCount(|m.order|);
    var w := m.watchers[k];
    assert w.chunk == ChunkAt(m.order, k);
    assert w.chunk[j] == m.order[i];
    assert HasReady(m, w.chunk);
  }

  // ---------------------------------------------------------------- every wait can end

  /** A step of the caller or of a watcher: not a channel that closes, nor the context. */
  predicate Internal(s: Step) {
    !s.Fire? && !s.CtxDone?
  }

  function LaunchesLeft(m: Machine): nat {
    if m.caller.Launching? && m.caller.k <= ChunkCount(|m.order|) then 1 + ChunkCount(|m.order|) - m.caller.k else 0
  }

  /** What the world outside has done so far. */
  predicate SameWorld(m: Machine, m': Machine) {
    m'.order == m.order && m'.ready == m.ready && m'.ctxDone == m.ctxDone
  }

  /** While the caller is waiting for something that has happened, the caller or a watcher can take a
      step that leads on. */
  lemma NextStep(m: Machine) returns (s: Step)
    requires Inv(m) && !Returned(m) && (m.ctxDone || MemberReady(m))
    ensures Internal(s) && Enabled(m, s) && SameWorld(m, After(m, s))
    ensures Returned(After(m, s)) || LaunchesLeft(After(m, s)) < LaunchesLeft(m)
            || (LaunchesLeft(After(m, s)) == LaunchesLeft(m) && Pending(After(m, s).watchers) < Pending(m.watchers))
  {
    hide ChunkAt, ChunkCount, HasReady, IsReady;
    if m.caller.Launching? {
      s := if m.caller.k < ChunkCount(|m.order|) then Launch else Wait;
    } else if m.token {
      s := TakeToken;
    } else if m.ctxDone {
      s := TakeErr;
    } else {
      var ch :| ch in m.order && IsReady(m, ch);
      var i :| 0 <= i < |m.order| && m.order[i] == ch;
      NoLostWakeup(m, i);
      var k := i / A_FEW;
      if m.watchers[k].phase == Selecting {
        s := Wake(k);
        PendingUpdate(m.watchers, k, m.watchers[k].(phase := Sending));
      } else {
        s := Send(k);
        PendingUpdate(m.watchers, k, m.watchers[k].(phase := Finished));
      }
    }
  }

  /** From there the caller and the watchers alone can run to a return. */
  lemma {:induction false} RunsToReturn(m: Machine) returns (steps: seq<Step>)
    requires Inv(m) && (m.ctxDone || MemberReady(m))
    ensures forall k :: 0 <= k < |steps| ==> Internal(steps[k])
    ensures Exec(m, steps).Some?
    ensures var m' := Exec(m, steps).value; Inv(m') && Returned(m') && SameWorld(m, m')
    decreases LaunchesLeft(m), Pending(m.watchers)
  {
    hide Inv, Enabled, After, MemberReady, LaunchesLeft, Pending;
    if Returned(m) {
      steps := [];
    } else {
      var s := NextStep(m);
      StepKeeps(m, s);
      var m1 := After(m, s);
      if Returned(m1) {
        steps := [s];
        var none: seq<Step> := [];
        ExecCons(m, s, none);
        ExecNone(m1, none);
        assert [s] + none == [s];
      } else {
        MemberStays(m, m1);
        var rest := RunsToReturn(m1);
        steps := [s] + rest;
        ExecCons(m, s, rest);
      }
    }
  }

  lemma MemberStays(m: Machine, m': Machine)
    requires SameWorld(m, m')
    ensures MemberReady(m) <==> MemberReady(m')
  {
    if MemberReady(m) {
      MemberGrows(m, m');
    }
    if MemberReady(m') {
      MemberGrows(m', m);
    }
  }

  /** Every wait can end: in any state that any interleaving reaches, once the context is done or a
      channel of the set is ready, the caller and the watchers alone can run to a return. With the
      context done and no channel ready it is the error, with a channel ready and the context not
      done it is nil. */
  lemma WaitCanEnd(order: seq<Ch>, before: seq<Step>) returns (steps: seq<Step>)
    requires Exec(Begin(order), before).Some?
    requires var m := Exec(Begin(order), before).value; m.ctxDone || MemberReady(m)
    ensures forall k :: 0 <= k < |steps| ==> Internal(steps[k])
    ensures var m := Exec(Begin(order), before).value;
            && Exec(m, steps).Some?
            && var m' := Exec(m, steps).value;
            && Returned(m')
            && (m.ctxDone && !MemberReady(m) ==> m'.caller.ReturnedErr?)
            && (!m.ctxDone ==> m'.caller.ReturnedNil?)
  {
    hide Inv, Enabled, MemberReady;
    ResultIsJustified(order, before);
    var m := Exec(Begin(order), before).value;
    steps := RunsToReturn(m);
    var m' := Exec(m, steps).value;
    InvResults(m');
    MemberStays(m, m');
  }
}
