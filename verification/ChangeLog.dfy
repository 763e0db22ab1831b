/**
 The change log of a transaction and its compaction (`Txn.Changes`).

 `Compacted` is what the two loops of the source compute: a map from each object to its first
 `Before` and its last position, then one pass that keeps the last entry of each object.
 `Net` is the meaning it must have: merge mutations one at a time, moving the merged entry of
 an object to the end. The theorems say that both agree on every log a transaction can record,
 that the result is exactly the difference between the two states, and that compacting early,
 any number of times, changes nothing.
 */
module ChangeLog {
  import opened Bytes
  import opened Radix
  import opened Schema

  datatype ObjectID = ObjectID(table: string, indexVal: Key)

  datatype MutInfo = MutInfo(firstBefore: Option<Object>, lastIdx: nat)

  function IdOf(m: Change): ObjectID {
    ObjectID(m.table, m.pk)
  }

  /** Nil before and nil after: an insert that was undone. */
  predicate Void(m: Change) {
    m.before.None? && m.after.None?
  }

  predicate Created(m: Change) {
    m.before.None? && m.after.Some?
  }

  predicate Updated(m: Change) {
    m.before.Some? && m.after.Some?
  }

  predicate Deleted(m: Change) {
    m.before.Some? && m.after.None?
  }

  // ---------------------------------------------------------------- the algorithm

  /** The first loop. */
  function Dups(log: seq<Change>): (d: map<ObjectID, MutInfo>)
    ensures forall i :: 0 <= i < |log| ==> IdOf(log[i]) in d
    ensures forall oid :: oid in d ==> d[oid].lastIdx < |log| && IdOf(log[d[oid].lastIdx]) == oid
  {
    if log == [] then map[]
    else
      var n := |log| - 1;
      var d := Dups(log[..n]);
      var oid := IdOf(log[n]);
      assert forall i :: 0 <= i < n ==> log[..n][i] == log[i];
      d[oid := MutInfo(if oid in d then d[oid].firstBefore else log[n].before, n)]
  }

  /** The second loop, over the first `n` entries. */
  function Kept(log: seq<Change>, d: map<ObjectID, MutInfo>, n: nat): seq<Change>
    requires n <= |log|
    requires forall i :: 0 <= i < |log| ==> IdOf(log[i]) in d
  {
    if n == 0 then []
    else
      var m := log[n - 1];
      var mi := d[IdOf(m)];
      var merged := m.(before := mi.firstBefore);
      var before := Kept(log, d, n - 1);
      if mi.lastIdx == n - 1 && !Void(merged) then before + [merged] else before
  }

  /** The result of `Changes`, with its fast path for logs without duplicates. */
  function Compacted(log: seq<Change>): seq<Change> {
    if |Dups(log)| == |log| then log else Kept(log, Dups(log), |log|)
  }

  lemma DupsStep(log: seq<Change>, i: nat)
    requires i < |log|
    ensures var d, oid := Dups(log[..i]), IdOf(log[i]);
            Dups(log[..i + 1]) == d[oid := MutInfo(if oid in d then d[oid].firstBefore else log[i].before, i)]
  {
    assert log[..i + 1][..i] == log[..i] && log[..i + 1][i] == log[i];
  }

  method Compact(log: seq<Change>) returns (cs: seq<Change>)
    ensures cs == Compacted(log)
  {
    hide Dups;
    var dups: map<ObjectID, MutInfo> := map[];
    var i := 0;
    DupsNone(log[..0]);
    while i < |log|
      invariant 0 <= i <= |log| && dups == Dups(log[..i])
    {
      var m := log[i];
      var oid := IdOf(m);
      DupsStep(log, i);
      var mi := if oid in dups then dups[oid] else MutInfo(m.before, 0);
      dups := dups[oid := mi.(lastIdx := i)];
      i := i + 1;
    }
    assert log[..i] == log;
    if |dups| == |log| {
      return log;
    }
    cs := CopyLast(log, dups);
  }

  lemma DupsNone(none: seq<Change>)
    requires none == []
    ensures Dups(none) == map[]
  {
  }

  /** The loop that keeps the last entry of each object. */
  method CopyLast(log: seq<Change>, dups: map<ObjectID, MutInfo>) returns (cs: seq<Change>)
    requires forall i :: 0 <= i < |log| ==> IdOf(log[i]) in dups
    ensures cs == Kept(log, dups, |log|)
  {
    cs := [];
    var i := 0;
    while i < |log|
      invariant 0 <= i <= |log| && cs == Kept(log, dups, i)
    {
      var m := log[i];
      var mi := dups[IdOf(m)];
      if mi.lastIdx == i {
        m := m.(before := mi.firstBefore);
        if !(m.before == None && m.after == None) {
          cs := cs + [m];
        }
      }
      i := i + 1;
    }
  }

  // ---------------------------------------------------------------- the meaning

  function Except(log: seq<Change>, oid: ObjectID): seq<Change> {
    if log == [] then []
    else
      var rest := Except(log[..|log| - 1], oid);
      if IdOf(log[|log| - 1]) == oid then rest else rest + [log[|log| - 1]]
  }

  function Significant(log: seq<Change>): seq<Change> {
    if log == [] then []
    else
      var rest := Significant(log[..|log| - 1]);
      if Void(log[|log| - 1]) then rest else rest + [log[|log| - 1]]
  }

  /** The `Before` of the first entry for an object. */
  function FirstBefore(log: seq<Change>, oid: ObjectID, default: Option<Object>): Option<Object> {
    if log == [] then default
    else if IdOf(log[0]) == oid then log[0].before
    else FirstBefore(log[1..], oid, default)
  }

  /** Merge one more mutation: the object's entry keeps its `Before` and moves to the end. */
  function Merge(acc: seq<Change>, m: Change): seq<Change> {
    Except(acc, IdOf(m)) + [m.(before := FirstBefore(acc, IdOf(m), m.before))]
  }

  function Merged(log: seq<Change>): seq<Change> {
    if log == [] then [] else Merge(Merged(log[..|log| - 1]), log[|log| - 1])
  }

  /** The net effect of a log: merge everything, then leave out what came to nothing. */
  function Net(log: seq<Change>): seq<Change> {
    Significant(Merged(log))
  }

  // ---------------------------------------------------------------- the algorithm meets the meaning

  predicate Proper(log: seq<Change>) {
    forall m :: m in log ==> !Void(m)
  }

  ghost predicate DistinctIds(log: seq<Change>) {
    forall i, j :: 0 <= i < j < |log| ==> IdOf(log[i]) != IdOf(log[j])
  }

  /** Whether some entry has this object, and where the last such entry is. */
  function LastIdx(log: seq<Change>, oid: ObjectID): (i: int)
    ensures -1 <= i < |log|
    ensures i >= 0 ==> IdOf(log[i]) == oid
    ensures forall j :: i < j < |log| ==> IdOf(log[j]) != oid
  {
    var n := |log| - 1;
    if log == [] then -1
    else if IdOf(log[n]) == oid then n
    else
      assert forall j :: 0 <= j < n ==> log[..n][j] == log[j];
      LastIdx(log[..n], oid)
  }

  lemma SnocSplit(log: seq<Change>, m: Change)
    ensures (log + [m])[..|log|] == log && (log + [m])[|log|] == m
  {
  }

  lemma ExceptSnoc(log: seq<Change>, m: Change, oid: ObjectID)
    ensures Except(log + [m], oid) == if IdOf(m) == oid then Except(log, oid) else Except(log, oid) + [m]
  {
    SnocSplit(log, m);
  }

  lemma SignificantSnoc(log: seq<Change>, m: Change)
    ensures Significant(log + [m]) == if Void(m) then Significant(log) else Significant(log) + [m]
  {
    SnocSplit(log, m);
  }

  lemma Snoc(log: seq<Change>) returns (front: seq<Change>, last: Change)
    requires log != []
    ensures log == front + [last] && |front| < |log|
    ensures front == log[..|log| - 1] && last == log[|log| - 1]
  {
    front, last := log[..|log| - 1], log[|log| - 1];
  }

  lemma {:induction false} InExcept(log: seq<Change>, oid: ObjectID, m: Change)
    ensures m in Except(log, oid) <==> m in log && IdOf(m) != oid
  {
    if log != [] {
      var front, last := Snoc(log);
      InExcept(front, oid, m);
      ExceptSnoc(front, last, oid);
      assert m in front + [last] <==> m in front || m == last;
    }
  }

  lemma {:induction false} InSignificant(log: seq<Change>, m: Change)
    ensures m in Significant(log) <==> m in log && !Void(m)
  {
    if log != [] {
      var front, last := Snoc(log);
      InSignificant(front, m);
      SignificantSnoc(front, last);
      assert m in front + [last] <==> m in front || m == last;
    }
  }

  predicate Absent(log: seq<Change>, oid: ObjectID) {
    LastIdx(log, oid) < 0
  }

  lemma {:induction false} ExceptAbsent(log: seq<Change>, oid: ObjectID)
    requires Absent(log, oid)
    ensures Except(log, oid) == log
  {
    if log != [] {
      var front, last := Snoc(log);
      ExceptAbsent(front, oid);
      ExceptSnoc(front, last, oid);
    }
  }

  lemma {:induction false} ExceptSignificant(log: seq<Change>, oid: ObjectID)
    ensures Except(Significant(log), oid) == Significant(Except(log, oid))
  {
    if log != [] {
      var front, last := Snoc(log);
      ExceptSignificant(front, oid);
      ExceptSnoc(front, last, oid);
      SignificantSnoc(front, last);
      ExceptSnoc(Significant(front), last, oid);
      SignificantSnoc(Except(front, oid), last);
    }
  }

  lemma {:induction false} ProperSignificant(log: seq<Change>)
    requires Proper(log)
    ensures Significant(log) == log
  {
    if log != [] {
      var front, last := Snoc(log);
      assert last in log && forall m :: m in front ==> m in log;
      ProperSignificant(front);
      SignificantSnoc(front, last);
    }
  }

  /** One more mutation, after leaving out what came to nothing. */
  lemma NetStep(log: seq<Change>, m: Change)
    ensures var merged := m.(before := FirstBefore(Merged(log), IdOf(m), m.before));
            var rest := Except(Net(log), IdOf(m));
            Net(log + [m]) == if Void(merged) then rest else rest + [merged]
  {
    var merged := m.(before := FirstBefore(Merged(log), IdOf(m), m.before));
    SnocSplit(log, m);
    SignificantSnoc(Except(Merged(log), IdOf(m)), merged);
    ExceptSignificant(Merged(log), IdOf(m));
  }

  /** Merging keeps, for each object, the `Before` of its first entry. */
  lemma {:induction false} FirstBeforeMerged(log: seq<Change>, oid: ObjectID, default: Option<Object>)
    ensures FirstBefore(Merged(log), oid, default) == FirstBefore(log, oid, default)
  {
    if log != [] {
      var front, m := Snoc(log);
      var acc := Merged(front);
      var merged := m.(before := FirstBefore(acc, IdOf(m), m.before));
      FirstBeforeMerged(front, oid, default);
      FirstBeforeMerged(front, IdOf(m), m.before);
      FirstBeforeSnoc(front, m, oid, default);
      FirstBeforeSnoc(Except(acc, IdOf(m)), merged, oid, default);
      FirstBeforeExcept(acc, IdOf(m), oid, default);
      FirstBeforeExcept(acc, oid, oid, merged.before);
    }
  }

  lemma {:induction false} FirstBeforeSnoc(log: seq<Change>, m: Change, oid: ObjectID, default: Option<Object>)
    ensures FirstBefore(log + [m], oid, default)
            == FirstBefore(log, oid, if IdOf(m) == oid then m.before else default)
  {
    if log == [] {
      assert log + [m] == [m];
    } else {
      assert (log + [m])[1..] == log[1..] + [m];
      FirstBeforeSnoc(log[1..], m, oid, default);
    }
  }

  lemma {:induction false} FirstBeforeExcept(log: seq<Change>, gone: ObjectID, oid: ObjectID, default: Option<Object>)
    ensures FirstBefore(Except(log, gone), oid, default) == if oid == gone then default else FirstBefore(log, oid, default)
    decreases |log|
  {
    if log != [] {
      var front, last := Snoc(log);
      var d := if IdOf(last) == oid then last.before else default;
      FirstBeforeExcept(front, gone, oid, default);
      FirstBeforeExcept(front, gone, oid, d);
      ExceptSnoc(front, last, gone);
      FirstBeforeSnoc(front, last, oid, default);
      FirstBeforeSnoc(Except(front, gone), last, oid, default);
    }
  }

  /** The map's first `Before` is the first one in the log. */
  lemma {:induction false} DupsFirst(log: seq<Change>, oid: ObjectID, default: Option<Object>)
    ensures var d := Dups(log); (if oid in d then d[oid].firstBefore else default) == FirstBefore(log, oid, default)
  {
    if log != [] {
      var front, m := Snoc(log);
      DupsFirst(front, oid, if IdOf(m) == oid then m.before else default);
      DupsFirst(front, oid, default);
      FirstBeforeSnoc(front, m, oid, default);
    }
  }

  lemma DupsSnoc(log: seq<Change>, m: Change)
    ensures var d, oid := Dups(log), IdOf(m);
            Dups(log + [m]) == d[oid := MutInfo(if oid in d then d[oid].firstBefore else m.before, |log|)]
  {
    SnocSplit(log, m);
  }

  /** What one more mutation does to the entries kept so far. */
  lemma {:induction false} KeptExcept(log: seq<Change>, longer: seq<Change>, d: map<ObjectID, MutInfo>, mi: MutInfo,
                                      oid: ObjectID, k: nat)
    requires k <= |log| <= |longer| && k <= mi.lastIdx
    requires forall i :: 0 <= i < |log| ==> IdOf(log[i]) in d
    requires forall i :: 0 <= i < |longer| ==> IdOf(longer[i]) in d[oid := mi]
    requires forall i :: 0 <= i < k ==> longer[i] == log[i]
    ensures Kept(longer, d[oid := mi], k) == Except(Kept(log, d, k), oid)
  {
    if k == 0 {
      ExceptAbsentAll(Kept(log, d, 0), oid);
    } else {
      KeptExcept(log, longer, d, mi, oid, k - 1);
      var x := log[k - 1];
      ExceptSnoc(Kept(log, d, k - 1), x.(before := d[IdOf(x)].firstBefore), oid);
    }
  }

  lemma {:induction false} KeptIsNet(log: seq<Change>)
    ensures Kept(log, Dups(log), |log|) == Net(log)
  {
    if log != [] {
      var front, m := Snoc(log);
      KeptIsNet(front);
      DupsSnoc(front, m);
      KeptExcept(front, log, Dups(front), Dups(log)[IdOf(m)], IdOf(m), |front|);
      DupsFirst(front, IdOf(m), m.before);
      FirstBeforeMerged(front, IdOf(m), m.before);
      NetStep(front, m);
    }
  }

  lemma {:induction false} DupsCount(log: seq<Change>)
    ensures |Dups(log)| <= |log|
    ensures |Dups(log)| == |log| <==> DistinctIds(log)
  {
    if log != [] {
      var front, m := Snoc(log);
      DupsCount(front);
      DistinctSnoc(front, m);
      assert IdOf(m) in Dups(front) <==> exists i :: 0 <= i < |front| && IdOf(front[i]) == IdOf(m);
    }
  }

  lemma DistinctSnoc(log: seq<Change>, m: Change)
    ensures DistinctIds(log + [m]) <==> DistinctIds(log) && Absent(log, IdOf(m))
  {
    var all := log + [m];
    assert forall i :: 0 <= i < |log| ==> all[i] == log[i];
    var i := LastIdx(log, IdOf(m));
    if i >= 0 {
      assert IdOf(all[i]) == IdOf(all[|log|]);
    }
  }

  lemma {:induction false} DistinctMerged(log: seq<Change>)
    requires DistinctIds(log)
    ensures Merged(log) == log
  {
    if log != [] {
      var front, m := Snoc(log);
      DistinctSnoc(front, m);
      DistinctMerged(front);
      ExceptAbsent(front, IdOf(m));
      FirstBeforeAbsent(front, IdOf(m), m.before);
    }
  }

  lemma FirstBeforeAbsent(log: seq<Change>, oid: ObjectID, default: Option<Object>)
    requires Absent(log, oid)
    ensures FirstBefore(log, oid, default) == default
  {
    ExceptAbsent(log, oid);
    FirstBeforeExcept(log, oid, oid, default);
  }

  /** The two loops compute the net effect of a log exactly when it repeats an object (so that
      the fast path is not taken) or has no void entry to begin with. */
  lemma CompactedIsNetIff(log: seq<Change>)
    ensures Compacted(log) == Net(log) <==> Proper(log) || !DistinctIds(log)
  {
    DupsCount(log);
    if DistinctIds(log) {
      DistinctMerged(log);
      if Proper(log) {
        ProperSignificant(log);
      }
      forall m | m in Significant(log) ensures !Void(m) {
        InSignificant(log, m);
      }
    } else {
      KeptIsNet(log);
    }
  }

  // ---------------------------------------------------------------- entries and their order

  lemma {:induction false} InMerged(log: seq<Change>, m: Change)
    ensures m in Merged(log) <==>
            var i := LastIdx(log, IdOf(m)); i >= 0 && m == log[i].(before := FirstBefore(log, IdOf(m), None))
  {
    if log != [] {
      var front, last := Snoc(log);
      var oid := IdOf(last);
      var merged := last.(before := FirstBefore(Merged(front), oid, last.before));
      InMerged(front, m);
      InExcept(Merged(front), oid, m);
      FirstBeforeMerged(front, oid, last.before);
      FirstBeforeSnoc(front, last, oid, None);
      FirstBeforeSnoc(front, last, IdOf(m), None);
      assert m in Merged(log) <==> m in Except(Merged(front), oid) || m == merged;
    }
  }

  /** Every entry of the result carries the first `Before` and the last `After` of its object,
      every touched object whose net change is not void has an entry, and there are no others. */
  lemma NetEntries(log: seq<Change>, m: Change)
    ensures m in Net(log) <==>
            var i := LastIdx(log, IdOf(m));
            i >= 0 && m == Change(m.table, FirstBefore(log, IdOf(m), None), log[i].after, m.pk) && !Void(m)
  {
    InMerged(log, m);
    InSignificant(Merged(log), m);
  }

  /** Entries come in the order of the last mutations of their objects; in particular no
      object has two entries. */
  ghost predicate ByLastMutation(log: seq<Change>, r: seq<Change>) {
    forall i, j :: 0 <= i < j < |r| ==> LastIdx(log, IdOf(r[i])) < LastIdx(log, IdOf(r[j]))
  }

  lemma LastIdxSnoc(log: seq<Change>, m: Change, oid: ObjectID)
    ensures LastIdx(log + [m], oid) == if IdOf(m) == oid then |log| else LastIdx(log, oid)
  {
    SnocSplit(log, m);
  }

  lemma {:induction false} ExceptOrdered(log: seq<Change>, m: Change, r: seq<Change>)
    requires ByLastMutation(log, r)
    ensures ByLastMutation(log + [m], Except(r, IdOf(m)))
  {
    hide LastIdx, Except;
    if r == [] {
      ExceptAbsentAll(r, IdOf(m));
    } else {
      var front, last := Snoc(r);
      var kept := Except(front, IdOf(m));
      assert forall i :: 0 <= i < |front| ==> r[i] == front[i];
      ExceptOrdered(log, m, front);
      ExceptSnoc(front, last, IdOf(m));
      forall x | x in kept && IdOf(last) != IdOf(m) ensures LastIdx(log + [m], IdOf(x)) < LastIdx(log + [m], IdOf(last)) {
        InExcept(front, IdOf(m), x);
        var k :| 0 <= k < |front| && front[k] == x;
        assert LastIdx(log, IdOf(r[k])) < LastIdx(log, IdOf(r[|front|]));
        LastIdxSnoc(log, m, IdOf(x));
        LastIdxSnoc(log, m, IdOf(last));
      }
      OrderedSnoc(log + [m], kept, last);
    }
  }

  lemma ExceptAbsentAll(none: seq<Change>, oid: ObjectID)
    requires none == []
    ensures Except(none, oid) == []
  {
  }

  lemma OrderedSnoc(log: seq<Change>, r: seq<Change>, m: Change)
    requires ByLastMutation(log, r)
    ensures (forall x :: x in r ==> LastIdx(log, IdOf(x)) < LastIdx(log, IdOf(m))) ==> ByLastMutation(log, r + [m])
  {
    hide LastIdx;
    SnocSplit(r, m);
    forall i, j | 0 <= i < j < |r + [m]| && (forall x :: x in r ==> LastIdx(log, IdOf(x)) < LastIdx(log, IdOf(m)))
      ensures LastIdx(log, IdOf((r + [m])[i])) < LastIdx(log, IdOf((r + [m])[j]))
    {
      assert r[i] in r;
    }
  }

  lemma {:induction false} NetOrdered(log: seq<Change>)
    ensures ByLastMutation(log, Net(log))
  {
    if log != [] {
      var front, m := Snoc(log);
      NetOrdered(front);
      NetStep(front, m);
      ExceptOrdered(front, m, Net(front));
      var kept := Except(Net(front), IdOf(m));
      forall i | 0 <= i < |kept| ensures LastIdx(log, IdOf(kept[i])) < |front| {
        InExcept(Net(front), IdOf(m), kept[i]);
      }
    }
  }

  lemma NetDistinct(log: seq<Change>)
    ensures DistinctIds(Net(log))
  {
    NetOrdered(log);
  }

  /** Every entry of the result is exactly one of created, updated and deleted. */
  lemma NetClassifies(log: seq<Change>, m: Change)
    requires m in Net(log)
    ensures Created(m) || Updated(m) || Deleted(m)
    ensures !(Created(m) && Updated(m)) && !(Updated(m) && Deleted(m)) && !(Created(m) && Deleted(m))
  {
    NetEntries(log, m);
  }

  // ---------------------------------------------------------------- logs that record real mutations

  /** The primary index of every table. */
  type Primaries = map<string, Tree<Object>>

  function At(p: Primaries, oid: ObjectID): Option<Object> {
    if oid.table in p && oid.indexVal in p[oid.table] then Some(p[oid.table][oid.indexVal]) else None
  }

  /** The mutation that an entry describes. */
  function Put(p: Primaries, m: Change): Primaries
    requires m.table in p
  {
    p[m.table := if m.after.Some? then p[m.table][m.pk := m.after.value] else p[m.table] - {m.pk}]
  }

  predicate Known(p: Primaries, log: seq<Change>) {
    forall i :: 0 <= i < |log| ==> log[i].table in p
  }

  function Replay(p: Primaries, log: seq<Change>): (r: Primaries)
    requires Known(p, log)
    ensures r.Keys == p.Keys
  {
    if log == [] then p else Put(Replay(p, log[..|log| - 1]), log[|log| - 1])
  }

  /** Each `Before` is what the object was at that point, and no entry is void. Such are the
      logs that `Insert`, `Delete`, `DeleteAll` and `DeletePrefix` write. */
  predicate Chained(p: Primaries, log: seq<Change>) {
    Known(p, log) &&
    (log != [] ==>
       var front, m := log[..|log| - 1], log[|log| - 1];
       Chained(p, front) && !Void(m) && m.before == At(Replay(p, front), IdOf(m)))
  }

  lemma PutAt(p: Primaries, m: Change, oid: ObjectID)
    requires m.table in p
    ensures At(Put(p, m), oid) == if oid == IdOf(m) then m.after else At(p, oid)
  {
  }

  lemma ChainedSnoc(p: Primaries, log: seq<Change>, m: Change)
    ensures Chained(p, log + [m]) <==>
            Chained(p, log) && m.table in p && !Void(m) && m.before == At(Replay(p, log), IdOf(m))
    ensures Known(p, log + [m]) ==> Known(p, log) && m.table in p && Replay(p, log + [m]) == Put(Replay(p, log), m)
  {
    SnocSplit(log, m);
    assert Known(p, log + [m]) <==> Known(p, log) && m.table in p by {
      assert forall i :: 0 <= i < |log| ==> (log + [m])[i] == log[i];
    }
  }

  lemma ChainedKnown(p: Primaries, log: seq<Change>)
    requires Chained(p, log)
    ensures Known(p, log)
  {
  }

  lemma {:induction false} ChainedProper(p: Primaries, log: seq<Change>)
    requires Chained(p, log)
    ensures Proper(log)
  {
    if log != [] {
      var front, m := Snoc(log);
      ChainedProper(p, front);
      assert forall x :: x in log <==> x in front || x == m;
    }
  }

  lemma {:induction false} ChainedConcat(p: Primaries, a: seq<Change>, b: seq<Change>)
    requires Chained(p, a) && Chained(Replay(p, a), b)
    ensures Chained(p, a + b)
    ensures Replay(p, a + b) == Replay(Replay(p, a), b)
  {
    if b == [] {
      assert a + b == a && Replay(Replay(p, a), b) == Replay(p, a);
    } else {
      var front, m := Snoc(b);
      ChainedConcat(p, a, front);
      assert a + b == (a + front) + [m];
      ChainedSnoc(Replay(p, a), front, m);
      ChainedSnoc(p, a + front, m);
    }
  }

  lemma ChainedOne(p: Primaries, m: Change)
    requires m.table in p && !Void(m) && m.before == At(p, IdOf(m))
    ensures Chained(p, [m])
    ensures Replay(p, [m]) == Put(p, m)
  {
    var none: seq<Change> := [];
    assert none + [m] == [m];
    ChainedSnoc(p, none, m);
  }

  /** The first `Before` of an object is its value at the start, the last `After` its value now. */
  lemma {:induction false} ChainedEnds(p: Primaries, log: seq<Change>, oid: ObjectID)
    requires Chained(p, log)
    ensures FirstBefore(log, oid, At(p, oid)) == At(p, oid)
    ensures At(Replay(p, log), oid) == if Absent(log, oid) then At(p, oid) else log[LastIdx(log, oid)].after
  {
    if log != [] {
      var front, m := Snoc(log);
      assert log[|front|].table in p;
      ChainedEnds(p, front, oid);
      FirstBeforeSnoc(front, m, oid, At(p, oid));
      PutAt(Replay(p, front), m, oid);
      if IdOf(m) == oid {
        if Absent(front, oid) {
          FirstBeforeAbsent(front, oid, m.before);
        } else {
          FirstBeforePresent(front, oid, m.before, At(p, oid));
        }
      }
    }
  }

  /** The default of `FirstBefore` matters only for an object that does not occur. */
  lemma {:induction false} FirstBeforePresent(log: seq<Change>, oid: ObjectID, a: Option<Object>, b: Option<Object>)
    requires !Absent(log, oid)
    ensures FirstBefore(log, oid, a) == FirstBefore(log, oid, b)
  {
    if log != [] {
      var front, m := Snoc(log);
      FirstBeforeSnoc(front, m, oid, a);
      FirstBeforeSnoc(front, m, oid, b);
      if IdOf(m) != oid {
        FirstBeforePresent(front, oid, a, b);
      }
    }
  }

  /** `r` lists the differences between two states: one entry for each object that differs, and
      every entry tells both values truly. */
  ghost predicate Describes(p: Primaries, q: Primaries, r: seq<Change>) {
    && DistinctIds(r)
    && (forall m :: m in r ==> m.table in p && !Void(m) && m.before == At(p, IdOf(m)) && m.after == At(q, IdOf(m)))
    && (forall oid :: At(p, oid) != At(q, oid) ==> exists m :: m in r && IdOf(m) == oid)
  }

  /** An entry of a description is Created for an object that was not there and is, Updated for one that
      was and is, Deleted for one that was and is not. */
  lemma ClassesAreTrue(p: Primaries, q: Primaries, r: seq<Change>, m: Change)
    requires Describes(p, q, r) && m in r
    ensures Created(m) <==> At(p, IdOf(m)).None? && At(q, IdOf(m)).Some?
    ensures Updated(m) <==> At(p, IdOf(m)).Some? && At(q, IdOf(m)).Some?
    ensures Deleted(m) <==> At(p, IdOf(m)).Some? && At(q, IdOf(m)).None?
    ensures Created(m) || Updated(m) || Deleted(m)
  {
    hide At;
  }

  lemma NetEntryIsTrue(p: Primaries, log: seq<Change>, m: Change)
    requires Chained(p, log) && m in Net(log)
    ensures m.table in p && !Void(m) && m.before == At(p, IdOf(m)) && m.after == At(Replay(p, log), IdOf(m))
  {
    NetEntries(log, m);
    ChainedEnds(p, log, IdOf(m));
    FirstBeforePresent(log, IdOf(m), None, At(p, IdOf(m)));
  }

  /** The net effect of a recorded log describes the difference between the states before and
      after it. */
  lemma NetDescribes(p: Primaries, log: seq<Change>)
    requires Chained(p, log)
    ensures Describes(p, Replay(p, log), Net(log))
  {
    NetDistinct(log);
    forall m | m in Net(log)
      ensures m.table in p && !Void(m) && m.before == At(p, IdOf(m)) && m.after == At(Replay(p, log), IdOf(m))
    {
      NetEntryIsTrue(p, log, m);
    }
    forall oid | At(p, oid) != At(Replay(p, log), oid) ensures exists m :: m in Net(log) && IdOf(m) == oid {
      ChainedEnds(p, log, oid);
      var i := LastIdx(log, oid);
      var m := Change(oid.table, FirstBefore(log, oid, None), log[i].after, oid.indexVal);
      FirstBeforePresent(log, oid, None, At(p, oid));
      NetEntries(log, m);
      assert m in Net(log) && IdOf(m) == oid;
    }
  }

  lemma SamePrimaries(a: Primaries, b: Primaries)
    requires a.Keys == b.Keys && forall oid :: At(a, oid) == At(b, oid)
    ensures a == b
  {
    forall t | t in a ensures a[t] == b[t] {
      forall k ensures k in a[t] <==> k in b[t] {
        assert At(a, ObjectID(t, k)) == At(b, ObjectID(t, k));
      }
      forall k | k in a[t] ensures a[t][k] == b[t][k] {
        assert At(a, ObjectID(t, k)) == At(b, ObjectID(t, k));
      }
    }
  }

  lemma FreshInPrefix(r: seq<Change>, k: nat)
    requires DistinctIds(r) && k < |r|
    ensures Absent(r[..k], IdOf(r[k]))
  {
    assert r[..k + 1] == r[..k] + [r[k]];
    DistinctSnoc(r[..k], r[k]);
  }

  lemma {:induction false} DescriptionPrefix(p: Primaries, q: Primaries, r: seq<Change>, k: nat, oid: ObjectID)
    requires Describes(p, q, r) && k <= |r|
    ensures Chained(p, r[..k])
    ensures At(Replay(p, r[..k]), oid) == if Absent(r[..k], oid) then At(p, oid) else At(q, oid)
    decreases k
  {
    hide LastIdx;
    if k > 0 {
      var m := r[k - 1];
      assert m in r && r[..k] == r[..k - 1] + [m];
      DescriptionPrefix(p, q, r, k - 1, oid);
      DescriptionPrefix(p, q, r, k - 1, IdOf(m));
      ChainedSnoc(p, r[..k - 1], m);
      SnocSplit(r[..k - 1], m);
      PutAt(Replay(p, r[..k - 1]), m, oid);
      FreshInPrefix(r, k - 1);
    }
  }

  /** A description replays: it leads from the one state to the other. */
  lemma DescriptionReplays(p: Primaries, q: Primaries, r: seq<Change>)
    requires Describes(p, q, r) && p.Keys == q.Keys
    ensures Chained(p, r)
    ensures Replay(p, r) == q
  {
    assert r[..|r|] == r;
    DescriptionPrefix(p, q, r, |r|, ObjectID("", []));
    forall oid ensures At(Replay(p, r), oid) == At(q, oid) {
      DescriptionPrefix(p, q, r, |r|, oid);
      if At(p, oid) != At(q, oid) {
        var m :| m in r && IdOf(m) == oid;
        assert exists i :: 0 <= i < |r| && r[i] == m;
      }
    }
    SamePrimaries(Replay(p, r), q);
  }

  /** Net effect preserved: replaying the result of `Changes` over the starting state gives
      the same state as replaying the whole history. */
  lemma NetReplays(p: Primaries, log: seq<Change>)
    requires Chained(p, log)
    ensures Compacted(log) == Net(log)
    ensures Chained(p, Net(log))
    ensures Replay(p, Net(log)) == Replay(p, log)
  {
    ChainedProper(p, log);
    CompactedIsNetIff(log);
    NetDescribes(p, log);
    DescriptionReplays(p, Replay(p, log), Net(log));
  }

  // ---------------------------------------------------------------- compacting early

  lemma ChainedNetStep(p: Primaries, log: seq<Change>, m: Change)
    requires Chained(p, log + [m])
    ensures var merged := m.(before := At(p, IdOf(m)));
            var rest := Except(Net(log), IdOf(m));
            Net(log + [m]) == if Void(merged) then rest else rest + [merged]
  {
    NetStep(log, m);
    FirstBeforeMerged(log, IdOf(m), m.before);
    ChainedEnds(p, log + [m], IdOf(m));
    FirstBeforeSnoc(log, m, IdOf(m), At(p, IdOf(m)));
  }

  lemma NetOfNet(log: seq<Change>)
    ensures Net(Net(log)) == Net(log)
  {
    NetDistinct(log);
    DistinctMerged(Net(log));
    forall m | m in Net(log) ensures !Void(m) {
      NetEntries(log, m);
    }
    ProperSignificant(Net(log));
  }

  /** Mutations interleaved with calls of `Changes`. */
  datatype Event = Mutated(m: Change) | Asked

  /** `txn.changes` after some events: a call leaves the compacted list behind. */
  function Tracked(events: seq<Event>): seq<Change> {
    if events == [] then []
    else
      var log := Tracked(events[..|events| - 1]);
      match events[|events| - 1]
      case Mutated(m) => log + [m]
      case Asked => Compacted(log)
  }

  /** The whole history, never compacted. */
  function History(events: seq<Event>): seq<Change> {
    if events == [] then []
    else
      var log := History(events[..|events| - 1]);
      match events[|events| - 1]
      case Mutated(m) => log + [m]
      case Asked => log
  }

  /** Compacting early is harmless: however often and whenever `Changes` is called during a
      transaction, it always returns the net effect of the whole uncompacted history. */
  lemma AskingIsHarmless(p: Primaries, events: seq<Event>)
    requires Chained(p, History(events))
    ensures Compacted(Tracked(events)) == Net(History(events))
  {
    TrackedIsEquivalent(p, events);
    NetReplays(p, Tracked(events));
  }

  lemma {:induction false} TrackedIsEquivalent(p: Primaries, events: seq<Event>)
    requires Chained(p, History(events))
    ensures Chained(p, Tracked(events))
    ensures Replay(p, Tracked(events)) == Replay(p, History(events))
    ensures Net(Tracked(events)) == Net(History(events))
  {
    hide Net, Compacted, Chained, Known, Replay;
    if events != [] {
      var front := events[..|events| - 1];
      match events[|events| - 1]
      case Mutated(m) =>
        ChainedSnoc(p, History(front), m);
        TrackedIsEquivalent(p, front);
        MutateBoth(p, Tracked(front), History(front), m);
      case Asked =>
        TrackedIsEquivalent(p, front);
        NetReplays(p, Tracked(front));
        NetOfNet(Tracked(front));
    }
  }

  lemma MutateBoth(p: Primaries, a: seq<Change>, b: seq<Change>, m: Change)
    requires Chained(p, a) && Chained(p, b + [m])
    requires Chained(p, b) && Replay(p, a) == Replay(p, b) && Net(a) == Net(b)
    ensures Chained(p, a + [m])
    ensures Replay(p, a + [m]) == Replay(p, b + [m])
    ensures Net(a + [m]) == Net(b + [m])
  {
    hide Net;
    ChainedSnoc(p, b, m);
    ChainedSnoc(p, a, m);
    ChainedNetStep(p, a, m);
    ChainedNetStep(p, b, m);
  }

  /** Compact, go on, compact: the same as compacting once at the end. */
  lemma {:induction false} CompactThenAppend(p: Primaries, a: seq<Change>, b: seq<Change>)
    requires Chained(p, a + b)
    ensures Chained(p, Compacted(a) + b)
    ensures Net(Compacted(a) + b) == Net(a + b)
    ensures Compacted(Compacted(a) + b) == Compacted(a + b)
    decreases |b|
  {
    CompactThenAppendNet(p, a, b);
    NetReplays(p, a + b);
    NetReplays(p, Compacted(a) + b);
  }

  lemma {:induction false} CompactThenAppendNet(p: Primaries, a: seq<Change>, b: seq<Change>)
    requires Chained(p, a + b)
    ensures Chained(p, Compacted(a) + b)
    ensures Net(Compacted(a) + b) == Net(a + b)
    ensures Replay(p, Compacted(a) + b) == Replay(p, a + b)
    decreases |b|
  {
    hide Net, Compacted, Chained, Known, Replay;
    if b == [] {
      assert a + b == a && Compacted(a) + b == Compacted(a);
      NetReplays(p, a);
      NetOfNet(a);
    } else {
      var front, m := Snoc(b);
      assert a + b == (a + front) + [m] && Compacted(a) + b == (Compacted(a) + front) + [m];
      ChainedSnoc(p, a + front, m);
      CompactThenAppendNet(p, a, front);
      MutateBoth(p, Compacted(a) + front, a + front, m);
    }
  }
}
