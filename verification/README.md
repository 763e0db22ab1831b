# go-memdb in Dafny

go-memdb is an in-memory table store. Every table has a unique primary index `id` and any number
of secondary indexes; a query is a byte-prefix or byte-order scan of one index. A write
transaction works on private copies of the indexes it touches and commits by storing one new
root pointer under a writer lock, so readers and snapshots keep the root they started from.

This project models four parts of the repository and proves properties of the model: the
transactional store (`txn.go`, `memdb.go`), the key codec and the compound indexers (`index.go`),
the compaction of the change log (`txn.go`, `changes.go`), and the wait on many watch channels
(`watch.go`).

`dafny verify dfyconfig.toml` checks everything.

## How the model is laid out

| file | what it holds |
|---|---|
| `Bytes.dfy`, `Radix.dfy` | byte strings and their order; the radix tree as a persistent sorted map |
| `Schema.dfy` | indexes, tables, objects, indexers as functions, change-log entries, errors |
| `Store.dfy`, `Agreement.dfy` | insert and delete on the trees of one table; index agreement |
| `FailedInsert.dfy` | what an insert that fails leaves behind |
| `BulkDelete.dfy` | `DeleteAll` and the subtree shortcut `DeletePrefix` |
| `Overlay.dfy`, `Ops.dfy` | private trees over a root, commit; operations on the whole contents; query resolution |
| `Query.dfy`, `FieldQueries.dfy` | exact lookups, range scans and prefix queries, over bytes and over fields |
| `Lookup.dfy` | from the name of a query and its arguments to the keys it asks for and the rows it returns |
| `Database.dfy` | the classes `MemDB` and `Txn`, method by method |
| `ChangeLog.dfy`, `Runs.dfy` | `Txn.Changes`; agreement and the change log over whole runs |
| `Mvcc.dfy` | every interleaving of transactions on a database and its snapshots |
| `Codec.dfy`, `Uuid.dfy`, `Indexers.dfy` | encodings, UUID text, single-field indexers, `CompoundIndex` |
| `MultiIndex.dfy`, `SliceWalk.dfy` | `CompoundMultiIndex`: argument matcher, lookups, and the walk under slice semantics |
| `SuffixLoop.dfy` | the loop that appends the primary key to the values of a non-unique index, in place |
| `ArgumentLaws.dfy` | from arguments to field values: what a lookup finds, for every kind of indexer |
| `Watch.dfy` | `WatchSet`, the chunk loop, the watcher goroutines |
| `FailingInputs.dfy` | concrete inputs on which the store falls short |

Three kinds of specification meet in the middle. Methods of the classes are proved equal to
functions on values (`InsertLoop`, `Apply`, `Walk`, `Compacted`). Those functions are proved to
have the properties that matter. Interleavings are a step relation whose `Do` step is what the
method contracts promise about `Contents()`.

The order in which Go enumerates a map is a parameter: each operation carries the enumerations
that the runtime happens to pick while it runs, and every theorem holds for all of them.

## Where the code falls short of what it is meant to do

These are properties that are false of the code as it is. For each there is a lemma with a
concrete failing input or the general failing case, and an exact condition.

* A unique secondary index is last-insert-wins. Inserting an object keeps every index an exact
  view of the primary index if and only if it takes no key from another live object and leaves
  no residue (`Agreement.InsertAgreesIff`). `Agreement.UniqueIndexLosesEntry` is the failing input.
* An update skips the delete of an old key that equals a new value even when the indexer reported
  that value as missing. From a table that agrees, every entry still points to a live object
  if and only if no such residue is left (`Agreement.InsertSoundIff`);
  `Agreement.ResidueIsLeft` is the failing input. The field, compound, string-slice and
  string-map indexers never leave one.
* `DeletePrefix` scans with the value of the prefix indexer but removes the subtree of the raw
  argument from the scanned index. It removes exactly the scanned objects if and only if the raw
  argument selects exactly the keys of those objects, or nothing matched; it panics if and only
  if something matched and the raw argument selects nothing (`BulkDelete.DeletePrefixIff`,
  `BulkDelete.DeletePrefixClosed`). On a single-valued index this means that both prefixes select
  the same keys; on a multi-valued one also that the objects have no other keys. The failing
  inputs are `FailingInputs.UpperCasePrefixPanics`, `FailingInputs.UuidPrefixPanics` and
  `FailingInputs.OtherTagStays`.
* `DeleteAll` returns `ErrNotFound` half-way if and only if some object is filed twice in the
  scanned range, and stops at the first repetition (`BulkDelete.DeleteAllIff`);
  `FailingInputs.SecondTagStopsDeleteAll` is the failing input. There `DeletePrefix` differs, too:
  it ends like `DeleteAll` if and only if no object is filed twice and its raw argument fits
  (`BulkDelete.DeletePrefixRefinesDeleteAll`).
* `Insert` rewrites one index after the other and undoes nothing when one of them fails. From a table
  that agrees, a failing insert leaves one that agrees if and only if each index it got to is left
  as it was (`FailedInsert.FailedInsertAgreesIff`). Under a map order that starts with the primary
  index that is never so (`FailedInsert.FailedInsertCanBreak`);
  `FailingInputs.MissingValueStaysInPrimary` is the failing input.
* Together: over any run of operations, failing ones included, from a database that agrees, all
  indexes stay exact and the change log true if and only if every operation is clean in this sense
  (`Runs.RunAgreesIff`).
* `First` and `Last` look a unique index up directly. `First` agrees with the first row of `Get` if
  and only if the key is present or nothing extends it (`Query.FirstAgreesIff`), `Last` with the last
  row if and only if the key is present and holds the object of the greatest matching key, or
  nothing matches (`Query.LastRowAgreesIff`); `FailingInputs.NarrowIntMissesFirst` is the failing
  input.
* `ReverseLowerBound` is documented as "less than or equal". On a non-unique index the stored keys
  carry the primary key, so rows equal to the bound are left out, except under an empty primary
  key (`Query.ReverseLowerBoundIsExact`); `FailingInputs.EqualRowIsLeftOut` is the failing input.
* The path of an index joins table and index name with a dot. A commit shows new readers what its
  transaction saw, and is independent of map order, if and only if paths are distinct
  (`Overlay.CommitShowsViewIff`, `Overlay.CommitOrderIndependentIff`); `Overlay.DottedTablesCollide`
  is a collision, and names without dots avoid it.
* `CompoundMultiIndex` with `AllowMissing` appends to a prefix that earlier outputs share. The
  output is exact under every growth policy of `append` if and only if each level strictly
  between the first and the last has one distinct value (`SliceWalk.InteriorExactIff`).
  `SliceWalk.SiblingIsOverwritten` shows three levels losing a prefix. Leaves are always exact.
* On a non-unique index `Insert` appends the primary key to each value in place, and interior prefixes
  share arrays. With `AllowMissing` the values all end up as the right keys under every growth
  policy if and only if each middle level has one distinct value and the primary key repeats what
  the middle levels add, as far as it goes (`SuffixLoop.KeptExactIff`). Where the primary key and the
  first middle value do not begin alike, that is: at most two levels, for an insert and for a delete
  (`SuffixLoop.OrdinaryKeysIff`). `SuffixLoop.ChainIsOverwritten` shows three levels with one value
  each losing a key. Without `AllowMissing` the keys are always right.
* The length check of UUID parsing accepts text with fewer than four hyphens, which decodes to more
  than sixteen bytes (`Uuid.EnforcedLengthIff`, `Uuid.LongUuidParses`).
* The fast path of `Changes` returns a log without repeated objects as it is. The result is the
  net effect if and only if the log repeats an object or has no entry that is nil on both sides
  (`ChangeLog.CompactedIsNetIff`); logs that operations write never have one.
* A lookup on a string map with one argument is documented never to return a value (index.go:204-212). Its
  bytes are never a stored value, so a direct lookup on a unique index finds nothing, but they start
  exactly the values of the pairs with that key, and a scan does return those rows
  (`ArgumentLaws.MapKeyLookup`).
* `WatchSet.Add` is documented to ignore a nil channel; the code tests the set, not the
  channel, so a nil channel is added (`Watch.WatchSet.Add`).

## Model

| member | source | states |
|---|---|---|
| Store.InsertIndexesClosed | txn.go:212-293 | the insert loop succeeds exactly if no index reports an error; visited indexes then hold their rewritten trees, all others are untouched, and a failing loop leaves each index either old or rewritten |
| Store.InsertOrderIndependent | txn.go:205-293 | for every enumeration of a table's indexes, whether an insert succeeds and the state a successful insert leaves are the same, although the primary index is rewritten somewhere in the loop |
| Store.SkippedDeleteIsInvisible | txn.go:260-292 | skipping the delete of an old key that equals the new one at its position never shows: the tree ends as if every old key had been deleted first, with reordered and duplicate values too |
| Store.DeleteIndexesClosed | txn.go:337-368 | the deletion loop fails exactly if some indexer it does not skip fails; otherwise it takes out exactly the object's keys |
| Store.DeleteOrderIndependent | txn.go:330-368 | the same order independence for a delete |
| Agreement.AgreementDeterminesIndexes | txn.go:209-211 | in a table that agrees, the primary index determines every other index |
| Agreement.EntryAfterInsert | txn.go:242-292 | one index after an insert, entry by entry: new keys hold the new object, the old object's other keys are gone, everything else stays |
| Agreement.InsertKeepsSound | txn.go:205-293 | after a successful insert that leaves no residue of a missing value, every entry points to a live object that produces its key; unique values need not be distinct |
| Agreement.InsertSoundIff | txn.go:242-292 | from a table that agrees, a successful insert keeps that soundness if and only if it leaves no residue |
| Agreement.ResidueIsLeft | txn.go:269-277 | the failing input: an indexer that reports a missing value together with the old key, so that the delete is skipped |
| Agreement.InsertAgreesIff | txn.go:205-293 | a successful insert keeps every index exact if and only if it takes no key from another live object and leaves no residue of a missing value |
| FailedInsert.InsertIndexesVisited | txn.go:212-293 | the insert loop, failing or not, rewrites exactly the indexes up to the first that fails, that one included |
| FailedInsert.FailedInsertAgreesIff | txn.go:212-286 | an insert that fails in the loop leaves every index exact if and only if no index it got to has a key of the object or loses an old key, and then it changes nothing |
| FailedInsert.FailedInsertCanBreak | txn.go:212-286 | an insert that fails in the loop never leaves every index exact under a map order that starts with the primary index, and there is such an order |
| Agreement.DeleteKeeps | txn.go:329-368 | a delete removes exactly the object stored under its primary key and keeps soundness, and completeness where it held |
| Agreement.DeleteSucceedsIff | txn.go:318-356 | in a consistent table a delete succeeds exactly if the primary key is present |
| Agreement.PrefixFreeNeverCollides | txn.go:233-240 | for prefix-free values, value plus primary key decides both |
| Agreement.SharedKeyIsLost | txn.go:357-367 | deleting one of two live objects with a common key leaves the other one live but no longer filed |
| Agreement.UniqueIndexLosesEntry | index.go:772-774 | the failing input for unique indexes: two objects with one value, the first deleted |
| BulkDelete.DeleteEachIff | txn.go:509-517 | the deletion loop succeeds exactly if its objects are live and pairwise different |
| BulkDelete.DeleteEachStops | txn.go:509-517 | the deletion loop over live rows deletes, counts and logs exactly the rows before the first repetition and stops there with ErrNotFound |
| BulkDelete.DeleteAllIff | txn.go:486-518 | DeleteAll deletes, counts and logs exactly the scanned objects before the first one filed twice in the range; it succeeds, and then these are all of them, if and only if no object is filed twice there |
| BulkDelete.DeleteAllEntries | txn.go:486-518 | entries of objects that did not match stay in every index, entries of those that matched go |
| BulkDelete.PurgeEachClosed | txn.go:407-471 | the entry loop of DeletePrefix takes every scanned row out of every index but the scanned one, and logs it once even where the scan meets it twice |
| BulkDelete.SubtreeStep | txn.go:473-478 | the final subtree removal completes the deletion exactly if the raw argument selects those keys of the deleted objects that the index has |
| BulkDelete.DeletePrefixClosed | txn.go:384-482 | on any index DeletePrefix returns no error, logs each scanned object once, leaves the table the loop and the subtree removal make, and panics, leaving what the loop made, exactly if something matched and the raw argument selects nothing |
| BulkDelete.DeletePrefixIff | txn.go:384-482 | on any index it removes exactly the scanned objects if and only if the raw argument selects exactly their keys, or nothing matched |
| BulkDelete.DeletePrefixRefinesDeleteAll | txn.go:384-518 | on any index DeletePrefix ends like DeleteAll, in state, log and count, if and only if no object is filed twice in the range and the raw argument selects exactly the keys of the scanned objects; where an object is filed twice DeleteAll fails and DeletePrefix does not |
| BulkDelete.SingleValuedFits | txn.go:384-482 | on a single-valued index that comes to: both prefixes select the same keys |
| BulkDelete.KeyOutsideStays | txn.go:473-478 | on a multi-valued index a key outside the prefix keeps its entry for a deleted object |
| BulkDelete.FiledTwiceStops | txn.go:486-518 | an object filed twice in the range stops DeleteAll and not DeletePrefix |
| Overlay.ViewUpdate | txn.go:80-105 | writing one private tree changes exactly that index of what the transaction reads |
| Overlay.CommitShowsView | txn.go:144-153 | with distinct index paths, in whatever order private trees are folded, a new reader of the new root sees exactly what the transaction saw |
| Overlay.CommitShowsViewIff | txn.go:144-153 | every commit shows new readers what its transaction saw exactly for schemas with distinct index paths |
| Overlay.CommitOrderIndependentIff | txn.go:144-150 | the committed root is independent of map order exactly for schemas with distinct index paths |
| Overlay.DotFreeTablesInjective | memdb.go:117-119 | table names without a dot give distinct paths |
| Overlay.DottedTablesCollide | memdb.go:117-119 | two indexes with one path |
| Ops.SuffixedIndexHasNoExactLookup | txn.go:667-705 | an index whose name ends in _prefix is reached with arguments only through its prefix indexer |
| Lookup.ResolveIff | txn.go:658-705 | a query resolves to index n and key p exactly if it names n, not ending in _prefix, and p is what the indexer makes of the arguments, or names n_prefix, and p is what the prefix indexer makes of them; without arguments p is empty |
| Lookup.QueryIsResolved | txn.go:658-705 | a query is refused exactly if it asks for nothing |
| Lookup.Refusals | txn.go:658-705 | which of the refusals it is: no such table, no such index, no prefix indexer |
| Lookup.ExactLookup | txn.go:744-759 | by the name of an index a query asks for the rows whose keys start with the indexer's value; where that is prefix-free these are the live objects with the value |
| Lookup.ScannedRows | txn.go:744-759 | the rows of a scan are the objects under the keys with the prefix, one for each key |
| Lookup.FirstLastFollow | txn.go:534-598 | First and Last look a unique index up directly only by its own name and with arguments |
| Lookup.PrefixEnds | txn.go:534-598 | on n_prefix, and without arguments, First and Last are the ends of Get, whatever the index |
| Lookup.ExactEndsIff | txn.go:534-598 | by the name of the index First and Last are the ends of Get exactly if the index is not unique, or the key present or nothing matching for First, or the key present with the object of the greatest match, or nothing matching, for Last |
| Lookup.DeleteAllAsked | txn.go:486-518 | DeleteAll of a query succeeds exactly if no row it asks for is filed twice there, and then exactly those rows are gone |
| Lookup.DeletePrefixAsked | txn.go:384-482 | DeletePrefix runs on index n for the name n_prefix and is refused on any name without the suffix |
| Ops.ApplyDeleteAll | txn.go:486-518 | DeleteAll seen from the whole database is its deletion loop over the rows of the query |
| Ops.ApplyDeletePrefix | txn.go:384-482 | DeletePrefix seen from the whole database, error case by error case |
| Query.FirstAgreesIff | txn.go:544-557 | First is the first row of Get by the iterator always, by direct lookup exactly if the key is present or nothing extends it |
| Query.LastAgreesIff | txn.go:584-597 | the key looked up directly is the last scanned key exactly if nothing longer than the argument matches |
| Query.LastRowAgreesIff | txn.go:584-597 | Last is the last row of Get by the iterator always, by direct lookup exactly if nothing matches or the key is present and holds the object of the greatest matching key |
| Query.LongerKeyOfSameRow | txn.go:584-597 | one object under the argument and under the greatest longer key: the keys differ, the rows agree |
| Query.GetIsExact | txn.go:744-759 | for prefix-free values Get returns exactly the live objects with that value, each once, by primary key; at most one on a unique index |
| Query.FirstLastAreEnds | txn.go:534-598 | for prefix-free values First and Last are the ends of Get by either path |
| Query.KeyOrder | txn.go:236-239 | stored keys are ordered by value and then by primary key |
| Query.BoundOrder | txn.go:799-839 | a stored key against a bare bound, from either side |
| Query.LowerBoundIsExact | txn.go:799-813 | LowerBound on any index returns, in key order and once for each key, exactly the live objects with a key at least the bound; for prefix-free values those with a value at least the bound, by value and primary key where the index is single-valued |
| Query.ReverseLowerBoundIsExact | txn.go:825-839 | ReverseLowerBound on any index returns, from the largest key down, exactly the live objects with a key at most the bound; for prefix-free values those below the bound, and those equal to it on a unique index or under an empty primary key |
| Database.MemDB.constructor | memdb.go:39-59 | a new database holds every index of its schema, all empty, and its lock is free |
| Database.MemDB.Begin | memdb.go:74-84 | a transaction starts from the current root with nothing modified; only a writer takes the lock |
| Database.MemDB.Snapshot | memdb.go:92-99 | an independent database with the same root that will not notify |
| Database.InsertLoopView | txn.go:212-293 | the insert loop on private trees is the insert loop on what the transaction reads |
| Database.UpsertView | txn.go:205-301 | the whole insert on private trees, with its change-log entry |
| Database.RemoveLoopView | txn.go:337-368 | the deletion loop on private trees is the deletion loop on what the transaction reads |
| Database.Txn.TrackChanges | txn.go:52-56 | tracking starts once, with a log that tells of no change, and keeps what is recorded |
| Database.Txn.ReadableIndex | txn.go:61-76 | reads go through the private tree where there is one |
| Database.Txn.WritableIndex | txn.go:80-105 | opening an index for writing changes nothing that is read |
| Database.Txn.DropStale | txn.go:261-275 | the update loop deletes exactly the old keys that differ from the new one at their position |
| Database.Txn.PutEach | txn.go:290-292 | every new key points to the new object |
| Database.Txn.RewriteTree | txn.go:215-292 | one round of the insert loop, with its three error exits and the trees they leave |
| Database.Txn.InsertAll | txn.go:212-293 | the loop over all indexes stops at the first error and leaves what it did |
| Database.Txn.Lookup | txn.go:205-207 | the lookup of the stored object opens the primary index for writing |
| Database.Txn.Upsert | txn.go:205-302 | an insert is logged only when it succeeds, with the object it replaced |
| Database.Txn.Insert | txn.go:183-303 | the new contents, the error and the change-log entry of an insert; a log that tells how the primary indexes came about goes on telling it after a tidy insert; nothing changes in a read transaction |
| Database.Txn.RemoveKeys | txn.go:361-366 | exactly the object's keys are removed from an index |
| Database.Txn.ClearAll | txn.go:337-368 | the loop over all indexes, except skipped ones |
| Database.Txn.Erase | txn.go:329-377 | a delete removes and logs the stored object, which need not equal the argument |
| Database.Txn.Delete | txn.go:307-378 | the new contents, the error and the change-log entry of a delete; a log that tells how the primary indexes came about goes on telling it |
| Database.Txn.Get | txn.go:744-759 | the rows under the key that the query asks for, in key order; an error exactly if it asks for nothing |
| Database.Txn.GetReverse | txn.go:769-784 | the same rows backwards |
| Database.Txn.First | txn.go:534-558 | the first row of the scan, or on a unique index by its own name the row under exactly the key that the query asks for |
| Database.Txn.Last | txn.go:574-598 | the last row of the scan, or on a unique index by its own name the row under exactly the key that the query asks for |
| Database.Txn.LowerBound | txn.go:799-813 | the rows from the key that the query asks for upwards |
| Database.Txn.ReverseLowerBound | txn.go:825-839 | the rows from the key that the query asks for downwards |
| Database.Txn.DeleteAll | txn.go:486-518 | collects the rows first; contents, log, error and count of the deletions; a log that tells goes on telling |
| Database.Txn.DeleteRows | txn.go:509-517 | the deletion loop, including the deletions done before an error |
| Database.Txn.PurgeEntry | txn.go:407-471 | one entry of DeletePrefix |
| Database.Txn.PurgeEntries | txn.go:406-472 | the entry loop of DeletePrefix |
| Database.Txn.DropSubtree | txn.go:474-478 | the subtree removal and whether it removed anything |
| Database.Txn.DeletePrefix | txn.go:384-482 | contents, log, error and result of DeletePrefix; a log that tells goes on telling after a tidy one |
| Database.Txn.FoldInto | txn.go:144-148 | the loop that folds private trees into a root |
| Database.Txn.Commit | txn.go:133-176 | the root becomes the fold of the private trees, which with distinct index paths shows new readers what the transaction saw; the lock is released; a second call or a read transaction changes nothing |
| Database.Txn.Abort | txn.go:110-128 | the root stays, the private trees and the change log are dropped, the lock is released once |
| Database.Txn.Snapshot | txn.go:1006-1024 | a fresh read-only transaction over the folded root, which with distinct index paths sees what this one sees; none for a finished transaction |
| Database.Txn.Changes | txn.go:869-924 | nothing without tracking, else the compacted log, which replaces the log; if the log led from p to q, the result does, too, and describes exactly their differences |
| Database.RunTracked | txn.go:48-56 | a write transaction tracked from its start, whatever tidy operations its caller performs and however often it asks, reads those operations applied to its start, and Changes describes exactly the difference |
| ChangeLog.Compact | txn.go:874-923 | the two loops and the fast path compute the compacted log |
| ChangeLog.CopyLast | txn.go:899-920 | the second loop keeps the last entry of each object with its first Before |
| ChangeLog.KeptIsNet | txn.go:874-923 | map and pass together merge mutations one by one |
| ChangeLog.CompactedIsNetIff | txn.go:893-896 | the result is the net effect exactly if the log repeats an object or has no void entry |
| ChangeLog.NetEntries | txn.go:899-920 | an entry is in the result exactly if it has the first Before and the last After of its object and is not void |
| ChangeLog.NetOrdered | txn.go:861-868 | entries come in the order of last mutations; no object has two |
| ChangeLog.NetClassifies | changes.go:22-37 | every entry is exactly one of Created, Updated and Deleted |
| ChangeLog.ChainedEnds | txn.go:294-301 | in a recorded log the first Before of an object is its value at the start, the last After its value now |
| ChangeLog.NetDescribes | txn.go:858-868 | the net effect lists exactly the differences between the states before and after, with true values |
| ChangeLog.ClassesAreTrue | changes.go:22-37 | an entry is Created exactly for an object that was not there and is, Updated for one that was and is, Deleted for one that was and is not |
| ChangeLog.DescriptionReplays | txn.go:858-868 | such a list leads from the one state to the other |
| ChangeLog.NetReplays | txn.go:858-868 | replaying the result over the starting state gives the state of the whole history |
| ChangeLog.CompactThenAppend | txn.go:921-923 | compacting, going on and compacting again equals compacting once |
| ChangeLog.AskingIsHarmless | txn.go:855-859 | however often Changes is called in between, it returns the net effect of the uncompacted history |
| Runs.PrimariesDetermineContent | txn.go:209-211 | two databases that agree and have the same primary indexes are equal |
| Runs.OpIsGoodStep | txn.go:183-518 | a tidy operation, failing or not (an insert leaves no residue, or fails with no index rewritten; the raw argument of a DeletePrefix fits), keeps its table consistent, keeps agreement when clean, logs how the primary index got there, and leaves other tables alone |
| Runs.DeletePrefixAgreesIff | txn.go:384-482 | a DeletePrefix keeps agreement and tells the truth in the log if and only if its raw argument fits; where it panics it does not |
| Runs.OpKeeps | txn.go:183-518 | the same for a whole database |
| Runs.OpTells | txn.go:294-301 | a log that leads from some primary indexes to those of a database, with the entries of one more tidy operation, leads to those after it |
| Runs.CompactedTells | txn.go:855-868 | compaction keeps where a log leads, and describes the difference |
| Runs.OpAgreesIff | txn.go:183-518 | from a database that agrees, an operation, failing or not, keeps every index exact and the log true if and only if it is clean |
| Runs.RunKeepsConsistent | txn.go:183-518 | over any run of tidy operations, failing or not, every entry points to a live object that produces its key, and the log is a faithful record |
| Runs.RunKeepsAgreement | txn.go:183-518 | over any run of clean operations, failing or not, every index of every table is exactly what its primary index determines |
| Runs.RunAgreesIff | txn.go:183-518 | over any run of operations, failing ones included, all indexes are exact and the log is true after every one, if and only if every operation is clean |
| Runs.ChangesTellNetEffect | txn.go:855-868 | after a run of tidy operations, failing or not, the result of Changes replays over the starting primary indexes to the current ones and describes each difference once |
| Runs.EmptyDatabaseAgrees | memdb.go:103-114 | every index of a new database agrees |
| Runs.FirstInsertIsClean | txn.go:205-293 | the first insert into a table is clean whatever the object, so clean runs exist |
| Agreement.NilLeavesNoResidue | txn.go:272-274 | an indexer that reports missing values as nil, and has stored no empty key, leaves no residue |
| Indexers.FieldLeavesNoResidue | index.go:66-95 | a field index leaves no residue, for any objects |
| Indexers.CompoundLeavesNoResidue | index.go:690-711 | a compound index leaves no residue, for any objects |
| MultiIndex.SubLeavesNoResidue | index.go:135-169 | string-slice and string-map indexes leave no residue, for any objects |
| Runs.SeparateNeverCollides | txn.go:233-240 | distinct values on unique indexes and prefix-free values on the others rule collisions out |
| Mvcc.StoreKeeps | txn.go:144-153 | with distinct index paths storing a folded root keeps the invariant |
| Mvcc.UnlockKeeps | txn.go:168-169 | the lock is released only by the transaction that holds it |
| Mvcc.StepKeeps | memdb.go:74-99 | with distinct index paths every atomic step of every transaction keeps the invariant |
| Mvcc.ReachableOk | memdb.go:74-99 | with distinct index paths the invariant holds in every state that any interleaving reaches |
| Mvcc.AtMostOneWriter | memdb.go:34-35 | two live write transactions of a database are one, and the lock is held exactly while there is one |
| Mvcc.ReleasesOnce | txn.go:110-176 | a write transaction releases the lock once, when it ends, and only while holding it |
| Mvcc.NoLostUpdate | txn.go:144-153 | with distinct index paths a committed root is the transaction's operations applied to the root it replaces |
| Mvcc.Serializable | memdb.go:16-18 | with distinct index paths, in every reachable state every committed state of every database is its first state followed by whole transactions, one after the other |
| Mvcc.CommittedStatesAgree | txn.go:183-518 | with distinct index paths and from a database that agrees, in every reachable state, if all transactions that committed, on the database or on snapshots, ran cleanly, every committed state of every database agrees |
| Mvcc.ExecExtends | memdb.go:86-91 | histories only grow, and readers and snapshots never change |
| Mvcc.ReaderSeesOneCommit | txn.go:603-604 | a read transaction sees the newest commit of its start for its whole life |
| Mvcc.DbSnapshotStartsNewest | memdb.go:86-99 | a snapshot of a database starts from its newest commit, unlocked, and keeps that origin |
| Mvcc.WriterStartsNewest | txn.go:144-153 | an active write transaction works on the newest commit |
| Mvcc.SnapshotSeesOneState | txn.go:1006-1024 | with distinct index paths a transaction snapshot keeps showing what its transaction saw at that moment |
| Mvcc.OtherDatabasesUnchanged | memdb.go:86-99 | over a whole run without lock, store or unlock steps on a database, its root, history and lock stay, whatever happens on its snapshots or on the database it is a snapshot of |
| Mvcc.LockIsReleasable | txn.go:110-128 | a held lock can always be given back within three steps without changing the root |
| Codec.PutBigEndian | index.go:349-360 | a buffer is filled with the low bytes, most significant first |
| Codec.EncodeInt | index.go:341-364 | flipping the sign bit, truncating and writing big-endian yields the order-preserving encoding |
| Codec.EncodeUInt | index.go:437-454 | the same for unsigned integers |
| Codec.FlipIsShift | index.go:344-347 | flipping the sign bit and truncating shifts the signed range onto the unsigned one |
| Codec.BigEndianRoundTrip | index.go:437-454 | the bytes decode to the number modulo the width |
| Codec.BigEndianOrder | index.go:437-454 | big-endian bytes are ordered like the numbers |
| Codec.SignedOrder | index.go:341-364 | byte order of encoded ints is the order of the ints, negative ones included |
| Codec.TextOrder | index.go:92-94 | NUL-terminated strings are ordered like the strings and none is a prefix of another |
| Codec.PartOrder | index.go:341-364 | for every kind of field byte order is field order, and no encoding is a prefix of another |
| Codec.CompoundOrder | index.go:690-711 | byte order of compound keys is lexicographic order of the tuples, truncated or not, and byte prefixes are tuple prefixes |
| Codec.RowOrder | txn.go:233-240 | byte order of compound keys followed by primary keys is the order of rows, truncated or not |
| Codec.BigEndianSplit | index.go:437-454 | the bytes of a number are those of its quotient by a power of 256 followed by its low bytes |
| Codec.FullKeysPrefixFree | index.go:690-726 | full compound keys are prefix-free and injective |
| Codec.PartialIsExact | index.go:113-125 | a partial argument is a byte prefix exactly of the fields that start with it |
| Codec.PrefixQueryIsExact | index.go:728-753 | a prefix query matches a key, id suffix or not, exactly if the leading fields equal the arguments and the next one starts with the last |
| Uuid.HexRoundTrip | index.go:594-597 | decoding hexadecimal text restores the bytes |
| Uuid.DecodeIsInjective | index.go:594-597 | equal results come from equal digits, up to case |
| Uuid.DecodesIff | index.go:594-597 | text decodes to some bytes exactly if it is their hexadecimal text, in either case |
| Uuid.ParsesIff | index.go:573-600 | which texts parse, with and without the length check |
| Uuid.HexOrder | index.go:594-597 | bytes are ordered like their hexadecimal text |
| Uuid.CanonicalRoundTrip | index.go:573-600 | canonical text, as in section 4 of RFC 9562, parses to the sixteen original bytes |
| Uuid.TextPrefixIsBytePrefix | index.go:555-600 | a textual prefix parses exactly if it has an even number of digits, and then to a byte prefix |
| Uuid.EnforcedLengthIff | index.go:574-585 | a full-length text decodes to sixteen bytes exactly if it has four hyphens, else to more |
| Uuid.LongUuidParses | index.go:574-585 | a text of eighteen bytes is accepted |
| Indexers.CompoundFromObject | index.go:690-711 | the loop joins the fields up to the first missing one; without AllowMissing a gap yields nothing |
| Indexers.JoinArgs | index.go:717-725 | the loop joins the arguments in order |
| Indexers.CompoundFromArgs | index.go:713-726 | an exact key needs one argument for each field |
| Indexers.CompoundPrefixFromArgs | index.go:728-753 | all arguments but the last are exact, the last one is partial |
| FieldQueries.CompoundFiles | index.go:690-711 | a compound index files each object under its tuple |
| FieldQueries.FieldFiles | index.go:66-95 | a field index files each object under its one-column tuple |
| FieldQueries.GetOnFields | txn.go:744-759 | Get with a full tuple returns once each row that answers it: a full row that equals it, on a unique index any row that does, or a truncated row whose primary key happens to start with the rest |
| FieldQueries.LowerBoundOnFields | txn.go:799-813 | LowerBound returns exactly the rows not before the bound in row order, truncated rows included; for full rows, tuple at least the bound |
| FieldQueries.ReverseLowerBoundOnFields | txn.go:825-839 | ReverseLowerBound returns exactly the rows that the bound is not before, in reverse row order; for full rows, tuple less than the bound, or equal to it with no primary key after it |
| FieldQueries.PrefixOnFields | index.go:728-753 | a prefix query returns exactly the rows that answer it: leading fields equal to the arguments and the next one starting with the partial one, or a truncated row whose primary key happens to start with the rest |
| FieldQueries.IntLowerBound | index.go:319-364 | on an int index LowerBound, for an argument of any int width, returns exactly the live objects with field at least the bound, smallest first; of different widths the longer one is compared without its low bytes |
| FieldQueries.StringGet | index.go:66-111 | on a string index Get returns exactly the live objects whose field equals the argument, up to folded case |
| ArgumentLaws.ReadMatches | index.go:66-111 | for every kind of field index, what is read from a field and from an argument is the same exactly if the field equals the argument: text up to folding, numbers in one width, UUIDs by their digits |
| ArgumentLaws.PartialMatches | index.go:113-125 | a partial argument matches exactly the fields that start with it |
| ArgumentLaws.ReadOrders | index.go:341-364 | what is read is ordered like the fields themselves |
| ArgumentLaws.KindIsReadable | index.go:66-95 | fields of the kind of an index can be read |
| ArgumentLaws.FittingIsAccepted | index.go:97-125 | every argument that equals the field of some object, or that such a field starts with, is accepted |
| ArgumentLaws.FieldGet | index.go:66-111 | Get on a field index returns exactly the live objects whose field equals the argument, each once |
| ArgumentLaws.FieldPrefixGet | index.go:113-125 | a prefix query on a string or UUID index returns exactly the live objects whose field starts with the argument |
| ArgumentLaws.FieldLowerBound | txn.go:799-813 | LowerBound on a field index returns exactly the live objects that have the field, not before the argument |
| ArgumentLaws.RowMatches | index.go:690-726 | the leading columns of an object are those of the arguments exactly if its fields equal the arguments |
| ArgumentLaws.WholeIff | index.go:690-711 | an object has all columns exactly if it has all fields |
| ArgumentLaws.CompoundGet | index.go:690-726 | Get on a compound index returns the live objects whose fields all equal the arguments; on a unique index or without AllowMissing no others |
| ArgumentLaws.CompoundPrefixGet | index.go:728-753 | a prefix query on a compound index, from arguments to fields: leading fields equal, the next one starts with the last argument |
| ArgumentLaws.ArgumentCounts | index.go:713-716 | how many arguments a lookup takes |
| SliceWalk.Walker.AppendTo | index.go:868 | append writes in place when the capacity allows, else moves |
| SliceWalk.Walker.WalkVals | index.go:848-873 | the recursive walk on shared memory |
| SliceWalk.WalkFrames | index.go:848-873 | a walk writes to no existing array except past the end of its own prefix |
| SliceWalk.LeavesAreExact | index.go:857-865 | every leaf is one root-to-leaf concatenation, all in depth-first order, none altered later, for every growth policy and depth |
| SliceWalk.FullTuplesAreExact | index.go:841-847 | without AllowMissing the whole output is exact |
| SliceWalk.ConstantMiddlesAreExact | index.go:867-873 | with at most two levels, or constant middle levels, interior prefixes are exact too |
| SliceWalk.VaryingMiddleIsInexact | index.go:867-873 | where a middle level varies and append leaves room, some interior prefix is overwritten |
| SliceWalk.InteriorExactIff | index.go:848-873 | the output is exact under every growth policy exactly if each middle level has one distinct value |
| SliceWalk.SiblingIsOverwritten | index.go:867-873 | a failing input with three levels |
| SuffixLoop.AppendIds | txn.go:235-239 | the loop of in-place appends over the values of an index |
| SuffixLoop.CompatibleIsExact | txn.go:235-239 | values that hold their keys, and agree when suffixed wherever they share an array, end up holding their suffixed keys, each from its own round on |
| SuffixLoop.WalkApart | index.go:848-873 | a leaf of the walk shares its array with no other output |
| SuffixLoop.FullTuplesAreSuffixed | txn.go:235-268 | without AllowMissing inserts and deletes use the right keys under every growth policy |
| SuffixLoop.KeptExactIff | txn.go:235-292 | with AllowMissing the keys of an insert are right under every growth policy exactly if each middle level has one distinct value and the primary key repeats what the middle levels add |
| SuffixLoop.UsedForces | txn.go:259-276 | a growth policy that leaves room spoils the second key of a delete, unless the primary key and the first middle value begin alike |
| SuffixLoop.OrdinaryKeysIff | txn.go:235-276 | where the primary key and the first middle value do not begin alike, inserts and deletes are exact under every growth policy exactly for at most two levels |
| SuffixLoop.ChainIsOverwritten | txn.go:235-239 | a failing input with three levels of one value each |
| MultiIndex.CountArgs | index.go:878-905 | the first pass and the count checks accept a number of arguments exactly if some number of leading sub-indexes takes exactly that many |
| MultiIndex.GroupsCover | index.go:910-931 | every argument belongs to exactly one group, in order, of the width of its sub-index |
| MultiIndex.FromArgs | index.go:877-934 | the second pass stays within the arguments, consumes all of them, and joins what they read |
| MultiIndex.Build | index.go:795-837 | the loop that collects the values of each sub-index up to the first missing one |
| MultiIndex.FromObject | index.go:795-875 | an error, nothing, or the output of the walk |
| MultiIndex.PathIsKey | index.go:848-873 | every choice of values along the levels is among the keys |
| MultiIndex.KeyIsPath | index.go:848-873 | every key comes from a choice of values along the levels |
| MultiIndex.KeyFoundIff | index.go:764-771 | a lookup key is among the keys exactly if its parts are values of the first levels |
| MultiIndex.LookupAgrees | index.go:795-934 | the key of FromArgs is among the keys of FromObject exactly if, for each sub-index that got arguments, what is read from them is among what is read from the object |
| MultiIndex.LookupInOutput | index.go:795-934 | the same for the slices that the walk leaves in shared storage, wherever the walk is exact |
| MultiIndex.LookupInLeaves | index.go:795-934 | for any levels and growth policy, the key of FromArgs is in a leaf slice exactly if there are arguments for every level the object has, and it has the matching values; such a key is never lost |
| ArgumentLaws.SubMatches | index.go:135-286 | what a sub-index reads from its arguments is among what it reads from an object exactly if a non-empty item, a pair with non-empty key, or the field equals them |
| ArgumentLaws.AllAccepted | index.go:906-934 | arguments that an object has are accepted |
| ArgumentLaws.LevelsIff | index.go:795-837 | the levels of an object stop at the first sub-index it has no value for |
| ArgumentLaws.MultiLookup | index.go:795-934 | the key of FromArgs is among the keys of an object, and in the slices of FromObject where they are exact, exactly if each sub-index that got arguments finds the object under them, field by field |
| ArgumentLaws.SubLookup | index.go:135-286 | the same for a string-slice or string-map index by itself |
| ArgumentLaws.SlicePrefixLookup | index.go:187-200 | a prefix query on a string-slice index starts a value exactly if some item starts with the argument |
| ArgumentLaws.MapKeyLookup | index.go:204-286 | one argument of a string-map index is never a stored value, but starts exactly the values of pairs with that key |
| Watch.WatchSet.Add | watch.go:21-29 | adding to a nil set does nothing; anything else, a nil channel included, is added |
| Watch.WatchSet.AddWithLimit | watch.go:40-47 | below the limit the channel is added, else the alternate |
| Watch.LimitHolds | watch.go:31-39 | with one alternate the limit is exceeded by at most one channel, and every offered channel is watched itself or through the alternate |
| Watch.AlternateIff | watch.go:31-47 | while the set is below the limit every channel is watched itself and no alternate; otherwise the alternate is watched |
| Watch.LaunchChunks | watch.go:112-132 | the chunk loop launches fresh arrays that hold the enumeration, 32 channels each, padded with nil |
| Watch.FillChunk | watch.go:82-89 | a small set fills one chunk |
| Watch.EachInOneSlot | watch.go:112-132 | every channel is in exactly one slot of exactly one launched chunk |
| Watch.StepKeeps | watch.go:96-140 | every step of the caller and of every watcher keeps the invariant |
| Watch.ResultIsJustified | watch.go:134-140 | in every interleaving nil means that some channel of the set became ready, an error that the context was done |
| Watch.NoWatcherBlocks | watch.go:97-110 | after the return every unfinished watcher can take a step |
| Watch.WatcherWorkShrinks | watch.go:97-110 | each watcher step uses up bounded work that nothing replenishes |
| Watch.WatchersFinish | watch.go:97-110 | after the return the watchers alone run to completion |
| Watch.NoLostWakeup | watch.go:103-110 | while the caller waits and a channel is ready, it can return or that channel's watcher can take a step |
| Watch.WaitCanEnd | watch.go:96-140 | in any state any interleaving reaches, once the context is done or a channel is ready, the caller and the watchers alone can run to a return, the error or nil accordingly |
| FailingInputs.UpperCasePrefixPanics | txn.go:474-478 | DeletePrefix panics on a case-folding string index with a row "ab" and the prefix "A" |
| FailingInputs.UuidPrefixPanics | txn.go:474-478 | DeletePrefix panics on a UUID index with a textual prefix |
| FailingInputs.OtherTagStays | index.go:187-200 | DeletePrefix on a string-slice index leaves the entry of a row's other tag behind |
| FailingInputs.SecondTagStopsDeleteAll | txn.go:509-517 | DeleteAll stops with ErrNotFound at a row with two tags in the range |
| FailingInputs.NarrowIntMissesFirst | index.go:319-339 | First and Last miss a row that Get yields, for an int argument narrower than the field |
| FailingInputs.EqualRowIsLeftOut | txn.go:815-818 | ReverseLowerBound leaves out a row equal to the bound of a non-unique index |
| FailingInputs.MissingValueStaysInPrimary | txn.go:278-287 | a row without a required value: the insert fails, and whether the row stays in the primary index depends on the map order |

## Left out

- The radix tree (go-immutable-radix) is not in the repository; a tree is a map with iteration in byte order, and `get`, `insert`, `delete`, subtree removal and seeks are the map operations they should be.
- Watch channels of queries, mutation tracking and `Notify`: granularity is a matter of radix nodes.
- `Defer` callbacks, `LongestPrefix`, `filter.go`, and the bool-valued field-set and conditional indexers would only add easy members.
- Schema validation: a valid schema (a unique, single-valued `id` index, as schema.go:62-72 checks) is a precondition.
- Reflection: an object is a record of fields; a field of a kind an indexer does not expect is an error, also for string and UUID indexes, where Go would print the value. Error texts are not modelled.
- `strings.ToLower` is an arbitrary function, applied to objects and arguments alike.
- Key aliasing: the store works on byte strings as values, so its theorems speak of an index only where the keys it is given are right; for `CompoundMultiIndex`, `SuffixLoop` says exactly when, and the other indexers return slices that share nothing.
- SuffixLoop.UsedForces: states what a delete needs at least; where the primary key and a middle value begin alike, what it needs exactly depends on which appends find room.
- The enumeration order of a string-map field is fixed by the object; `Store.SkippedDeleteIsInvisible` shows that it does not matter to the trees.
- Operations on a transaction after `Commit` or `Abort` dereference nil in Go; here they require an open transaction. `Changes`, `Commit`, `Abort` and `Snapshot` are allowed then, as in Go.
- Atomic loads and stores of the root pointer are single steps; the memory model behind them is not modelled. A watch channel, once closed, stays ready.
- `watchFew` is a single select step; `Watch` and `WatchCh`, which wrap `WatchCtx`, are not modelled.
- MultiIndex.FromObject: says which slices the walk leaves; `SliceWalk` says which of them hold their keys, and `MultiIndex.LookupInOutput` puts the two together wherever the walk is exact.
