# upscaledb, modelled and verified in Dafny

upscaledb is an embedded key/value store. Writers work in transactions whose
operations wait in a tree of their own until they are flushed into the btree;
a journal makes committed operations and flushed pages durable; cursors walk the
two trees as if they were one. This project models these parts of the engine and
the tools around it, and proves what they promise. Where a promise does not hold
for all inputs, the code is kept as it is, a concrete case is given, and the
exact condition under which the promise holds is proved in both directions.

`dafny verify dfyconfig.toml` checks everything.

## How the files fit together

* **Transactions.** `Actions` gives one operation two meanings, the one readers
  see and the one a flush carries out, and says when they agree. `Transactions`
  is the state machine of begin, write, commit, abort and flush over one
  chronological log; `TxnManager` is the code that updates lists and maps in
  place, proved equal to it. `Ledger` is what a client can note down from its steps
  and the answers alone, and the log holds exactly what the notes say.
  `Serializability` has the whole-run theorem: after every clean run, with any flush
  policy, every key reads as if the writes that the notes list for the committed
  transactions had been made one after the other in commit order. `Anomalies` has short
  runs in which a single operation goes wrong.
* **Crash recovery.** `Journal` is the log on two files, `JournalFiles` the code
  that writes and recovers it, `Recovery` the invariant of log, files and engine
  together, and `CrashRuns` the theorems about crashes at any point of any run, in
  the middle of a commit as well, torn page writes included, and about recovery
  that is itself interrupted any number of times.
* **Cursors.** `Trees` are the two trees. `Cursor` is the cursor over both, with
  and without duplicate keys: NEXT, PREVIOUS, FIRST, LAST, the exact lookup, the
  lookup of the idle side after a change of direction, and the duplicate cache
  (`DupLines`). A move consumes a *front*, the part of the two trees that is still
  ahead (`Fronts`), and `MergeWalk` says what all moves in one direction show, for
  any two trees. `Walks` compares this with the view of a reader when no other
  transaction is open, and has the theorems about any mix of moves that begins with
  a lookup. `Turns` has those about runs that begin at an end, and about turning
  around there. `Isolation` compares walks from an end and walks from a lookup with
  the view while other transactions are open. `ApproxFind` is the lookup with LT,
  LEQ, GT and GEQ, and `DupCursors` is how cursors follow a duplicate list that
  other cursors change.
* **Storage.** `TableBytes`, `DuplicateTables` and `InlineDuplicates` are the
  duplicate lists at the level of bytes and blobs; `Chunks`, `Vacuum` and
  `UpfrontIndexes` are the slot directory of a btree node with its compaction.
* **Tools and samples.** `Frames`, `DumpCodec`, `Dump` and `DumpTools` are export
  and import; `ConfigReader`, `ConfigTables`, `ConfigRoundTrip` and `ConfigRefusals`
  are the server configuration; `GetOpts` is the command line parser; `Joins`
  compares the two query plans of the samples.

Terms used in the table: a key is *isolated* if its committed operations are older
than its active ones and the active ones belong to one transaction. A flush is
*clean* on a key if the writers of the key began in the order in which they wrote
and each operation is flush-safe, or if the key has no duplicates and the operation
that was logged last has the effect of the one that is flushed last; a run is clean
if its flushes are clean on every key and no erase of one duplicate meets another
open writer. The *view* of a key is what a reader consolidates from the btree and
the committed operations. A *row* is a key with one of its duplicates, a *foreign*
key is one that another open transaction was the last to write, and a key is
*hidden* if the cursor will show its btree records although the reader has erased
it. A database is *undisturbed* if no other open transaction has written to it.
The two trees are *apart* at a key if only one of them holds it and the other one
goes on behind it.

Code that computes a value is a function; code that changes things step by step
is a method with a loop or a class with fields. Such a method is proved against a
function of the old state, and what the source promises is proved about that
function. Where the function follows the same branches as the code, as for the
configuration callback, the importer and the file switch, the contract also says
what a caller gains and what stays unchanged.

## Where the engine does not keep its promise

Each item has a member that shows the case and one that states the exact
condition (see the table).

* A flush applies transactions in the order in which they began, while readers
  see operations in the order in which they were written
  (`FlushReorders`, `FlushExactPlain`).
* A flush of a positional operation forgets its position (`PositionForgotten`,
  `FlushAgrees`).
* An erase of one duplicate is not checked for conflicts (`EraseUnchecked`,
  `UncheckedEraseExact`), and is later taken for an erase of the whole key
  (`PartialEraseMisread`, `PresenceExact`).
* Recovery skips operations that are older than the last changeset, a file switch
  empties a file that is still needed, and the two files can be replayed in the
  wrong order (`SpanningTxnIsLost`, `SwitchLosesUnflushed`,
  `FirstSwitchMisreads`, `ReplayExact`). A recovery that is interrupted and started
  again inserts a duplicate twice, unless its page is restored by a changeset or
  the key is erased by a later operation (`DuplicateInsertedTwice`,
  `RestartExact`).
* With duplicate keys, a cursor that changed its direction or comes from a lookup
  shows keys of the btree that the reader has erased (`ErasedShown`,
  `ExpectExact`).
* FIRST followed by PREVIOUS, and LAST followed by NEXT, succeed if the two trees
  are apart at the first key, or if duplicate keys are on, no node lies at the first
  key or behind it, and the btree has keys before it. In the first case the rows of
  the same key are shown again, beginning with its last duplicate (`SameRowAgain`,
  `NextDuplicateInstead`); in the second the btree's records of keys that have none
  any more (`ErasedRowAgain`). `TurnAround` and `TurnExact` have the conditions and
  all the rows.
* While other transactions are open, a walk shows uncommitted inserts, forward,
  backward and after a lookup (`DirtyRead`, `DirtyReadBackward`, `EdgeLeak`,
  `LookupLeak`), and passes over keys that nobody else has touched
  (`UntouchedPassedOver`, `FirstNodePassedOver`). At a key of another transaction, a
  walk in one direction goes on where the mirrored walk ends with a conflict
  (`DirectionsDiffer`, `DirectionsDifferAgain`). `IsolationExact` and
  `LookupIsolated` have the conditions under which it shows exactly the untouched
  keys.
* An approximate lookup can report an erased key as found (`GeqFindsErasedKey`,
  `FindTxn`), passes over a key of which one duplicate was erased
  (`PartlyErasedPassedOver`, `Find`), and reports a conflict at a key behind the one
  it should find (`UntouchedConflict`, `FindTxn`).
* A cursor keeps reading its record whatever others insert, overwrite or erase
  (`RunReads`), but INSERT_FIRST, INSERT_BEFORE, INSERT_LAST and overwrites leave
  its duplicate index behind. A later erase then clears the wrong cursor, or
  removes another record than the one that is shown (`ClearedByMistake`,
  `ErasesAnother`, `OutOfListByOverwrite`; `AgreeExact` and `ErasesExact` have the
  exact conditions).
* Fewer than ten chunks that are all moved to another slot directory cannot be
  moved back: an emptied directory that is not compacted does not know where its
  free space begins (`EmptiedIndex`, `SplitAndMerge`).
* Inserting into the middle of an inline duplicate list moves the records the
  wrong way (`RecordsLost`, `InlineList.InsertRecord`).
* An import fails if a database with duplicates and data follows one without
  duplicates, or if a database has flags that only creating admits
  (`ImportFails`, `RecordNumbersLost`, `ImportExport`); the number of databases an
  environment admits is exported but not restored (`LimitIgnored`).
* Environments of a configuration behind the first one that lists databases become
  databases of that one, and without a global setting the reader uses a key that it
  never saw (`SecondEnvironmentLost`, `ConfigRead`, `ConfigSurvives`). The comments
  in `tools/config.c:159` and `tools/config.c:192` say that unknown tokens fail
  there; the code accepts them, and the model follows the code. A configuration with
  a global section only is refused (`OnlyGlobals`, `RefusedExact`).
* `tools/getopts.h` promises options with a blank before the argument and options
  after a slash; the code supports neither, and the model follows the code.

## Model

| member | source | states |
|---|---|---|
| `Actions.FlushAgrees` | src/4db/db_local.cc:1613-1678 | For one operation and any duplicate list, what a flush writes equals what readers consolidated before, if and only if the operation is flush-safe: a whole-key overwrite finds at most one record, and a positional one refers to the position that a flush without a cursor uses, up to equal records. |
| `Actions.ApplyExact` | src/4db/db_local.cc:1613-1678 | What a flush writes for every operation, flush-safe or not: a duplicate goes where the duplicate table puts it next to the first one, and no record is lost; an insert or overwrite replaces the first record and keeps the others; an erase removes one record or all. |
| `Actions.ConsolidateExact` | src/4cursor/cursor_local.cc:84-168 | What readers find after every operation: a duplicate at the place it refers to, with all others kept; one record replaced, or a single one left; one record removed, or all. |
| `Actions.InsertAtSame` | src/4cursor/cursor_local.cc:123-145 | Inserting a record at two places gives the same list exactly if all records between the places equal it. |
| `Actions.BuildDuplicateCache` | src/4cursor/cursor_local.cc:84-168 | The duplicate cache that is updated in place, oldest operation first, is the consolidation of the btree's records with all operations of the node. |
| `Transactions.ConflictExact` | src/4db/db_local.cc:169-292 | The walk that stops at the first committed or own operation reports a conflict if and only if some other open transaction has written the key anywhere in the log. |
| `Transactions.PresenceExact` | src/4db/db_local.cc:169-292 | Without a conflict, a plain insert is refused exactly if the key is visible to the transaction, and an erase exactly if it is not, except after the erase of one duplicate that left others, which is taken for an erase of the key. |
| `Transactions.ReplaceExact` | src/4db/db_local.cc:224-292 | Overwrites and inserts of duplicates are refused if and only if another open transaction has written the key. |
| `Transactions.Flushable` | src/4txn/txn_local.cc:90-125 | The transactions a flush removes are the longest prefix of the list in which none is active. |
| `Serializability.ValidNext` | src/4txn/txn_local.cc:567-626 | Every step of the engine keeps the invariant of list, states and log. |
| `Serializability.WriteStep` | src/4db/db_local.cc:564-604 | A checked write keeps every key isolated, so that at most one open transaction has written it, and leaves the committed operations of every key alone. |
| `Serializability.CommitStep` | src/4txn/txn_local.cc:573-601 | A commit appends the transaction's operations on a key, as one block, to the committed ones. |
| `Serializability.AbortStep` | src/4txn/txn_local.cc:345-359 | An abort leaves the committed operations of every key alone. |
| `Serializability.FlushStep` | src/4txn/txn_local.cc:90-125 | A flush moves the operations of the removed transactions on a key into the btree, in list order, and keeps the others. |
| `Serializability.UncheckedEraseExact` | src/4db/db_local.cc:572-583 | An erase of one duplicate, which is not checked, keeps the key isolated if and only if no other open transaction has written it. |
| `Serializability.FlushInvisible` | src/4txn/txn_local.cc:90-125 | A clean flush does not change what any key reads, also where writers of a key without duplicates began in another order but leave the same record. |
| `Serializability.SingleWriterFlushesInOrder` | src/4txn/txn_local.cc:90-125 | If one transaction wrote all committed operations of a key, they are flushed together and in the order in which they were written. |
| `Serializability.OrderFree` | src/4txn/txn_local.cc:90-125 | Transactions that share no key leave the same btree whatever the order in which they are flushed: any two orders of the same transactions agree. |
| `Serializability.BeginOrderFlushesInOrder` | src/4txn/txn_local.cc:90-125 | Writers of a key that began in the order in which they wrote are flushed in that order. |
| `Serializability.FlushExactPlain` | src/4txn/txn_local.cc:90-125 | Without duplicates a flush is invisible on a key if and only if the operation logged last has the effect of the one the begin order puts last. |
| `Serializability.RunIsolated` | src/4db/db_local.cc:169-292 | In every state of every clean run the invariant holds and all keys are isolated: active write sets are disjoint. |
| `Ledger.BookedNext` | src/4txn/txn_local.cc:219-242 | Every step and its answer keep log and notes together: the same transactions are open, and the log holds exactly the accepted writes of those that are open or not yet flushed, in the order in which they were made. |
| `Ledger.OpenIsLogged` | src/4txn/txn_local.cc:219-242 | The log holds of an open transaction exactly the writes that were accepted from it, in order. |
| `Serializability.WritesKept` | src/4txn/txn_local.cc:219-242 | The same after every run, clean or not: no write, commit, abort or flush loses, repeats or reorders an accepted write of a transaction that is not flushed or aborted. |
| `Serializability.FlushedInListOrder` | src/4txn/txn_local.cc:90-125 | A flush takes the transactions in list order, and of each all operations in the order in which they were made. |
| `Serializability.Serializable` | src/4txn/txn_local.cc:90-125 | After every clean run, with any interleaving and any flush policy, each key reads as if the accepted writes of the committed transactions, as a client notes them, had been made alone and in commit order. |
| `Serializability.FlushReorders` | src/4txn/txn_local.cc:90-125 | A concrete run of six steps in which a flush changes the visible record of key 7 from 20 to 10. |
| `Anomalies.SoloViews` | src/4db/db_local.cc:1613-1678 | A transaction that carries out one operation on an empty log: before the flush the key reads as readers consolidate the operation, and after it as the flush carries it out. |
| `Anomalies.PositionForgotten` | src/4db/db_local.cc:1613-1678 | A record inserted before the second duplicate of key 7 is read there until the flush, which puts it first. |
| `Anomalies.EraseUnchecked` | src/4db/db_local.cc:572-583 | One transaction overwrites a duplicate and another erases the same one while the first is open: both succeed, and the key is not isolated. |
| `Anomalies.PartialEraseMisread` | src/4db/db_local.cc:169-292 | After one of two duplicates was erased the key still has a record, but a plain insert of the key is accepted and an erase of the key finds none. |
| `TxnManager.LocalEnv.TxnBegin` | src/4txn/txn_local.cc:567-571 | The new transaction is fresh and active and goes to the end of the list; the invariant is kept. |
| `TxnManager.LocalEnv.CheckInsertConflicts` | src/4db/db_local.cc:224-292 | The loop over the node, newest operation first, gives the outcome of the recursive walk over the log. |
| `TxnManager.LocalEnv.CheckEraseConflicts` | src/4db/db_local.cc:169-220 | The same for erases. |
| `TxnManager.LocalEnv.Modify` | src/4db/db_local.cc:998-1041 | A write reports a conflict exactly if another open transaction has written the key, changes nothing unless it succeeds, and then appends one operation to the log and keeps all others. |
| `TxnManager.LocalEnv.TxnCommit` | src/4txn/txn_local.cc:573-601 | The transaction becomes committed and the invariant is kept. |
| `TxnManager.LocalEnv.TxnAbort` | src/4txn/txn_local.cc:603-626 | The transaction's operations are removed, those of all others stay, and the invariant is kept. |
| `TxnManager.LocalEnv.FlushCommittedTxns` | src/4txn/txn_local.cc:90-125 | Removing the oldest transaction while it is not active, one by one and in place, is the flush of the longest inactive prefix in one step. |
| `TxnManager.FlushOneMore` | src/4txn/txn_local.cc:90-125 | Flushing one transaction more is the flush of its operations on the state in which the earlier ones are gone. |
| `Journal.ReplayAgrees` | src/3journal/journal.cc:533-628 | Recovery repeats one operation faithfully if and only if it is replay-safe: erases of one duplicate and positional inserts, whose position is not logged, are not. |
| `Journal.ReplayOneExact` | src/3journal/journal.cc:533-628 | What recovery makes of every operation, replay-safe or not: an insert of an existing key is skipped, an overwrite replaces the first record, a duplicate goes to an end or is dropped, and an erase removes the key. |
| `Journal.ReplayIsFold` | src/3journal/journal.cc:474-658 | Replaying replay-safe operations is their consolidation. |
| `Journal.ScanCut` | src/3journal/journal.cc:636-644 | A transaction whose entries were cut off anywhere before the commit entry has no effect when they are read. |
| `Journal.LastIsGreatest` | src/3journal/journal.cc:346-447 | The last changeset of a file has the greatest lsn of all its changesets. |
| `JournalFiles.Log.SwitchFilesMaybe` | src/3journal/journal.cc:204-220 | Afterwards the journal holds exactly the entries of the file that was written, and those of the other file unless the written one was full; after a switch the new file is empty and the written one is the older. |
| `JournalFiles.Log.AppendTransaction` | src/4txn/txn_local.cc:272-317 | A committed transaction is appended to the newer file as one block of begin, operations and commit, after at most one switch, and the counter counts it. |
| `JournalFiles.Log.ScanForOldestChangeset` | src/3journal/journal.cc:312-342 | The scan finds the lsn of the first changeset of a file. |
| `JournalFiles.Log.RedoAllChangesets` | src/3journal/journal.cc:346-447 | The pages after the loop are those of all changesets applied in file order, and the lsn is that of the last one. |
| `JournalFiles.Log.ReplayFile` | src/3journal/journal.cc:474-658 | Per key, the loop over the entries carries out exactly the operations that are younger than the start lsn and whose commit entry is there, in commit order; transactions without one have no effect. |
| `JournalFiles.Log.Recover` | src/3journal/journal.cc:966-987 | Recovery yields, for every key, the replay of the younger committed operations on top of the restored pages, and empties both files. |
| `Recovery.InvNext` | src/3journal/journal.cc:183-220 | Every event, from begin to a journalled flush with its changeset, keeps the invariant that ties log, files and engine together. |
| `Recovery.TidyNext` | src/3journal/journal.cc:183-220 | Every event leaves whole transactions in each of the two files, and no commit entry of a transaction that is still active. |
| `Recovery.StartCovers` | src/3journal/journal.cc:451-470 | The replay starts at the lsn of the youngest changeset in the files, or at 0. |
| `Recovery.YoungAreOpen` | src/3journal/journal.cc:533-628 | An operation that recovery would repeat was not flushed before. |
| `Recovery.OlderSettled` | src/3journal/journal.cc:533-628 | Once the newer file holds a changeset, nothing of the older file is repeated. |
| `Recovery.ReadChronologically` | src/3journal/journal.cc:119-178 | The files are replayed in chronological order unless no changeset tells them apart and file 1 is the newer one. |
| `Recovery.ReplayExact` | src/3journal/journal.cc:474-658 | Recovery repeats the committed, unflushed operations, each once and in commit order, if and only if the journal is intact: nothing unflushed was cleared, nothing unflushed is older than the last changeset, and the files can be put in order. |
| `CrashRuns.RestoredIsBtree` | src/3journal/journal.cc:346-447 | After a crash with any torn page writes, redoing the changesets restores the btree. |
| `CrashRuns.CrashAndRecover` | src/3journal/journal.cc:966-987 | Crash and recovery at any point of a run with an intact journal leave what every key reads unchanged. |
| `CrashRuns.GoodRun` | src/3journal/journal.cc:966-987 | In every state that a run reaches, the engine's pending operations are those of the log and the view is the serial one. |
| `CrashRuns.DurableRun` | src/3journal/journal.cc:966-987 | For every run from an empty log, a crash between any two events with any torn pages and an intact journal, recovery yields the serial execution of exactly the accepted writes of the committed transactions, as a client notes them. |
| `CrashRuns.DurableCut` | src/3journal/journal.cc:636-644 | The same for a crash in the middle of a commit, after any number of the entries of the transaction: it leaves no trace. |
| `CrashRuns.FilesStayShort` | src/3journal/journal.cc:183-220 | Along every run the counter is the number of transactions in the newer file, and neither file holds more than one transaction above the threshold. |
| `CrashRuns.SpanningTxnIsLost` | src/3journal/journal.cc:545-606 | A transaction that wrote before a flush and commits after it loses those writes in recovery. |
| `CrashRuns.SwitchLosesUnflushed` | src/3journal/journal.cc:204-220 | A switch that empties a file with an unflushed operation makes the journal not intact. |
| `CrashRuns.FirstSwitchMisreads` | src/3journal/journal.cc:451-470 | The first switch before any changeset makes recovery read the files in the wrong order. |
| `CrashRuns.RestartExact` | src/3journal/journal.cc:966-987 | Interrupted attempts leave on any pages what some part of the replay has made of them. After every chain of such attempts recovery gives a key the records it gives without them, if and only if a changeset restores its page, its pending operations contain an erase of the key, or none of them inserts a duplicate. |
| `CrashRuns.ReplayAfterPart` | src/3journal/journal.cc:533-628 | Replaying all operations of a key after any part of them has been replayed gives the same records, if they contain an erase or insert no duplicates: inserts and overwrites of a key can be repeated. |
| `CrashRuns.ReplayGrows` | src/3journal/journal.cc:533-628 | Without an erase every replayed insert of a duplicate adds one, however often it was replayed before. |
| `CrashRuns.DuplicateInsertedTwice` | src/3journal/journal.cc:966-987 | A restart after a complete replay of a duplicate insert whose page is not restored inserts it twice. |
| `Cursor.LocalCursor.TxnStep` | src/4txn/txn_cursor.cc:186-225 | The transaction cursor moves to the next node, in either direction, that holds a committed operation or one of the reader, or stays where it is at the end. |
| `Cursor.LocalCursor.CheckBtreeKey` | src/4cursor/cursor_local.cc:211-231 | The lookup of the btree key in the transactions reports a conflict exactly if another open transaction was the last to write the key. |
| `DupLines.LinesAreRecords` | src/4cursor/cursor_local.cc:84-168 | The duplicate cache, in which every line refers to a btree duplicate or to an operation, leads to exactly the records that readers consolidate. |
| `Cursor.LocalCursor.UpdateDuplicateCache` | src/4cursor/cursor_local.cc:174-205 | An existing cache is kept; otherwise it lists the duplicates of the sides that are asked for. |
| `Cursor.LocalCursor.CoupleToDuplicate` | src/4cursor/cursor_local.cc:278-296 | The cursor shows the chosen duplicate of the same key, and neither side has moved. |
| `Cursor.LocalCursor.MoveKeySinglestep` | src/4cursor/cursor_local.cc:404-505 | One single step, in either direction, arrives at the next key that is not jumped over, with both sides at the front of that key, or fails if there is none. |
| `Cursor.LocalCursor.MoveKey` | src/4cursor/cursor_local.cc:507-740 | Single steps until a key is shown: the move ends at the next key with something to show, at its first duplicate in the direction, or with the status that ends the walk. |
| `Cursor.LocalCursor.MoveDuplicate` | src/4cursor/cursor_local.cc:361-402 | A move inside a key shows the next duplicate of the cache in the direction, and neither side moves to another key. |
| `Cursor.LocalCursor.EdgeSinglestep` | src/4cursor/cursor_local.cc:742-898 | Both sides go to the end of their trees and the nearer key is chosen; a foreign node there is a conflict exactly if its key is the nearer one or the same. |
| `Cursor.LocalCursor.MoveEdge` | src/4cursor/cursor_local.cc:800-945 | FIRST and LAST, for any two trees, show the first row of the walk from that end, and stand where the rest of the walk is still to come. |
| `Cursor.LocalCursor.BtreeFind` | src/4cursor/cursor_local.cc:298-323 | The btree cursor is coupled to the nearest key in the direction, the key itself included. |
| `Cursor.LocalCursor.TxnFind` | src/4txn/txn_cursor.cc:230-262 | The loop ends at the node that the recursive search locates: the first one in the direction that is not erased, or the last one. |
| `Cursor.LocalCursor.Prepare` | src/4cursor/cursor_local.cc:298-343 | Looking up the idle side before a move in another direction, or after a lookup, leaves the shown row alone and both sides ready at the front from which the move is expected to start. |
| `Cursor.LocalCursor.Move` | src/4cursor/cursor_local.cc:947-1030 | NEXT and PREVIOUS, with duplicates, without them or with duplicates only, for any two trees, from any position and from a nil cursor: the first of the expected rows is shown and the rest is still expected; if none is expected, the status is the expected one. |
| `Cursor.LocalCursor.MoveOn` | src/4db/db_local.cc:1356-1396 | All moves in one direction until one fails show exactly the expected rows, in order. |
| `Cursor.LocalCursor.Lookup` | src/4db/db_local.cc:297-513 | An exact lookup is a conflict if and only if another open transaction was the last to write the key, and otherwise succeeds if and only if the key is in the view; the cursor is then at its first duplicate. |
| `MergeWalk.TrailMeaning` | src/4cursor/cursor_local.cc:404-740 | For any two trees and any front: the walk shows exactly the rows of the keys that it does not jump over, up to the first key that stops it, each once and in order, and ends with a conflict exactly if a key stops it. |
| `Walks.TrailIsView` | src/4cursor/cursor_local.cc:404-740 | Without other open transactions, what lies behind the first key of a front is shown as the view, every duplicate of every key once and in order, if and only if no key behind it is hidden. |
| `Walks.WalkIsView` | src/4db/db_local.cc:1356-1396 | Without other open transactions, FIRST and NEXT, or LAST and PREVIOUS, until the end show exactly the rows of the view in order. |
| `Walks.BothWays` | src/4db/db_local.cc:1356-1396 | PREVIOUS from the end shows exactly the rows of NEXT from the beginning, in reverse. |
| `Walks.EntrySynced` | src/4cursor/cursor_local.cc:325-341 | After the transaction cursor has been looked up, both sides are ready for the direction: nothing that is visible has been passed. |
| `Walks.NodeSynced` | src/4cursor/cursor_local.cc:304-324 | The same after the btree cursor has been looked up. |
| `Walks.ExpectExact` | src/4cursor/cursor_local.cc:947-1030 | After any mix of moves and lookups, what a cursor will show in a direction is the rest of the view, if and only if no key on the way is hidden. |
| `Walks.Step` | src/4cursor/cursor_local.cc:947-1030 | NEXT or PREVIOUS after a lookup, after FIRST or LAST in their direction, or after any such moves, shows the adjacent row of the view, or fails at its end; the cursor can then go on in both directions. |
| `Walks.StepKey` | src/4cursor/cursor_local.cc:507-740 | NEXT or PREVIOUS that skips duplicates shows the first row of the view behind the key, in the direction, or fails if there is none. |
| `Walks.StepDuplicate` | src/4cursor/cursor_local.cc:361-402 | NEXT or PREVIOUS for duplicates only shows the adjacent duplicate of the key, and fails exactly if there is none. |
| `Walks.Begin` | src/4cursor/cursor_local.cc:800-945 | FIRST and LAST, and NEXT and PREVIOUS on a nil cursor, show the first row of the view in their direction, or fail exactly if the view is empty; the cursor can go on in this direction. |
| `Walks.Roam` | src/4cursor/cursor_local.cc:947-1030 | Any run of NEXT and PREVIOUS from a row of the view from which the cursor can go in both directions stays on the sequence of all rows, one step per move, and a move fails exactly if it would leave the sequence. |
| `Walks.Find` | src/4db/db_local.cc:297-513 | A lookup leads to the first duplicate of the key, from where the cursor can go in both directions. |
| `Turns.TurnExact` | src/4cursor/cursor_local.cc:947-1030 | All rows of a walk back from the first key of the view, for every undisturbed database with or without duplicates, in order: the rows of that key again exactly if the trees are apart there; with duplicates, the btree's records of all keys before it exactly if no node lies at it or behind; nothing else, and no conflict. |
| `Turns.TurnAround` | src/4cursor/cursor_local.cc:947-1030 | FIRST and then PREVIOUS, or LAST and then NEXT, for every undisturbed database: the second move wrongly succeeds if and only if the trees are apart at the first key, or duplicates are on, no node lies at it or behind, and the btree has keys before it; it then shows the first of the rows of TurnExact. |
| `Turns.RoamFromEnd` | src/4cursor/cursor_local.cc:947-1030 | Any run of NEXT and PREVIOUS from a nil cursor, or after FIRST or LAST: the cursor stays on the sequence of all rows, one step per move, except that a turn directly at the end leads to the last duplicate of the first key if the trees are apart there; a move fails exactly if it would leave the sequence, unless it is such a turn that shows a key without records. |
| `Turns.SameRowAgain` | src/4cursor/cursor_local.cc:947-1030 | Key 2 in the btree and key 1 inserted: FIRST and PREVIOUS both show key 1. |
| `Turns.ErasedRowAgain` | src/4cursor/cursor_local.cc:947-1030 | Keys 1 and 2 in the btree with duplicates on, key 1 erased: FIRST shows key 2, and PREVIOUS the erased key 1. |
| `Turns.NextDuplicateInstead` | src/4cursor/cursor_local.cc:947-1030 | Key 1 with two inserts, key 2 in the btree: FIRST shows the first duplicate of key 1, and PREVIOUS the second. |
| `Isolation.WalkMeaning` | src/4cursor/cursor_local.cc:742-945 | A walk from either end, for any two trees: if the first move is refused nothing is shown; otherwise exactly the rows of the keys that are come to, in order, with a conflict at the end exactly if a key stops the walk. |
| `Isolation.Walk` | src/4db/db_local.cc:1356-1396 | The moves of the cursor from either end show these rows and end with this status. |
| `Isolation.CoupledRow` | src/4cursor/cursor_local.cc:404-505 | A walk that starts before the node to which the transaction cursor is coupled shows the records of its key with all operations, those of other open transactions included, exactly if the nearest btree key is not foreign. |
| `Isolation.EdgeLeak` | src/4cursor/cursor_local.cc:742-898 | A walk from either end shows the outermost node, which another open transaction was the last to write, with the records that the open operations leave, exactly if the btree has a key outside of it and the nearest btree key is not foreign. |
| `Isolation.LookupLeak` | src/4cursor/cursor_local.cc:325-341 | Moves after a lookup show a foreign node in the same way and under the same condition, if it is the first node in the direction that is not erased. |
| `Isolation.TrailIsolated` | src/4cursor/cursor_local.cc:404-740 | From any front that holds all that lies behind its first key: exactly the rows of the keys behind it that no other open transaction was the last to write are shown, without a conflict, if and only if every foreign key is jumped over or has nothing to show, every other key that is jumped over has no records, and none of the others is hidden. |
| `Isolation.IsolationExact` | src/4db/db_local.cc:1356-1396 | A walk from either end shows exactly the rows of the keys that no other open transaction was the last to write, and ends without a conflict, if and only if it begins at such a key and the condition of TrailIsolated holds. |
| `Isolation.LookupIsolated` | src/4db/db_local.cc:297-513 | Moves in either direction after a lookup show exactly the rows behind it of the keys that no other open transaction was the last to write, and end without a conflict, if and only if the condition of TrailIsolated holds for the front that the lookup leads to. |
| `Isolation.WalkFrom` | src/4db/db_local.cc:297-513 | The lookup and the moves of the cursor show these rows and end with this status. |
| `Isolation.FirstNodePassedOver` | src/4cursor/cursor_local.cc:404-505 | A walk passes over the key of the first node if a btree key lies outside of it and the next btree key behind it is foreign. |
| `Isolation.DirtyRead` | src/4txn/txn_cursor.cc:69-121 | One btree key and one uncommitted insert behind it: FIRST and NEXT read the insert, and so does NEXT after a lookup. |
| `Isolation.DirtyReadBackward` | src/4txn/txn_cursor.cc:69-121 | One btree key and one uncommitted insert before it: LAST and PREVIOUS read the insert. |
| `Isolation.UntouchedPassedOver` | src/4cursor/cursor_local.cc:404-505 | Two btree keys, the second erased by another open transaction: a committed key between them is never shown. |
| `Isolation.DirectionsDiffer` | src/4cursor/cursor_local.cc:404-505 | Three btree keys, the middle one written by another open transaction: FIRST and NEXT pass over it and show the third, while LAST and PREVIOUS in the mirrored case end there with a conflict. |
| `Isolation.DirectionsDifferAgain` | src/4cursor/cursor_local.cc:404-505 | A key outside of the btree, whose outermost key is written by another open transaction: the walk forward ends with a conflict, and the mirrored walk backward goes on. |
| `Isolation.ErasedShown` | src/4cursor/cursor_local.cc:325-341 | With duplicate keys, NEXT after a lookup shows a key that was erased and committed. |
| `ApproxFind.TxnGet` | src/4txn/txn_local.cc:395-447 | The first node in the direction of the lookup. |
| `ApproxFind.BtreeFind` | src/3btree/btree_find.cc:186-226 | The first btree key in the direction of the lookup. |
| `ApproxFind.WalkNodes` | src/4db/db_local.cc:317-401 | The retry loop ends at the first node in the direction that is not erased, or at the last one if all are erased. |
| `ApproxFind.NearestUnerased` | src/4db/db_local.cc:416-436 | The loop over the btree ends at the nearest key in the direction that no transaction erased. |
| `ApproxFind.FindTxn` | src/4db/db_local.cc:297-513 | LT, LEQ, GT and GEQ report a conflict if and only if the first node in the direction that is not erased is foreign. Otherwise they return the nearest key whose newest operation is no erase, from its node exactly if it has one, if and only if the database is not misleading: not all nodes in the direction are erased with nothing before the last of them; else that last, erased key is reported as found. |
| `ApproxFind.Find` | src/4db/db_local.cc:297-513 | The same lookups compared with the view, with duplicates or without: unless there is a conflict, the answer is the nearest key with records if and only if no key of which one duplicate was erased is passed over. |
| `ApproxFind.GeqFindsErasedKey` | src/4db/db_local.cc:505-513 | GEQ 1 finds key 1 although the reader has erased it. |
| `ApproxFind.PartlyErasedPassedOver` | src/4db/db_local.cc:365-383 | Two duplicates of key 1, one of them erased, and key 2 in the btree: GEQ 1 finds key 2. |
| `ApproxFind.UntouchedConflict` | src/4db/db_local.cc:410 | Key 1 in the btree and key 5 written by another open transaction: GEQ 1 reports a conflict. |
| `ApproxFind.VisibleIsView` | src/4db/db_local.cc:134-165 | A key that no other open transaction wrote last counts as visible for these lookups exactly if it has records in the view and its newest operation is not the erase of one duplicate. |
| `DupCursors.ReadsStable` | src/4cursor/cursor_local.cc:1018-1030 | No insert with any flag, overwrite or erase by another cursor changes what a cursor reads, as long as it is not nil. |
| `DupCursors.WriterReads` | src/4db/db_local.cc:1044-1088 | The cursor that inserts or overwrites reads the new record, and its index denotes it in the consolidated list. |
| `DupCursors.MoverReads` | src/4cursor/cursor_local.cc:278-296 | A cursor that moves is on the duplicate it moves to, with the index that denotes it, and nothing else changes. |
| `DupCursors.ListAfter` | src/4db/db_local.cc:998-1088 | The list of duplicates after every command: an insert puts the new one where its flag says, next to the duplicate of the cursor; an overwrite replaces that duplicate, and an erase removes it. |
| `DupCursors.AgreesAfterInsert` | src/4db/db_local.cc:964-994 | After an insert the index of another cursor denotes the record it is coupled to, if and only if the cursor is not displaced: always for AFTER, not at the referenced position for BEFORE, only behind it for FIRST, up to it for LAST. |
| `DupCursors.AgreesAfterOverwrite` | src/4cursor/cursor_local.cc:1031-1070 | After an overwrite it does, if and only if the cursor is before the overwritten duplicate. |
| `DupCursors.AgreesAfterErase` | src/4db/db_local.cc:515-560 | After an erase a cursor whose index agreed is nil if it was on the erased record, and its index agrees otherwise. |
| `DupCursors.ReliableExact` | src/4db/db_local.cc:515-560 | Whatever is erased next clears a cursor exactly if it is on the erased record, if and only if its index agrees, or, for a record that was overwritten, lies behind the list. |
| `DupCursors.AgreeExact` | src/4db/db_local.cc:964-994 | From indices that agree, one command leads to indices that agree if and only if it displaces no other cursor. |
| `DupCursors.ErasesExact` | src/4db/db_local.cc:515-560 | All erases clear exactly the right cursors if and only if every index agrees or lies behind the list for an overwritten record. |
| `DupCursors.RunReads` | src/4cursor/cursor_local.cc:1018-1030 | Over any run of inserts with any flag, overwrites, erases and moves by other cursors, a cursor reads the same record for as long as it is not nil. |
| `DupCursors.RunExact` | src/4db/db_local.cc:964-994 | Along any such run the indices agree at every point if and only if no command displaces a cursor where it is carried out. |
| `DupCursors.RunFollows` | src/4db/db_local.cc:515-560 | Along a run that displaces nobody, a cursor that takes no part is on its record for as long as the record exists, and is nil afterwards. |
| `DupCursors.CursorList.UpdateOtherCursorsAfterInsert` | src/4db/db_local.cc:964-994 | The loop shifts exactly the other cursors on the key with a higher index. |
| `DupCursors.CursorList.UpdateOtherCursorsAfterErase` | src/4db/db_local.cc:515-560 | The loop shifts, keeps or clears each other cursor on the key. |
| `DupCursors.CursorList.InsertDuplicate` | src/4db/db_local.cc:998-1088 | The new record is where readers consolidate it, the inserting cursor shows it, and every other cursor stays on the key and reads what it read before. |
| `DupCursors.CursorList.Overwrite` | src/4cursor/cursor_local.cc:1031-1070 | The overwriting cursor shows the new record, and every other cursor stays on the key and reads what it read before. |
| `DupCursors.CursorList.Erase` | src/4db/db_local.cc:564-604 | Cursors that are not cleared read what they read before, and as long as the indices agree exactly the cursors on the erased duplicate are cleared. |
| `DupCursors.CursorList.EraseKey` | src/4db/db_local.cc:515-560 | An erase of the key clears all cursors on it and leaves no duplicate. |
| `DupCursors.ClearedByMistake` | src/4db/db_local.cc:515-560 | Two cursors on one duplicate: one inserts before it and erases its new record, and the other becomes nil although its record still exists. |
| `DupCursors.ErasesAnother` | src/4db/db_local.cc:564-604 | Two cursors on one duplicate: after one inserts before it, the other still reads its record but erases the new one. |
| `DupCursors.OutOfListByOverwrite` | src/4cursor/cursor_local.cc:1031-1070 | Overwriting the first of two duplicates moves the index of a cursor on the second one behind the list, where an erase is undefined. |
| `TableBytes.WordRoundTrip` | src/3btree/btree_records_duplicate.h:465-473 | A number that fits into its word is read back as written. |
| `TableBytes.TableLayout` | src/3btree/btree_records_duplicate.h:454-480 | Count and capacity are words of four bytes, low byte first, and slot n begins at byte 8 + 9n. |
| `TableBytes.SlotLayout` | src/3btree/btree_records_duplicate.h:289-311 | A slot is a flag, 1, 2 or 4 for a record of up to seven, of eight or of no bytes and 0 for a blob, then the record with its size in the last byte, or the id. |
| `TableBytes.InlineRoundTrip` | src/3btree/btree_records_duplicate.h:289-305 | A record of up to eight bytes is read back from its slot, whatever bytes the slot held before. |
| `TableBytes.BlobRoundTrip` | src/3btree/btree_records_duplicate.h:306-311 | A blob id is read back from its slot. |
| `TableBytes.SlotInserted` | src/3btree/btree_records_duplicate.h:255-276 | Moving the bytes behind a slot up, counting and writing the slot is a vector insert of the slot. |
| `TableBytes.SlotRemoved` | src/3btree/btree_records_duplicate.h:362-372 | Moving the bytes behind a slot down and counting is a vector removal. |
| `TableBytes.TableGrown` | src/3btree/btree_records_duplicate.h:400-407 | Growing keeps all slots and makes room for at least one more. |
| `TableBytes.TableCreated` | src/3btree/btree_records_duplicate.h:101-117 | A new table has the slots that were handed over and twice the room. |
| `DuplicateTables.InsertOwned` | src/3btree/btree_records_duplicate.h:255-313 | Storing a record in a new slot keeps every blob owned by one slot, changes the records by a vector insert and touches no other blob. |
| `DuplicateTables.BlobManager.OverwriteRegions` | src/3blob_manager/blob_manager_disk.cc:608-695 | The stored blob agrees with the data inside the regions, and outside them it holds either the data or what it held. |
| `DuplicateTables.DuplicateTable.constructor` | src/3btree/btree_records_duplicate.h:101-117 | The table takes over the inline duplicates and their blobs. |
| `DuplicateTables.DuplicateTable.Flush` | src/3btree/btree_records_duplicate.h:411-425 | Writing the table, whole or by regions that cover what changed, leaves its used part on disk and touches no other blob. |
| `DuplicateTables.DuplicateTable.InsertRecord` | src/3btree/btree_records_duplicate.h:193-317 | FIRST, BEFORE, AFTER and LAST are vector inserts at the place the flag names; count stays within capacity, no blob is leaked or shared, blobs of others are untouched, and disk and memory agree. |
| `DuplicateTables.DuplicateTable.OverwriteRecord` | src/3btree/btree_records_duplicate.h:200-228 | Overwriting is a vector update for every combination of inline and blob records, with the same guarantees. |
| `DuplicateTables.DuplicateTable.EraseRecord` | src/3btree/btree_records_duplicate.h:323-377 | Erasing is a vector removal, the table goes with its last record, and no blob is left behind. |
| `DuplicateTables.DuplicateTable.Reopen` | src/3btree/btree_records_duplicate.h:120-125 | A table that is read from disk again holds the same records. |
| `InlineDuplicates.InlineList.InsertRecord` | src/3btree/btree_records_duplicate.h:844-881 | The result is a vector insert if and only if the record goes to an end of the list or the records behind it happen to repeat; what an insert into the middle leaves instead is given. |
| `InlineDuplicates.InlineList.EraseRecord` | src/3btree/btree_records_duplicate.h:905-923 | Erasing is a vector removal. |
| `InlineDuplicates.RecordsLost` | src/3btree/btree_records_duplicate.h:864-868 | Inserting 40 before the second of 10, 20 and 30 gives 10, 40 and twice what was behind the list. |
| `Chunks.SlotInserted` | src/3btree/upfront_index.h:245-258 | An empty slot at any place keeps all chunks apart and inside the payload. |
| `Chunks.ErasedSlots` | src/3btree/upfront_index.h:262-289 | Erasing a slot removes it from the used ones and adds its chunk to the free ones; no chunk is lost, and all stay apart. |
| `Chunks.AppendedChunk` | src/3btree/upfront_index.h:326-341 | Space behind all chunks, also by resizing the last one, overlaps nothing. |
| `Chunks.ReusedChunk` | src/3btree/upfront_index.h:345-366 | Giving a free chunk to a slot and dropping its entry overlaps nothing, with or without the cached offset. |
| `Vacuum.PackStep` | src/3btree/upfront_index.h:524-540 | One step of the compaction loop keeps its invariant: the chunks moved so far hold their data without gaps, and everything behind them is as it was. |
| `Vacuum.SortKeeps` | src/3btree/upfront_index.h:519-522 | Sorting by offset orders the slots and loses none. |
| `Vacuum.TotalFits` | src/3btree/upfront_index.h:496-544 | Chunks that lie apart in an area fit into it one after the other. |
| `UpfrontIndexes.UpfrontIndex.Insert` | src/3btree/upfront_index.h:245-258 | A vector insert of an empty chunk; the freelist stays. |
| `UpfrontIndexes.UpfrontIndex.Erase` | src/3btree/upfront_index.h:262-289 | A vector removal; the free chunks are the old ones and the erased one, whose size is added to the counter for vacuumize. |
| `UpfrontIndexes.UpfrontIndex.EraseMakesRoom` | src/3btree/upfront_index.h:262-317 | After an erase, space of the size of the erased chunk can be allocated. |
| `UpfrontIndexes.UpfrontIndex.CanAllocateSpace` | src/3btree/upfront_index.h:305-317 | True exactly if there is room behind all chunks or a free chunk is large enough. |
| `UpfrontIndexes.UpfrontIndex.AllocateSpace` | src/3btree/upfront_index.h:320-371 | It succeeds exactly where can_allocate_space says so; then the slot has a chunk that overlaps no other and no other used slot changes, and otherwise nothing changes. The space is at the end, where the last chunk is resized in place, or else it is the first free chunk that is large enough, which leaves the freelist. |
| `UpfrontIndexes.UpfrontIndex.AddToFreelist` | src/3btree/upfront_index.h:293-301 | A chunk apart from all others becomes the last free one unless all slots are taken; used slots do not change. |
| `UpfrontIndexes.UpfrontIndex.Vacuumize` | src/3btree/upfront_index.h:496-544 | The data of every slot stays the same, the freelist is empty, and after a compaction exactly the size of the data is in use. |
| `UpfrontIndexes.UpfrontIndex.Split` | src/3btree/upfront_index.h:438-456 | It succeeds if and only if the moved data fits into the other index; then the slots from the pivot on are there with their data, in order, and the rest stays; otherwise this index is unchanged. |
| `UpfrontIndexes.UpfrontIndex.MergeFrom` | src/3btree/upfront_index.h:459-473 | It succeeds if and only if the other index is empty or its data fits behind what this one uses after vacuumize; then the index holds its own data followed by the other, which is empty; otherwise no data of either is lost. |
| `UpfrontIndexes.UpfrontIndex.SplitAndMerge` | src/3btree/upfront_index.h:438-473 | Splitting anywhere and merging again restores all chunks in order, and succeeds if and only if the other index has room and the merge compacts, or nothing moves, or something stays and the space behind it is large enough. |
| `UpfrontIndexes.EmptiedIndex` | src/3btree/upfront_index.h:566-573 | Any one to nine chunks that are all moved away cannot be moved back. |
| `Frames.ParseInvertsWrite` | tools/ups_import.cc:98-132 | Reading a dump gives the messages that were written if and only if none is empty; an empty one ends the import silently. |
| `Frames.FrameLayout` | tools/ups_export.cc:176-187 | A message follows its length in four bytes, low byte first. |
| `Frames.CutDump` | tools/ups_import.cc:217-229 | Of a dump that is cut off anywhere exactly the complete messages are processed, and the loss is noticed unless the cut falls between two messages. |
| `Frames.WholeIsGreatest` | tools/ups_export.cc:176-187 | The number of complete messages is the greatest number whose bytes fit before the cut. |
| `Frames.Run` | tools/ups_import.cc:98-132 | The loop over the file delivers the frames of the recursive reading. |
| `DumpCodec.DatumRoundTrip` | tools/export.proto:7-37 | Every environment, database and item message is read back as written and is never empty. |
| `DumpCodec.VarintRoundTrip` | tools/export.proto:20-32 | Every number is read back, with what follows it. |
| `DumpCodec.Format` | tools/export.proto:7-37 | A reader that knows the protocol buffer format but not the messages finds the type in field 1, the message in the field of its type, and in it the fields that the definition numbers. |
| `Dump.RowsImported` | tools/ups_import.cc:199-215 | Importing items inserts them one by one into the current database and changes nothing else. |
| `Dump.MergeMeaning` | tools/ups_import.cc:155-215 | Merging into an existing database: keys that the dump does not mention keep their records; others get the dump's records appended, or replaced if duplicates are off. |
| `Dump.MergeTwice` | tools/ups_import.cc:199-215 | Merging the same data again changes nothing where duplicates are off. |
| `Dump.FlagsAlongRun` | tools/ups_import.cc:177-182 | Along every stream of messages that is accepted, the duplicate flag is that of the last database read, and the overwrite flag is set if and only if it was set before or some database so far had no duplicates. |
| `Dump.TableImported` | tools/ups_import.cc:155-197 | One database is rebuilt or the import fails, depending on its flags and on the overwrite flag, which is never cleared. |
| `Dump.ImportExport` | tools/ups_export.cc:195-318 | Importing an export into a new file succeeds if and only if every database can be opened with its flags and none with duplicates and data follows one without; then flags, page size, databases, keys and records are those of the original. |
| `Dump.ImportIsSame` | tools/ups_export.cc:195-318 | Whatever is imported has the flags of the original but for READ_ONLY, its page size and exactly its databases, each with its flags, key size, key type, record size, keys and records. |
| `Dump.ExportedBits` | tools/ups_export.cc:95-142 | All flags but READ_ONLY are exported as they are. |
| `Dump.AdmittedFlags` | tools/ups_import.cc:177-197 | The flags with which databases can be opened and created, as numbers. |
| `Dump.RecordNumbersLost` | tools/ups_import.cc:184-192 | A database with 64-bit record numbers cannot be imported. |
| `Dump.LimitIgnored` | tools/ups_import.cc:137-153 | The number of databases an environment admits is exported and makes no difference to the import. |
| `Dump.ImportFails` | tools/ups_import.cc:177-182 | Two databases, the first without duplicates, the second with one record, are enough for the import to fail. |
| `DumpTools.BinaryExporter.ExportEnvironment` | tools/ups_export.cc:195-318 | The nested loops write the serialized messages of the whole environment. |
| `DumpTools.BinaryImporter.ReadDatabase` | tools/ups_import.cc:155-197 | On success the database is there and selected, an existing one untouched and a missing one empty, and no other database changes; success exactly if its flags can be opened, and created if it is missing; overwriting, once on, stays on. |
| `DumpTools.BinaryImporter.ReadItem` | tools/ups_import.cc:199-215 | On success the record is the last of its key, or the first one when overwriting, and no other record, key or database changes; the exact condition for success is given, and on failure nothing changes. |
| `DumpTools.BinaryImporter.Run` | tools/ups_import.cc:98-132 | A run succeeds exactly if the file is complete and every message can be read and carried out. |
| `DumpTools.CutImport` | tools/ups_import.cc:98-132 | Of a dump that is cut off anywhere, the import reads exactly the whole messages before the cut, and it succeeds in reading the file if and only if the cut is at a message boundary. |
| `DumpTools.ExportThenImport` | tools/ups_import.cc:98-215 | From environment to file to environment: success exactly for importable environments, and then the result is the same in the sense of ImportIsSame. |
| `ConfigReader.InvKept` | tools/config.c:37-198 | Every accepted token keeps the current environment the last one and the current database inside it. |
| `ConfigReader.InvRun` | tools/config.c:37-198 | The same for every run of tokens. |
| `ConfigReader.Stuck` | tools/config.c:163-193 | Once databases are read nothing is refused any more and no environment is added. |
| `ConfigReader.AllAccepted` | tools/config.c:163-193 | From the first database on every token is accepted, whatever the rest of the text. |
| `ConfigReader.NoWayBack` | tools/config.c:112-194 | From the environments on, every run of tokens is accepted, or is undefined because a key, an environment or a database is used before there is one; the reader never returns to the global section or the top, and the globals stay as they are. |
| `ConfigReader.EntriesRun` | tools/config.c:112-194 | Along every accepted run, environments and databases together are exactly the objects that began in those two sections. |
| `ConfigReader.OnlyNamed` | tools/config.c:37-198 | Only certain tokens change the table, and each only what it names; all others are passed over. |
| `ConfigRefusals.TokenExact` | tools/config.c:41-110 | Before the environments a token is accepted if and only if it is admitted after the tokens before it: at the top an object or the key of a section, in a global section an object, its end, a key, or a value that suits the last key. |
| `ConfigRefusals.RefusedExact` | tools/config.c:41-110 | A text is refused if and only if one of its tokens before the environments is not admitted, all before it are, and it is not a value before any key. |
| `ConfigRefusals.OnlyGlobals` | tools/config.c:41-57 | Every configuration with a global section only is refused. |
| `ConfigRefusals.WrongSetting` | tools/config.c:59-110 | A value under a global key that is unknown or of another type is refused. |
| `ConfigTables.ConfigTable.ParserCallback` | tools/config.c:37-198 | The indices stay those of the last environment and database; once there is a key, an environment and, in a list of databases, a database, nothing that is missing is ever used; no environment but the last changes and none is lost. |
| `ConfigTables.ConfigTable.Parse` | tools/config.c:201-242 | The loop over all tokens gives the outcome of the whole run; from the beginning a text is refused exactly as RefusedExact says, and if it is accepted every object that began in a list is an environment or a database. |
| `ConfigTables.ReadBack` | tools/config.c:201-242 | A configuration that is written and read back by the callback: the globals are those that were written and the environments those of ReadEnvs, or the result cannot be predicted because no global setting was written. |
| `ConfigRoundTrip.EnvsRead` | tools/config.c:113-193 | The environments that are read: those before the first with a list of databases as written, and that one with its own databases followed by one database, with the flags, for each later environment and by the databases of that environment. |
| `ConfigRoundTrip.ReadAsWritten` | tools/config.c:113-193 | The environments are read as written, and none is missing, if and only if only the last one lists databases. |
| `ConfigRoundTrip.ConfigRead` | tools/config.c:37-198 | The whole table that is read for any configuration that is written. |
| `ConfigRoundTrip.ConfigSurvives` | tools/config.c:37-198 | A configuration that is written and read back is unchanged if and only if some global setting is written and only the last environment lists databases. |
| `ConfigRoundTrip.SecondEnvironmentLost` | tools/config.c:163-193 | Two environments with a database each are read as one with three. |
| `GetOpts.OptionFound` | tools/getopts.cc:63-140 | For plain and distinct names, an option with "=" or ":" and an argument gives that option and argument, and without one the option with an empty argument, even if names are beginnings of one another. |
| `GetOpts.ParseExact` | tools/getopts.cc:63-140 | For any table: an argument without a dash is a parameter; behind one dash a short name is looked for, behind two a long one; the result is the first entry with this name and the argument behind "=" or ":", and it is unknown if and only if no entry before the first one without a name has it. |
| `GetOpts.OtherName` | tools/getopts.cc:63-83 | A different name never matches, with or without an argument. |
| `GetOpts.SearchLoop` | tools/getopts.cc:85-103 | The loop over the table finds the first matching entry before the first entry without a name. |
| `GetOpts.Reader.Next` | tools/getopts.cc:174-196 | One call parses the next argument, or returns 0 at the end and at an empty argument without moving on. |
| `GetOpts.Reader.All` | tools/getopts.cc:174-196 | Repeated calls yield exactly the parses of the arguments before the first empty one. |
| `Joins.WalkSorts` | samples/env1.c:192-206 | A walk over a database is ascending and holds exactly what was inserted. |
| `Joins.FilterOfWalk` | samples/env1.c:216-241 | Selecting from a walk is a walk over the selection. |
| `Joins.NestedLoop` | samples/env1.c:192-242 | The two nested loops report, for each customer in key order, the customer's orders in key order. |
| `Joins.BuildIndex` | samples/env2.c:164-199 | The index holds, for each customer, the order numbers in the order of insertion, and every number leads to an order. |
| `Joins.IndexJoin` | samples/env2.c:201-278 | The index join reports, for each customer in key order, the orders in the order of insertion. |
| `Joins.PlansAgree` | samples/env2.c:201-278 | Both plans report the same orders per customer, and in the same order if and only if the customer's orders were inserted in ascending order. |

## Left out

- Btree pages: splitting, merging and balancing of nodes, the page cache and the page manager's freelist; the btree is an ordered list or a map here.
- The position of a cursor after a move that failed, cursors of databases that change while they walk, and cursors that are coupled to an operation while it is flushed.
- Cursor.LocalCursor.Move: going backward it requires that the index of the cursor is within the duplicates that are found, as the source asserts.
- Turns.TurnAround: stated without other open transactions; with them, turns directly at an end are left out.
- Walks.Roam: requires that with duplicates no transaction has erased a key of the btree; otherwise Walks.ExpectExact says for each move whether the rest of the view follows.
- Turns.RoamFromEnd: requires the same.
- Serializability.FlushInvisible: for keys with duplicates the condition is sufficient only; Actions.FlushAgrees has the exact one for a single operation.
- Actions.FlushAgrees: the flush of an operation with a coupled cursor, which passes that cursor to the btree, is not modelled.
- TxnManager.LocalEnv.TxnCommit: the journal append and the flush that may follow are other members (JournalFiles.Log.AppendTransaction, FlushCommittedTxns).
- TxnManager.LocalEnv.TxnAbort: the flush that may follow is FlushCommittedTxns.
- ApproxFind.Find: requires that the newest operation of a key refers to a duplicate there is, as the source asserts. Lookups that combine LT and GT are not modelled.
- DupCursors.CursorList.Erase: requires that the index of the erasing cursor is within the list, as the source asserts; operations of other open transactions are not modelled there, and a cursor that is not on the key is nil.
- DuplicateTables.DuplicateTable.InsertRecord: requires that doubling the capacity stays within an int, as the source does without checking, and that the blob store has ids left.
- DuplicateTables.DuplicateTable.EraseRecord: clearing the id in a slot that is no longer used is not modelled, since nothing reads it.
- DuplicateTables.BlobManager.OverwriteRegions: the multi-page layout, checksums and compression of blobs are not modelled.
- Duplicate tables for records of fixed length, whose slots have no flags.
- UpfrontIndexes.UpfrontIndex.Split: the data of the moved slots is read before it is written; the two pages do not overlap, and there are slots enough, as insert asserts.
- change_range_size and reduce_capacity of the slot directory.
- The encoding of slots in two or four bytes, which only limits the payload.
- Journal.ReplayAgrees: a replayed insert before or after another duplicate refers to a duplicate below the first, which is undefined in the source; the model drops it and never counts it as faithful.
- CrashRuns.DurableRun: one-way; ReplayExact gives the condition on the journal in both directions.
- CrashRuns.DurableCut: an entry is either written or not; a changeset that is torn itself is not modelled.
- Journal compression, fsync, asynchronous page writes and the journal's entry format; the journal is a list of entries.
- Temporary transactions of single operations, record numbers, custom compare functions, remote environments, hola queries, compression and encryption.
- Messages of a dump that the protocol buffer library reads only in part, and dump files that are shorter than the magic number.
- The JSON tokenizer, which hands tokens to the configuration callback.
- `format_flags` and the server setup in tools/upszilla.cc, which would only add easy members.
- Printing: usage screens, error texts and the output of the samples; the joins return the rows they would print.
