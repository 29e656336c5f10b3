# H2 MVStore transaction layer in Dafny

A model of H2's MVCC transaction layer (`org.h2.mvstore.tx`), which sits on
top of a key-value store that knows nothing about transactions. The model covers three pieces:

- **The versioned value cell** (`versioned_value.dfy`). A cell is either
  `Committed(value)` or `Uncommitted(operationId, value, committedValue)`,
  the latter being `VersionedValueUncommitted`. An operation id is the
  pair (transaction id, log id). A committed cell reports the operation id 0,
  and a pending one never does.
  The Java documentation of `getInstance` (VersionedValueUncommitted.java:32-33)
  calls `value` the value before commit and `committedValue` the value after commit.
  The model reads the two fields the other way, following their names and the reads
  at TestTransactionStore.java:282-285: the writer reads `value`, every other
  transaction reads `committedValue`, and commit publishes `value`.
- **The transaction store as a sequential state machine**
  (`store_data.dfy`, `undo_log.dfy`, `transaction_store.dfy`). The state
  holds:
  - the maps of the underlying store (map id → name and cells) and the map catalog;
  - the open and prepared transactions, each with a status, a name and an
    undo log of (map, key, replaced cell) records;
  - the `maxTransactionId` bound.

  Every operation is one atomic step. An operation that can fail returns either
  the new state or an error; the queries return a value and leave the store as it is:
  `begin`, `openMap`, `removeMap`, `get`, `put`, `remove`,
  `tryPut`, `tryRemove`, `commit`, `rollback`, `prepare`,
  `setSavepoint`, `rollbackToSavepoint`, `getChanges`,
  `getOpenTransactions`, `setName`/`getName`, `getStatus` and `setMaxTransactionId`.
  Reads are read-committed:
  - a transaction reads its own pending writes;
  - every other transaction reads the value the pending write replaced.
- **The transaction-relative ordered view** (`transaction_map.dfy`). The keys
  a transaction sees are those it reads a value under. Size, key and entry
  iteration, and `first`/`last`/`higher`/`lower`/`ceiling`/`floor`
  are ordered queries over those keys.

On top of these:

- `store_invariant.dfy` states the bookkeeping invariant that ties cells to undo logs:
  - every pending cell is backed by the undo record whose log id it carries;
  - the last record a transaction logged for a key is the cell stored there;
  - records of one key chain back to the committed value;
  - the map catalog agrees with the maps.

  It proves that every operation preserves the invariant, so every store
  reachable from an empty one satisfies it.
- `visibility.dfy`, `undo_properties.dfy` and `scenarios.dfy` prove the
  read-committed, rollback, savepoint and `getChanges` guarantees. They also
  prove the store's contract as the test suite's scenarios pin it down, stated
  for every starting store.

Keys are modelled as integers. The scenarios use `Long` and `Integer` keys,
and single-digit `String` keys that sort like integers. Values are a type parameter.

## Model

| member | source | states |
|---|---|---|
| VersionedValues.GetInstance | h2/src/main/org/h2/mvstore/tx/VersionedValueUncommitted.java:19-38 | a pending cell built from a non-zero operation id is not committed and reports back the operation id, the tentative value and the committed value it was built from, each unchanged by the others |
| VersionedValues.MakeOperationId | h2/src/main/org/h2/mvstore/tx/VersionedValueUncommitted.java:58-59 | the transaction-id and log-id projections recover the two components of an operation id; the id is 0 only when both are 0 |
| VersionedValues.GetOperationId | h2/src/main/org/h2/mvstore/tx/VersionedValueUncommitted.java:45-48 | a cell reports the operation id 0 exactly when it is committed |
| VersionedValues.CommittedInstance | h2/src/main/org/h2/mvstore/tx/VersionedValueUncommitted.java:15-20 | a committed cell is committed, reports operation id 0, and its current and committed values are both its value |
| VersionedValues.ResolveCommit | h2/src/test/org/h2/test/store/TestTransactionStore.java:755-759 | resolving a pending cell at commit yields a committed cell holding the tentative value, or removes the key when the tentative value is a removal |
| StoreData.SetCell | h2/src/test/org/h2/test/store/TestTransactionStore.java:729-738 | writing a cell changes exactly that cell of a registered map and nothing else; maps and their names are kept |
| UndoLogs.LastWriteBefore | h2/src/test/org/h2/test/store/TestTransactionStore.java:289-307 | the log id of the latest record for a key below a bound: it targets the key, and no later record below the bound does |
| UndoLogs.FirstWriteIn | h2/src/test/org/h2/test/store/TestTransactionStore.java:546-558 | the log id of the earliest record for a key in a range: it targets the key, and no earlier record in the range does |
| UndoLogs.CommitReplayResolves | h2/src/test/org/h2/test/store/TestTransactionStore.java:807-818 | replaying the undo log at commit resolves exactly the committing transaction's pending cells and leaves every other cell alone |
| UndoLogs.RollbackReplayRestores | h2/src/test/org/h2/test/store/TestTransactionStore.java:820-834 | undoing the records from a savepoint on puts back, under every key written since, the cell the first of those writes replaced; other cells are untouched |
| UndoLogs.ChangesIn | h2/src/test/org/h2/test/store/TestTransactionStore.java:374-403 | when every record's map still exists, the changes of a log range are its records newest first, each with map name, key and replaced value; there are never more changes than records |
| UndoLogs.LiveRecords | h2/src/test/org/h2/test/store/TestTransactionStore.java:907-928 | the positions in a log range whose map still exists, newest first, and every such position; the scenario drops a map under a pending write, and no scenario calls getChanges afterwards |
| UndoLogs.ChangesInLive | h2/src/test/org/h2/test/store/TestTransactionStore.java:907-928 | each reported change is the live record at the same position, newest first, so records of dropped maps are skipped and nothing else is; the scenario drops a map under a pending write, and no scenario calls getChanges afterwards |
| UndoLogs.ChangesSplit | h2/src/test/org/h2/test/store/TestTransactionStore.java:388-413 | the changes of a range are those of its upper part followed by those of its lower part |
| TransactionStore.LowestFreeId | h2/src/test/org/h2/test/store/TestTransactionStore.java:317-331 | the id found is free, within bounds and the lowest free one; none is found exactly when every id in range is taken |
| TransactionStore.Begin | h2/src/test/org/h2/test/store/TestTransactionStore.java:311-350 | begin fails with TooManyOpenTransactions exactly when every id up to the maximum is open; otherwise it registers the lowest free id as an open, unnamed transaction with an empty log and changes nothing else |
| TransactionStore.SetName | h2/src/test/org/h2/test/store/TestTransactionStore.java:478-480 | a name set on an open transaction is read back and nothing else in the store changes; a closed transaction is refused |
| TransactionStore.OpenTransactions | h2/src/test/org/h2/test/store/TestTransactionStore.java:485-504 | the ids of the open and prepared transactions, ascending, and no others |
| TransactionStore.Initial | h2/src/test/org/h2/test/store/TestTransactionStore.java:355-357 | a fresh store has no transactions and no maps, and keeps the given id bound |
| TransactionStore.SetMaxTransactionId | h2/src/test/org/h2/test/store/TestTransactionStore.java:317 | the bound is set to the given value and nothing else changes |
| TransactionStore.GetStatus | h2/src/test/org/h2/test/store/TestTransactionStore.java:482 | a status is reported exactly for a registered transaction, and it is that transaction's status |
| TransactionStore.GetName | h2/src/test/org/h2/test/store/TestTransactionStore.java:478-480 | an open transaction reports its name; a closed one reports none |
| TransactionStore.HasMap | h2/src/test/org/h2/test/store/TestTransactionStore.java:921 | a name has a map exactly when opening it would change nothing |
| TransactionStore.ReadBy | h2/src/test/org/h2/test/store/TestTransactionStore.java:282-285 | the owner of a pending write reads its tentative value; every other reader reads the committed value it replaced |
| TransactionStore.Get | h2/src/test/org/h2/test/store/TestTransactionStore.java:282-285 | a missing map reads as absent; otherwise the read rule of ReadBy applies to the cell under the key |
| TransactionStore.LockedByOther | h2/src/test/org/h2/test/store/TestTransactionStore.java:281 | a key is locked for a transaction exactly when it holds a pending write of another transaction |
| TransactionStore.OpenMap | h2/src/test/org/h2/test/store/TestTransactionStore.java:359-361 | the name is bound to the returned map id; an existing name returns its map and changes nothing; a new name gets the next id and an empty map, and every other map, name and transaction is kept |
| TransactionStore.RemoveMap | h2/src/test/org/h2/test/store/TestTransactionStore.java:914-921 | after removal the store has no map of that name; exactly that map's data is dropped, every other map and name is kept, and transactions are untouched |
| TransactionStore.Put | h2/src/test/org/h2/test/store/TestTransactionStore.java:275-285 | put fails with Locked exactly when the key holds another transaction's pending write; it succeeds exactly when the transaction is open, the map exists, the key is not locked and the status is OPEN; the writer then reads its value |
| TransactionStore.Remove | h2/src/test/org/h2/test/store/TestTransactionStore.java:820-828 | a removal succeeds exactly for an OPEN transaction on an existing map whose key is not locked by another transaction, and then the key reads as absent for its writer; it fails with Locked exactly when the key holds another transaction's pending write |
| TransactionStore.TryPut | h2/src/test/org/h2/test/store/TestTransactionStore.java:765-767 | tryPut reports false, changing nothing, exactly when put would fail with Locked; otherwise it agrees with put |
| TransactionStore.TryRemove | h2/src/test/org/h2/test/store/TestTransactionStore.java:766 | tryRemove reports false, changing nothing, exactly when the key is locked by another transaction; otherwise it gives the same result as remove, and on success the key reads as absent for the writer |
| TransactionStore.Commit | h2/src/test/org/h2/test/store/TestTransactionStore.java:751-759 | commit succeeds exactly for a registered transaction, unregisters it and keeps every other transaction, every map with its name, the name catalog and the id bounds |
| TransactionStore.Rollback | h2/src/test/org/h2/test/store/TestTransactionStore.java:795-805 | rollback succeeds exactly for a registered transaction, unregisters it and keeps every other transaction, every map with its name, the name catalog and the id bounds |
| TransactionStore.Prepare | h2/src/test/org/h2/test/store/TestTransactionStore.java:505-508 | prepare turns OPEN into PREPARED and changes nothing else in the store; a prepared transaction is refused with IllegalState and a closed one with TransactionClosed |
| TransactionStore.SetSavepoint | h2/src/test/org/h2/test/store/TestTransactionStore.java:371 | a savepoint is the current length of the undo log |
| TransactionStore.RollbackToSavepoint | h2/src/test/org/h2/test/store/TestTransactionStore.java:546-558 | allowed exactly on an OPEN transaction, otherwise IllegalState for a prepared and TransactionClosed for a closed one; the log is cut back to the savepoint, the transaction stays OPEN, and every other transaction, every map with its name, the catalog and the id bounds are kept |
| TransactionStore.GetChanges | h2/src/test/org/h2/test/store/TestTransactionStore.java:363 | getChanges succeeds exactly for a registered transaction and is empty when nothing was written since the savepoint |
| StoreInvariant.OwnedIffLogged | h2/src/test/org/h2/test/store/TestTransactionStore.java:289-307 | under the invariant, a key holds a transaction's pending write exactly when that transaction logged a write to it |
| StoreInvariant.PutWF | h2/src/main/org/h2/mvstore/tx/VersionedValueUncommitted.java:16-23 | a successful write preserves the invariant, including the committed value carried by the new pending cell |
| StoreInvariant.CommitWF | h2/src/test/org/h2/test/store/TestTransactionStore.java:751-759 | commit preserves the invariant, and every cell after commit is the old cell with the committer's pending write resolved |
| StoreInvariant.UndoWF | h2/src/test/org/h2/test/store/TestTransactionStore.java:546-558 | undoing a transaction's records from a savepoint on and truncating its log there preserves the invariant |
| StoreInvariant.RollbackWF | h2/src/test/org/h2/test/store/TestTransactionStore.java:795-805 | rollback preserves the invariant |
| StoreInvariant.BeginWF | h2/src/test/org/h2/test/store/TestTransactionStore.java:311-331 | begin preserves the invariant |
| StoreInvariant.OpenMapWF | h2/src/test/org/h2/test/store/TestTransactionStore.java:359-361 | opening a map preserves the invariant, and the returned id names a registered map |
| StoreInvariant.RemoveMapWF | h2/src/test/org/h2/test/store/TestTransactionStore.java:914-919 | removing a map preserves the invariant |
| StoreInvariant.StepWF | h2/src/test/org/h2/test/store/TestTransactionStore.java:721-787 | every single call into the store preserves the invariant |
| StoreInvariant.ReachableWF | h2/src/test/org/h2/test/store/TestTransactionStore.java:721-787 | any sequence of calls from a store satisfying the invariant ends in a store satisfying it |
| Visibility.PutHiddenFromOthers | h2/src/test/org/h2/test/store/TestTransactionStore.java:294-307 | a successful write changes nothing any other transaction reads, under any key of any map |
| Visibility.PutOwnReads | h2/src/test/org/h2/test/store/TestTransactionStore.java:795-800 | the writer reads its own write, and reads every other key as before |
| Visibility.TryRemoveHiddenFromOthers | h2/src/test/org/h2/test/store/TestTransactionStore.java:765-767 | a successful tryRemove changes nothing any other transaction reads |
| Visibility.CommitPublishes | h2/src/test/org/h2/test/store/TestTransactionStore.java:751-759 | after commit every transaction reads, under each key the committer had pending, the value the committer read there; other keys read as before |
| Visibility.CommitLeavesNoPendingWrite | h2/src/test/org/h2/test/store/TestTransactionStore.java:807-818 | no pending write of a committed transaction remains |
| Visibility.RollbackLeavesNoPendingWrite | h2/src/test/org/h2/test/store/TestTransactionStore.java:801-805 | no pending write of a rolled-back transaction remains |
| Visibility.ChainToFirst | h2/src/test/org/h2/test/store/TestTransactionStore.java:289-307 | every record of a transaction for one key carries the committed value replaced by its first record for that key, however often it was rewritten |
| Visibility.RollbackHiddenFromOthers | h2/src/test/org/h2/test/store/TestTransactionStore.java:776-785 | a rollback changes nothing any other transaction reads |
| Visibility.RollbackToSavepointHiddenFromOthers | h2/src/test/org/h2/test/store/TestTransactionStore.java:546-558 | rolling back to a savepoint changes nothing any other transaction reads |
| Visibility.LockHeldByOpenTransaction | h2/src/test/org/h2/test/store/TestTransactionStore.java:765-767 | under the invariant, the transaction holding a lock is still registered |
| UndoProperties.ApplyWrites | h2/src/test/org/h2/test/store/TestTransactionStore.java:544-553 | a successful sequence of writes requires an OPEN transaction; it extends its log by one record per write and keeps the earlier records, the maps and the registered transactions |
| UndoProperties.RollbackToSavepointUndoesWrites | h2/src/test/org/h2/test/store/TestTransactionStore.java:546-558 | rolling back to a savepoint after any sequence of writes gives back exactly the store in which the savepoint was taken |
| UndoProperties.BeginWritesRollback | h2/src/test/org/h2/test/store/TestTransactionStore.java:820-834 | begin, any writes, then rollback gives back exactly the store before begin, keys inserted, overwritten or removed alike |
| UndoProperties.ChangesSinceSavepoint | h2/src/test/org/h2/test/store/TestTransactionStore.java:370-403 | the changes since a savepoint are the writes made since it, newest first, each with map name, key and the value the writer read there before writing (none for an insert) |
| UndoProperties.ChangesAroundSavepoint | h2/src/test/org/h2/test/store/TestTransactionStore.java:386-413 | all changes are those since a savepoint followed by those that remain after rolling back to it |
| TransactionMap.VisibleKeys | h2/src/test/org/h2/test/store/TestTransactionStore.java:419-466 | the keys a transaction sees are exactly those it reads a value under |
| TransactionMap.ContainsKey | h2/src/test/org/h2/test/store/TestTransactionStore.java:282-283 | a key is contained exactly when it is among the visible keys |
| TransactionMap.FirstEntry | h2/src/test/org/h2/test/store/TestTransactionStore.java:100-101 | an entry exactly when there is a first key: that key with the value the transaction reads there |
| TransactionMap.LastEntry | h2/src/test/org/h2/test/store/TestTransactionStore.java:103-104 | an entry exactly when there is a last key: that key with the value the transaction reads there |
| TransactionMap.HigherEntry | h2/src/test/org/h2/test/store/TestTransactionStore.java:94-95 | an entry exactly when there is a higher key: that key with the value the transaction reads there |
| TransactionMap.CeilingEntry | h2/src/test/org/h2/test/store/TestTransactionStore.java:113-118 | an entry exactly when there is a ceiling key: that key with the value the transaction reads there |
| TransactionMap.LowerEntry | h2/src/test/org/h2/test/store/TestTransactionStore.java:122-129 | an entry exactly when there is a lower key: that key with the value the transaction reads there |
| TransactionMap.FloorEntry | h2/src/test/org/h2/test/store/TestTransactionStore.java:131-138 | an entry exactly when there is a floor key: that key with the value the transaction reads there |
| TransactionMap.OpenMapIdempotent | h2/src/test/org/h2/test/store/TestTransactionStore.java:359-361 | opening a map a second time returns the same map and changes nothing |
| TransactionMap.RemoveMapHidesReads | h2/src/test/org/h2/test/store/TestTransactionStore.java:914-924 | after a map is removed every transaction sees it empty and every other map reads as before |
| TransactionMap.Keys | h2/src/test/org/h2/test/store/TestTransactionStore.java:431-446 | key iteration is strictly ascending and yields exactly the visible keys |
| TransactionMap.KeyIterator | h2/src/test/org/h2/test/store/TestTransactionStore.java:439-464 | iteration from a key is ascending and yields exactly the visible keys at or above it |
| TransactionMap.Entries | h2/src/test/org/h2/test/store/TestTransactionStore.java:448-455 | entry iteration follows key iteration, pairing each key with the value the transaction reads there |
| TransactionMap.Size | h2/src/test/org/h2/test/store/TestTransactionStore.java:256-258 | size is the length of the key iteration, and is 0 exactly when no key is visible |
| TransactionMap.IsEmpty | h2/src/test/org/h2/test/store/TestTransactionStore.java:922-924 | a map is empty for a transaction exactly when it sees no key |
| TransactionMap.FirstKey | h2/src/test/org/h2/test/store/TestTransactionStore.java:79-81 | the smallest visible key; none exactly on an empty view |
| TransactionMap.LastKey | h2/src/test/org/h2/test/store/TestTransactionStore.java:82-84 | the largest visible key; none exactly on an empty view |
| TransactionMap.HigherKey | h2/src/test/org/h2/test/store/TestTransactionStore.java:105-111 | the next visible key strictly above the bound, with nothing visible in between; none exactly when no visible key lies above |
| TransactionMap.CeilingKey | h2/src/test/org/h2/test/store/TestTransactionStore.java:112-118 | the next visible key at or above the bound; none exactly when no visible key is at or above it |
| TransactionMap.LowerKey | h2/src/test/org/h2/test/store/TestTransactionStore.java:121-129 | the previous visible key strictly below the bound; none exactly when no visible key lies below |
| TransactionMap.FloorKey | h2/src/test/org/h2/test/store/TestTransactionStore.java:130-138 | the previous visible key at or below the bound; none exactly when no visible key is at or below it |
| TransactionMap.EntryAt | h2/src/test/org/h2/test/store/TestTransactionStore.java:100-104 | an entry found by navigation pairs the key with the value the transaction reads there |
| TransactionMap.ViewDeterminedByReads | h2/src/test/org/h2/test/store/TestTransactionStore.java:100-138 | two readers that read the same values see the same keys, entries, size and navigation |
| TransactionMap.PutLeavesOthersView | h2/src/test/org/h2/test/store/TestTransactionStore.java:237-268 | another transaction's write leaves this transaction's keys, entries, size and navigation unchanged |
| TransactionMap.RollbackLeavesOthersView | h2/src/test/org/h2/test/store/TestTransactionStore.java:776-785 | another transaction's rollback leaves this transaction's whole view unchanged |
| TransactionMap.PutVisibleToWriter | h2/src/test/org/h2/test/store/TestTransactionStore.java:92-95 | the writer sees the key after inserting it and stops seeing it after removing it |
| Scenarios.FromInitialWF | h2/src/test/org/h2/test/store/TestTransactionStore.java:721-787 | every store reachable from an empty store satisfies the invariant |
| Scenarios.ConcurrentUpdate | h2/src/test/org/h2/test/store/TestTransactionStore.java:270-287 | with one transaction's pending write on a key: a second writer gets Locked and tryPut reports false; the writer reads its value; the second reads the old value and, once the first commits, the new one |
| Scenarios.RepeatedChange | h2/src/test/org/h2/test/store/TestTransactionStore.java:289-309 | however many writes a transaction makes, every other transaction reads what it read before |
| Scenarios.TransactionAge | h2/src/test/org/h2/test/store/TestTransactionStore.java:311-350 | with every id up to the maximum open, begin fails; after one commits, begin hands out the freed id |
| Scenarios.TwoPhaseCommit | h2/src/test/org/h2/test/store/TestTransactionStore.java:468-512 | a prepared transaction is PREPARED, accepts no writes and no second prepare, and can still commit or roll back; committing removes it |
| Scenarios.CommitAfterMapRemoval | h2/src/test/org/h2/test/store/TestTransactionStore.java:907-928 | commit after the map was dropped still ends the transaction; the map is gone and reopening it gives an empty map |
| Scenarios.ReopenAfterCommit | h2/src/test/org/h2/test/store/TestTransactionStore.java:814-818 | after a commit, any transaction not running once it is done, including one that reuses the committer's id, reopens a map by name, gets the same map without changing the store, and reads under every key what the committer read |
| Scenarios.OwnInsertNavigation | h2/src/test/org/h2/test/store/TestTransactionStore.java:85-95 | the writer sees its pending insert above a key as the next key from there, with its value, unless a visible key lies between them |

## Left out

- Real concurrency is not modelled: threads, compare-and-set races on cells, and blocking writers.
  Every operation is one atomic step.
- A `put` or `remove` on a key locked by another transaction fails with `Locked` instead of waiting.
  This is what the single-threaded scenario at TestTransactionStore.java:281 observes.
- Deadlock detection and the wait-for graph are not modelled, because they only matter for blocking writers.
  The same goes for explicit `lock` and `computeIfPresent`.
- Persistence is not modelled: `init()` recovery, reopening a store, and storing prepared transactions across restarts.
  The OPEN/PREPARED status is kept.
- Key and value data types, serialisation and `toString` formatting are left out.
- The bit layout of the packed operation id is left out: the id is modelled as a pair of transaction id and log id.
- The Java bodies of `VersionedValueCommitted`, `Transaction`, `TransactionStore` and `TransactionMap` are not followed line by line.
  Their behaviour is taken from the scenarios of TestTransactionStore.java.
- `FunctionTable.java` is left out: it is SQL virtual-table glue with no transaction logic.
- The PostgreSQL comparison test and the threaded tests are left out: they need an external database or threads.
- Transaction-id reuse follows the scenarios at TestTransactionStore.java:317-331: `begin` takes the lowest free id.
  Every id assertion in TestTransactionStore.java:317-331 agrees with this. A finished transaction's records are gone when it ends, so no record can refer to a reused id.
- TransactionStore.GetChanges: the contract states only the success condition and the empty case.
  The full content is stated by `UndoProperties.ChangesSinceSavepoint` and `UndoLogs.ChangesIn`.
- TransactionStore.GetChanges: records at or after the savepoint are reported, so the record at log id `sp` is included.
  The scenario at TestTransactionStore.java:370-385 expects this: the write made at log id `sp` is among the changes reported since `sp`.
- TransactionStore.RollbackToSavepoint: a savepoint beyond the end of the log undoes nothing. No scenario exercises this case.
- TransactionStore.RollbackToSavepoint: the contract does not state the cells.
  The effect on cells is stated by `UndoProperties.RollbackToSavepointUndoesWrites` and `Visibility.RollbackToSavepointHiddenFromOthers`.
- TransactionStore.Commit: the contract gives the transaction bookkeeping and keeps the maps and their names, but not the cells.
  The effect on cells is stated by `StoreInvariant.CommitWF` and `Visibility.CommitPublishes`.
- TransactionStore.Rollback: the contract gives the transaction bookkeeping and keeps the maps and their names, but not the cells.
  The effect on cells is stated by `UndoProperties.BeginWritesRollback` and `Visibility.RollbackHiddenFromOthers`.
