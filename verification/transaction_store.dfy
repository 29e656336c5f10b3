/**
  The transaction store: the registry of open transactions and their undo
  logs on top of the underlying store, and the transaction operations
  (begin, read, write, commit, rollback, prepare, savepoints). Every
  operation is one atomic step from a store state to the next.
*/
module TransactionStore {
  import opened Wrappers
  import opened VersionedValues
  import opened StoreData
  import opened UndoLogs
  import OrderedKeys

  /** The states of a transaction that is still registered; committed and rolled-back transactions are removed. */
  datatype Status = Open | Prepared

  /** A registered transaction: its status, its optional name and its undo log. */
  datatype Transaction<V> = Transaction(status: Status, name: Option<string>, log: Log<V>)

  datatype Error =
    | Locked                   // the key holds another open transaction's pending write
    | TooManyOpenTransactions  // every transaction id up to the maximum is taken
    | IllegalState             // the transaction's status does not allow the operation
    | TransactionClosed        // the transaction was already committed or rolled back
    | MapClosed                // the map was removed from the store

  /**
    The whole state: map names and maps of the underlying store, the next
    map id to hand out, the open (or prepared) transactions by id, and the
    largest transaction id `begin` may hand out.
  */
  datatype Store<V> = Store(
    catalog: map<string, MapId>,
    data: Data<V>,
    nextMapId: MapId,
    open: map<TxId, Transaction<V>>,
    maxTransactionId: nat)

  /** A store with no maps and no transactions. */
  function Initial<V>(maxTransactionId: nat): (r: Store<V>)
    ensures r.open == map[] && r.data == map[] && r.maxTransactionId == maxTransactionId
    ensures forall name :: !HasMap(r, name)
  {
    Store(map[], map[], 0, map[], maxTransactionId)
  }

  /** Changes the largest id `begin` may hand out; nothing else changes. */
  function SetMaxTransactionId<V>(s: Store<V>, max: nat): (r: Store<V>)
    ensures r.maxTransactionId == max
    ensures r.(maxTransactionId := s.maxTransactionId) == s
  {
    s.(maxTransactionId := max)
  }

  // ------------------------------------------------------------ transactions

  /** The lowest id from `from` to `max` that is not in use. */
  function LowestFreeId(used: set<TxId>, from: TxId, max: nat): (r: Option<TxId>)
    ensures r.Some? ==> from <= r.value <= max && r.value !in used
    ensures r.Some? ==> forall i: TxId :: from <= i < r.value ==> i in used
    ensures r.None? <==> forall i: TxId :: from <= i <= max ==> i in used
    decreases max + 1 - from
  {
    if from > max then None
    else if from !in used then Some(from)
    else LowestFreeId(used, from + 1, max)
  }

  /**
    Opens a transaction under the lowest free id; fails when every id up to
    the maximum belongs to an open transaction.
  */
  function Begin<V>(s: Store<V>): (r: Result<(Store<V>, TxId), Error>)
    ensures r.Failure? <==> forall i: TxId :: i <= s.maxTransactionId ==> i in s.open
    ensures r.Failure? ==> r.error == TooManyOpenTransactions
    ensures r.Success? ==>
      var (s', t) := r.value;
      && t <= s.maxTransactionId && t !in s.open
      && (forall i: TxId :: i < t ==> i in s.open)
      && s'.open == s.open[t := Transaction(Open, None, [])]
      && s'.data == s.data && s'.catalog == s.catalog && s'.nextMapId == s.nextMapId
      && s'.maxTransactionId == s.maxTransactionId
  {
    match LowestFreeId(s.open.Keys, 1, s.maxTransactionId)
    case None => Failure(TooManyOpenTransactions)
    case Some(t) => Success((s.(open := s.open[t := Transaction(Open, None, [])]), t))
  }

  /** The status of transaction `t`; `None` once it is committed or rolled back. */
  function GetStatus<V>(s: Store<V>, t: TxId): (r: Option<Status>)
    ensures r.Some? <==> t in s.open
    ensures r.Some? ==> r.value == s.open[t].status
  {
    if t in s.open then Some(s.open[t].status) else None
  }

  /** The name of transaction `t`; `None` when it has none or is closed. */
  function GetName<V>(s: Store<V>, t: TxId): (r: Option<string>)
    ensures t !in s.open ==> r.None?
    ensures t in s.open ==> r == s.open[t].name
  {
    if t in s.open then s.open[t].name else None
  }

  function SetName<V>(s: Store<V>, t: TxId, name: Option<string>): (r: Result<Store<V>, Error>)
    ensures r.Success? <==> t in s.open
    ensures r.Success? ==> GetName(r.value, t) == name && GetStatus(r.value, t) == GetStatus(s, t)
    ensures r.Success? ==> r.value == s.(open := s.open[t := s.open[t].(name := name)])
  {
    if t !in s.open then Failure(TransactionClosed)
    else Success(s.(open := s.open[t := s.open[t].(name := name)]))
  }

  /** The ids of all open and prepared transactions, in ascending order. */
  function OpenTransactions<V>(s: Store<V>): (r: seq<int>)
    ensures OrderedKeys.Increasing(r)
    ensures forall i :: i in r <==> i >= 1 && i in s.open
  {
    OrderedKeys.SortedKeys(set t | t in s.open :: t as int)
  }

  // -------------------------------------------------------------------- maps

  /** Opens the map called `name`, creating it (empty, under a fresh id) if the store has none. */
  function OpenMap<V>(s: Store<V>, name: string): (r: (Store<V>, MapId))
    ensures name in r.0.catalog && r.0.catalog[name] == r.1
    ensures name in s.catalog ==> r.0 == s
    ensures name !in s.catalog ==>
      && r.1 == s.nextMapId && r.0.nextMapId == s.nextMapId + 1
      && r.0.catalog.Keys == s.catalog.Keys + {name}
      && (forall n :: n in s.catalog ==> r.0.catalog[n] == s.catalog[n])
      && r.0.data.Keys == s.data.Keys + {r.1}
      && r.0.data[r.1] == MapData(name, map[])
      && (forall i :: i in s.data && i != r.1 ==> r.0.data[i] == s.data[i])
    ensures r.0.open == s.open && r.0.maxTransactionId == s.maxTransactionId
  {
    if name in s.catalog then (s, s.catalog[name])
    else
      var id := s.nextMapId;
      (s.(catalog := s.catalog[name := id], data := s.data[id := MapData(name, map[])], nextMapId := id + 1), id)
  }

  /** Whether a map called `name` exists: exactly when opening it changes nothing. */
  function HasMap<V>(s: Store<V>, name: string): (r: bool)
    ensures r <==> OpenMap(s, name).0 == s
  {
    name in s.catalog
  }

  /** Drops the map called `name` from the underlying store, whatever transactions still refer to it. */
  function RemoveMap<V>(s: Store<V>, name: string): (r: Store<V>)
    ensures !HasMap(r, name)
    ensures forall n :: n != name ==> (n in r.catalog <==> n in s.catalog)
    ensures forall n :: n != name && n in s.catalog ==> r.catalog[n] == s.catalog[n]
    ensures forall i :: i in r.data <==> i in s.data && (name !in s.catalog || i != s.catalog[name])
    ensures forall i :: i in r.data ==> r.data[i] == s.data[i]
    ensures r.open == s.open && r.nextMapId == s.nextMapId && r.maxTransactionId == s.maxTransactionId
  {
    if name !in s.catalog then s
    else s.(catalog := s.catalog - {name}, data := s.data - {s.catalog[name]})
  }

  // ------------------------------------------------------------ reads/writes

  /**
    Read-committed visibility: a committed cell shows its value; a pending
    write shows its tentative value to its own transaction and the value
    it replaced to every other transaction.
  */
  function ReadBy<V>(t: TxId, c: Option<VersionedValue<V>>): (r: Option<V>)
    ensures OwnedBy(c, t) ==> r == GetCurrentValue(c.value)
    ensures !OwnedBy(c, t) ==> r == CommittedValueOf(c)
  {
    match c
    case None => None
    case Some(Committed(v)) => v
    case Some(Uncommitted(op, v, cv)) => if op.transactionId == t then v else cv
  }

  /** The value transaction `t` reads under `k` in map `id` (`None`: absent or removed). */
  function Get<V>(s: Store<V>, t: TxId, id: MapId, k: Key): (r: Option<V>)
    ensures id !in s.data ==> r.None?
    ensures OwnedBy(Cell(s.data, id, k), t) ==> r == GetCurrentValue(Cell(s.data, id, k).value)
    ensures !OwnedBy(Cell(s.data, id, k), t) ==> r == CommittedValueOf(Cell(s.data, id, k))
  {
    ReadBy(t, Cell(s.data, id, k))
  }

  /** A cell that holds the pending write of a transaction other than `t`. */
  predicate LockedByOther<V>(c: Option<VersionedValue<V>>, t: TxId)
    ensures LockedByOther(c, t) <==> c.Some? && !IsCommitted(c.value) && TransactionIdOf(GetOperationId(c.value)) != t
  {
    c.Some? && c.value.Uncommitted? && c.value.operationId.transactionId != t
  }

  /**
    Writes `v` under `k` for transaction `t` (`None` removes the key). The
    write is logged with the cell it replaces, and the new cell remembers
    the committed value other transactions keep reading. A key holding
    another transaction's pending write is locked.
  */
  function Put<V>(s: Store<V>, t: TxId, id: MapId, k: Key, v: Option<V>): (r: Result<Store<V>, Error>)
    ensures (r.Failure? && r.error == Locked) <==>
      t in s.open && id in s.data && LockedByOther(Cell(s.data, id, k), t)
    ensures r.Success? <==>
      t in s.open && id in s.data && !LockedByOther(Cell(s.data, id, k), t) && s.open[t].status == Open
    ensures r.Success? ==> Get(r.value, t, id, k) == v
  {
    if t !in s.open then Failure(TransactionClosed)
    else if id !in s.data then Failure(MapClosed)
    else
      var current := Cell(s.data, id, k);
      if LockedByOther(current, t) then Failure(Locked)
      else if s.open[t].status != Open then Failure(IllegalState)
      else
        var tx := s.open[t];
        var cell := GetInstance(MakeOperationId(t, |tx.log|), v, CommittedValueOf(current));
        Success(s.(data := SetCell(s.data, id, k, Some(cell)),
                   open := s.open[t := tx.(log := tx.log + [UndoRecord(id, k, current)])]))
  }

  /** Removes `k` for transaction `t`: a write of a tombstone. */
  function Remove<V>(s: Store<V>, t: TxId, id: MapId, k: Key): (r: Result<Store<V>, Error>)
    ensures r.Success? ==> Get(r.value, t, id, k).None?
    ensures r.Failure? && r.error == Locked <==> t in s.open && id in s.data && LockedByOther(Cell(s.data, id, k), t)
    ensures r.Success? <==>
      t in s.open && id in s.data && !LockedByOther(Cell(s.data, id, k), t) && s.open[t].status == Open
  {
    Put(s, t, id, k, None)
  }

  /** Like `Put`, but reports a locked key as `false` instead of failing. */
  function TryPut<V>(s: Store<V>, t: TxId, id: MapId, k: Key, v: Option<V>): (r: Result<(Store<V>, bool), Error>)
    ensures (r.Success? && !r.value.1) <==> t in s.open && id in s.data && LockedByOther(Cell(s.data, id, k), t)
    ensures r.Success? && !r.value.1 ==> r.value.0 == s
    ensures r.Success? && r.value.1 ==> Put(s, t, id, k, v) == Success(r.value.0)
    ensures r.Failure? ==> Put(s, t, id, k, v) == Failure(r.error)
  {
    match Put(s, t, id, k, v)
    case Success(s') => Success((s', true))
    case Failure(Locked) => Success((s, false))
    case Failure(e) => Failure(e)
  }

  /** Like `Remove`, but reports a locked key as `false` instead of failing. */
  function TryRemove<V>(s: Store<V>, t: TxId, id: MapId, k: Key): (r: Result<(Store<V>, bool), Error>)
    ensures (r.Success? && !r.value.1) <==> t in s.open && id in s.data && LockedByOther(Cell(s.data, id, k), t)
    ensures r.Success? && !r.value.1 ==> r.value.0 == s
    ensures r.Success? && r.value.1 ==> Get(r.value.0, t, id, k).None?
    ensures r.Success? && r.value.1 ==> Remove(s, t, id, k) == Success(r.value.0)
    ensures r.Failure? ==> Remove(s, t, id, k) == Failure(r.error)
  {
    TryPut(s, t, id, k, None)
  }

  // ------------------------------------------------- commit, rollback, 2PC

  /**
    Commits `t`: resolves its pending writes by replaying its undo log in
    order (records of dropped maps are skipped) and unregisters it. An open
    or a prepared transaction may commit.
  */
  function Commit<V>(s: Store<V>, t: TxId): (r: Result<Store<V>, Error>)
    ensures r.Success? <==> t in s.open
    ensures r.Failure? ==> r.error == TransactionClosed
    ensures r.Success? ==> r.value.open == s.open - {t} && r.value.data.Keys == s.data.Keys
    ensures r.Success? ==>
      && r.value.catalog == s.catalog
      && r.value.nextMapId == s.nextMapId
      && r.value.maxTransactionId == s.maxTransactionId
      && forall id :: id in s.data ==> r.value.data[id].name == s.data[id].name
  {
    if t !in s.open then Failure(TransactionClosed)
    else Success(s.(data := CommitReplay(s.data, t, s.open[t].log, 0), open := s.open - {t}))
  }

  /**
    Rolls `t` back: undoes its whole undo log, newest record first, and
    unregisters it. An open or a prepared transaction may roll back.
  */
  function Rollback<V>(s: Store<V>, t: TxId): (r: Result<Store<V>, Error>)
    ensures r.Success? <==> t in s.open
    ensures r.Failure? ==> r.error == TransactionClosed
    ensures r.Success? ==> r.value.open == s.open - {t} && r.value.data.Keys == s.data.Keys
    ensures r.Success? ==>
      && r.value.catalog == s.catalog
      && r.value.nextMapId == s.nextMapId
      && r.value.maxTransactionId == s.maxTransactionId
      && forall id :: id in s.data ==> r.value.data[id].name == s.data[id].name
  {
    if t !in s.open then Failure(TransactionClosed)
    else
      var log := s.open[t].log;
      Success(s.(data := RollbackReplay(s.data, log, 0, |log|), open := s.open - {t}))
  }

  /** First phase of a two-phase commit: OPEN becomes PREPARED; nothing else changes. */
  function Prepare<V>(s: Store<V>, t: TxId): (r: Result<Store<V>, Error>)
    ensures r.Success? <==> GetStatus(s, t) == Some(Open)
    ensures r.Failure? ==> r.error == (if t in s.open then IllegalState else TransactionClosed)
    ensures r.Success? ==> GetStatus(r.value, t) == Some(Prepared)
    ensures r.Success? ==> r.value.data == s.data && r.value.open[t].log == s.open[t].log
    ensures r.Success? ==> r.value == s.(open := s.open[t := s.open[t].(status := Prepared)])
  {
    if t !in s.open then Failure(TransactionClosed)
    else if s.open[t].status != Open then Failure(IllegalState)
    else Success(s.(open := s.open[t := s.open[t].(status := Prepared)]))
  }

  // -------------------------------------------------------------- savepoints

  /** A savepoint is the current log id: the number of writes logged so far. */
  function SetSavepoint<V>(s: Store<V>, t: TxId): (r: Result<nat, Error>)
    ensures r.Success? <==> t in s.open
    ensures r.Success? ==> r.value == |s.open[t].log|
  {
    if t !in s.open then Failure(TransactionClosed) else Success(|s.open[t].log|)
  }

  /**
    Undoes the writes logged at or after log id `sp`, newest first, and
    drops their records; the transaction stays open. A savepoint beyond
    the end of the log undoes nothing.
  */
  function RollbackToSavepoint<V>(s: Store<V>, t: TxId, sp: nat): (r: Result<Store<V>, Error>)
    ensures r.Success? <==> GetStatus(s, t) == Some(Open)
    ensures r.Success? ==>
      var log := s.open[t].log;
      && t in r.value.open
      && r.value.open[t].log == log[..if sp <= |log| then sp else |log|]
      && r.value.open[t].status == Open
      && r.value.data.Keys == s.data.Keys
    ensures r.Failure? ==> r.error == (if t in s.open then IllegalState else TransactionClosed)
    ensures r.Success? ==>
      var log := s.open[t].log;
      && r.value.open == s.open[t := s.open[t].(log := log[..if sp <= |log| then sp else |log|])]
      && r.value.catalog == s.catalog
      && r.value.nextMapId == s.nextMapId
      && r.value.maxTransactionId == s.maxTransactionId
      && forall id :: id in s.data ==> r.value.data[id].name == s.data[id].name
  {
    if t !in s.open then Failure(TransactionClosed)
    else if s.open[t].status != Open then Failure(IllegalState)
    else
      var log := s.open[t].log;
      var keep := if sp <= |log| then sp else |log|;
      Success(s.(data := RollbackReplay(s.data, log, keep, |log|),
                 open := s.open[t := s.open[t].(log := log[..keep])]))
  }

  /**
    The changes `t` made at or after log id `sp`, most recent first, each
    with the map name, the key and the value before the change.
  */
  function GetChanges<V>(s: Store<V>, t: TxId, sp: nat): (r: Result<seq<Change<V>>, Error>)
    ensures r.Success? <==> t in s.open
    ensures r.Success? && sp >= |s.open[t].log| ==> r.value == []
  {
    if t !in s.open then Failure(TransactionClosed)
    else
      var log := s.open[t].log;
      Success(ChangesIn(s.data, log, if sp <= |log| then sp else |log|, |log|))
  }
}
