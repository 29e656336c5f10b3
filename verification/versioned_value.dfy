/**
  The immutable value cell stored for every key of a transactional map.
  A cell is either committed data or a write in flight; readers tell the
  two apart by the variant tag alone.
*/
module VersionedValues {
  import opened Wrappers

  /**
    The identity of one write: the transaction that made it and the log id
    of the write's undo record in that transaction's undo log. The store
    packs the two into one integer; only the pair matters here.
  */
  datatype OperationId = OperationId(transactionId: nat, logId: nat)

  /** The operation id a committed cell reports: no pending writer. */
  const NoOperation: OperationId := OperationId(0, 0)

  /** The operation ids an uncommitted cell may carry. */
  type PendingOperationId = op: OperationId | op != NoOperation witness OperationId(1, 0)

  /** Combines a transaction id and a log id into one operation id. */
  function MakeOperationId(transactionId: nat, logId: nat): (op: OperationId)
    ensures TransactionIdOf(op) == transactionId && LogIdOf(op) == logId
    ensures op == NoOperation <==> transactionId == 0 && logId == 0
  {
    OperationId(transactionId, logId)
  }

  /** The transaction part of an operation id. */
  function TransactionIdOf(op: OperationId): nat {
    op.transactionId
  }

  /** The log id part of an operation id. */
  function LogIdOf(op: OperationId): nat {
    op.logId
  }

  /**
    A stored cell. `Committed` holds the value every transaction reads.
    `Uncommitted` holds the writer's operation id, the writer's tentative
    value and the committed value that the other transactions still read.
    A `None` value is a tombstone (a pending remove).
    The Java documentation of `getInstance` calls `value` the value before
    commit and `committedValue` the value after commit; the model follows
    the field names and the observed reads instead: the writer reads
    `value`, every other transaction reads `committedValue`, and commit
    publishes `value`.
  */
  datatype VersionedValue<V> =
    | Committed(value: Option<V>)
    | Uncommitted(operationId: PendingOperationId, value: Option<V>, committedValue: Option<V>)

  /** Builds the cell of a committed value. */
  function CommittedInstance<V>(value: Option<V>): (r: VersionedValue<V>)
    ensures IsCommitted(r)
    ensures GetOperationId(r) == NoOperation
    ensures GetCurrentValue(r) == value && GetCommittedValue(r) == value
  {
    Committed(value)
  }

  /**
    Builds the cell of a write in flight. The tentative value and the
    committed fallback are kept side by side; neither replaces the other.
  */
  function GetInstance<V>(operationId: PendingOperationId, value: Option<V>, committedValue: Option<V>): (r: VersionedValue<V>)
    ensures !IsCommitted(r)
    ensures GetOperationId(r) == operationId
    ensures GetCurrentValue(r) == value
    ensures GetCommittedValue(r) == committedValue
  {
    Uncommitted(operationId, value, committedValue)
  }

  predicate IsCommitted<V>(c: VersionedValue<V>) {
    c.Committed?
  }

  /** The writer of a cell; `NoOperation` exactly when the cell is committed. */
  function GetOperationId<V>(c: VersionedValue<V>): (op: OperationId)
    ensures op == NoOperation <==> IsCommitted(c)
  {
    match c
    case Committed(_) => NoOperation
    case Uncommitted(op, _, _) => op
  }

  /** The newest value of a cell, committed or not. */
  function GetCurrentValue<V>(c: VersionedValue<V>): Option<V> {
    c.value
  }

  /** The value of a cell as far as transactions other than its writer know. */
  function GetCommittedValue<V>(c: VersionedValue<V>): Option<V> {
    match c
    case Committed(v) => v
    case Uncommitted(_, _, cv) => cv
  }

  /** The committed value under a key that may hold no cell at all. */
  function CommittedValueOf<V>(c: Option<VersionedValue<V>>): Option<V> {
    match c
    case None => None
    case Some(cell) => GetCommittedValue(cell)
  }

  /**
    Resolves a cell when its writer commits: the tentative value becomes
    committed data, and a tentative tombstone removes the key.
  */
  function ResolveCommit<V>(c: VersionedValue<V>): (r: Option<VersionedValue<V>>)
    ensures r.None? <==> GetCurrentValue(c).None?
    ensures r.Some? ==> IsCommitted(r.value) && GetCurrentValue(r.value) == GetCurrentValue(c)
  {
    if c.value.None? then None else Some(CommittedInstance(c.value))
  }
}
