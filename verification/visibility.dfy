/**
  What other transactions see: a pending write is invisible to everyone
  but its writer until commit, commit publishes exactly the committer's
  writes, and a rollback is invisible to everyone else.
*/
module Visibility {
  import opened Wrappers
  import opened VersionedValues
  import opened StoreData
  import opened UndoLogs
  import opened TransactionStore
  import opened StoreInvariant

  /** Anyone but a cell's owner reads its committed value. */
  lemma ReadByNonOwner<V>(u: TxId, c: Option<VersionedValue<V>>)
    requires !OwnedBy(c, u)
    ensures ReadBy(u, c) == CommittedValueOf(c)
  {
  }

  /** A successful write changes nothing any other transaction reads. */
  lemma PutHiddenFromOthers<V>(s: Store<V>, t: TxId, id: MapId, k: Key, v: Option<V>, u: TxId)
    requires Put(s, t, id, k, v).Success?
    requires u != t
    ensures forall i, j :: Get(Put(s, t, id, k, v).value, u, i, j) == Get(s, u, i, j)
  {
    PutShape(s, t, id, k, v);
  }

  /**
    After commit every transaction reads, under each key the committer
    had written, the value the committer read there; every other key reads
    as before.
  */
  lemma CommitPublishes<V>(s: Store<V>, t: TxId, u: TxId)
    requires WF(s)
    requires Commit(s, t).Success?
    ensures forall i, j ::
              Get(Commit(s, t).value, u, i, j) ==
              if OwnedBy(Cell(s.data, i, j), t) then Get(s, t, i, j) else Get(s, u, i, j)
  {
    CommitWF(s, t);
  }

  /** A transaction that is not registered owns no cell. */
  lemma UnregisteredOwnsNothing<V>(s: Store<V>, t: TxId)
    requires WF(s)
    requires t !in s.open
    ensures forall id, k :: !OwnedBy(Cell(s.data, id, k), t)
  {
    forall id, k
      ensures !OwnedBy(Cell(s.data, id, k), t)
    {
      assert CellBacked(s, id, k);
    }
  }

  /** Commit leaves no pending write of the committed transaction behind. */
  lemma CommitLeavesNoPendingWrite<V>(s: Store<V>, t: TxId)
    requires WF(s)
    requires Commit(s, t).Success?
    ensures forall id, k :: !OwnedBy(Cell(Commit(s, t).value.data, id, k), t)
  {
    CommitWF(s, t);
    UnregisteredOwnsNothing(Commit(s, t).value, t);
  }

  /** Rollback leaves no pending write of the rolled-back transaction behind. */
  lemma RollbackLeavesNoPendingWrite<V>(s: Store<V>, t: TxId)
    requires WF(s)
    requires Rollback(s, t).Success?
    ensures forall id, k :: !OwnedBy(Cell(Rollback(s, t).value.data, id, k), t)
  {
    RollbackWF(s, t);
    UnregisteredOwnsNothing(Rollback(s, t).value, t);
  }

  /** Every write of `t` to one key remembers the committed value its first write replaced. */
  lemma {:induction false} ChainToFirst<V>(log: Log<V>, t: TxId, n: MapId, id: MapId, k: Key, l: nat)
    requires LogChained(log, t, n)
    requires l < |log| && Targets(log[l], id, k)
    ensures FirstWriteIn(log, id, k, 0, |log|).Some?
    ensures CommittedValueOf(log[l].prior) == CommittedValueOf(log[FirstWriteIn(log, id, k, 0, |log|).value].prior)
  {
    assert RecordChained(log, t, l);
    match LastWriteBefore(log, id, k, l)
    case None =>
      var f := FirstWriteIn(log, id, k, 0, |log|);
      assert f == Some(l);
    case Some(p) =>
      ChainToFirst(log, t, n, id, k, p);
  }

  /**
    Undoing `t`'s writes from log id `keep` onwards changes nothing any
    other transaction reads.
  */
  lemma UndoHiddenFromOthers<V>(s: Store<V>, t: TxId, keep: nat, u: TxId, id: MapId, k: Key)
    requires WF(s)
    requires t in s.open && keep <= |s.open[t].log|
    requires u != t
    ensures
      var log := s.open[t].log;
      ReadBy(u, Cell(RollbackReplay(s.data, log, keep, |log|), id, k)) == Get(s, u, id, k)
  {
    var log := s.open[t].log;
    RollbackReplayRestores(s.data, log, keep);
    assert LogChained(log, t, s.nextMapId);
    match FirstWriteIn(log, id, k, keep, |log|)
    case None =>
    case Some(f) =>
      if id in s.data {
        var c := Cell(s.data, id, k);
        OwnedIffLogged(s, t, id, k);
        assert CellBacked(s, id, k);
        var last := c.value.operationId.logId;
        ChainToFirst(log, t, s.nextMapId, id, k, last);
        ChainToFirst(log, t, s.nextMapId, id, k, f);
        assert RecordChained(log, t, f);
        ReadByNonOwner(u, c);
        ReadByNonOwner(u, log[f].prior);
      }
  }

  /** Rolling back to a savepoint changes nothing any other transaction reads. */
  lemma RollbackToSavepointHiddenFromOthers<V>(s: Store<V>, t: TxId, sp: nat, u: TxId)
    requires WF(s)
    requires RollbackToSavepoint(s, t, sp).Success?
    requires u != t
    ensures forall i, j :: Get(RollbackToSavepoint(s, t, sp).value, u, i, j) == Get(s, u, i, j)
  {
    var log := s.open[t].log;
    forall i, j
      ensures Get(RollbackToSavepoint(s, t, sp).value, u, i, j) == Get(s, u, i, j)
    {
      UndoHiddenFromOthers(s, t, if sp <= |log| then sp else |log|, u, i, j);
    }
  }

  /** A rollback changes nothing any other transaction reads. */
  lemma RollbackHiddenFromOthers<V>(s: Store<V>, t: TxId, u: TxId)
    requires WF(s)
    requires Rollback(s, t).Success?
    requires u != t
    ensures forall i, j :: Get(Rollback(s, t).value, u, i, j) == Get(s, u, i, j)
  {
    forall i, j
      ensures Get(Rollback(s, t).value, u, i, j) == Get(s, u, i, j)
    {
      UndoHiddenFromOthers(s, t, 0, u, i, j);
    }
  }

  /** Under the invariant, the writer of a pending cell is a registered transaction: a lock never outlives its holder. */
  lemma LockHeldByOpenTransaction<V>(s: Store<V>, t: TxId, id: MapId, k: Key)
    requires WF(s)
    requires LockedByOther(Cell(s.data, id, k), t)
    ensures Registered(s, Cell(s.data, id, k).value.operationId.transactionId)
  {
    assert CellBacked(s, id, k);
  }

  /** A writer reads its own write, and only the written key changes for it. */
  lemma PutOwnReads<V>(s: Store<V>, t: TxId, id: MapId, k: Key, v: Option<V>)
    requires Put(s, t, id, k, v).Success?
    ensures Get(Put(s, t, id, k, v).value, t, id, k) == v
    ensures forall i, j :: i != id || j != k ==> Get(Put(s, t, id, k, v).value, t, i, j) == Get(s, t, i, j)
  {
    PutShape(s, t, id, k, v);
  }

  /** A successful `tryRemove` changes nothing any other transaction reads. */
  lemma TryRemoveHiddenFromOthers<V>(s: Store<V>, t: TxId, id: MapId, k: Key, u: TxId)
    requires TryRemove(s, t, id, k).Success?
    requires u != t
    ensures forall i, j :: Get(TryRemove(s, t, id, k).value.0, u, i, j) == Get(s, u, i, j)
  {
    if TryRemove(s, t, id, k).value.1 {
      PutHiddenFromOthers(s, t, id, k, None, u);
    }
  }
}
