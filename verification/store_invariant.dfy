/**
  The bookkeeping invariant that ties cells to undo logs, and its
  preservation by every operation of the store.

  - every pending write is backed by the undo record whose log id it
    carries, and remembers the committed value that record replaced;
  - the last record a transaction logged for a key is the pending write
    stored under that key;
  - every record replaced either committed data (or nothing), or the same
    transaction's previous write to the same key;
  - map ids are handed out by a counter and never reused.
*/
module StoreInvariant {
  import opened Wrappers
  import opened VersionedValues
  import opened StoreData
  import opened UndoLogs
  import opened TransactionStore

  /** `n` is the id of a registered transaction. */
  predicate Registered<V>(s: Store<V>, n: nat) {
    n >= 1 && (n as TxId) in s.open
  }

  /** A pending write under (`id`, `k`) is backed by the record whose log id it carries. */
  ghost predicate CellBacked<V>(s: Store<V>, id: MapId, k: Key) {
    var c := Cell(s.data, id, k);
    c.Some? && c.value.Uncommitted? ==>
      var op := c.value.operationId;
      && Registered(s, op.transactionId)
      && var log := s.open[op.transactionId as TxId].log;
      && op.logId < |log|
      && Targets(log[op.logId], id, k)
      && c.value.committedValue == CommittedValueOf(log[op.logId].prior)
  }

  /** The last write `t` logged for (`id`, `k`) is the cell stored there. */
  ghost predicate LatestIsCell<V>(s: Store<V>, t: TxId, id: MapId, k: Key) {
    t in s.open && id in s.data ==>
      var log := s.open[t].log;
      match LastWriteBefore(log, id, k, |log|)
      case None => true
      case Some(j) =>
        var c := Cell(s.data, id, k);
        c.Some? && c.value.Uncommitted? && c.value.operationId == OperationId(t, j)
  }

  /**
    Record `l` of transaction `t` replaced committed data or nothing when it
    is the first write to its key, and `t`'s previous write to the key
    otherwise, which kept the same committed value.
  */
  ghost predicate RecordChained<V>(log: Log<V>, t: TxId, l: nat)
    requires l < |log|
  {
    var r := log[l];
    match LastWriteBefore(log, r.mapId, r.key, l)
    case None => r.prior.None? || r.prior.value.Committed?
    case Some(j) =>
      && r.prior.Some? && r.prior.value.Uncommitted?
      && r.prior.value.operationId == OperationId(t, j)
      && r.prior.value.committedValue == CommittedValueOf(log[j].prior)
  }

  ghost predicate LogChained<V>(log: Log<V>, t: TxId, nextMapId: MapId) {
    forall l :: 0 <= l < |log| ==> log[l].mapId < nextMapId && RecordChained(log, t, l)
  }

  ghost predicate WF<V>(s: Store<V>) {
    && (forall id :: id in s.data ==> id < s.nextMapId)
    && (forall id, k :: CellBacked(s, id, k))
    && (forall t :: t in s.open ==> LogChained(s.open[t].log, t, s.nextMapId))
    && (forall t, id, k :: LatestIsCell(s, t, id, k))
    && (forall name :: name in s.catalog ==> s.catalog[name] in s.data && s.data[s.catalog[name]].name == name)
  }

  // ------------------------------------------------------------ log facts

  /** With no write to the key in `lo` .. `hi - 1`, the last write before `hi` is the last before `lo`. */
  lemma {:induction false} LastWriteSkips<V>(log: Log<V>, id: MapId, k: Key, lo: nat, hi: nat)
    requires lo <= hi <= |log|
    requires forall j :: lo <= j < hi ==> !Targets(log[j], id, k)
    ensures LastWriteBefore(log, id, k, hi) == LastWriteBefore(log, id, k, lo)
    decreases hi - lo
  {
    if lo < hi {
      LastWriteSkips(log, id, k, lo, hi - 1);
    }
  }

  /** A chained log stays chained when cut back to a prefix. */
  lemma LogChainedPrefix<V>(log: Log<V>, t: TxId, n: MapId, keep: nat)
    requires LogChained(log, t, n)
    requires keep <= |log|
    ensures LogChained(log[..keep], t, n)
  {
    var log' := log[..keep];
    forall l | 0 <= l < keep
      ensures log'[l].mapId < n && RecordChained(log', t, l)
    {
      assert RecordChained(log, t, l);
      LastWriteBeforeAgrees(log, log', log[l].mapId, log[l].key, l);
    }
  }

  /** Under the invariant, a cell holds `t`'s pending write exactly when `t` logged a write to its key. */
  lemma OwnedIffLogged<V>(s: Store<V>, t: TxId, id: MapId, k: Key)
    requires WF(s)
    requires t in s.open && id in s.data
    ensures OwnedBy(Cell(s.data, id, k), t) <==> LastWriteBefore(s.open[t].log, id, k, |s.open[t].log|).Some?
  {
    assert CellBacked(s, id, k);
    assert LatestIsCell(s, t, id, k);
  }

  // ------------------------------------------------- simple transitions

  lemma InitialWF<V>(max: nat)
    ensures WF(Initial<V>(max))
  {
  }

  lemma BeginWF<V>(s: Store<V>)
    requires WF(s)
    requires Begin(s).Success?
    ensures WF(Begin(s).value.0)
  {
    var (s', t) := Begin(s).value;
    forall id, k
      ensures CellBacked(s', id, k)
    {
      assert CellBacked(s, id, k);
    }
    forall u, id, k
      ensures LatestIsCell(s', u, id, k)
    {
      assert LatestIsCell(s, u, id, k);
    }
  }

  lemma OpenMapWF<V>(s: Store<V>, name: string)
    requires WF(s)
    ensures WF(OpenMap(s, name).0)
    ensures OpenMap(s, name).1 in OpenMap(s, name).0.data
  {
    var (s', id) := OpenMap(s, name);
    if name !in s.catalog {
      assert id !in s.data;
      forall i, k
        ensures CellBacked(s', i, k)
      {
        assert CellBacked(s, i, k);
      }
      forall u | u in s'.open
        ensures LogChained(s'.open[u].log, u, s'.nextMapId)
      {
        assert LogChained(s.open[u].log, u, s.nextMapId);
      }
      forall u, i, k
        ensures LatestIsCell(s', u, i, k)
      {
        assert LatestIsCell(s, u, i, k);
        if u in s'.open && i == id {
          var log := s.open[u].log;
          assert LogChained(log, u, s.nextMapId);
          assert LastWriteBefore(log, i, k, |log|).None?;
        }
      }
    }
  }

  lemma RemoveMapWF<V>(s: Store<V>, name: string)
    requires WF(s)
    ensures WF(RemoveMap(s, name))
  {
    var s' := RemoveMap(s, name);
    forall id, k
      ensures CellBacked(s', id, k)
    {
      assert CellBacked(s, id, k);
    }
    forall u, id, k
      ensures LatestIsCell(s', u, id, k)
    {
      assert LatestIsCell(s, u, id, k);
    }
  }

  /** Changing a transaction's status or name, but not its log, keeps the invariant. */
  lemma RelabelWF<V>(s: Store<V>, t: TxId, tx: Transaction<V>)
    requires WF(s)
    requires t in s.open && tx.log == s.open[t].log
    ensures WF(s.(open := s.open[t := tx]))
  {
    var s' := s.(open := s.open[t := tx]);
    forall id, k
      ensures CellBacked(s', id, k)
    {
      assert CellBacked(s, id, k);
    }
    forall u, id, k
      ensures LatestIsCell(s', u, id, k)
    {
      assert LatestIsCell(s, u, id, k);
    }
  }

  lemma SetNameWF<V>(s: Store<V>, t: TxId, name: Option<string>)
    requires WF(s)
    requires SetName(s, t, name).Success?
    ensures WF(SetName(s, t, name).value)
  {
    RelabelWF(s, t, s.open[t].(name := name));
  }

  lemma PrepareWF<V>(s: Store<V>, t: TxId)
    requires WF(s)
    requires Prepare(s, t).Success?
    ensures WF(Prepare(s, t).value)
  {
    RelabelWF(s, t, s.open[t].(status := Prepared));
  }

  lemma SetMaxTransactionIdWF<V>(s: Store<V>, max: nat)
    requires WF(s)
    ensures WF(SetMaxTransactionId(s, max))
  {
    var s' := SetMaxTransactionId(s, max);
    forall id, k
      ensures CellBacked(s', id, k)
    {
      assert CellBacked(s, id, k);
    }
    forall u, id, k
      ensures LatestIsCell(s', u, id, k)
    {
      assert LatestIsCell(s, u, id, k);
    }
  }

  // ------------------------------------------------------------------ put

  /** The store after a successful put, spelled out. */
  lemma PutShape<V>(s: Store<V>, t: TxId, id: MapId, k: Key, v: Option<V>)
    requires Put(s, t, id, k, v).Success?
    ensures
      var log := s.open[t].log;
      var cur := Cell(s.data, id, k);
      var s' := Put(s, t, id, k, v).value;
      && s'.catalog == s.catalog && s'.nextMapId == s.nextMapId
      && s'.open.Keys == s.open.Keys
      && (forall u :: u in s.open && u != t ==> s'.open[u] == s.open[u])
      && s'.open[t].log == log + [UndoRecord(id, k, cur)]
      && s'.data.Keys == s.data.Keys
      && Cell(s'.data, id, k) == Some(Uncommitted(OperationId(t, |log|), v, CommittedValueOf(cur)))
      && (forall i, j :: i != id || j != k ==> Cell(s'.data, i, j) == Cell(s.data, i, j))
  {
  }

  lemma PutCellBacked<V>(s: Store<V>, t: TxId, id: MapId, k: Key, v: Option<V>, i: MapId, j: Key)
    requires WF(s)
    requires Put(s, t, id, k, v).Success?
    ensures CellBacked(Put(s, t, id, k, v).value, i, j)
  {
    PutShape(s, t, id, k, v);
    assert CellBacked(s, i, j);
  }

  lemma PutRecordChained<V>(s: Store<V>, t: TxId, id: MapId, k: Key, v: Option<V>, l: nat)
    requires WF(s)
    requires Put(s, t, id, k, v).Success?
    requires l < |Put(s, t, id, k, v).value.open[t].log|
    ensures RecordChained(Put(s, t, id, k, v).value.open[t].log, t, l)
  {
    PutShape(s, t, id, k, v);
    var log := s.open[t].log;
    var log' := Put(s, t, id, k, v).value.open[t].log;
    if l < |log| {
      PutOldRecordChained(log, log', t, l, s.nextMapId);
    } else {
      PutNewRecordChained(s, t, id, k, v);
    }
  }

  /** A record logged before a write stays chained once the log grows. */
  lemma PutOldRecordChained<V>(log: Log<V>, log': Log<V>, t: TxId, l: nat, n: MapId)
    requires LogChained(log, t, n)
    requires |log| <= |log'| && log'[..|log|] == log
    requires l < |log|
    ensures RecordChained(log', t, l)
  {
    assert forall j :: 0 <= j < |log| ==> log'[j] == log[j];
    assert RecordChained(log, t, l);
    LastWriteBeforeAgrees(log, log', log[l].mapId, log[l].key, l);
  }

  /** The record a write appends is chained. */
  lemma PutNewRecordChained<V>(s: Store<V>, t: TxId, id: MapId, k: Key, v: Option<V>)
    requires WF(s)
    requires Put(s, t, id, k, v).Success?
    ensures RecordChained(Put(s, t, id, k, v).value.open[t].log, t, |s.open[t].log|)
  {
    PutShape(s, t, id, k, v);
    var log := s.open[t].log;
    var n := |log|;
    var log' := Put(s, t, id, k, v).value.open[t].log;
    assert forall j :: 0 <= j < n ==> log'[j] == log[j];
    LastWriteBeforeAgrees(log, log', id, k, n);
    assert CellBacked(s, id, k);
    assert LatestIsCell(s, t, id, k);
  }

  lemma PutLatest<V>(s: Store<V>, t: TxId, id: MapId, k: Key, v: Option<V>, u: TxId, i: MapId, j: Key)
    requires WF(s)
    requires Put(s, t, id, k, v).Success?
    ensures LatestIsCell(Put(s, t, id, k, v).value, u, i, j)
  {
    PutShape(s, t, id, k, v);
    var log := s.open[t].log;
    var n := |log|;
    var log' := Put(s, t, id, k, v).value.open[t].log;
    assert forall j :: 0 <= j < n ==> log'[j] == log[j];
    assert LatestIsCell(s, u, i, j);
    if u == t && i in s.data && (i != id || j != k) {
      LastWriteBeforeAgrees(log, log', i, j, n);
      assert LastWriteBefore(log', i, j, n + 1) == LastWriteBefore(log', i, j, n);
    }
  }

  lemma PutWF<V>(s: Store<V>, t: TxId, id: MapId, k: Key, v: Option<V>)
    requires WF(s)
    requires Put(s, t, id, k, v).Success?
    ensures WF(Put(s, t, id, k, v).value)
  {
    var s' := Put(s, t, id, k, v).value;
    PutShape(s, t, id, k, v);
    forall i, j
      ensures CellBacked(s', i, j)
    {
      PutCellBacked(s, t, id, k, v, i, j);
    }
    forall u | u in s'.open
      ensures LogChained(s'.open[u].log, u, s'.nextMapId)
    {
      assert LogChained(s.open[u].log, u, s.nextMapId);
      if u == t {
        forall l | 0 <= l < |s'.open[t].log|
          ensures s'.open[t].log[l].mapId < s'.nextMapId && RecordChained(s'.open[t].log, t, l)
        {
          PutRecordChained(s, t, id, k, v, l);
        }
      }
    }
    forall u, i, j
      ensures LatestIsCell(s', u, i, j)
    {
      PutLatest(s, t, id, k, v, u, i, j);
    }
  }

  // --------------------------------------------------------------- commit

  lemma CommitWF<V>(s: Store<V>, t: TxId)
    requires WF(s)
    requires Commit(s, t).Success?
    ensures WF(Commit(s, t).value)
    ensures forall id, k :: Cell(Commit(s, t).value.data, id, k) == ResolveOwn(Cell(s.data, id, k), t)
  {
    var s' := Commit(s, t).value;
    var log := s.open[t].log;
    forall id, k | OwnedBy(Cell(s.data, id, k), t)
      ensures Cell(s.data, id, k).value.operationId.logId < |log|
      ensures Targets(log[Cell(s.data, id, k).value.operationId.logId], id, k)
    {
      assert CellBacked(s, id, k);
    }
    CommitReplayResolves(s.data, t, log);
    forall i, j
      ensures CellBacked(s', i, j)
    {
      assert CellBacked(s, i, j);
    }
    forall u, i, j
      ensures LatestIsCell(s', u, i, j)
    {
      assert LatestIsCell(s, u, i, j);
    }
  }

  // ------------------------------------------------------------- rollback

  /** The store once `t`'s records from `keep` onwards are undone and dropped from its log. */
  function Undone<V>(s: Store<V>, t: TxId, keep: nat): Store<V>
    requires t in s.open && keep <= |s.open[t].log|
  {
    var log := s.open[t].log;
    s.(data := RollbackReplay(s.data, log, keep, |log|),
       open := s.open[t := s.open[t].(log := log[..keep])])
  }

  lemma UndoneCell<V>(s: Store<V>, t: TxId, keep: nat, i: MapId, j: Key)
    requires t in s.open && keep <= |s.open[t].log|
    ensures Cell(Undone(s, t, keep).data, i, j) == RestoredCell(s.data, s.open[t].log, i, j, keep, |s.open[t].log|)
  {
    RollbackReplayRestores(s.data, s.open[t].log, keep);
  }

  lemma UndoCellBacked<V>(s: Store<V>, t: TxId, keep: nat, i: MapId, j: Key)
    requires WF(s)
    requires t in s.open && keep <= |s.open[t].log|
    ensures CellBacked(Undone(s, t, keep), i, j)
  {
    var log := s.open[t].log;
    var log' := log[..keep];
    UndoneCell(s, t, keep, i, j);
    assert CellBacked(s, i, j);
    assert LogChained(log, t, s.nextMapId);
    match FirstWriteIn(log, i, j, keep, |log|)
    case Some(f) =>
      if i in s.data {
        assert RecordChained(log, t, f);
        match LastWriteBefore(log, i, j, f)
        case None =>
        case Some(jj) =>
          assert jj < keep;
          assert log'[jj] == log[jj];
      }
    case None =>
  }

  lemma UndoLatest<V>(s: Store<V>, t: TxId, keep: nat, u: TxId, i: MapId, j: Key)
    requires WF(s)
    requires t in s.open && keep <= |s.open[t].log|
    ensures LatestIsCell(Undone(s, t, keep), u, i, j)
  {
    var log := s.open[t].log;
    var n := |log|;
    var log' := log[..keep];
    UndoneCell(s, t, keep, i, j);
    assert LatestIsCell(s, u, i, j);
    assert LatestIsCell(s, t, i, j);
    if u == t && i in s.data {
      assert LogChained(log, t, s.nextMapId);
      LastWriteBeforeAgrees(log, log', i, j, keep);
      match FirstWriteIn(log, i, j, keep, n)
      case Some(f) =>
        LastWriteSkips(log, i, j, keep, f);
        assert RecordChained(log, t, f);
      case None =>
        LastWriteSkips(log, i, j, keep, n);
    }
  }

  /** Undoing `t`'s records from `keep` onwards and cutting its log back to `keep` keeps the invariant. */
  lemma UndoWF<V>(s: Store<V>, t: TxId, keep: nat)
    requires WF(s)
    requires t in s.open && keep <= |s.open[t].log|
    ensures WF(Undone(s, t, keep))
  {
    var log := s.open[t].log;
    var s' := Undone(s, t, keep);
    assert LogChained(log, t, s.nextMapId);
    LogChainedPrefix(log, t, s.nextMapId, keep);
    forall u | u in s'.open
      ensures LogChained(s'.open[u].log, u, s'.nextMapId)
    {
      assert LogChained(s.open[u].log, u, s.nextMapId);
    }
    forall i, j
      ensures CellBacked(s', i, j)
    {
      UndoCellBacked(s, t, keep, i, j);
    }
    forall u, i, j
      ensures LatestIsCell(s', u, i, j)
    {
      UndoLatest(s, t, keep, u, i, j);
    }
  }

  lemma RollbackToSavepointWF<V>(s: Store<V>, t: TxId, sp: nat)
    requires WF(s)
    requires RollbackToSavepoint(s, t, sp).Success?
    ensures WF(RollbackToSavepoint(s, t, sp).value)
  {
    var log := s.open[t].log;
    UndoWF(s, t, if sp <= |log| then sp else |log|);
  }

  /** Unregistering a transaction with an empty log keeps the invariant: it owns no cell. */
  lemma UnregisterEmptyWF<V>(s: Store<V>, t: TxId)
    requires WF(s)
    requires t in s.open && s.open[t].log == []
    ensures WF(s.(open := s.open - {t}))
  {
    var s' := s.(open := s.open - {t});
    forall i, j
      ensures CellBacked(s', i, j)
    {
      assert CellBacked(s, i, j);
    }
    forall u, i, j
      ensures LatestIsCell(s', u, i, j)
    {
      assert LatestIsCell(s, u, i, j);
    }
  }

  lemma RollbackWF<V>(s: Store<V>, t: TxId)
    requires WF(s)
    requires Rollback(s, t).Success?
    ensures WF(Rollback(s, t).value)
  {
    var mid := Undone(s, t, 0);
    UndoWF(s, t, 0);
    UnregisterEmptyWF(mid, t);
    assert mid.(open := mid.open - {t}) == Rollback(s, t).value;
  }

  // ----------------------------------------------------- reachable states

  /** One call into the store, by any transaction. */
  datatype Step<V> =
    | BeginStep
    | OpenMapStep(name: string)
    | RemoveMapStep(name: string)
    | PutStep(t: TxId, id: MapId, k: Key, v: Option<V>)
    | CommitStep(t: TxId)
    | RollbackStep(t: TxId)
    | PrepareStep(t: TxId)
    | RollbackToSavepointStep(t: TxId, sp: nat)
    | SetNameStep(t: TxId, txName: Option<string>)
    | SetMaxTransactionIdStep(max: nat)

  /** The store after `step`; a call that fails has no effect. */
  function Apply<V>(s: Store<V>, step: Step<V>): Store<V> {
    match step
    case BeginStep => if Begin(s).Success? then Begin(s).value.0 else s
    case OpenMapStep(name) => OpenMap(s, name).0
    case RemoveMapStep(name) => RemoveMap(s, name)
    case PutStep(t, id, k, v) => if Put(s, t, id, k, v).Success? then Put(s, t, id, k, v).value else s
    case CommitStep(t) => if Commit(s, t).Success? then Commit(s, t).value else s
    case RollbackStep(t) => if Rollback(s, t).Success? then Rollback(s, t).value else s
    case PrepareStep(t) => if Prepare(s, t).Success? then Prepare(s, t).value else s
    case RollbackToSavepointStep(t, sp) =>
      if RollbackToSavepoint(s, t, sp).Success? then RollbackToSavepoint(s, t, sp).value else s
    case SetNameStep(t, name) => if SetName(s, t, name).Success? then SetName(s, t, name).value else s
    case SetMaxTransactionIdStep(max) => SetMaxTransactionId(s, max)
  }

  function ApplyAll<V>(s: Store<V>, steps: seq<Step<V>>): Store<V>
    decreases |steps|
  {
    if steps == [] then s else ApplyAll(Apply(s, steps[0]), steps[1..])
  }

  lemma StepWF<V>(s: Store<V>, step: Step<V>)
    requires WF(s)
    ensures WF(Apply(s, step))
  {
    match step
    case BeginStep => if Begin(s).Success? { BeginWF(s); }
    case OpenMapStep(name) => OpenMapWF(s, name);
    case RemoveMapStep(name) => RemoveMapWF(s, name);
    case PutStep(t, id, k, v) => if Put(s, t, id, k, v).Success? { PutWF(s, t, id, k, v); }
    case CommitStep(t) => if Commit(s, t).Success? { CommitWF(s, t); }
    case RollbackStep(t) => if Rollback(s, t).Success? { RollbackWF(s, t); }
    case PrepareStep(t) => if Prepare(s, t).Success? { PrepareWF(s, t); }
    case RollbackToSavepointStep(t, sp) =>
      if RollbackToSavepoint(s, t, sp).Success? { RollbackToSavepointWF(s, t, sp); }
    case SetNameStep(t, name) => if SetName(s, t, name).Success? { SetNameWF(s, t, name); }
    case SetMaxTransactionIdStep(max) => SetMaxTransactionIdWF(s, max);
  }

  /** Every store reachable from an empty one by any sequence of calls satisfies the invariant. */
  lemma {:induction false} ReachableWF<V>(s: Store<V>, steps: seq<Step<V>>)
    requires WF(s)
    ensures WF(ApplyAll(s, steps))
    decreases |steps|
  {
    if steps != [] {
      StepWF(s, steps[0]);
      ReachableWF(Apply(s, steps[0]), steps[1..]);
    }
  }
}
