/**
  What the undo log guarantees: rolling back to a savepoint restores the
  store exactly as it was when the savepoint was taken, rolling back a
  whole transaction restores the store it began on, and the changes
  reported since a savepoint are the writes made since then, newest first,
  each with the value it overwrote.
*/
module UndoProperties {
  import opened Wrappers
  import opened VersionedValues
  import opened StoreData
  import opened UndoLogs
  import opened TransactionStore

  /** One write of a transaction: a value, or `None` for a removal. */
  datatype Write<V> = Write(mapId: MapId, key: Key, value: Option<V>)

  /** Transaction `t` performs the writes `ws` in order, stopping at the first failure. */
  function ApplyWrites<V>(s: Store<V>, t: TxId, ws: seq<Write<V>>): (r: Result<Store<V>, Error>)
    ensures r.Success? && ws != [] ==> t in s.open && s.open[t].status == Open
    ensures r.Success? && t in s.open ==>
      && t in r.value.open
      && |r.value.open[t].log| == |s.open[t].log| + |ws|
      && r.value.open[t].log[..|s.open[t].log|] == s.open[t].log
    ensures r.Success? ==> r.value.data.Keys == s.data.Keys && r.value.open.Keys == s.open.Keys
    decreases |ws|
  {
    if ws == [] then Success(s)
    else
      match Put(s, t, ws[0].mapId, ws[0].key, ws[0].value)
      case Failure(e) => Failure(e)
      case Success(s1) =>
        var r := ApplyWrites(s1, t, ws[1..]);
        if r.Success? then
          assert s1.open[t].log == s.open[t].log + [UndoRecord(ws[0].mapId, ws[0].key, Cell(s.data, ws[0].mapId, ws[0].key))];
          assert r.value.open[t].log[..|s.open[t].log|] == r.value.open[t].log[..|s1.open[t].log|][..|s.open[t].log|];
          r
        else r
  }

  // ---------------------------------------------------------- restoring

  /**
    `s` is `s0` plus writes of `t` logged after log id `|s0.open[t].log|`:
    undoing those records gives back every cell of `s0`, and nothing but
    `t`'s log and the cells differ.
  */
  ghost predicate Restorable<V>(s0: Store<V>, s: Store<V>, t: TxId) {
    && t in s0.open && t in s.open
    && var log0 := s0.open[t].log;
    && var log := s.open[t].log;
    && |log0| <= |log| && log[..|log0|] == log0
    && s.open == s0.open[t := s0.open[t].(log := log)]
    && s.catalog == s0.catalog && s.nextMapId == s0.nextMapId && s.maxTransactionId == s0.maxTransactionId
    && s.data.Keys == s0.data.Keys
    && (forall id :: id in s.data ==> s.data[id].name == s0.data[id].name)
    && (forall id, k :: RestoredCell(s.data, log, id, k, |log0|, |log|) == Cell(s0.data, id, k))
  }

  lemma RestorableReflexive<V>(s: Store<V>, t: TxId)
    requires t in s.open
    ensures Restorable(s, s, t)
  {
    var log := s.open[t].log;
    assert s.open == s.open[t := s.open[t].(log := log)];
  }

  /** The first write since `lo` in a log extended by one record. */
  lemma {:induction false} FirstWriteExtend<V>(log: Log<V>, r: UndoRecord<V>, id: MapId, k: Key, lo: nat)
    requires lo <= |log|
    ensures FirstWriteIn(log + [r], id, k, lo, |log| + 1) ==
      if FirstWriteIn(log, id, k, lo, |log|).Some? then FirstWriteIn(log, id, k, lo, |log|)
      else if Targets(r, id, k) then Some(|log|)
      else None
    decreases |log| - lo
  {
    var log' := log + [r];
    if lo == |log| {
      assert log'[lo] == r;
    } else {
      assert log'[lo] == log[lo];
      FirstWriteExtend(log, r, id, k, lo + 1);
    }
  }

  lemma RestorableStep<V>(s0: Store<V>, s: Store<V>, t: TxId, w: Write<V>)
    requires Restorable(s0, s, t)
    requires Put(s, t, w.mapId, w.key, w.value).Success?
    ensures Restorable(s0, Put(s, t, w.mapId, w.key, w.value).value, t)
  {
    var s' := Put(s, t, w.mapId, w.key, w.value).value;
    var n0 := |s0.open[t].log|;
    var log := s.open[t].log;
    var r := UndoRecord(w.mapId, w.key, Cell(s.data, w.mapId, w.key));
    var log' := log + [r];
    assert s'.open[t].log == log';
    assert log'[..n0] == log[..n0];
    forall id, k
      ensures RestoredCell(s'.data, log', id, k, n0, |log'|) == Cell(s0.data, id, k)
    {
      FirstWriteExtend(log, r, id, k, n0);
      assert RestoredCell(s.data, log, id, k, n0, |log|) == Cell(s0.data, id, k);
      match FirstWriteIn(log, id, k, n0, |log|)
      case Some(f) =>
        assert log'[f] == log[f];
      case None =>
    }
  }

  lemma {:induction false} RestorableApply<V>(s0: Store<V>, s: Store<V>, t: TxId, ws: seq<Write<V>>)
    requires Restorable(s0, s, t)
    requires ApplyWrites(s, t, ws).Success?
    ensures Restorable(s0, ApplyWrites(s, t, ws).value, t)
    decreases |ws|
  {
    if ws != [] {
      RestorableStep(s0, s, t, ws[0]);
      RestorableApply(s0, Put(s, t, ws[0].mapId, ws[0].key, ws[0].value).value, t, ws[1..]);
    }
  }

  /** Undoing everything logged since `s0` gives back the data of `s0`. */
  lemma RestorableData<V>(s0: Store<V>, s: Store<V>, t: TxId)
    requires Restorable(s0, s, t)
    ensures
      var log := s.open[t].log;
      RollbackReplay(s.data, log, |s0.open[t].log|, |log|) == s0.data
  {
    var log := s.open[t].log;
    var d := RollbackReplay(s.data, log, |s0.open[t].log|, |log|);
    RollbackReplayRestores(s.data, log, |s0.open[t].log|);
    DataEquality(d, s0.data);
  }

  /**
    Rolling back to a savepoint taken before writes `ws` gives back exactly
    the store the savepoint was taken in.
  */
  lemma RollbackToSavepointUndoesWrites<V>(s: Store<V>, t: TxId, ws: seq<Write<V>>)
    requires GetStatus(s, t) == Some(Open)
    requires ApplyWrites(s, t, ws).Success?
    ensures
      var sp := SetSavepoint(s, t).value;
      RollbackToSavepoint(ApplyWrites(s, t, ws).value, t, sp) == Success(s)
  {
    var s' := ApplyWrites(s, t, ws).value;
    RestorableReflexive(s, t);
    RestorableApply(s, s, t, ws);
    RestorableData(s, s', t);
    var log := s.open[t].log;
    assert s'.open[t := s'.open[t].(log := log)] == s.open;
  }

  /** Beginning a transaction, writing and rolling back gives back the original store. */
  lemma BeginWritesRollback<V>(s: Store<V>, ws: seq<Write<V>>)
    requires Begin(s).Success?
    requires ApplyWrites(Begin(s).value.0, Begin(s).value.1, ws).Success?
    ensures
      var (s1, t) := Begin(s).value;
      Rollback(ApplyWrites(s1, t, ws).value, t) == Success(s)
  {
    var (s1, t) := Begin(s).value;
    var s2 := ApplyWrites(s1, t, ws).value;
    RestorableReflexive(s1, t);
    RestorableApply(s1, s1, t, ws);
    RestorableData(s1, s2, t);
    assert s2.open - {t} == s.open;
  }

  // ------------------------------------------------------------ changes

  /**
    The changes transaction `t` is expected to report for writes `ws`,
    newest first: map name, key, and the value `t` read there just before
    writing.
  */
  function ExpectedChanges<V>(s: Store<V>, t: TxId, ws: seq<Write<V>>): seq<Change<V>>
    decreases |ws|
  {
    if ws == [] then []
    else
      var w := ws[0];
      match Put(s, t, w.mapId, w.key, w.value)
      case Failure(_) => []
      case Success(s1) => ExpectedChanges(s1, t, ws[1..]) + [Change(s.data[w.mapId].name, w.key, Get(s, t, w.mapId, w.key))]
  }

  /**
    The changes reported since a savepoint are the writes made since it,
    newest first, each with the value the writer read before overwriting it.
  */
  lemma {:induction false} ChangesSinceSavepoint<V>(s: Store<V>, t: TxId, ws: seq<Write<V>>)
    requires t in s.open
    requires ApplyWrites(s, t, ws).Success?
    ensures GetChanges(ApplyWrites(s, t, ws).value, t, SetSavepoint(s, t).value) == Success(ExpectedChanges(s, t, ws))
    decreases |ws|
  {
    if ws != [] {
      var w := ws[0];
      var s1 := Put(s, t, w.mapId, w.key, w.value).value;
      var s2 := ApplyWrites(s1, t, ws[1..]).value;
      ChangesSinceSavepoint(s1, t, ws[1..]);
      var n := |s.open[t].log|;
      var log2 := s2.open[t].log;
      assert s1.open[t].log == s.open[t].log + [UndoRecord(w.mapId, w.key, Cell(s.data, w.mapId, w.key))];
      assert log2[n] == log2[..n + 1][n] == s1.open[t].log[n];
      ChangesSplit(s2.data, log2, n, n + 1, |log2|);
      PutKeepsNames(s, t, w);
      ApplyWritesKeepsNames(s1, t, ws[1..]);
      var prior := Cell(s.data, w.mapId, w.key);
      assert !LockedByOther(prior, t);
      assert (if prior.None? then None else GetCurrentValue(prior.value)) == Get(s, t, w.mapId, w.key);
      assert ChangesIn(s2.data, log2, n, n + 1) == [Change(s.data[w.mapId].name, w.key, Get(s, t, w.mapId, w.key))];
    }
  }

  lemma PutKeepsNames<V>(s: Store<V>, t: TxId, w: Write<V>)
    requires Put(s, t, w.mapId, w.key, w.value).Success?
    ensures forall id :: id in s.data ==> Put(s, t, w.mapId, w.key, w.value).value.data[id].name == s.data[id].name
  {
  }

  lemma {:induction false} ApplyWritesKeepsNames<V>(s: Store<V>, t: TxId, ws: seq<Write<V>>)
    requires ApplyWrites(s, t, ws).Success?
    ensures forall id :: id in s.data ==> ApplyWrites(s, t, ws).value.data[id].name == s.data[id].name
    decreases |ws|
  {
    if ws != [] {
      var s1 := Put(s, t, ws[0].mapId, ws[0].key, ws[0].value).value;
      PutKeepsNames(s, t, ws[0]);
      ApplyWritesKeepsNames(s1, t, ws[1..]);
    }
  }

  /**
    All changes are those since a savepoint followed by those that remain
    after rolling back to it.
  */
  lemma ChangesAroundSavepoint<V>(s: Store<V>, t: TxId, sp: nat)
    requires GetStatus(s, t) == Some(Open)
    requires sp <= |s.open[t].log|
    ensures GetChanges(s, t, 0).value ==
              GetChanges(s, t, sp).value + GetChanges(RollbackToSavepoint(s, t, sp).value, t, 0).value
  {
    var log := s.open[t].log;
    var s' := RollbackToSavepoint(s, t, sp).value;
    ChangesSplit(s.data, log, 0, sp, |log|);
    ChangesAgree(s.data, s'.data, log, s'.open[t].log, 0, sp);
  }
}
