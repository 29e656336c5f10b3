/**
  Per-transaction undo logs. Every write of a transaction appends one
  record naming the map and key it touched and the cell it replaced. The
  position of a record in the log is its log id. Commit walks the log
  forwards and resolves the transaction's own cells; rollback walks it
  backwards and puts the replaced cells back.
*/
module UndoLogs {
  import opened Wrappers
  import opened VersionedValues
  import opened StoreData

  /** One write: the map and key it touched, and the cell it replaced (`None` for an insert). */
  datatype UndoRecord<V> = UndoRecord(mapId: MapId, key: Key, prior: Option<VersionedValue<V>>)

  type Log<V> = seq<UndoRecord<V>>

  predicate Targets<V>(r: UndoRecord<V>, id: MapId, k: Key) {
    r.mapId == id && r.key == k
  }

  /** The log id of the last write to (`id`, `k`) among the first `hi` records. */
  function LastWriteBefore<V>(log: Log<V>, id: MapId, k: Key, hi: nat): (r: Option<nat>)
    requires hi <= |log|
    ensures r.Some? ==> r.value < hi && Targets(log[r.value], id, k)
    ensures r.Some? ==> forall j :: r.value < j < hi ==> !Targets(log[j], id, k)
    ensures r.None? ==> forall j :: 0 <= j < hi ==> !Targets(log[j], id, k)
  {
    if hi == 0 then None
    else if Targets(log[hi - 1], id, k) then Some(hi - 1)
    else LastWriteBefore(log, id, k, hi - 1)
  }

  /** The log id of the first write to (`id`, `k`) among the records `lo` .. `hi - 1`. */
  function FirstWriteIn<V>(log: Log<V>, id: MapId, k: Key, lo: nat, hi: nat): (r: Option<nat>)
    requires lo <= hi <= |log|
    ensures r.Some? ==> lo <= r.value < hi && Targets(log[r.value], id, k)
    ensures r.Some? ==> forall j :: lo <= j < r.value ==> !Targets(log[j], id, k)
    ensures r.None? ==> forall j :: lo <= j < hi ==> !Targets(log[j], id, k)
    decreases hi - lo
  {
    if lo == hi then None
    else if Targets(log[lo], id, k) then Some(lo)
    else FirstWriteIn(log, id, k, lo + 1, hi)
  }

  /** The last write before `hi` depends only on the records before `hi`. */
  lemma LastWriteBeforeAgrees<V>(log1: Log<V>, log2: Log<V>, id: MapId, k: Key, hi: nat)
    requires hi <= |log1| && hi <= |log2|
    requires forall j :: 0 <= j < hi ==> log1[j] == log2[j]
    ensures LastWriteBefore(log1, id, k, hi) == LastWriteBefore(log2, id, k, hi)
  {
    var r1, r2 := LastWriteBefore(log1, id, k, hi), LastWriteBefore(log2, id, k, hi);
    if r1.Some? {
      assert log2[r1.value] == log1[r1.value];
    }
    if r2.Some? {
      assert log1[r2.value] == log2[r2.value];
    }
  }

  /** A cell that holds a pending write of transaction `t`. */
  predicate OwnedBy<V>(c: Option<VersionedValue<V>>, t: nat) {
    c.Some? && c.value.Uncommitted? && c.value.operationId.transactionId == t
  }

  // ---------------------------------------------------------------- commit

  /**
    Resolves one undo record at commit. The key is resolved only if it
    still holds the write of this very record; a later write of the same
    transaction, or a dropped map, leaves nothing to do.
  */
  function CommitRecord<V>(d: Data<V>, t: TxId, logId: nat, r: UndoRecord<V>): Data<V> {
    var c := Cell(d, r.mapId, r.key);
    if c.Some? && GetOperationId(c.value) == OperationId(t, logId) then
      SetCell(d, r.mapId, r.key, ResolveCommit(c.value))
    else d
  }

  /** Resolves the records from log id `i` onwards, in log order. */
  function CommitReplay<V>(d: Data<V>, t: TxId, log: Log<V>, i: nat): (d': Data<V>)
    requires i <= |log|
    ensures d'.Keys == d.Keys
    ensures forall id :: id in d ==> d'[id].name == d[id].name
    decreases |log| - i
  {
    if i == |log| then d
    else CommitReplay(CommitRecord(d, t, i, log[i]), t, log, i + 1)
  }

  /** Every pending write of `t` in `d` was logged by `t` for the same map and key. */
  ghost predicate OwnWritesLogged<V>(d: Data<V>, t: TxId, log: Log<V>) {
    forall id, k :: OwnedBy(Cell(d, id, k), t) ==>
      Cell(d, id, k).value.operationId.logId < |log| &&
      Targets(log[Cell(d, id, k).value.operationId.logId], id, k)
  }

  /** A cell after commit: the committing transaction's pending write becomes committed data. */
  function ResolveOwn<V>(c: Option<VersionedValue<V>>, t: TxId): Option<VersionedValue<V>> {
    if OwnedBy(c, t) then ResolveCommit(c.value) else c
  }

  /** A cell once the records before log id `i` have been resolved. */
  function ResolvedBelow<V>(c: Option<VersionedValue<V>>, t: TxId, i: nat): Option<VersionedValue<V>> {
    if OwnedBy(c, t) && c.value.operationId.logId < i then ResolveCommit(c.value) else c
  }

  lemma {:induction false} CommitReplayFrom<V>(d0: Data<V>, d: Data<V>, t: TxId, log: Log<V>, i: nat)
    requires i <= |log|
    requires OwnWritesLogged(d0, t, log)
    requires forall id, k :: Cell(d, id, k) == ResolvedBelow(Cell(d0, id, k), t, i)
    ensures forall id, k :: Cell(CommitReplay(d, t, log, i), id, k) == ResolvedBelow(Cell(d0, id, k), t, |log|)
    decreases |log| - i
  {
    if i < |log| {
      var r := log[i];
      var d' := CommitRecord(d, t, i, r);
      forall id, k
        ensures Cell(d', id, k) == ResolvedBelow(Cell(d0, id, k), t, i + 1)
      {
        var c0 := Cell(d0, id, k);
        if id == r.mapId && k == r.key {
          if OwnedBy(c0, t) && c0.value.operationId.logId < i {
            var c := ResolveCommit(c0.value);
            assert Cell(d, id, k) == c;
            assert c.None? || GetOperationId(c.value) == NoOperation;
          }
        } else if OwnedBy(c0, t) && c0.value.operationId.logId == i {
          assert false;
        }
      }
      CommitReplayFrom(d0, d', t, log, i + 1);
    }
  }

  /**
    Committing replays the whole log, and the effect is exactly this: every
    pending write of the committing transaction is resolved, and every other
    cell is left alone.
  */
  lemma CommitReplayResolves<V>(d: Data<V>, t: TxId, log: Log<V>)
    requires OwnWritesLogged(d, t, log)
    ensures forall id, k :: Cell(CommitReplay(d, t, log, 0), id, k) == ResolveOwn(Cell(d, id, k), t)
  {
    CommitReplayFrom(d, d, t, log, 0);
    forall id, k
      ensures ResolvedBelow(Cell(d, id, k), t, |log|) == ResolveOwn(Cell(d, id, k), t)
    {
    }
  }

  // -------------------------------------------------------------- rollback

  /**
    Undoes the records from log id `i - 1` down to log id `sp`, newest
    first, putting back the cell each record replaced.
  */
  function RollbackReplay<V>(d: Data<V>, log: Log<V>, sp: nat, i: nat): (d': Data<V>)
    requires sp <= i <= |log|
    ensures d'.Keys == d.Keys
    ensures forall id :: id in d ==> d'[id].name == d[id].name
    decreases i
  {
    if i == sp then d
    else
      var r := log[i - 1];
      RollbackReplay(SetCell(d, r.mapId, r.key, r.prior), log, sp, i - 1)
  }

  /**
    The cell under (`id`, `k`) once the records `lo` .. `hi - 1` are undone:
    the cell replaced by the first of them that touched the key, or the
    current cell if none did.
  */
  function RestoredCell<V>(d: Data<V>, log: Log<V>, id: MapId, k: Key, lo: nat, hi: nat): Option<VersionedValue<V>>
    requires lo <= hi <= |log|
  {
    match FirstWriteIn(log, id, k, lo, hi)
    case Some(f) => if id in d then log[f].prior else None
    case None => Cell(d, id, k)
  }

  lemma {:induction false} RollbackReplayFrom<V>(d0: Data<V>, d: Data<V>, log: Log<V>, sp: nat, i: nat)
    requires sp <= i <= |log|
    requires d.Keys == d0.Keys
    requires forall id, k :: Cell(d, id, k) == RestoredCell(d0, log, id, k, i, |log|)
    ensures forall id, k :: Cell(RollbackReplay(d, log, sp, i), id, k) == RestoredCell(d0, log, id, k, sp, |log|)
    decreases i
  {
    if i > sp {
      var r := log[i - 1];
      var d' := SetCell(d, r.mapId, r.key, r.prior);
      forall id, k
        ensures Cell(d', id, k) == RestoredCell(d0, log, id, k, i - 1, |log|)
      {
      }
      RollbackReplayFrom(d0, d', log, sp, i - 1);
    }
  }

  /**
    Rolling back to log id `sp` puts back, under every key written since
    `sp`, the cell that the first of those writes replaced; every other
    cell is left alone.
  */
  lemma RollbackReplayRestores<V>(d: Data<V>, log: Log<V>, sp: nat)
    requires sp <= |log|
    ensures forall id, k :: Cell(RollbackReplay(d, log, sp, |log|), id, k) == RestoredCell(d, log, id, k, sp, |log|)
  {
    RollbackReplayFrom(d, d, log, sp, |log|);
  }

  // --------------------------------------------------------------- changes

  /** One pending change as reported to callers: map name, key and the value before the change. */
  datatype Change<V> = Change(mapName: string, key: Key, value: Option<V>)

  function ChangeOf<V>(d: Data<V>, r: UndoRecord<V>): Change<V>
    requires r.mapId in d
  {
    Change(d[r.mapId].name, r.key, if r.prior.None? then None else GetCurrentValue(r.prior.value))
  }

  /**
    The log ids in `lo` .. `hi - 1` whose record belongs to a map that is
    still registered, newest first.
  */
  function LiveRecords<V>(d: Data<V>, log: Log<V>, lo: nat, hi: nat): (r: seq<nat>)
    requires lo <= hi <= |log|
    ensures |r| <= hi - lo
    ensures forall i :: 0 <= i < |r| ==> lo <= r[i] < hi && log[r[i]].mapId in d
    ensures forall j :: lo <= j < hi && log[j].mapId in d ==> j in r
    ensures forall a, b :: 0 <= a < b < |r| ==> r[a] > r[b]
    decreases hi - lo
  {
    if lo == hi then []
    else (if log[hi - 1].mapId in d then [hi - 1] else []) + LiveRecords(d, log, lo, hi - 1)
  }

  /**
    The changes recorded by the records `lo` .. `hi - 1`, newest first.
    Records of maps that are no longer registered are skipped.
  */
  function ChangesIn<V>(d: Data<V>, log: Log<V>, lo: nat, hi: nat): (r: seq<Change<V>>)
    requires lo <= hi <= |log|
    ensures |r| <= hi - lo
    ensures (forall j :: lo <= j < hi ==> log[j].mapId in d) ==>
      |r| == hi - lo && forall i :: 0 <= i < |r| ==> r[i] == ChangeOf(d, log[hi - 1 - i])
    decreases hi - lo
  {
    if lo == hi then []
    else (if log[hi - 1].mapId in d then [ChangeOf(d, log[hi - 1])] else []) + ChangesIn(d, log, lo, hi - 1)
  }

  /** `cs` reports, position by position, the records of `log` at the log ids `ids`. */
  ghost predicate Matches<V>(d: Data<V>, log: Log<V>, cs: seq<Change<V>>, ids: seq<nat>)
  {
    |cs| == |ids| &&
    forall i :: 0 <= i < |ids| ==> ids[i] < |log| && log[ids[i]].mapId in d && cs[i] == ChangeOf(d, log[ids[i]])
  }

  lemma MatchesCons<V>(d: Data<V>, log: Log<V>, cs: seq<Change<V>>, ids: seq<nat>, j: nat)
    requires Matches(d, log, cs, ids)
    requires j < |log| && log[j].mapId in d
    ensures Matches(d, log, [ChangeOf(d, log[j])] + cs, [j] + ids)
  {
    var cs', ids' := [ChangeOf(d, log[j])] + cs, [j] + ids;
    forall i | 0 <= i < |ids'|
      ensures ids'[i] < |log| && log[ids'[i]].mapId in d && cs'[i] == ChangeOf(d, log[ids'[i]])
    {
      if i > 0 {
        assert cs'[i] == cs[i - 1] && ids'[i] == ids[i - 1];
      }
    }
  }

  lemma {:induction false} ChangesInMatches<V>(d: Data<V>, log: Log<V>, lo: nat, hi: nat)
    requires lo <= hi <= |log|
    ensures Matches(d, log, ChangesIn(d, log, lo, hi), LiveRecords(d, log, lo, hi))
    decreases hi - lo
  {
    if lo < hi {
      ChangesInMatches(d, log, lo, hi - 1);
      if log[hi - 1].mapId in d {
        MatchesCons(d, log, ChangesIn(d, log, lo, hi - 1), LiveRecords(d, log, lo, hi - 1), hi - 1);
      }
    }
  }

  /** Each reported change belongs to the live record at the same position, newest first. */
  lemma ChangesInLive<V>(d: Data<V>, log: Log<V>, lo: nat, hi: nat)
    requires lo <= hi <= |log|
    ensures |ChangesIn(d, log, lo, hi)| == |LiveRecords(d, log, lo, hi)|
    ensures forall i :: 0 <= i < |ChangesIn(d, log, lo, hi)| ==>
              ChangesIn(d, log, lo, hi)[i] == ChangeOf(d, log[LiveRecords(d, log, lo, hi)[i]])
  {
    ChangesInMatches(d, log, lo, hi);
  }

  /** The changes of a range are those of its upper part followed by those of its lower part. */
  lemma {:induction false} ChangesSplit<V>(d: Data<V>, log: Log<V>, lo: nat, mid: nat, hi: nat)
    requires lo <= mid <= hi <= |log|
    ensures ChangesIn(d, log, lo, hi) == ChangesIn(d, log, mid, hi) + ChangesIn(d, log, lo, mid)
    decreases hi - mid
  {
    if mid < hi {
      ChangesSplit(d, log, lo, mid, hi - 1);
    }
  }

  /** The changes of a range depend only on its records and on the registered map names. */
  lemma {:induction false} ChangesAgree<V>(d1: Data<V>, d2: Data<V>, log1: Log<V>, log2: Log<V>, lo: nat, hi: nat)
    requires lo <= hi <= |log1| && hi <= |log2|
    requires forall j :: lo <= j < hi ==> log1[j] == log2[j]
    requires d1.Keys == d2.Keys
    requires forall id :: id in d1 ==> d1[id].name == d2[id].name
    ensures ChangesIn(d1, log1, lo, hi) == ChangesIn(d2, log2, lo, hi)
    decreases hi - lo
  {
    if lo < hi {
      ChangesAgree(d1, d2, log1, log2, lo, hi - 1);
    }
  }
}
