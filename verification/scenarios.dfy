/**
  The store's observable contract as the scenarios of its test suite pin
  it down, stated for every store the scenario can start from rather than
  for one fixed run.
*/
module Scenarios {
  import opened Wrappers
  import opened VersionedValues
  import opened StoreData
  import opened TransactionStore
  import opened StoreInvariant
  import opened Visibility
  import opened UndoProperties
  import TransactionMap

  /** Every store reachable from an empty store satisfies the invariant. */
  lemma FromInitialWF<V>(max: nat, steps: seq<Step<V>>)
    ensures WF(ApplyAll(Initial<V>(max), steps))
  {
    InitialWF<V>(max);
    ReachableWF(Initial<V>(max), steps);
  }

  /**
    Two writers on one key: the second fails with Locked (and `tryPut`
    reports `false`), the first reads its value, the second still reads
    the old one, and after the first commits the second reads the new one.
  */
  lemma ConcurrentUpdate<V>(s: Store<V>, t1: TxId, t2: TxId, id: MapId, k: Key, v: V, w: Option<V>)
    requires WF(s)
    requires t1 != t2 && t2 in s.open
    requires Put(s, t1, id, k, Some(v)).Success?
    ensures
      var s1 := Put(s, t1, id, k, Some(v)).value;
      && Put(s1, t2, id, k, w) == Failure(Locked)
      && TryPut(s1, t2, id, k, w) == Success((s1, false))
      && Get(s1, t1, id, k) == Some(v)
      && Get(s1, t2, id, k) == Get(s, t2, id, k)
      && Commit(s1, t1).Success?
      && Get(Commit(s1, t1).value, t2, id, k) == Some(v)
  {
    var s1 := Put(s, t1, id, k, Some(v)).value;
    PutShape(s, t1, id, k, Some(v));
    PutHiddenFromOthers(s, t1, id, k, Some(v), t2);
    PutWF(s, t1, id, k, Some(v));
    CommitPublishes(s1, t1, t2);
  }

  /** However many times a transaction rewrites keys, the others read what they read before. */
  lemma {:induction false} RepeatedChange<V>(s: Store<V>, t: TxId, ws: seq<Write<V>>, u: TxId)
    requires ApplyWrites(s, t, ws).Success?
    requires u != t
    ensures forall id, k :: Get(ApplyWrites(s, t, ws).value, u, id, k) == Get(s, u, id, k)
    decreases |ws|
  {
    if ws != [] {
      var s1 := Put(s, t, ws[0].mapId, ws[0].key, ws[0].value).value;
      PutHiddenFromOthers(s, t, ws[0].mapId, ws[0].key, ws[0].value, u);
      RepeatedChange(s1, t, ws[1..], u);
    }
  }

  /**
    With every id up to the maximum taken, `begin` fails; once one of them
    commits, `begin` hands out the id just freed.
  */
  lemma TransactionAge<V>(s: Store<V>, t: TxId)
    requires forall i: TxId :: i <= s.maxTransactionId ==> i in s.open
    requires t <= s.maxTransactionId
    ensures Begin(s) == Failure(TooManyOpenTransactions)
    ensures Commit(s, t).Success?
    ensures Begin(Commit(s, t).value).Success? && Begin(Commit(s, t).value).value.1 == t
  {
  }

  /** A prepared transaction accepts no more writes but may still commit or roll back. */
  lemma TwoPhaseCommit<V>(s: Store<V>, t: TxId, id: MapId, k: Key, v: Option<V>)
    requires GetStatus(s, t) == Some(Open)
    ensures Prepare(s, t).Success?
    ensures
      var s1 := Prepare(s, t).value;
      && GetStatus(s1, t) == Some(Prepared)
      && Put(s1, t, id, k, v).Failure?
      && Prepare(s1, t) == Failure(IllegalState)
      && Commit(s1, t).Success? && Rollback(s1, t).Success?
      && GetStatus(Commit(s1, t).value, t).None?
  {
  }

  /**
    Committing after the map was dropped still ends the transaction; the
    map is gone, and opening it again yields an empty map.
  */
  lemma CommitAfterMapRemoval<V>(s: Store<V>, t: TxId, name: string, u: TxId)
    requires t in s.open
    ensures
      var s1 := RemoveMap(s, name);
      && Commit(s1, t).Success?
      && t !in Commit(s1, t).value.open
      && !HasMap(Commit(s1, t).value, name)
      && var (s2, id) := OpenMap(Commit(s1, t).value, name);
      && TransactionMap.IsEmpty(s2, u, id)
  {
    var s1 := RemoveMap(s, name);
    var s2 := Commit(s1, t).value;
    assert !HasMap(s2, name);
  }

  /**
    After a commit, any transaction that is not running once the commit is
    done (including one that reuses the committer's freed id) reopens a map
    by name, gets the same map, and reads under every key what the
    committer read there.
  */
  lemma ReopenAfterCommit<V>(s: Store<V>, t: TxId, name: string, u: TxId, k: Key)
    requires WF(s)
    requires t in s.open && (u == t || u !in s.open)
    requires HasMap(s, name)
    ensures
      var s1 := Commit(s, t).value;
      && OpenMap(s1, name) == (s1, s.catalog[name])
      && Get(s1, u, s.catalog[name], k) == Get(s, t, s.catalog[name], k)
  {
    var id := s.catalog[name];
    CommitPublishes(s, t, u);
    if u != t {
      UnregisteredOwnsNothing(s, u);
    }
  }

  /**
    A transaction's pending insert above a key is the next key it sees from
    there, unless a visible key lies between them (every other
    transaction's navigation is unchanged: `TransactionMap.PutLeavesOthersView`).
  */
  lemma OwnInsertNavigation<V>(s: Store<V>, t: TxId, id: MapId, a: Key, k: Key, v: V)
    requires Put(s, t, id, k, Some(v)).Success?
    requires a < k
    ensures
      var s1 := Put(s, t, id, k, Some(v)).value;
      var h := TransactionMap.HigherKey(s, t, id, a);
      && (h.Some? && h.value < k ==> TransactionMap.HigherKey(s1, t, id, a) == h)
      && (h.None? || k <= h.value ==> TransactionMap.HigherEntry(s1, t, id, a) == Some((k, v)))
  {
    var s1 := Put(s, t, id, k, Some(v)).value;
    PutOwnReads(s, t, id, k, Some(v));
    var h := TransactionMap.HigherKey(s, t, id, a);
    if h.Some? && h.value < k {
      TransactionMap.HigherKeyIs(s1, t, id, a, h.value);
    } else {
      TransactionMap.HigherKeyIs(s1, t, id, a, k);
    }
  }
}
