/**
  The transaction-relative view of one map: the keys a transaction sees are
  those whose cell it reads as a value; size, iteration and navigation are
  ordered queries over those keys, ascending.
*/
module TransactionMap {
  import opened Wrappers
  import opened VersionedValues
  import opened StoreData
  import opened TransactionStore
  import opened StoreInvariant
  import Visibility
  import OrderedKeys

  /** The keys transaction `t` sees in map `id`: those it reads a value under. */
  function VisibleKeys<V>(s: Store<V>, t: TxId, id: MapId): (r: set<Key>)
    ensures forall k :: k in r <==> Get(s, t, id, k).Some?
  {
    if id !in s.data then {}
    else set k | k in s.data[id].entries && ReadBy(t, Some(s.data[id].entries[k])).Some?
  }

  function ContainsKey<V>(s: Store<V>, t: TxId, id: MapId, k: Key): (r: bool)
    ensures r <==> k in VisibleKeys(s, t, id)
  {
    Get(s, t, id, k).Some?
  }

  /** The visible keys in ascending order: the key iterator from the start. */
  function Keys<V>(s: Store<V>, t: TxId, id: MapId): (r: seq<Key>)
    ensures OrderedKeys.Increasing(r)
    ensures forall k :: k in r <==> Get(s, t, id, k).Some?
  {
    OrderedKeys.SortedKeys(VisibleKeys(s, t, id))
  }

  /** The key iterator started at `from` (`None`: at the first key). */
  function KeyIterator<V>(s: Store<V>, t: TxId, id: MapId, from: Option<Key>): (r: seq<Key>)
    ensures OrderedKeys.Increasing(r)
    ensures forall k :: k in r <==> Get(s, t, id, k).Some? && (from.Some? ==> from.value <= k)
  {
    match from
    case None => Keys(s, t, id)
    case Some(f) => OrderedKeys.AtOrAfter(Keys(s, t, id), f)
  }

  /** The entry iterator: visible keys in ascending order, each with the value `t` reads. */
  function Entries<V>(s: Store<V>, t: TxId, id: MapId): (r: seq<(Key, V)>)
    ensures |r| == |Keys(s, t, id)|
    ensures forall i :: 0 <= i < |r| ==> r[i].0 == Keys(s, t, id)[i] && Get(s, t, id, r[i].0) == Some(r[i].1)
  {
    var ks := Keys(s, t, id);
    seq(|ks|, i requires 0 <= i < |ks| => (ks[i], Get(s, t, id, ks[i]).value))
  }

  /** The number of keys `t` sees: the length of its key iteration. */
  function Size<V>(s: Store<V>, t: TxId, id: MapId): (r: nat)
    ensures r == |Keys(s, t, id)|
    ensures r == 0 <==> forall k :: Get(s, t, id, k).None?
  {
    var ks := Keys(s, t, id);
    assert |ks| == |VisibleKeys(s, t, id)|;
    assert |ks| > 0 ==> Get(s, t, id, ks[0]).Some?;
    |VisibleKeys(s, t, id)|
  }

  function IsEmpty<V>(s: Store<V>, t: TxId, id: MapId): (r: bool)
    ensures r <==> forall k :: Get(s, t, id, k).None?
  {
    Size(s, t, id) == 0
  }

  // ------------------------------------------------------------ navigation

  function FirstKey<V>(s: Store<V>, t: TxId, id: MapId): (r: Option<Key>)
    ensures r.None? <==> forall k :: Get(s, t, id, k).None?
    ensures r.Some? ==> Get(s, t, id, r.value).Some? && forall k :: Get(s, t, id, k).Some? ==> r.value <= k
  {
    var ks := Keys(s, t, id);
    assert |ks| > 0 ==> Get(s, t, id, ks[0]).Some?;
    OrderedKeys.FirstIn(ks)
  }

  function LastKey<V>(s: Store<V>, t: TxId, id: MapId): (r: Option<Key>)
    ensures r.None? <==> forall k :: Get(s, t, id, k).None?
    ensures r.Some? ==> Get(s, t, id, r.value).Some? && forall k :: Get(s, t, id, k).Some? ==> k <= r.value
  {
    var ks := Keys(s, t, id);
    assert |ks| > 0 ==> Get(s, t, id, ks[0]).Some?;
    OrderedKeys.LastIn(ks)
  }

  /** The smallest visible key strictly above `k`. */
  function HigherKey<V>(s: Store<V>, t: TxId, id: MapId, k: Key): (r: Option<Key>)
    ensures r.None? <==> forall y :: k < y ==> Get(s, t, id, y).None?
    ensures r.Some? ==> k < r.value && Get(s, t, id, r.value).Some? && forall y :: k < y < r.value ==> Get(s, t, id, y).None?
  {
    OrderedKeys.HigherIn(Keys(s, t, id), k)
  }

  /** The smallest visible key at or above `k`. */
  function CeilingKey<V>(s: Store<V>, t: TxId, id: MapId, k: Key): (r: Option<Key>)
    ensures r.None? <==> forall y :: k <= y ==> Get(s, t, id, y).None?
    ensures r.Some? ==> k <= r.value && Get(s, t, id, r.value).Some? && forall y :: k <= y < r.value ==> Get(s, t, id, y).None?
  {
    OrderedKeys.CeilingIn(Keys(s, t, id), k)
  }

  /** The largest visible key strictly below `k`. */
  function LowerKey<V>(s: Store<V>, t: TxId, id: MapId, k: Key): (r: Option<Key>)
    ensures r.None? <==> forall y :: y < k ==> Get(s, t, id, y).None?
    ensures r.Some? ==> r.value < k && Get(s, t, id, r.value).Some? && forall y :: r.value < y < k ==> Get(s, t, id, y).None?
  {
    OrderedKeys.LowerIn(Keys(s, t, id), k)
  }

  /** The largest visible key at or below `k`. */
  function FloorKey<V>(s: Store<V>, t: TxId, id: MapId, k: Key): (r: Option<Key>)
    ensures r.None? <==> forall y :: y <= k ==> Get(s, t, id, y).None?
    ensures r.Some? ==> r.value <= k && Get(s, t, id, r.value).Some? && forall y :: r.value < y <= k ==> Get(s, t, id, y).None?
  {
    OrderedKeys.FloorIn(Keys(s, t, id), k)
  }

  /** The entry under a key found by navigation: the key with the value `t` reads there. */
  function EntryAt<V>(s: Store<V>, t: TxId, id: MapId, k: Option<Key>): (r: Option<(Key, V)>)
    requires k.Some? ==> Get(s, t, id, k.value).Some?
    ensures r.Some? <==> k.Some?
    ensures r.Some? ==> r.value.0 == k.value && Get(s, t, id, r.value.0) == Some(r.value.1)
  {
    match k
    case None => None
    case Some(key) => Some((key, Get(s, t, id, key).value))
  }

  function FirstEntry<V>(s: Store<V>, t: TxId, id: MapId): (r: Option<(Key, V)>)
    ensures r.Some? <==> FirstKey(s, t, id).Some?
    ensures r.Some? ==> r.value.0 == FirstKey(s, t, id).value && Get(s, t, id, r.value.0) == Some(r.value.1)
  {
    EntryAt(s, t, id, FirstKey(s, t, id))
  }

  function LastEntry<V>(s: Store<V>, t: TxId, id: MapId): (r: Option<(Key, V)>)
    ensures r.Some? <==> LastKey(s, t, id).Some?
    ensures r.Some? ==> r.value.0 == LastKey(s, t, id).value && Get(s, t, id, r.value.0) == Some(r.value.1)
  {
    EntryAt(s, t, id, LastKey(s, t, id))
  }

  function HigherEntry<V>(s: Store<V>, t: TxId, id: MapId, k: Key): (r: Option<(Key, V)>)
    ensures r.Some? <==> HigherKey(s, t, id, k).Some?
    ensures r.Some? ==> r.value.0 == HigherKey(s, t, id, k).value && Get(s, t, id, r.value.0) == Some(r.value.1)
  {
    EntryAt(s, t, id, HigherKey(s, t, id, k))
  }

  function CeilingEntry<V>(s: Store<V>, t: TxId, id: MapId, k: Key): (r: Option<(Key, V)>)
    ensures r.Some? <==> CeilingKey(s, t, id, k).Some?
    ensures r.Some? ==> r.value.0 == CeilingKey(s, t, id, k).value && Get(s, t, id, r.value.0) == Some(r.value.1)
  {
    EntryAt(s, t, id, CeilingKey(s, t, id, k))
  }

  function LowerEntry<V>(s: Store<V>, t: TxId, id: MapId, k: Key): (r: Option<(Key, V)>)
    ensures r.Some? <==> LowerKey(s, t, id, k).Some?
    ensures r.Some? ==> r.value.0 == LowerKey(s, t, id, k).value && Get(s, t, id, r.value.0) == Some(r.value.1)
  {
    EntryAt(s, t, id, LowerKey(s, t, id, k))
  }

  function FloorEntry<V>(s: Store<V>, t: TxId, id: MapId, k: Key): (r: Option<(Key, V)>)
    ensures r.Some? <==> FloorKey(s, t, id, k).Some?
    ensures r.Some? ==> r.value.0 == FloorKey(s, t, id, k).value && Get(s, t, id, r.value.0) == Some(r.value.1)
  {
    EntryAt(s, t, id, FloorKey(s, t, id, k))
  }

  // ----------------------------------------------------------- properties

  /** Two transactions that read the same value under every key see the same view. */
  ghost predicate SameView<V>(s1: Store<V>, t1: TxId, s2: Store<V>, t2: TxId, id: MapId) {
    && Keys(s1, t1, id) == Keys(s2, t2, id)
    && Entries(s1, t1, id) == Entries(s2, t2, id)
    && Size(s1, t1, id) == Size(s2, t2, id)
    && FirstKey(s1, t1, id) == FirstKey(s2, t2, id)
    && LastKey(s1, t1, id) == LastKey(s2, t2, id)
    && (forall k :: HigherKey(s1, t1, id, k) == HigherKey(s2, t2, id, k))
    && (forall k :: CeilingKey(s1, t1, id, k) == CeilingKey(s2, t2, id, k))
    && (forall k :: LowerKey(s1, t1, id, k) == LowerKey(s2, t2, id, k))
    && (forall k :: FloorKey(s1, t1, id, k) == FloorKey(s2, t2, id, k))
  }

  /** The whole view is determined by the values read: keys, entries, size and navigation. */
  lemma ViewDeterminedByReads<V>(s1: Store<V>, t1: TxId, s2: Store<V>, t2: TxId, id: MapId)
    requires forall k :: Get(s1, t1, id, k) == Get(s2, t2, id, k)
    ensures SameView(s1, t1, s2, t2, id)
  {
    var v1, v2 := VisibleKeys(s1, t1, id), VisibleKeys(s2, t2, id);
    forall k
      ensures k in v1 <==> k in v2
    {
      assert Get(s1, t1, id, k) == Get(s2, t2, id, k);
    }
    assert v1 == v2;
    var e1, e2 := Entries(s1, t1, id), Entries(s2, t2, id);
    assert |e1| == |e2|;
    forall i | 0 <= i < |e1|
      ensures e1[i] == e2[i]
    {
      assert Get(s1, t1, id, e1[i].0) == Get(s2, t2, id, e2[i].0);
    }
  }

  /** Another transaction's write leaves this transaction's whole view unchanged. */
  lemma PutLeavesOthersView<V>(s: Store<V>, t: TxId, id: MapId, k: Key, v: Option<V>, u: TxId, m: MapId)
    requires Put(s, t, id, k, v).Success?
    requires u != t
    ensures SameView(Put(s, t, id, k, v).value, u, s, u, m)
  {
    Visibility.PutHiddenFromOthers(s, t, id, k, v, u);
    ViewDeterminedByReads(Put(s, t, id, k, v).value, u, s, u, m);
  }

  /** Another transaction's rollback leaves this transaction's whole view unchanged. */
  lemma RollbackLeavesOthersView<V>(s: Store<V>, t: TxId, u: TxId, m: MapId)
    requires WF(s)
    requires Rollback(s, t).Success?
    requires u != t
    ensures SameView(Rollback(s, t).value, u, s, u, m)
  {
    Visibility.RollbackHiddenFromOthers(s, t, u);
    ViewDeterminedByReads(Rollback(s, t).value, u, s, u, m);
  }

  /** A transaction sees its own write: an insert is visible to it, a removal hides the key. */
  lemma PutVisibleToWriter<V>(s: Store<V>, t: TxId, id: MapId, k: Key, v: Option<V>)
    requires Put(s, t, id, k, v).Success?
    ensures ContainsKey(Put(s, t, id, k, v).value, t, id, k) <==> v.Some?
    ensures v.Some? ==> k in Keys(Put(s, t, id, k, v).value, t, id)
  {
  }

  /** The next key above `a` is `e` when `e` is visible and nothing between them is. */
  lemma HigherKeyIs<V>(s: Store<V>, t: TxId, id: MapId, a: Key, e: Key)
    requires a < e && Get(s, t, id, e).Some?
    requires forall y :: a < y < e ==> Get(s, t, id, y).None?
    ensures HigherKey(s, t, id, a) == Some(e)
  {
    var h := HigherKey(s, t, id, a);
    assert h.Some?;
  }

  /** Opening a map a second time returns the same map and changes nothing more. */
  lemma OpenMapIdempotent<V>(s: Store<V>, name: string)
    ensures OpenMap(OpenMap(s, name).0, name) == OpenMap(s, name)
  {
  }

  /** After a map is removed every transaction sees it empty; every other map reads as before. */
  lemma RemoveMapHidesReads<V>(s: Store<V>, name: string, t: TxId)
    requires HasMap(s, name)
    ensures IsEmpty(RemoveMap(s, name), t, s.catalog[name])
    ensures forall i, k :: i != s.catalog[name] ==> Get(RemoveMap(s, name), t, i, k) == Get(s, t, i, k)
  {
  }
}
