/**
  The underlying key-value store as the transaction layer sees it: maps
  identified by a numeric id, each holding one versioned cell per key.
  The store itself knows nothing about transactions; it only reads and
  writes whole cells.
*/
module StoreData {
  import opened Wrappers
  import opened VersionedValues

  /** Keys are ordered; the model uses integers. */
  type Key = int

  /** The id under which the store registers a map. */
  type MapId = nat

  /** Transaction ids start at 1; 0 never names a transaction. */
  type TxId = t: nat | t >= 1 witness 1

  /** One underlying map: its name and its cells. */
  datatype MapData<V> = MapData(name: string, entries: map<Key, VersionedValue<V>>)

  /** All maps currently registered in the store, by id. */
  type Data<V> = map<MapId, MapData<V>>

  /** The cell stored under `k` in map `id`, if the map and the key exist. */
  function Cell<V>(d: Data<V>, id: MapId, k: Key): Option<VersionedValue<V>> {
    if id in d && k in d[id].entries then Some(d[id].entries[k]) else None
  }

  /**
    Stores `c` under `k` in map `id` (`None` removes the key). A write to a
    map that is not registered changes nothing. Exactly one cell changes.
  */
  function SetCell<V>(d: Data<V>, id: MapId, k: Key, c: Option<VersionedValue<V>>): (d': Data<V>)
    ensures d'.Keys == d.Keys
    ensures forall i :: i in d ==> d'[i].name == d[i].name
    ensures forall i, j :: Cell(d', i, j) == if i == id && j == k && id in d then c else Cell(d, i, j)
  {
    if id !in d then d
    else
      var e := d[id].entries;
      var e' := if c.Some? then e[k := c.value] else e - {k};
      d[id := d[id].(entries := e')]
  }

  /** Two stores with the same maps, names and cells are the same store. */
  lemma DataEquality<V>(d1: Data<V>, d2: Data<V>)
    requires d1.Keys == d2.Keys
    requires forall i :: i in d1 ==> d1[i].name == d2[i].name
    requires forall i, j :: Cell(d1, i, j) == Cell(d2, i, j)
    ensures d1 == d2
  {
    forall i | i in d1
      ensures d1[i] == d2[i]
    {
      var e1, e2 := d1[i].entries, d2[i].entries;
      forall j
        ensures j in e1 <==> j in e2
      {
        assert Cell(d1, i, j) == Cell(d2, i, j);
      }
      assert e1.Keys == e2.Keys;
      forall j | j in e1
        ensures e1[j] == e2[j]
      {
        assert Cell(d1, i, j) == Cell(d2, i, j);
      }
      assert e1 == e2;
    }
  }
}
