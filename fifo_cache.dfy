/**
 * FIFOCache: a bounded cache that, when a new key arrives while it is full,
 * discards the key inserted longest ago. Re-putting a key keeps its place.
 */
module Fifo {
  import opened Caching

  class FIFOCache<K(==), V> {
    /** The key order of the OrderedDict cache_data, oldest insertion first. */
    var order: seq<K>
    /** The key-to-item mapping of cache_data. */
    var cacheData: map<K, V>

    ghost predicate Valid()
      reads this
    {
      Tracks(order, cacheData) && |cacheData| <= MaxItems
    }

    constructor ()
      ensures Valid() && order == [] && cacheData == map[]
    {
      order := [];
      cacheData := map[];
    }

    /** True when the cache holds MAX_ITEMS entries, the most it can hold. */
    function IsFull(): (r: bool)
      reads this
      requires Valid()
      ensures r <==> |cacheData| == MaxItems
      ensures r <==> |order| == MaxItems
    {
      OrderSize(order, cacheData);
      |cacheData| >= MaxItems
    }

    /** `cache_data.get(key, None)`: the stored item, or None for None or a miss. */
    function Get(key: Option<K>): (r: Option<V>)
      reads this
      ensures r.Some? <==> key.Some? && key.value in cacheData
      ensures r.Some? ==> r.value == cacheData[key.value]
    {
      if key.Some? && key.value in cacheData then Some(cacheData[key.value]) else None
    }

    /**
     * Stores item under key. A new key arriving at a full cache first discards
     * the front of the order, which is returned in place of the DISCARD line.
     */
    method Put(key: Option<K>, item: Option<V>) returns (discarded: Option<K>)
      requires Valid()
      modifies this
      ensures Valid()
      ensures key.None? || item.None? ==>
        discarded == None && order == old(order) && cacheData == old(cacheData)
      ensures key.Some? && item.Some? ==> Get(key) == item
      ensures discarded.Some? <==>
        key.Some? && item.Some? && key.value !in old(cacheData) && old(|cacheData|) == MaxItems
      ensures discarded.Some? ==> old(order) != [] && discarded.value == old(order)[0]
      ensures key.Some? && item.Some? ==>
        cacheData == (if discarded.Some? then old(cacheData) - {discarded.value} else old(cacheData))[key.value := item.value]
      ensures key.Some? && item.Some? && key.value in old(cacheData) ==> order == old(order)
      ensures key.Some? && item.Some? && key.value !in old(cacheData) ==>
        order == (if discarded.Some? then old(order)[1..] else old(order)) + [key.value]
    {
      discarded := None;
      if key.None? || item.None? {
        return;
      }
      var k, v := key.value, item.value;
      if IsFull() && k !in cacheData {
        var oldestKey := order[0];
        PopFirstTracks(order, cacheData);
        order, cacheData := order[1..], cacheData - {oldestKey};
        discarded := Some(oldestKey);
      }
      SetItemTracks(order, cacheData, k, v);
      order, cacheData := SetItemOrder(order, cacheData, k), cacheData[k := v];
      assert cacheData[k] == v;
    }
  }
}
