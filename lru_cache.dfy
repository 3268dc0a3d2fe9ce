/**
 * LRUCache: a bounded cache that, when a new key arrives while it is full,
 * discards the key touched least recently. Both put and a successful get
 * count as a touch and move the key to the end of the order.
 */
module Lru {
  import opened Caching

  class LRUCache<K(==), V> {
    /** The key order of the OrderedDict cache_data, least recently touched first. */
    var order: seq<K>
    /** The key-to-item mapping of cache_data. */
    var cacheData: map<K, V>

    ghost predicate Valid()
      reads this
    {
      Tracks(order, cacheData) && |cacheData| <= MaxItems
    }

    constructor ()
      ensures Valid() && order == [] && cacheData == map[]
    {
      order := [];
      cacheData := map[];
    }

    /** True when the cache holds MAX_ITEMS entries, the most it can hold. */
    function IsFull(): (r: bool)
      reads this
      requires Valid()
      ensures r <==> |cacheData| == MaxItems
      ensures r <==> |order| == MaxItems
    {
      OrderSize(order, cacheData);
      |cacheData| >= MaxItems
    }

    /**
     * Stores item under key and moves key to the end. A new key arriving at a
     * full cache first discards the front of the order.
     */
    method Put(key: Option<K>, item: Option<V>) returns (discarded: Option<K>)
      requires Valid()
      modifies this
      ensures Valid()
      ensures key.None? || item.None? ==>
        discarded == None && order == old(order) && cacheData == old(cacheData)
      ensures key.Some? && item.Some? ==> key.value in cacheData && cacheData[key.value] == item.value
      ensures key.Some? && item.Some? ==> order != [] && order[|order| - 1] == key.value
      ensures discarded.Some? <==>
        key.Some? && item.Some? && key.value !in old(cacheData) && old(|cacheData|) == MaxItems
      ensures discarded.Some? ==> old(order) != [] && discarded.value == old(order)[0]
      ensures key.Some? && item.Some? ==>
        cacheData == (if discarded.Some? then old(cacheData) - {discarded.value} else old(cacheData))[key.value := item.value]
      ensures key.Some? && item.Some? && key.value in old(cacheData) ==>
        order == MoveToEnd(old(order), key.value)
      ensures key.Some? && item.Some? && key.value !in old(cacheData) ==>
        order == (if discarded.Some? then old(order)[1..] else old(order)) + [key.value]
    {
      discarded := None;
      if key.None? || item.None? {
        return;
      }
      var k, v := key.value, item.value;
      if IsFull() && k !in cacheData {
        var leastRecentAccessKey := order[0];
        PopFirstTracks(order, cacheData);
        order, cacheData := order[1..], cacheData - {leastRecentAccessKey};
        discarded := Some(leastRecentAccessKey);
      }
      SetItemMoveToEndTracks(order, cacheData, k, v);
      order, cacheData := SetItemOrder(order, cacheData, k), cacheData[k := v];
      order := MoveToEnd(order, k);
      assert cacheData[k] == v;
    }

    /**
     * The stored item, or None for None or a miss. A hit moves the key to the
     * end of the order; nothing else changes.
     */
    method Get(key: Option<K>) returns (r: Option<V>)
      requires Valid()
      modifies this
      ensures Valid()
      ensures cacheData == old(cacheData)
      ensures r.Some? <==> key.Some? && key.value in cacheData
      ensures r.Some? ==> r.value == cacheData[key.value]
      ensures order == if r.Some? then MoveToEnd(old(order), key.value) else old(order)
    {
      if key.Some? && key.value in cacheData {
        MoveToEndTracks(order, cacheData, key.value);
        order := MoveToEnd(order, key.value);
      }
      r := if key.Some? && key.value in cacheData then Some(cacheData[key.value]) else None;
    }
  }
}
