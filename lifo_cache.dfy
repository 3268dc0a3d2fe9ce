/**
 * LIFOCache: a bounded cache that, when a new key arrives while it is full,
 * discards the key put most recently. Re-putting a key moves it to the end,
 * so it becomes the next one to go.
 */
module Lifo {
  import opened Caching

  class LIFOCache<K(==), V> {
    /** The key order of the OrderedDict cache_data, most recently put last. */
    var order: seq<K>
    /** The key-to-item mapping of cache_data. */
    var cacheData: map<K, V>

    ghost predicate Valid()
      reads this
    {
      Tracks(order, cacheData) && |cacheData| <= MaxItems
    }

    constructor ()
      ensures Valid() && order == [] && cacheData == map[]
    {
      order := [];
      cacheData := map[];
    }

    /** True when the cache holds MAX_ITEMS entries, the most it can hold. */
    function IsFull(): (r: bool)
      reads this
      requires Valid()
      ensures r <==> |cacheData| == MaxItems
      ensures r <==> |order| == MaxItems
    {
      OrderSize(order, cacheData);
      |cacheData| >= MaxItems
    }

    /** `cache_data.get(key, None)`: the stored item, or None for None or a miss. */
    function Get(key: Option<K>): (r: Option<V>)
      reads this
      ensures r.Some? <==> key.Some? && key.value in cacheData
      ensures r.Some? ==> r.value == cacheData[key.value]
    {
      if key.Some? && key.value in cacheData then Some(cacheData[key.value]) else None
    }

    /**
     * Stores item under key and moves key to the end. A new key arriving at a
     * full cache first discards the last key of the order.
     */
    method Put(key: Option<K>, item: Option<V>) returns (discarded: Option<K>)
      requires Valid()
      modifies this
      ensures Valid()
      ensures key.None? || item.None? ==>
        discarded == None && order == old(order) && cacheData == old(cacheData)
      ensures key.Some? && item.Some? ==> Get(key) == item
      ensures key.Some? && item.Some? ==> order != [] && order[|order| - 1] == key.value
      ensures discarded.Some? <==>
        key.Some? && item.Some? && key.value !in old(cacheData) && old(|cacheData|) == MaxItems
      ensures discarded.Some? ==> old(order) != [] && discarded.value == old(order)[|old(order)| - 1]
      ensures key.Some? && item.Some? ==>
        cacheData == (if discarded.Some? then old(cacheData) - {discarded.value} else old(cacheData))[key.value := item.value]
      ensures key.Some? && item.Some? && key.value in old(cacheData) ==>
        order == MoveToEnd(old(order), key.value)
      ensures key.Some? && item.Some? && key.value !in old(cacheData) ==>
        order == (if discarded.Some? then old(order)[..|old(order)| - 1] else old(order)) + [key.value]
    {
      discarded := None;
      if key.None? || item.None? {
        return;
      }
      var k, v := key.value, item.value;
      if IsFull() && k !in cacheData {
        var lastInsertedKey := order[|order| - 1];
        PopLastTracks(order, cacheData);
        order, cacheData := order[..|order| - 1], cacheData - {lastInsertedKey};
        discarded := Some(lastInsertedKey);
      }
      ghost var kept := order;
      SetItemMoveToEndTracks(order, cacheData, k, v);
      order, cacheData := SetItemOrder(order, cacheData, k), cacheData[k := v];
      order := MoveToEnd(order, k);
      assert cacheData[k] == v;
      if k in old(cacheData) {
        assert kept == old(order);
      } else {
        assert kept == if discarded.Some? then old(order)[..|old(order)| - 1] else old(order);
        assert order == kept + [k];
      }
    }
  }
}
