/**
 * LFUCache: a bounded cache that, when a new key arrives while it is full,
 * discards a least frequently used key, the oldest one at that count.
 * Each method performs the steps of the corresponding method of the cache on
 * the three fields and is proved to compute the function of the same name in
 * LfuModel, where the invariant and the eviction rule are proved.
 */
module Lfu {
  import opened Caching
  import opened LfuModel

  class LFUCache<K(==), V> {
    /** cache_data: key to Node (item and use count). */
    var cacheData: map<K, Node<V>>
    /** freq_map: use count to the keys at that count, oldest arrival first. */
    var freqMap: map<nat, seq<K>>
    /** min_freq: the least use count, while anything is cached. */
    var minFreq: nat

    /** The three fields as one value of the model. */
    function State(): (st: LfuState<K, V>)
      reads this
    {
      LfuState(cacheData, freqMap, minFreq)
    }

    ghost predicate Valid()
      reads this
    {
      Inv(State())
    }

    constructor ()
      ensures Valid() && State() == Empty()
    {
      cacheData := map[];
      freqMap := map[];
      minFreq := 0;
      EmptyInv<K, V>();
    }

    /** True when the cache holds MAX_ITEMS entries, the most it can hold. */
    function IsFull(): (r: bool)
      reads this
      requires Valid()
      ensures r <==> |cacheData| == MaxItems
    {
      |cacheData| >= MaxItems
    }

    /** `_update_min_freq`: only min_freq may change. */
    method UpdateMinFreq(freq: nat)
      modifies this`minFreq
      ensures minFreq == LfuModel.UpdateMinFreq(old(minFreq), freq)
    {
      if minFreq == freq {
        minFreq := minFreq + 1;
      }
    }

    /** `_remove_key`: the key leaves group freq; an emptied group is deleted. */
    method RemoveKey(key: K, freq: nat)
      requires freq in freqMap && key in freqMap[freq]
      modifies this
      ensures State() == LfuModel.RemoveKey(old(State()), key, freq)
    {
      freqMap := freqMap[freq := Remove(freqMap[freq], key)];
      if freqMap[freq] == [] {
        freqMap := freqMap - {freq};
        UpdateMinFreq(freq);
      }
    }

    /** `_update_freq`: the key moves from the group of its count to the end of the next one. */
    method UpdateFreq(key: K)
      requires key in cacheData && key in Group(State(), cacheData[key].frequency)
      modifies this
      ensures State() == LfuModel.UpdateFreq(old(State()), key)
    {
      var currentNode := cacheData[key];
      var currentFreq := currentNode.frequency;
      RemoveKey(key, currentFreq);
      var newFreq := currentFreq + 1;
      cacheData := cacheData[key := currentNode.(frequency := newFreq)];
      freqMap := freqMap[newFreq := Group(State(), newFreq) + [key]];
    }

    /** `_evict_lfu_key`: pops the oldest key of the min_freq group and uncaches it. */
    method EvictLfuKey() returns (leastFreqKey: K)
      requires Group(State(), minFreq) != [] && Group(State(), minFreq)[0] in cacheData
      modifies this
      ensures (State(), leastFreqKey) == LfuModel.EvictLfuKey(old(State()))
    {
      var group := freqMap[minFreq];
      leastFreqKey := group[0];
      freqMap := freqMap[minFreq := group[1..]];
      cacheData := cacheData - {leastFreqKey};
    }

    /**
     * `put`: a cached key gets the new item and a count bump; a new key at a
     * full cache first evicts, and the evicted key is returned in place of the
     * DISCARD line; a new key enters group 1 at count 1.
     */
    method Put(key: Option<K>, item: Option<V>) returns (discarded: Option<K>)
      requires Valid()
      modifies this
      ensures Valid()
      ensures (State(), discarded) == LfuModel.Put(old(State()), key, item)
    {
      discarded := None;
      if key.None? || item.None? {
        return;
      }
      var k, v := key.value, item.value;
      ghost var s := State();
      if k in cacheData {
        KeyInOwnGroup(s, k);
        cacheData := cacheData[k := cacheData[k].(item := v)];
        assert State() == SetItem(s, k, v);
        SetItemKeepsInv(s, k, v);
        UpdateFreqKeepsInv(SetItem(s, k, v), k);
        UpdateFreq(k);
        assert (State(), discarded) == LfuModel.Put(s, key, item);
        return;
      }
      if IsFull() {
        EvictThenInsertKeepsInv(s, k, v);
        var leastFreqKey := EvictLfuKey();
        discarded := Some(leastFreqKey);
      }
      ghost var room := State();
      cacheData := cacheData[k := Node(v, 1)];
      freqMap := freqMap[1 := Group(State(), 1) + [k]];
      minFreq := 1;
      assert State() == InsertNew(room, k, v);
      assert (State(), discarded) == LfuModel.Put(s, key, item);
    }

    /** `get`: on a hit the key's count is bumped and its item returned; otherwise None. */
    method Get(key: Option<K>) returns (r: Option<V>)
      requires Valid()
      modifies this
      ensures Valid()
      ensures (State(), r) == LfuModel.Get(old(State()), key)
    {
      if key.Some? && key.value in cacheData {
        UpdateFreqKeepsInv(State(), key.value);
        UpdateFreq(key.value);
        return Some(cacheData[key.value].item);
      }
      return None;
    }
  }
}
