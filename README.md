# Bounded caches: FIFO, LIFO, LRU and LFU

This project models the bounded key-value caches in `0x01-caching/` and proves
their contracts in Dafny. Each cache holds at most `MAX_ITEMS = 4` entries.

All four caches share three rules:

- `put(key, item)` does nothing when either argument is `None`.
- `get(key)` returns the stored item, or `None`.
- When a new key arrives at a full cache, exactly one key is discarded first.

The caches differ in which key they discard:

- **FIFO** discards the key inserted longest ago. Re-putting a key keeps its place.
- **LIFO** discards the key inserted or re-put last. Re-putting a key moves it to the end.
- **LRU** discards the key touched longest ago. Both `put` and a successful `get` move the key to the end.
- **LFU** discards a key with the lowest use count. Among keys tied at that count, it discards the one that reached it first.

Structure of the model:

- `caching.dfy` (module `Caching`) holds what the four caches share:
  - `Option` stands for Python's `None`.
  - `MaxItems` is the capacity constant.
  - An `OrderedDict` is modelled as a key order `seq<K>` next to a `map<K, V>`. The predicate `Tracks` keeps the two in step.
  - Lemmas give the effect of each `OrderedDict` operation the caches use: `popitem` at either end, item assignment, and `move_to_end`.
- `fifo_cache.dfy`, `lifo_cache.dfy` and `lru_cache.dfy` each hold one class with the fields `order` and `cacheData`. Each `put` proves its whole new state, the discarded key, and the class invariant, which includes the size bound.
- `lfu_model.dfy` (module `LfuModel`) is the LFU cache as a value:
  - `cacheData` maps a key to a `Node` holding its item and use count.
  - `freqMap` maps a count to its group of keys, oldest arrival first.
  - `minFreq` is the running minimum count.
  
  Every private and public method of `LFUCache` is a function here. The cache invariant `Inv` is proved to hold for a fresh cache and to be kept by `put`, `get` and `_update_freq`. `_evict_lfu_key` alone does not keep it: it can empty the `min_freq` group while other keys stay cached. It is only ever called from `put`, right before an insertion, and eviction followed by that insertion keeps `Inv` (`EvictThenInsertKeepsInv`). `_remove_key` is only called from `_update_freq`. Under `Inv`, `minFreq` is the least count in use and its group is non-empty, which is what makes the `popitem` of the eviction safe.
- `lfu_cache.dfy` (module `Lfu`) is the `LFUCache` class. Its methods perform the source's steps on the three fields. Each method is proved to compute the `LfuModel` function of the same name, so it inherits the function's proved properties.

The discard notification becomes a returned `Option<K>`: `Some(k)` when `k` was discarded, `None` otherwise.

## Model

| member | source | states |
|---|---|---|
| Caching.Remove | 0x01-caching/100-lfu_cache.py:43 | the key order after `del od[key]`: it never grows. `Remove` is total: on an order without the key it returns the order unchanged, where `del` would raise `KeyError`. No caller reaches that case (see Left out) |
| Caching.RemoveSpec | 0x01-caching/100-lfu_cache.py:43 | deleting a key from an ordered group removes exactly that key and keeps every other key; a duplicate-free group stays duplicate-free and, when the key was there, shrinks by one |
| Caching.MoveToEnd | 0x01-caching/2-lifo_cache.py:36 | after `move_to_end(k)` the key order is non-empty and ends with k |
| Caching.MoveToEndSpec | 0x01-caching/3-lru_cache.py:42 | `move_to_end(k)` leaves the keys of the order plus k, and no others; a duplicate-free order stays duplicate-free |
| Caching.OrderSize | 0x01-caching/1-fifo_cache.py:23 | when the key order tracks the map, `len(cache_data)` is both the number of keys and the length of the order |
| Caching.PopFirstTracks | 0x01-caching/1-fifo_cache.py:32 | `popitem(last=False)` removes the first key of the order from the map, keeps order and map in step and shrinks the size by one |
| Caching.PopLastTracks | 0x01-caching/2-lifo_cache.py:32 | `popitem(last=True)` removes the last key of the order from the map, keeps order and map in step and shrinks the size by one |
| Caching.SetItemOrder | 0x01-caching/1-fifo_cache.py:35 | the key order after `cache_data[key] = item`: every existing key keeps its position, a new key is appended at the end, and the length grows by one only for a new key |
| Caching.SetItemTracks | 0x01-caching/1-fifo_cache.py:35 | `cache_data[key] = item` appends a new key at the end and leaves the order of an existing key alone, keeping order and map in step; the size grows by one only for a new key |
| Caching.MoveToEndTracks | 0x01-caching/3-lru_cache.py:42 | `move_to_end` on a cached key keeps order and map in step |
| Caching.SetItemMoveToEndTracks | 0x01-caching/2-lifo_cache.py:35-36 | assignment followed by `move_to_end` keeps order and map in step, and for a new key amounts to appending it |
| Fifo.FIFOCache.constructor | 0x01-caching/1-fifo_cache.py:14-18 | a new cache is empty and satisfies the invariant |
| Fifo.FIFOCache.IsFull | 0x01-caching/1-fifo_cache.py:20-23 | `is_full` holds exactly when the cache holds MAX_ITEMS keys, the most it can hold |
| Fifo.FIFOCache.Get | 0x01-caching/1-fifo_cache.py:37-40 | `get` returns the stored item of a cached key, and None for None or a miss; it changes nothing |
| Fifo.FIFOCache.Put | 0x01-caching/1-fifo_cache.py:25-35 | None key or item: nothing changes and nothing is discarded; otherwise a later `get(key)` returns item; a key is discarded exactly when the key is new and the cache is full, and it is the first key of the order; an existing key keeps its place; a new key is appended; the size stays at most MAX_ITEMS |
| Lifo.LIFOCache.constructor | 0x01-caching/2-lifo_cache.py:14-18 | a new cache is empty and satisfies the invariant |
| Lifo.LIFOCache.IsFull | 0x01-caching/2-lifo_cache.py:20-23 | `is_full` holds exactly when the cache holds MAX_ITEMS keys |
| Lifo.LIFOCache.Get | 0x01-caching/2-lifo_cache.py:38-41 | `get` returns the stored item, or None for None or a miss, and changes nothing |
| Lifo.LIFOCache.Put | 0x01-caching/2-lifo_cache.py:25-36 | None key or item: no change and no discard; otherwise `get(key)` returns item and key is last in the order; a key is discarded exactly when the key is new and the cache is full, and it is the last key of the old order; an existing key is moved to the end; the size stays at most MAX_ITEMS |
| Lru.LRUCache.constructor | 0x01-caching/3-lru_cache.py:14-18 | a new cache is empty and satisfies the invariant |
| Lru.LRUCache.IsFull | 0x01-caching/3-lru_cache.py:20-23 | `is_full` holds exactly when the cache holds MAX_ITEMS keys |
| Lru.LRUCache.Put | 0x01-caching/3-lru_cache.py:25-36 | None key or item: no change and no discard; otherwise key maps to item and is last in the order; a key is discarded exactly when the key is new and the cache is full, and it is the first (least recently touched) key; an existing key is moved to the end; the size stays at most MAX_ITEMS |
| Lru.LRUCache.Get | 0x01-caching/3-lru_cache.py:38-44 | `get` returns the stored item, or None for None or a miss; a hit moves the key to the end; the key set and items never change, and a miss leaves the order alone |
| LfuModel.Empty | 0x01-caching/100-lfu_cache.py:26-34 | the state built by `__init__`: no keys cached, no groups, min_freq 0 |
| LfuModel.Group | 0x01-caching/100-lfu_cache.py:44 | the defaultdict read `self.freq_map[f]`: the stored group when f is present, and an empty group otherwise |
| LfuModel.EmptyInv | 0x01-caching/100-lfu_cache.py:26-34 | the fresh cache, with no keys, no groups and min_freq 0, satisfies the invariant |
| LfuModel.IsFull | 0x01-caching/100-lfu_cache.py:36-39 | `is_full` holds exactly when the cache holds MAX_ITEMS keys |
| LfuModel.UpdateMinFreq | 0x01-caching/100-lfu_cache.py:48-51 | min_freq rises by exactly one when it equals freq and is unchanged otherwise |
| LfuModel.RemoveKey | 0x01-caching/100-lfu_cache.py:41-46 | the key leaves group freq and the other keys stay in order; the group is deleted exactly when it becomes empty, and only then min_freq is updated; other groups and cache_data are unchanged |
| LfuModel.UpdateFreq | 0x01-caching/100-lfu_cache.py:53-64 | the key's count becomes f + 1 and it is appended to group f + 1; group f loses it and survives only if non-empty; min_freq moves only when group f emptied; nothing else changes |
| LfuModel.EvictLfuKey | 0x01-caching/100-lfu_cache.py:86-90 | the returned key is the first of the min_freq group; it leaves that group and cache_data; the emptied group stays in freq_map; nothing else changes |
| LfuModel.InsertNew | 0x01-caching/100-lfu_cache.py:82-84 | the new key is cached at count 1, appended to group 1, and min_freq becomes 1; no other group changes |
| LfuModel.SetItem | 0x01-caching/100-lfu_cache.py:74 | the cached key gets the new item with its count unchanged; freq_map and min_freq are unchanged |
| LfuModel.Put | 0x01-caching/100-lfu_cache.py:66-84 | from a state satisfying the invariant, `put` always reaches a state satisfying it, so the size never exceeds MAX_ITEMS; a None key or item changes no field and discards nothing |
| LfuModel.Get | 0x01-caching/100-lfu_cache.py:92-99 | a hit returns the stored item, raises the key's count by one and keeps the invariant; None or a miss returns None and changes nothing |
| LfuModel.OnlyGroupOfKey | 0x01-caching/100-lfu_cache.py:55-64 | under the invariant a cached key occurs in exactly one group, the one of its count |
| LfuModel.EvictionIsSafe | 0x01-caching/100-lfu_cache.py:88 | when anything is cached, the min_freq group is non-empty, its first key is cached at count min_freq, and min_freq is at most every count, so `popitem` cannot fail |
| LfuModel.KeyInOwnGroup | 0x01-caching/100-lfu_cache.py:55-59 | a cached key is in the group of its count, so `del self.freq_map[freq][key]` finds it |
| LfuModel.SetItemKeepsInv | 0x01-caching/100-lfu_cache.py:74 | overwriting the item of a cached key keeps the invariant |
| LfuModel.UpdateFreqSound | 0x01-caching/100-lfu_cache.py:53-64 | after a count bump every group lists only cached keys at its own count |
| LfuModel.UpdateFreqDistinct | 0x01-caching/100-lfu_cache.py:53-64 | after a count bump no group lists a key twice |
| LfuModel.UpdateFreqComplete | 0x01-caching/100-lfu_cache.py:53-64 | after a count bump every cached key is listed in the group of its count |
| LfuModel.BumpLastAtMinFreq | 0x01-caching/100-lfu_cache.py:44-51 | bumping the only key at min_freq deletes its group from freq_map, puts the key in group min_freq + 1, and makes min_freq + 1 the new min_freq, still the least count with a non-empty group |
| LfuModel.BumpSharedAtMinFreq | 0x01-caching/100-lfu_cache.py:43-44 | bumping a key that shares min_freq with others leaves min_freq, still the least count, with a non-empty group |
| LfuModel.BumpAboveMinFreq | 0x01-caching/100-lfu_cache.py:50 | bumping a key above min_freq leaves min_freq and its group as they were |
| LfuModel.UpdateFreqMinFreq | 0x01-caching/100-lfu_cache.py:48-51 | after a bump min_freq is still the least count with a non-empty group; it rose by one exactly when the key was alone at min_freq |
| LfuModel.UpdateFreqKeepsInv | 0x01-caching/100-lfu_cache.py:53-64 | a count bump keeps the whole invariant |
| LfuModel.UpdateFreqKeepsIndexed | 0x01-caching/100-lfu_cache.py:53-64 | a count bump keeps cache_data and freq_map indexing each other |
| LfuModel.InsertKeepsIndexed | 0x01-caching/100-lfu_cache.py:82-83 | inserting a new key at count 1 into group 1 keeps cache_data and freq_map indexing each other |
| LfuModel.InsertKeepsInv | 0x01-caching/100-lfu_cache.py:82-84 | inserting a new key into a cache with room keeps the invariant, including min_freq = 1 being the least count, and grows the size by one |
| LfuModel.EvictKeepsIndexed | 0x01-caching/100-lfu_cache.py:88-90 | eviction keeps cache_data and freq_map indexing each other and shrinks the cache by one |
| LfuModel.EvictThenInsertKeepsInv | 0x01-caching/100-lfu_cache.py:78-84 | at a full cache, evicting and then inserting the new key keeps the invariant, and the size stays at MAX_ITEMS |
| LfuModel.SetItemThenBump | 0x01-caching/100-lfu_cache.py:74-75 | overwriting the item and then bumping the count gives the new item at count f + 1, appended to group f + 1 |
| LfuModel.PutExistingSpec | 0x01-caching/100-lfu_cache.py:72-76 | `put` of a cached key discards nothing, replaces the item, raises the count by exactly one, appends the key to the next group and leaves the key set (so the size) unchanged |
| LfuModel.PutNewSpec | 0x01-caching/100-lfu_cache.py:78-84 | `put` of a new key at a cache with room discards nothing; the key enters at count 1 at the end of group 1 and min_freq becomes 1 |
| LfuModel.PutEvictSpec | 0x01-caching/100-lfu_cache.py:78-90 | `put` of a new key at a full cache discards a cached key of least count; among all cached keys at that count, it reached the count first; the result holds the remaining keys plus the new one at count 1, MAX_ITEMS in all, with min_freq 1 and the new key appended at the end of group 1 as it stands after the eviction |
| LfuModel.GetAfterPut | 0x01-caching/100-lfu_cache.py:66-99 | `get(key)` right after `put(key, item)` returns item, in every case `put` can take |
| Lfu.LFUCache.constructor | 0x01-caching/100-lfu_cache.py:26-34 | a new cache is the empty state with min_freq 0 and satisfies the invariant |
| Lfu.LFUCache.IsFull | 0x01-caching/100-lfu_cache.py:36-39 | `is_full` holds exactly when the cache holds MAX_ITEMS keys |
| Lfu.LFUCache.UpdateMinFreq | 0x01-caching/100-lfu_cache.py:48-51 | changes only min_freq, as LfuModel.UpdateMinFreq says |
| Lfu.LFUCache.RemoveKey | 0x01-caching/100-lfu_cache.py:41-46 | the new fields are exactly LfuModel.RemoveKey of the old ones |
| Lfu.LFUCache.UpdateFreq | 0x01-caching/100-lfu_cache.py:53-64 | the new fields are exactly LfuModel.UpdateFreq of the old ones |
| Lfu.LFUCache.EvictLfuKey | 0x01-caching/100-lfu_cache.py:86-90 | the returned key and the new fields are exactly LfuModel.EvictLfuKey of the old ones |
| Lfu.LFUCache.Put | 0x01-caching/100-lfu_cache.py:66-84 | the new fields and the discarded key are exactly LfuModel.Put of the old fields, and the invariant holds afterwards |
| Lfu.LFUCache.Get | 0x01-caching/100-lfu_cache.py:92-99 | the new fields and the result are exactly LfuModel.Get of the old fields, and the invariant holds afterwards |

## Left out

- The `print("DISCARD: ...")` lines are not modelled as output. Each `put` returns the discarded key as an `Option<K>` instead.
- `base_caching.py` is not part of this model. Only its constant `MAX_ITEMS = 4` and the `cache_data` field are modelled. `print_cache` is left out.
- `Node.__str__` is left out because it only formats output.
- The LFU groups are key orders. In the source, the values stored in `freq_map` point to the same `Node` objects as `cache_data`. That sharing, and the in-place updates of `Node.item` and `Node.frequency`, are modelled by replacing the `cache_data` entry with an updated `Node` value. No part of the source reads a Node through `freq_map`.
- An `OrderedDict` is modelled as a key sequence next to a map, not as one object. Hashing is modelled by key equality (`K(==)`).
- `KeyError` paths are not modelled. Instead, requires clauses exclude them, and lemmas prove that every caller meets those requires:
  - `LFUCache._evict_lfu_key` would raise if the `min_freq` group were empty or missing. `EvictLfuKey` requires that group to be non-empty, and `EvictionIsSafe` proves it is non-empty whenever `put` evicts.
  - `del self.freq_map[freq][key]` (`100-lfu_cache.py:43`) and `self.cache_data[key]` (`100-lfu_cache.py:55`) would raise for an uncached key, or for a key missing from its group. `LfuModel.RemoveKey`, `LfuModel.UpdateFreq` and the `Lfu.LFUCache` methods of the same names require the key to be present. `KeyInOwnGroup` and `UpdateFreqKeepsInv` prove it is present at both call sites, in `put` and in `get`.
  - `Remove` and `MoveToEnd` are total, whereas `del` and `move_to_end` raise `KeyError` for an absent key. On an absent key, `Remove` returns the order unchanged and `MoveToEnd` appends the key. `MoveToEnd` is only applied to a key that is present, either already cached or just assigned (`2-lifo_cache.py:35-36`, `3-lru_cache.py:35-36` and `41-42`). `Remove` is only applied to a key in its group.
- The Flask, Babel and process-launcher code in `0x02-i18n/` is not part of this model. Those are thin framework and concurrency wrappers.
- The Redis and Kue code in `0x03-queuing_system_in_js/` is not part of this model. It is asynchronous I/O with no self-contained rule.
- Caching.RemoveSpec: states which keys remain, not that they keep their relative order. The order is kept by the definition of `Remove`, a left-to-right filter.
- The `Lfu.LFUCache` methods state their effects through the `LfuModel` functions. The properties of those functions, proved in `LfuModel`, carry over to the methods.
