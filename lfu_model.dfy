/**
 * The state of an LFUCache as a value, and each of its operations as a function
 * on that value. The class in module Lfu performs the same steps on its fields;
 * the invariant that makes the eviction safe is proved here, once.
 *
 * cacheData maps a key to its Node (item and use count), freqMap maps a use count
 * to the group of keys currently at that count (oldest arrival in the group
 * first), and minFreq is the running minimum the eviction reads.
 */
module LfuModel {
  import opened Caching

  datatype Node<V> = Node(item: V, frequency: nat)

  datatype LfuState<K, V> = LfuState(
    cacheData: map<K, Node<V>>,
    freqMap: map<nat, seq<K>>,
    minFreq: nat)

  /** A fresh cache: nothing stored, no groups, min_freq 0. */
  function Empty<K, V>(): (r: LfuState<K, V>)
    ensures r.cacheData == map[] && r.freqMap == map[] && r.minFreq == 0
  {
    LfuState(map[], map[], 0)
  }

  /** `self.freq_map[f]` read through the defaultdict: a missing group reads as empty. */
  function Group<K, V>(s: LfuState<K, V>, f: nat): (r: seq<K>)
    ensures f in s.freqMap ==> r == s.freqMap[f]
    ensures f !in s.freqMap ==> r == []
  {
    if f in s.freqMap then s.freqMap[f] else []
  }

  /** Use count of a cached key. */
  function Freq<K, V>(s: LfuState<K, V>, k: K): (f: nat)
    requires k in s.cacheData
  {
    s.cacheData[k].frequency
  }

  /** Every key of every group is cached, at the count that indexes the group. */
  ghost predicate GroupsSound<K, V>(s: LfuState<K, V>)
  {
    forall f, k :: f in s.freqMap && k in s.freqMap[f] ==> k in s.cacheData && s.cacheData[k].frequency == f
  }

  /** No group lists a key twice. */
  ghost predicate GroupsDistinct<K, V>(s: LfuState<K, V>)
  {
    forall f :: f in s.freqMap ==> NoDup(s.freqMap[f])
  }

  /** Every cached key is listed in the group of its count. */
  ghost predicate GroupsComplete<K, V>(s: LfuState<K, V>)
  {
    forall k :: k in s.cacheData ==>
      s.cacheData[k].frequency in s.freqMap && k in s.freqMap[s.cacheData[k].frequency]
  }

  /** Use counts start at 1 and only grow. */
  ghost predicate FrequenciesPositive<K, V>(s: LfuState<K, V>)
  {
    forall k :: k in s.cacheData ==> s.cacheData[k].frequency >= 1
  }

  /**
   * cacheData and freqMap index each other. Groups emptied by an eviction may
   * linger in freqMap; they are allowed.
   */
  ghost predicate Indexed<K, V>(s: LfuState<K, V>)
  {
    GroupsSound(s) && GroupsDistinct(s) && GroupsComplete(s) && FrequenciesPositive(s)
  }

  /**
   * While anything is cached, min_freq is a lower bound of all counts and its
   * group is present and non-empty, so it is the least count in use.
   */
  ghost predicate MinFreqTracked<K, V>(s: LfuState<K, V>)
  {
    s.cacheData != map[] ==>
      && s.minFreq in s.freqMap
      && s.freqMap[s.minFreq] != []
      && forall k :: k in s.cacheData ==> s.minFreq <= s.cacheData[k].frequency
  }

  /** The invariant kept between calls. */
  ghost predicate Inv<K, V>(s: LfuState<K, V>)
  {
    Indexed(s) && MinFreqTracked(s) && |s.cacheData| <= MaxItems
  }

  lemma EmptyInv<K, V>()
    ensures Inv(Empty<K, V>())
  {
  }

  /** `is_full`: the cache holds MAX_ITEMS keys, the most it can hold. */
  function IsFull<K, V>(s: LfuState<K, V>): (r: bool)
    requires Inv(s)
    ensures r <==> |s.cacheData| == MaxItems
  {
    |s.cacheData| >= MaxItems
  }

  /** `_update_min_freq`: min_freq moves up by one, and only when it names freq. */
  function UpdateMinFreq(minFreq: nat, freq: nat): (r: nat)
    ensures minFreq <= r <= minFreq + 1
    ensures r != minFreq <==> minFreq == freq
  {
    if minFreq == freq then minFreq + 1 else minFreq
  }

  /**
   * `_remove_key`: key leaves group freq; an emptied group is deleted and then
   * min_freq is updated. Nothing else changes.
   */
  function RemoveKey<K, V>(s: LfuState<K, V>, key: K, freq: nat): (r: LfuState<K, V>)
    requires freq in s.freqMap && key in s.freqMap[freq]
    ensures r.cacheData == s.cacheData
    ensures key !in Group(r, freq)
    ensures freq in r.freqMap <==> Remove(s.freqMap[freq], key) != []
    ensures freq in r.freqMap ==> r.freqMap[freq] == Remove(s.freqMap[freq], key)
    ensures forall f :: f != freq ==> (f in r.freqMap <==> f in s.freqMap) && Group(r, f) == Group(s, f)
    ensures r.minFreq == if freq in r.freqMap then s.minFreq else UpdateMinFreq(s.minFreq, freq)
  {
    RemoveSpec(s.freqMap[freq], key);
    var group := Remove(s.freqMap[freq], key);
    if group == [] then
      s.(freqMap := s.freqMap - {freq}, minFreq := UpdateMinFreq(s.minFreq, freq))
    else
      s.(freqMap := s.freqMap[freq := group])
  }

  /**
   * `_update_freq`: a cached key moves from the group of its count f to the end
   * of the group of f + 1, and its count becomes f + 1.
   */
  function UpdateFreq<K, V>(s: LfuState<K, V>, key: K): (r: LfuState<K, V>)
    requires key in s.cacheData && key in Group(s, Freq(s, key))
    ensures r.cacheData == s.cacheData[key := Node(s.cacheData[key].item, Freq(s, key) + 1)]
    ensures Group(r, Freq(s, key) + 1) == Group(s, Freq(s, key) + 1) + [key]
    ensures Freq(s, key) in r.freqMap <==> Remove(Group(s, Freq(s, key)), key) != []
    ensures Group(r, Freq(s, key)) == Remove(Group(s, Freq(s, key)), key)
    ensures forall f :: f != Freq(s, key) && f != Freq(s, key) + 1 ==>
      (f in r.freqMap <==> f in s.freqMap) && Group(r, f) == Group(s, f)
    ensures r.minFreq ==
      if Remove(Group(s, Freq(s, key)), key) == [] then UpdateMinFreq(s.minFreq, Freq(s, key)) else s.minFreq
  {
    var f := s.cacheData[key].frequency;
    var removed := RemoveKey(s, key, f);
    removed.(
      cacheData := removed.cacheData[key := Node(s.cacheData[key].item, f + 1)],
      freqMap := removed.freqMap[f + 1 := Group(removed, f + 1) + [key]])
  }

  /**
   * `_evict_lfu_key`: the oldest key of the min_freq group leaves that group and
   * the cache, and is returned. The (possibly now empty) group stays in freqMap.
   */
  function EvictLfuKey<K, V>(s: LfuState<K, V>): (r: (LfuState<K, V>, K))
    requires Group(s, s.minFreq) != [] && Group(s, s.minFreq)[0] in s.cacheData
    ensures r.1 == Group(s, s.minFreq)[0]
    ensures r.0.cacheData == s.cacheData - {r.1}
    ensures Group(r.0, s.minFreq) == Group(s, s.minFreq)[1..] && s.minFreq in r.0.freqMap
    ensures forall f :: f != s.minFreq ==> (f in r.0.freqMap <==> f in s.freqMap) && Group(r.0, f) == Group(s, f)
    ensures r.0.minFreq == s.minFreq
  {
    var group := s.freqMap[s.minFreq];
    (s.(freqMap := s.freqMap[s.minFreq := group[1..]], cacheData := s.cacheData - {group[0]}), group[0])
  }

  /** The tail of `put`: a new key enters with count 1 at the end of group 1. */
  function InsertNew<K, V>(s: LfuState<K, V>, key: K, item: V): (r: LfuState<K, V>)
    ensures r.cacheData == s.cacheData[key := Node(item, 1)]
    ensures Group(r, 1) == Group(s, 1) + [key]
    ensures forall f :: f != 1 ==> (f in r.freqMap <==> f in s.freqMap) && Group(r, f) == Group(s, f)
    ensures r.minFreq == 1
  {
    s.(cacheData := s.cacheData[key := Node(item, 1)],
       freqMap := s.freqMap[1 := Group(s, 1) + [key]],
       minFreq := 1)
  }

  /** `put` when key and item are both given and key is already cached: overwrite the item. */
  function SetItem<K, V>(s: LfuState<K, V>, key: K, item: V): (r: LfuState<K, V>)
    requires key in s.cacheData
    ensures r.cacheData == s.cacheData[key := Node(item, Freq(s, key))]
    ensures r.freqMap == s.freqMap && r.minFreq == s.minFreq
  {
    s.(cacheData := s.cacheData[key := s.cacheData[key].(item := item)])
  }

  /** `put`: the new state and the key it discarded, if any. */
  function Put<K, V>(s: LfuState<K, V>, key: Option<K>, item: Option<V>): (r: (LfuState<K, V>, Option<K>))
    requires Inv(s)
    ensures Inv(r.0)
    ensures key.None? || item.None? ==> r.0 == s && r.1 == None
  {
    if key.None? || item.None? then (s, None)
    else
      var k, v := key.value, item.value;
      if k in s.cacheData then
        SetItemKeepsInv(s, k, v);
        UpdateFreqKeepsInv(SetItem(s, k, v), k);
        (UpdateFreq(SetItem(s, k, v), k), None)
      else if IsFull(s) then
        EvictionIsSafe(s);
        EvictThenInsertKeepsInv(s, k, v);
        var (evicted, victim) := EvictLfuKey(s);
        (InsertNew(evicted, k, v), Some(victim))
      else
        InsertKeepsInv(s, k, v);
        (InsertNew(s, k, v), None)
  }

  /** `get`: the stored item, after counting the use; None for None or a miss. */
  function Get<K, V>(s: LfuState<K, V>, key: Option<K>): (r: (LfuState<K, V>, Option<V>))
    requires Inv(s)
    ensures Inv(r.0)
    ensures r.1.Some? <==> key.Some? && key.value in s.cacheData
    ensures r.1.Some? ==> r.1.value == s.cacheData[key.value].item
    ensures r.1.Some? ==> r.0.cacheData == s.cacheData[key.value := Node(r.1.value, Freq(s, key.value) + 1)]
    ensures r.1.None? ==> r.0 == s
  {
    if key.Some? && key.value in s.cacheData then
      UpdateFreqKeepsInv(s, key.value);
      var bumped := UpdateFreq(s, key.value);
      (bumped, Some(bumped.cacheData[key.value].item))
    else (s, None)
  }

  // ---------------------------------------------------------------------------
  // The invariant

  /** Under the invariant a cached key is in exactly one group: the group of its count. */
  lemma OnlyGroupOfKey<K, V>(s: LfuState<K, V>, k: K, f: nat)
    requires Inv(s) && k in s.cacheData
    ensures k in Group(s, f) <==> f == Freq(s, k)
  {
  }

  /**
   * When anything is cached, min_freq is the least count in use, and the
   * popitem on its group in `_evict_lfu_key` finds a cached key to remove.
   */
  lemma {:induction false} EvictionIsSafe<K, V>(s: LfuState<K, V>)
    requires Inv(s) && s.cacheData != map[]
    ensures Group(s, s.minFreq) != [] && Group(s, s.minFreq)[0] in s.cacheData
    ensures Freq(s, Group(s, s.minFreq)[0]) == s.minFreq
    ensures forall k :: k in s.cacheData ==> s.minFreq <= Freq(s, k)
  {
    var g := s.freqMap[s.minFreq];
    assert g[0] in g;
  }

  /** A cached key is listed in the group of its count. */
  lemma KeyInOwnGroup<K, V>(s: LfuState<K, V>, key: K)
    requires GroupsComplete(s) && key in s.cacheData
    ensures key in Group(s, Freq(s, key))
  {
  }

  /** Overwriting the item of a cached key touches no count and no group. */
  lemma SetItemKeepsInv<K, V>(s: LfuState<K, V>, key: K, item: V)
    requires Inv(s) && key in s.cacheData
    ensures Inv(SetItem(s, key, item))
  {
    var r := SetItem(s, key, item);
    assert r.cacheData.Keys == s.cacheData.Keys;
  }

  /** A count bump keeps every group listing only keys cached at its count. */
  lemma UpdateFreqSound<K, V>(s: LfuState<K, V>, key: K)
    requires GroupsSound(s) && key in s.cacheData && key in Group(s, Freq(s, key))
    ensures GroupsSound(UpdateFreq(s, key))
  {
    var f, r := Freq(s, key), UpdateFreq(s, key);
    var rest := Remove(Group(s, f), key);
    RemoveSpec(Group(s, f), key);
    forall h, k | h in r.freqMap && k in r.freqMap[h]
      ensures k in r.cacheData && r.cacheData[k].frequency == h
    {
      assert k in Group(r, h);
      if h == f + 1 {
        if k != key {
          assert k in Group(s, f + 1);
        }
      } else if h == f {
        var i :| 0 <= i < |rest| && rest[i] == k;
        assert k in Group(s, f);
      } else {
        assert k in Group(s, h);
      }
    }
  }

  /** A count bump keeps every group free of duplicates. */
  lemma UpdateFreqDistinct<K, V>(s: LfuState<K, V>, key: K)
    requires GroupsSound(s) && GroupsDistinct(s)
    requires key in s.cacheData && key in Group(s, Freq(s, key))
    ensures GroupsDistinct(UpdateFreq(s, key))
  {
    var f, r := Freq(s, key), UpdateFreq(s, key);
    RemoveSpec(Group(s, f), key);
    assert NoDup(Group(s, f + 1));
    assert key !in Group(s, f + 1);
    AppendNoDup(Group(s, f + 1), key);
    forall h | h in r.freqMap ensures NoDup(r.freqMap[h]) {
      assert r.freqMap[h] == Group(r, h);
      if h != f && h != f + 1 {
        assert Group(r, h) == s.freqMap[h];
      }
    }
  }

  /** A count bump keeps every cached key listed in the group of its count. */
  lemma UpdateFreqComplete<K, V>(s: LfuState<K, V>, key: K)
    requires GroupsComplete(s) && key in s.cacheData && key in Group(s, Freq(s, key))
    ensures GroupsComplete(UpdateFreq(s, key))
  {
    var f, r := Freq(s, key), UpdateFreq(s, key);
    var rest := Remove(Group(s, f), key);
    RemoveSpec(Group(s, f), key);
    forall k | k in r.cacheData
      ensures r.cacheData[k].frequency in r.freqMap && k in r.freqMap[r.cacheData[k].frequency]
    {
      if k != key {
        var h := Freq(s, k);
        assert k in Group(s, h);
        if h == f {
          var i :| 0 <= i < |Group(s, f)| && Group(s, f)[i] == k;
          assert k in rest;
          assert k in Group(r, f);
        } else if h == f + 1 {
          assert k in Group(r, f + 1);
        } else {
          assert k in Group(r, h);
        }
      }
    }
  }

  /**
   * Bumping the last key at min_freq: the group of min_freq is deleted and
   * min_freq + 1, where the key now sits, is the new least count.
   */
  lemma BumpLastAtMinFreq<K, V>(s: LfuState<K, V>, key: K)
    requires GroupsComplete(s) && MinFreqTracked(s) && key in s.cacheData
    requires s.minFreq == Freq(s, key) && Group(s, s.minFreq) == [key]
    ensures MinFreqTracked(UpdateFreq(s, key)) && UpdateFreq(s, key).minFreq == s.minFreq + 1
    ensures s.minFreq !in UpdateFreq(s, key).freqMap
    ensures key in Group(UpdateFreq(s, key), s.minFreq + 1)
  {
    var f, r := s.minFreq, UpdateFreq(s, key);
    assert key in Group(s, f);
    assert Remove([key], key) == Remove([], key);
    forall k | k in r.cacheData && k != key ensures f + 1 <= r.cacheData[k].frequency {
      assert k in Group(s, Freq(s, k)) && k !in Group(s, f);
    }
    assert key in Group(r, f + 1);
  }

  /** Bumping a key at min_freq that has company there: min_freq stays, its group keeps the others. */
  lemma BumpSharedAtMinFreq<K, V>(s: LfuState<K, V>, key: K)
    requires MinFreqTracked(s) && key in s.cacheData && key in Group(s, Freq(s, key))
    requires s.minFreq == Freq(s, key) && Remove(Group(s, s.minFreq), key) != []
    ensures MinFreqTracked(UpdateFreq(s, key)) && UpdateFreq(s, key).minFreq == s.minFreq
  {
  }

  /** Bumping a key above min_freq: min_freq and its group stay as they are. */
  lemma BumpAboveMinFreq<K, V>(s: LfuState<K, V>, key: K)
    requires MinFreqTracked(s) && key in s.cacheData && key in Group(s, Freq(s, key))
    requires s.minFreq < Freq(s, key)
    ensures MinFreqTracked(UpdateFreq(s, key)) && UpdateFreq(s, key).minFreq == s.minFreq
    ensures Group(UpdateFreq(s, key), s.minFreq) == Group(s, s.minFreq)
  {
    assert Group(UpdateFreq(s, key), s.minFreq) == Group(s, s.minFreq);
  }

  /**
   * The running minimum stays exact under a count bump: min_freq only moves when
   * the bumped key was the last one at min_freq, and then by one.
   */
  lemma UpdateFreqMinFreq<K, V>(s: LfuState<K, V>, key: K)
    requires Inv(s) && key in s.cacheData
    ensures key in Group(s, Freq(s, key))
    ensures MinFreqTracked(UpdateFreq(s, key))
    ensures UpdateFreq(s, key).minFreq ==
      if s.minFreq == Freq(s, key) && |Group(s, Freq(s, key))| == 1 then s.minFreq + 1 else s.minFreq
  {
    var f := Freq(s, key);
    var g := Group(s, f);
    assert key in g;
    RemoveLeavesEmpty(g, key);
    if s.minFreq == f && |g| == 1 {
      assert g == [key] by {
        assert g[0] == key;
      }
      BumpLastAtMinFreq(s, key);
    } else if s.minFreq == f {
      BumpSharedAtMinFreq(s, key);
    } else {
      BumpAboveMinFreq(s, key);
    }
  }

  /** `_update_freq` keeps the invariant: this is why `put` and `get` may bump counts freely. */
  lemma UpdateFreqKeepsInv<K, V>(s: LfuState<K, V>, key: K)
    requires Inv(s) && key in s.cacheData
    ensures key in Group(s, Freq(s, key))
    ensures Inv(UpdateFreq(s, key))
  {
    UpdateFreqMinFreq(s, key);
    UpdateFreqKeepsIndexed(s, key);
  }

  /** A count bump keeps cacheData and freqMap indexing each other. */
  lemma UpdateFreqKeepsIndexed<K, V>(s: LfuState<K, V>, key: K)
    requires Indexed(s) && key in s.cacheData && key in Group(s, Freq(s, key))
    ensures Indexed(UpdateFreq(s, key))
  {
    UpdateFreqSound(s, key);
    UpdateFreqDistinct(s, key);
    UpdateFreqComplete(s, key);
  }

  /** A new key enters the index consistently: it is cached at count 1 and listed once, in group 1. */
  lemma InsertKeepsIndexed<K, V>(s: LfuState<K, V>, key: K, item: V)
    requires Indexed(s) && key !in s.cacheData
    ensures Indexed(InsertNew(s, key, item))
  {
    var r := InsertNew(s, key, item);
    assert key !in Group(s, 1);
    AppendNoDup(Group(s, 1), key);
    forall f, k | f in r.freqMap && k in r.freqMap[f]
      ensures k in r.cacheData && r.cacheData[k].frequency == f
    {
      assert k in Group(r, f);
      if f == 1 {
        if k != key {
          assert k in Group(s, 1);
        }
      } else {
        assert k in Group(s, f);
      }
    }
    forall f | f in r.freqMap ensures NoDup(r.freqMap[f]) {
      assert r.freqMap[f] == Group(r, f);
    }
    forall k | k in r.cacheData
      ensures r.cacheData[k].frequency in r.freqMap && k in r.freqMap[r.cacheData[k].frequency]
    {
      if k != key {
        assert k in Group(s, Freq(s, k));
        assert k in Group(r, Freq(s, k));
      } else {
        assert k in Group(r, 1);
      }
    }
  }

  /** A new key at a cache with room for it leaves the invariant intact, with min_freq reset to 1. */
  lemma InsertKeepsInv<K, V>(s: LfuState<K, V>, key: K, item: V)
    requires Indexed(s) && key !in s.cacheData && |s.cacheData| < MaxItems
    ensures Inv(InsertNew(s, key, item))
    ensures |InsertNew(s, key, item).cacheData| == |s.cacheData| + 1
  {
    var r := InsertNew(s, key, item);
    InsertKeepsIndexed(s, key, item);
    assert key in Group(r, 1);
    assert r.cacheData.Keys == s.cacheData.Keys + {key};
  }

  /** The eviction takes its victim out of the index consistently and shrinks the cache by one. */
  lemma EvictKeepsIndexed<K, V>(s: LfuState<K, V>)
    requires Indexed(s) && Group(s, s.minFreq) != [] && Group(s, s.minFreq)[0] in s.cacheData
    ensures Indexed(EvictLfuKey(s).0)
    ensures |EvictLfuKey(s).0.cacheData| == |s.cacheData| - 1
  {
    var g := Group(s, s.minFreq);
    var victim := g[0];
    var e := EvictLfuKey(s).0;
    DropFirstSpec(g);
    forall f, k | f in e.freqMap && k in e.freqMap[f]
      ensures k in e.cacheData && e.cacheData[k].frequency == f
    {
      assert k in Group(e, f);
      if f == s.minFreq {
        assert k in g && k != victim;
      } else {
        assert k in Group(s, f);
      }
    }
    forall f | f in e.freqMap ensures NoDup(e.freqMap[f]) {
      assert e.freqMap[f] == Group(e, f);
    }
    forall k | k in e.cacheData
      ensures e.cacheData[k].frequency in e.freqMap && k in e.freqMap[e.cacheData[k].frequency]
    {
      var h := Freq(s, k);
      assert k in Group(s, h);
      if h == s.minFreq {
        var i :| 0 <= i < |g| && g[i] == k;
        assert i != 0;
        assert k in Group(e, h);
      } else {
        assert k in Group(e, h);
      }
    }
    assert e.cacheData.Keys == s.cacheData.Keys - {victim};
  }

  /**
   * Eviction at a full cache followed by the insertion of the new key leaves
   * the invariant intact, and the cache stays at exactly MAX_ITEMS keys.
   */
  lemma EvictThenInsertKeepsInv<K, V>(s: LfuState<K, V>, key: K, item: V)
    requires Inv(s) && key !in s.cacheData && |s.cacheData| == MaxItems
    ensures Group(s, s.minFreq) != [] && Group(s, s.minFreq)[0] in s.cacheData
    ensures Inv(InsertNew(EvictLfuKey(s).0, key, item))
    ensures |InsertNew(EvictLfuKey(s).0, key, item).cacheData| == MaxItems
  {
    assert s.cacheData != map[] by {
      assert |s.cacheData| > 0;
    }
    EvictionIsSafe(s);
    EvictKeepsIndexed(s);
    var e := EvictLfuKey(s).0;
    InsertKeepsInv(e, key, item);
  }

  // ---------------------------------------------------------------------------
  // What `put` and `get` do, case by case

  /** Overwriting the item of a cached key and then bumping its count, seen in one step. */
  lemma SetItemThenBump<K, V>(s: LfuState<K, V>, key: K, item: V)
    requires key in s.cacheData && key in Group(s, Freq(s, key))
    ensures var t := SetItem(s, key, item);
      && key in Group(t, Freq(t, key))
      && UpdateFreq(t, key).cacheData == s.cacheData[key := Node(item, Freq(s, key) + 1)]
      && Group(UpdateFreq(t, key), Freq(s, key) + 1) == Group(s, Freq(s, key) + 1) + [key]
  {
    var t := SetItem(s, key, item);
    var bumped := Node(item, Freq(s, key) + 1);
    assert Group(t, Freq(t, key)) == Group(s, Freq(s, key));
    assert UpdateFreq(t, key).cacheData == t.cacheData[key := bumped];
    assert t.cacheData[key := bumped] == s.cacheData[key := bumped];
  }

  /** `put` of an existing key: nothing is discarded, the item is replaced and its count rises by one. */
  lemma PutExistingSpec<K, V>(s: LfuState<K, V>, key: K, item: V)
    requires Inv(s) && key in s.cacheData
    ensures Put(s, Some(key), Some(item)).1 == None
    ensures Put(s, Some(key), Some(item)).0.cacheData == s.cacheData[key := Node(item, Freq(s, key) + 1)]
    ensures Group(Put(s, Some(key), Some(item)).0, Freq(s, key) + 1) == Group(s, Freq(s, key) + 1) + [key]
  {
    KeyInOwnGroup(s, key);
    SetItemThenBump(s, key, item);
    assert Put(s, Some(key), Some(item)) == (UpdateFreq(SetItem(s, key, item), key), None);
  }

  /** `put` of a new key with room to spare: nothing is discarded, the key enters group 1 last, at count 1. */
  lemma PutNewSpec<K, V>(s: LfuState<K, V>, key: K, item: V)
    requires Inv(s) && key !in s.cacheData && |s.cacheData| < MaxItems
    ensures Put(s, Some(key), Some(item)).1 == None
    ensures Put(s, Some(key), Some(item)).0.cacheData == s.cacheData[key := Node(item, 1)]
    ensures Group(Put(s, Some(key), Some(item)).0, 1) == Group(s, 1) + [key]
    ensures Put(s, Some(key), Some(item)).0.minFreq == 1
  {
    assert !IsFull(s);
  }

  /**
   * `put` of a new key at a full cache discards exactly one key: one of least
   * count, and among the keys at that count the one that reached it first.
   * The new key then enters at count 1 and the size stays at MAX_ITEMS.
   */
  lemma PutEvictSpec<K, V>(s: LfuState<K, V>, key: K, item: V)
    requires Inv(s) && key !in s.cacheData && |s.cacheData| == MaxItems
    ensures Put(s, Some(key), Some(item)).1.Some?
    ensures var victim := Put(s, Some(key), Some(item)).1.value;
      && victim in s.cacheData
      && (forall k :: k in s.cacheData ==> Freq(s, victim) <= Freq(s, k))
      && Group(s, Freq(s, victim)) != [] && victim == Group(s, Freq(s, victim))[0]
      && (forall k :: k in s.cacheData && Freq(s, k) == Freq(s, victim) ==> k in Group(s, Freq(s, victim)))
    ensures var (r, victim) := Put(s, Some(key), Some(item));
      && r.cacheData == (s.cacheData - {victim.value})[key := Node(item, 1)]
      && |r.cacheData| == MaxItems
      && r.minFreq == 1
    ensures Group(s, s.minFreq) != [] && Group(s, s.minFreq)[0] in s.cacheData
    ensures Group(Put(s, Some(key), Some(item)).0, 1) == Group(EvictLfuKey(s).0, 1) + [key]
  {
    assert s.cacheData != map[] by {
      assert |s.cacheData| > 0;
    }
    EvictionIsSafe(s);
    EvictThenInsertKeepsInv(s, key, item);
    EvictKeepsIndexed(s);
    var e := EvictLfuKey(s);
    assert Put(s, Some(key), Some(item)) == (InsertNew(e.0, key, item), Some(e.1));
    assert key !in e.0.cacheData && |e.0.cacheData| == MaxItems - 1;
    assert InsertNew(e.0, key, item).cacheData == (s.cacheData - {e.1})[key := Node(item, 1)];
  }

  /** Round trip: `get(key)` right after `put(key, item)` returns item, whichever case `put` took. */
  lemma GetAfterPut<K, V>(s: LfuState<K, V>, key: K, item: V)
    requires Inv(s)
    ensures Get(Put(s, Some(key), Some(item)).0, Some(key)).1 == Some(item)
  {
    if key in s.cacheData {
      PutExistingSpec(s, key, item);
    } else if |s.cacheData| < MaxItems {
      PutNewSpec(s, key, item);
    } else {
      PutEvictSpec(s, key, item);
    }
  }
}
