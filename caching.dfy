/**
 * What the four cache policies share: the "absent" sentinel that stands for
 * Python's None, the capacity MAX_ITEMS of the base class, which is not modelled, and the
 * operations on an ordered key sequence that an OrderedDict performs when a key
 * is deleted or moved to its end.
 */
module Caching {

  /** Python's None for keys, items and lookup results. */
  datatype Option<T> = None | Some(value: T)

  /** BaseCaching.MAX_ITEMS, the capacity shared by every policy. */
  const MaxItems: nat := 4

  /** No key occurs twice in an ordering. */
  ghost predicate NoDup<T>(s: seq<T>)
  {
    forall i, j :: 0 <= i < j < |s| ==> s[i] != s[j]
  }

  /**
   * The ordering after `del od[x]`: every element except x, in the same relative
   * order. A sequence without x is returned as it is.
   */
  function Remove<T(==)>(s: seq<T>, x: T): (r: seq<T>)
    ensures |r| <= |s|
    ensures x !in s ==> r == s
  {
    if s == [] then []
    else if s[0] == x then Remove(s[1..], x)
    else [s[0]] + Remove(s[1..], x)
  }

  /**
   * What `del od[x]` does to the ordering: x is gone, every other element stays,
   * nothing new appears, no duplicate is introduced, and exactly one element
   * goes when x was there once.
   */
  lemma {:induction false} RemoveSpec<T>(s: seq<T>, x: T)
    ensures x !in Remove(s, x)
    ensures forall i :: 0 <= i < |Remove(s, x)| ==> Remove(s, x)[i] in s
    ensures forall i :: 0 <= i < |s| && s[i] != x ==> s[i] in Remove(s, x)
    ensures x !in s ==> Remove(s, x) == s
    ensures NoDup(s) ==> NoDup(Remove(s, x))
    ensures NoDup(s) && x in s ==> |Remove(s, x)| == |s| - 1
  {
    if s != [] {
      var tail := s[1..];
      RemoveSpec(tail, x);
      var rt := Remove(tail, x);
      forall i | 0 <= i < |s| && s[i] != x ensures s[i] in Remove(s, x) {
        if i > 0 {
          assert s[i] == tail[i - 1];
        }
      }
      if x !in s {
        assert x !in tail;
        assert s == [s[0]] + tail;
      }
      if NoDup(s) {
        assert NoDup(tail) by {
          forall i, j | 0 <= i < j < |tail| ensures tail[i] != tail[j] {
            assert tail[i] == s[i + 1] && tail[j] == s[j + 1];
          }
        }
        assert s[0] !in tail by {
          forall i | 0 <= i < |tail| ensures tail[i] != s[0] {
            assert tail[i] == s[i + 1];
          }
        }
        if s[0] != x {
          var r := [s[0]] + rt;
          assert s[0] !in rt;
          forall i, j | 0 <= i < j < |r| ensures r[i] != r[j] {
            assert r[j] == rt[j - 1];
            if i > 0 {
              assert r[i] == rt[i - 1];
            }
          }
        } else {
          assert x !in tail;
        }
        if x in s && s[0] != x {
          assert x in tail;
        }
      }
    }
  }

  /** Removing the first element of a duplicate-free ordering is dropping it. */
  lemma {:induction false} RemoveFirst<T>(s: seq<T>)
    requires s != [] && NoDup(s)
    ensures Remove(s, s[0]) == s[1..]
  {
    RemoveSpec(s[1..], s[0]);
    assert s[0] !in s[1..] by {
      forall i | 0 <= i < |s[1..]| ensures s[1..][i] != s[0] {
        assert s[1..][i] == s[i + 1];
      }
    }
  }

  /** Removing an element keeps the relative order of the front part before it. */
  lemma {:induction false} RemoveAppend<T>(s: seq<T>, t: seq<T>, x: T)
    ensures Remove(s + t, x) == Remove(s, x) + Remove(t, x)
  {
    if s == [] {
      assert s + t == t;
    } else {
      assert (s + t)[1..] == s[1..] + t;
      RemoveAppend(s[1..], t, x);
    }
  }

  /** Removing the last element of a duplicate-free ordering is dropping it. */
  lemma {:induction false} RemoveLast<T>(s: seq<T>)
    requires s != [] && NoDup(s)
    ensures Remove(s, s[|s| - 1]) == s[..|s| - 1]
  {
    var n := |s| - 1;
    assert s == s[..n] + [s[n]];
    assert s[n] !in s[..n] by {
      forall i | 0 <= i < n ensures s[..n][i] != s[n] {
        assert s[..n][i] == s[i];
      }
    }
    RemoveSpec(s[..n], s[n]);
    RemoveAppend(s[..n], [s[n]], s[n]);
    assert Remove([s[n]], s[n]) == [];
  }

  /** Removing a key that occurs once empties an ordering exactly when it was the only key. */
  lemma RemoveLeavesEmpty<T>(s: seq<T>, x: T)
    requires NoDup(s) && x in s
    ensures Remove(s, x) == [] <==> |s| == 1
  {
    RemoveSpec(s, x);
  }

  /** Appending an element that is absent introduces no duplicate. */
  lemma AppendNoDup<T>(s: seq<T>, x: T)
    requires NoDup(s) && x !in s
    ensures NoDup(s + [x])
  {
    var h := s + [x];
    forall i, j | 0 <= i < j < |h| ensures h[i] != h[j] {
      assert h[i] == s[i];
      if j < |s| {
        assert h[j] == s[j];
      }
    }
  }

  /** Dropping the first element keeps an ordering duplicate-free and drops only that element. */
  lemma DropFirstSpec<T>(s: seq<T>)
    requires s != [] && NoDup(s)
    ensures NoDup(s[1..]) && s[0] !in s[1..]
    ensures forall i :: 1 <= i < |s| ==> s[i] in s[1..]
  {
    RemoveFirst(s);
    RemoveSpec(s, s[0]);
    forall i | 1 <= i < |s| ensures s[i] in s[1..] {
      assert s[1..][i - 1] == s[i];
    }
  }

  /** `od.move_to_end(x)`: x leaves its place and becomes the last element. */
  function MoveToEnd<T(==)>(s: seq<T>, x: T): (r: seq<T>)
    ensures |r| > 0 && r[|r| - 1] == x
  {
    Remove(s, x) + [x]
  }

  /**
   * What `od.move_to_end(x)` does to the ordering: x is last, every element is
   * kept, nothing else appears, and no duplicate is introduced.
   */
  lemma MoveToEndSpec<T>(s: seq<T>, x: T)
    ensures forall i :: 0 <= i < |MoveToEnd(s, x)| ==> MoveToEnd(s, x)[i] in s || MoveToEnd(s, x)[i] == x
    ensures forall i :: 0 <= i < |s| ==> s[i] in MoveToEnd(s, x)
    ensures NoDup(s) ==> NoDup(MoveToEnd(s, x))
  {
    var r, m := Remove(s, x), MoveToEnd(s, x);
    RemoveSpec(s, x);
    forall i | 0 <= i < |m| ensures m[i] in s || m[i] == x {
      if i < |r| {
        assert m[i] == r[i];
      }
    }
    forall i | 0 <= i < |s| ensures s[i] in m {
      if s[i] != x {
        assert s[i] in r;
      }
    }
    if NoDup(s) {
      forall i, j | 0 <= i < j < |m| ensures m[i] != m[j] {
        assert m[i] == r[i];
        if j < |r| {
          assert m[j] == r[j];
        }
      }
    }
  }

  /**
   * The key ordering of an OrderedDict and its key-to-item mapping agree: every
   * key of the map occurs in the ordering exactly once, and nothing else does.
   */
  ghost predicate Tracks<K, V>(order: seq<K>, data: map<K, V>)
  {
    && NoDup(order)
    && (forall i :: 0 <= i < |order| ==> order[i] in data)
    && (forall k :: k in data ==> k in order)
  }

  /** An ordering that tracks a map has as many keys as the map: len(od) == |order|. */
  lemma {:induction false} OrderSize<K, V>(order: seq<K>, data: map<K, V>)
    requires Tracks(order, data)
    ensures |data| == |order|
  {
    if order == [] {
      assert data.Keys == {};
    } else {
      var k := order[0];
      var rest := data - {k};
      var tail := order[1..];
      assert k !in tail by {
        forall i | 0 <= i < |tail| ensures tail[i] != k {
          assert tail[i] == order[i + 1];
        }
      }
      assert NoDup(tail) by {
        forall i, j | 0 <= i < j < |tail| ensures tail[i] != tail[j] {
          assert tail[i] == order[i + 1] && tail[j] == order[j + 1];
        }
      }
      forall i | 0 <= i < |tail| ensures tail[i] in rest {
        assert tail[i] == order[i + 1];
      }
      forall x | x in rest ensures x in tail {
        var i :| 0 <= i < |order| && order[i] == x;
        assert i != 0;
        assert tail[i - 1] == x;
      }
      OrderSize(tail, rest);
      assert rest.Keys == data.Keys - {k};
    }
  }

  /** `od.popitem(last=False)` keeps the ordering and the map in step. */
  lemma PopFirstTracks<K, V>(order: seq<K>, data: map<K, V>)
    requires Tracks(order, data) && order != []
    ensures Tracks(order[1..], data - {order[0]})
    ensures |data - {order[0]}| == |data| - 1
  {
    var tail, rest := order[1..], data - {order[0]};
    RemoveFirst(order);
    forall k | k in rest ensures k in tail {
      assert k in order && k != order[0];
    }
    assert rest.Keys == data.Keys - {order[0]};
  }

  /** `od.popitem(last=True)` keeps the ordering and the map in step. */
  lemma PopLastTracks<K, V>(order: seq<K>, data: map<K, V>)
    requires Tracks(order, data) && order != []
    ensures Tracks(order[..|order| - 1], data - {order[|order| - 1]})
    ensures |data - {order[|order| - 1]}| == |data| - 1
  {
    var last := order[|order| - 1];
    var front, rest := order[..|order| - 1], data - {last};
    RemoveLast(order);
    forall k | k in rest ensures k in front {
      assert k in order && k != last;
    }
    assert rest.Keys == data.Keys - {last};
  }

  /** The ordering after `od[k] = v`: a new key is appended, a present key keeps its place. */
  function SetItemOrder<K, V>(order: seq<K>, data: map<K, V>, k: K): (r: seq<K>)
    ensures |r| == if k in data then |order| else |order| + 1
    ensures forall i :: 0 <= i < |order| ==> r[i] == order[i]
    ensures k !in data ==> r[|order|] == k
  {
    if k in data then order else order + [k]
  }

  /** `od[k] = v` keeps the ordering and the map in step. */
  lemma SetItemTracks<K, V>(order: seq<K>, data: map<K, V>, k: K, v: V)
    requires Tracks(order, data)
    ensures Tracks(SetItemOrder(order, data, k), data[k := v])
    ensures |data[k := v]| == if k in data then |data| else |data| + 1
  {
    if k !in data {
      var o := order + [k];
      assert k !in order;
      forall i, j | 0 <= i < j < |o| ensures o[i] != o[j] {
        if j < |order| {
          assert o[i] == order[i] && o[j] == order[j];
        } else {
          assert o[i] == order[i];
        }
      }
      forall i | 0 <= i < |o| ensures o[i] in data[k := v] {
        if i < |order| {
          assert o[i] == order[i];
        }
      }
      assert data[k := v].Keys == data.Keys + {k};
    } else {
      assert data[k := v].Keys == data.Keys;
    }
  }

  /** `od.move_to_end(k)` for a present key changes neither the keys nor the size. */
  lemma MoveToEndTracks<K, V>(order: seq<K>, data: map<K, V>, k: K)
    requires Tracks(order, data) && k in data
    ensures Tracks(MoveToEnd(order, k), data)
  {
    var o := MoveToEnd(order, k);
    MoveToEndSpec(order, k);
    forall i | 0 <= i < |o| ensures o[i] in data {
      if o[i] != k {
        var j :| 0 <= j < |order| && order[j] == o[i];
      }
    }
    forall x | x in data ensures x in o {
      assert x in order;
      var i :| 0 <= i < |order| && order[i] == x;
    }
  }

  /** Appending a key that is absent and then moving it to the end is only appending it. */
  lemma MoveAppendedToEnd<T>(s: seq<T>, x: T)
    requires x !in s
    ensures MoveToEnd(s + [x], x) == s + [x]
  {
    RemoveSpec(s, x);
    RemoveAppend(s, [x], x);
    assert Remove([x], x) == [];
  }

  /**
   * `od[k] = v` followed by `od.move_to_end(k)`: the ordering and the map stay
   * in step, and a new key is simply appended.
   */
  lemma SetItemMoveToEndTracks<K, V>(order: seq<K>, data: map<K, V>, k: K, v: V)
    requires Tracks(order, data)
    ensures Tracks(MoveToEnd(SetItemOrder(order, data, k), k), data[k := v])
    ensures |data[k := v]| == if k in data then |data| else |data| + 1
    ensures k !in data ==> MoveToEnd(SetItemOrder(order, data, k), k) == order + [k]
  {
    SetItemTracks(order, data, k, v);
    MoveToEndTracks(SetItemOrder(order, data, k), data[k := v], k);
    if k !in data {
      MoveAppendedToEnd(order, k);
    }
  }
}
