/** Delete in lfu.go looks for the key's node in the list of its counter,
    while every node sits one list higher (a fresh entry has counter 0 and
    lives in list 1). The node therefore stays listed after the key is gone.
    This module shows the consequence on LfuState.Delete, which models the
    code as written, and proves that the corrected removal keeps the
    invariant LfuState.Valid. */
module LfuFindings {
  import opened LfuState
  import opened LfuInvariants

  // ---------------------------------------------------------------------------
  // As written

  /** After Delete of a live key its node is still in the list above its
      counter and still names the key, so the lists no longer match `items`. */
  lemma DeleteLeavesStaleNode<K, V>(s: State<K, V>, key: K)
    requires Valid(s) && key in s.items
    ensures var r := Delete(s, key).0; var f := s.items[key].accessCount + 1;
      && key !in r.items
      && f in r.buckets && s.keyToNode[key] in r.buckets[f]
      && r.nodeKey[s.keyToNode[key]] == key
      && !Linked(r)
  {
    var c := s.items[key].accessCount;
    var n := s.keyToNode[key];
    assert n !in Bucket(s.buckets, c);
    var r := Delete(s, key).0;
    assert r.buckets == s.buckets;
    assert n in r.buckets[c + 1];
    assert !NodeIsLive(r.items, r.keyToNode, r.nodeKey, c + 1, n);
  }

  // A cache of capacity 1: add key 1, delete it, add keys 2 and 3. The
  // eviction before key 3 pops the stale node of key 1 instead of key 2, so
  // the cache ends with two entries while its size says one. The states
  // below are the ones after each of the four calls.

  const Trace1: State<int, int> := State(1, 1, map[1 := Item(1, 10, 0, 0)], map[1 := 0], map[1 := [0]], map[0 := 1], 1, 1, [], [], [])
  const Trace2: State<int, int> := State(1, 0, map[], map[], map[1 := [0]], map[0 := 1], 1, 1, [], [], [])
  const Trace3: State<int, int> := State(1, 1, map[2 := Item(2, 20, 0, 0)], map[2 := 1], map[1 := [1, 0]], map[0 := 1, 1 := 2], 2, 1, [], [], [])

  lemma TraceAdd1()
    ensures Add(Init<int, int>(1), 1, 0, 10).0 == Trace1
  {
    assert [0] + Bucket(map[], 1) == [0];
  }

  lemma TraceDelete1()
    ensures Delete(Trace1, 1).0 == Trace2
  {
    assert Trace1.items - {1} == map[];
    assert Trace1.keyToNode - {1} == map[];
  }

  lemma TraceAdd2()
    ensures Add(Trace2, 2, 0, 20).0 == Trace3
  {
    assert [1] + Bucket(Trace2.buckets, 1) == [1, 0];
  }

  lemma TraceAdd3()
    ensures var r := Add(Trace3, 3, 0, 30).0;
      && r.size == 1
      && r.items == map[2 := Item(2, 20, 0, 0), 3 := Item(3, 30, 0, 0)]
  {
    assert CanEvict(Trace3) && Victim(Trace3) == 1;
    var e := Evict(Trace3);
    assert e.items == Trace3.items && e.size == 0 by {
      EvictShape(Trace3);
    }
  }

  /** The whole trace: the final cache holds more entries than its capacity
      allows while its size counts one. */
  lemma DeleteThenOverfill()
    ensures var s1 := Add(Init<int, int>(1), 1, 0, 10).0;
      var s2 := Delete(s1, 1).0;
      var s3 := Add(s2, 2, 0, 20).0;
      var s4 := Add(s3, 3, 0, 30).0;
      && s4.size == 1
      && 2 in s4.items && 3 in s4.items
      && |s4.items| > Max(s4.capacity, 1)
  {
    TraceAdd1();
    TraceDelete1();
    TraceAdd2();
    TraceAdd3();
    var s4 := Add(Trace3, 3, 0, 30).0;
    assert s4.items.Keys == {2, 3};
  }

  // ---------------------------------------------------------------------------
  // Corrected

  /** The lowest list at or above `f` that is not empty, or the last list
      index when there is none. */
  function LowestFrom(buckets: map<int, seq<NodeId>>, f: int): (r: int)
    ensures r >= f
    decreases |buckets| - f
  {
    if f >= |buckets| || Bucket(buckets, f) != [] then f else LowestFrom(buckets, f + 1)
  }

  /** Delete with the node taken out of the list it is in (counter plus one)
      and, when that empties the minimum list, the minimum moved to the next
      list that still holds a node, as the field's meaning (the minimum
      frequency in the cache) requires. */
  function DeleteFixed<K, V>(s: State<K, V>, key: K): (r: (State<K, V>, Result<Item<K, V>>))
    requires Wf(s)
    ensures Wf(r.0)
    ensures key !in s.items ==> r == (s, Err(ErrKeyNotFound))
    ensures r.0.capacity == s.capacity
    ensures key in s.items ==>
      && r.1 == Ok(s.items[key])
      && r.0.items == s.items - {key}
      && r.0.size == s.size - 1
      && r.0.events == s.events + DeleteEvents(s.deleteCallbacks, Some(s.items[key]))
  {
    if key !in s.items then (s, Err(ErrKeyNotFound))
    else
      var item := s.items[key];
      var s1 := UnlinkFrom(s, item.accessCount + 1, s.keyToNode[key]);
      var minF := if s1.minFrequency != s.minFrequency then LowestFrom(s1.buckets, s1.minFrequency) else s.minFrequency;
      (s1.(events := s1.events + DeleteEvents(s.deleteCallbacks, Some(item)),
           items := s1.items - {key},
           keyToNode := s1.keyToNode - {key},
           size := s1.size - 1,
           minFrequency := minF),
       Ok(item))
  }

  lemma {:induction false} LowestFromOk(buckets: map<int, seq<NodeId>>, f: int, g: int)
    requires Contiguous(buckets)
    requires forall h :: h in buckets && h < f ==> buckets[h] == []
    requires g in buckets && g >= f && buckets[g] != []
    ensures LowestNonEmpty(buckets, LowestFrom(buckets, f))
    decreases |buckets| - f
  {
    if f >= |buckets| {
      assert g == f;
    } else if Bucket(buckets, f) == [] {
      LowestFromOk(buckets, f + 1, g);
    }
  }

  /** The lists after node `n` leaves list `f`. */
  function Dropped(buckets: map<int, seq<NodeId>>, f: int, n: NodeId): map<int, seq<NodeId>>
    requires f in buckets
  {
    buckets[f := Unlink(buckets[f], n)]
  }

  lemma DropKeysListed<K, V>(items: map<K, Item<K, V>>, keyToNode: map<K, NodeId>, buckets: map<int, seq<NodeId>>,
                             nodeKey: map<NodeId, K>, key: K)
    requires KeysListed(items, keyToNode, buckets) && KeysLinked(keyToNode, nodeKey)
    requires key in items
    ensures items[key].accessCount + 1 in buckets
    ensures KeysListed(items - {key}, keyToNode - {key},
                       Dropped(buckets, items[key].accessCount + 1, keyToNode[key]))
  {
    var f := items[key].accessCount + 1;
    var n := keyToNode[key];
    var dropped := Dropped(buckets, f, n);
    forall k | k in items - {key}
      ensures keyToNode[k] in dropped[items[k].accessCount + 1]
    {
      assert nodeKey[keyToNode[k]] == k;
    }
  }

  lemma DropNodesLive<K, V>(items: map<K, Item<K, V>>, keyToNode: map<K, NodeId>, buckets: map<int, seq<NodeId>>,
                            nodeKey: map<NodeId, K>, key: K)
    requires NodesLive(items, keyToNode, buckets, nodeKey)
    requires key in items && key in keyToNode && items[key].accessCount + 1 in buckets
    ensures NodesLive(items - {key}, keyToNode - {key},
                      Dropped(buckets, items[key].accessCount + 1, keyToNode[key]), nodeKey)
  {
    var f := items[key].accessCount + 1;
    var n := keyToNode[key];
    var dropped := Dropped(buckets, f, n);
    forall g, m | g in dropped && m in dropped[g]
      ensures NodeIsLive(items - {key}, keyToNode - {key}, nodeKey, g, m)
    {
      assert m in buckets[g];
      assert NodeIsLive(items, keyToNode, nodeKey, g, m);
    }
  }

  lemma DropDescending(buckets: map<int, seq<NodeId>>, f: int, n: NodeId)
    requires AllDescending(buckets) && f in buckets
    ensures AllDescending(Dropped(buckets, f, n))
  {
    UnlinkDescending(buckets[f], n);
  }

  /** The watermark after node removal from list `f`, when the lists are `d`. */
  function DropMin(d: map<int, seq<NodeId>>, f: int, minF: int): int
    requires f in d
  {
    if |d[f]| == 0 && f == minF then LowestFrom(d, minF + 1) else minF
  }

  /** Removing node `n` from list `f` leaves `minF`'s successor naming the
      lowest non-empty list. */
  ghost predicate KeepsLowest(buckets: map<int, seq<NodeId>>, f: int, n: NodeId, minF: int)
  {
    f in buckets && LowestNonEmpty(Dropped(buckets, f, n), DropMin(Dropped(buckets, f, n), f, minF))
  }

  /** The watermark rule of DeleteFixed names the lowest non-empty list
      whenever a node is left. */
  lemma DropLowest(buckets: map<int, seq<NodeId>>, f: int, n: NodeId, minF: int, g: int)
    requires Contiguous(buckets) && LowestNonEmpty(buckets, minF)
    requires f in buckets && n in buckets[f]
    requires var d := Dropped(buckets, f, n); g in d && d[g] != []
    ensures KeepsLowest(buckets, f, n, minF)
  {
    var d := Dropped(buckets, f, n);
    if |d[f]| == 0 && f == minF {
      assert g >= minF + 1;
      LowestFromOk(d, minF + 1, g);
    }
  }

  lemma DeleteFixedShape<K, V>(s: State<K, V>, key: K)
    requires Wf(s) && key in s.items && s.items[key].accessCount + 1 in s.buckets
    ensures var r := DeleteFixed(s, key).0; var f := s.items[key].accessCount + 1; var d := Dropped(s.buckets, f, s.keyToNode[key]);
      && r.keyToNode == s.keyToNode - {key}
      && r.nodeKey == s.nodeKey && r.capacity == s.capacity
      && r.buckets == d
      && r.minFrequency == DropMin(d, f, s.minFrequency)
  {
  }

  /** The maps after the corrected removal still describe the live keys. */
  lemma DropLinked<K, V>(items: map<K, Item<K, V>>, keyToNode: map<K, NodeId>, buckets: map<int, seq<NodeId>>,
                         nodeKey: map<NodeId, K>, key: K)
    requires KeysListed(items, keyToNode, buckets) && KeysLinked(keyToNode, nodeKey)
    requires NodesLive(items, keyToNode, buckets, nodeKey)
    requires AllDescending(buckets) && Contiguous(buckets)
    requires key in items
    ensures items[key].accessCount + 1 in buckets
    ensures var d := Dropped(buckets, items[key].accessCount + 1, keyToNode[key]);
      && KeysLinked(keyToNode - {key}, nodeKey)
      && KeysListed(items - {key}, keyToNode - {key}, d)
      && NodesLive(items - {key}, keyToNode - {key}, d, nodeKey)
      && AllDescending(d) && Contiguous(d)
  {
    var f := items[key].accessCount + 1;
    var n := keyToNode[key];
    DropKeysListed(items, keyToNode, buckets, nodeKey, key);
    DropNodesLive(items, keyToNode, buckets, nodeKey, key);
    DropDescending(buckets, f, n);
    assert Dropped(buckets, f, n).Keys == buckets.Keys;
  }

  lemma DeleteFixedLinked<K, V>(s: State<K, V>, key: K)
    requires Linked(s) && key in s.items
    ensures Linked(DeleteFixed(s, key).0)
  {
    DropLinked(s.items, s.keyToNode, s.buckets, s.nodeKey, key);
    DeleteFixedShape(s, key);
    var r := DeleteFixed(s, key).0;
    assert r.size == |r.items| by {
      assert r.items.Keys == s.items.Keys - {key};
    }
  }

  lemma DropMinOk<K, V>(items: map<K, Item<K, V>>, keyToNode: map<K, NodeId>, buckets: map<int, seq<NodeId>>,
                        nodeKey: map<NodeId, K>, key: K, minF: int)
    requires KeysListed(items, keyToNode, buckets) && KeysLinked(keyToNode, nodeKey)
    requires Contiguous(buckets) && LowestNonEmpty(buckets, minF)
    requires key in items && |items| > 1
    ensures KeepsLowest(buckets, items[key].accessCount + 1, keyToNode[key], minF)
  {
    var f := items[key].accessCount + 1;
    var n := keyToNode[key];
    assert |items - {key}| > 0;
    var k :| k in items - {key};
    DropKeysListed(items, keyToNode, buckets, nodeKey, key);
    var d := Dropped(buckets, f, n);
    assert (keyToNode - {key})[k] in d[(items - {key})[k].accessCount + 1];
    DropLowest(buckets, f, n, minF, items[k].accessCount + 1);
  }

  lemma DeleteFixedMinOkFrom<K, V>(s: State<K, V>, key: K)
    requires Wf(s) && key in s.items && s.items[key].accessCount + 1 in s.buckets
    requires s.size > 1 ==> KeepsLowest(s.buckets, s.items[key].accessCount + 1, s.keyToNode[key], s.minFrequency)
    ensures MinOk(DeleteFixed(s, key).0)
  {
    DeleteFixedShape(s, key);
  }

  lemma DeleteFixedMinOk<K, V>(s: State<K, V>, key: K)
    requires Wf(s) && s.size == |s.items| && MinOk(s) && key in s.items
    requires KeysListed(s.items, s.keyToNode, s.buckets) && KeysLinked(s.keyToNode, s.nodeKey)
    requires Contiguous(s.buckets)
    ensures MinOk(DeleteFixed(s, key).0)
  {
    if s.size > 1 {
      DropMinOk(s.items, s.keyToNode, s.buckets, s.nodeKey, key, s.minFrequency);
    }
    DeleteFixedMinOkFrom(s, key);
  }

  /** The corrected Delete keeps the cache valid. */
  lemma DeleteFixedValid<K, V>(s: State<K, V>, key: K)
    requires Valid(s)
    ensures Valid(DeleteFixed(s, key).0)
  {
    if key in s.items {
      DeleteFixedLinked(s, key);
      DeleteFixedMinOk(s, key);
    }
  }
}
