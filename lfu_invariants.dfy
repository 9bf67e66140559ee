/** The invariant of LfuState.Valid is established by NewLFUCache and Flush and
    kept by Add and Value (touch, eviction and insertion), and the event-log
    helpers the imperative callback loops need. */
module LfuInvariants {
  import opened LfuState

  /** The loader, when it produced an entry, built it with NewCacheItem. */
  predicate LoadsFresh<K, V>(o: LoadOutcome<K, V>)
  {
    o.Loaded? && o.item.Some? ==> o.item.value.accessCount == 0
  }

  lemma {:induction false} AddedEventsSnoc<K, V>(cbs: seq<CallbackId>, c: CallbackId, item: Item<K, V>)
    ensures AddedEvents(cbs + [c], item) == AddedEvents(cbs, item) + [Added(c, item)]
  {
    var l := AddedEvents(cbs + [c], item);
    var r := AddedEvents(cbs, item) + [Added(c, item)];
    assert |l| == |r|;
    forall j | 0 <= j < |l| ensures l[j] == r[j] {
      if j < |cbs| {
        assert (cbs + [c])[j] == cbs[j];
      }
    }
  }

  lemma {:induction false} DeleteEventsSnoc<K, V>(cbs: seq<CallbackId>, c: CallbackId, item: Option<Item<K, V>>)
    ensures DeleteEvents(cbs + [c], item) == DeleteEvents(cbs, item) + [AboutToDelete(c, item)]
  {
    var l := DeleteEvents(cbs + [c], item);
    var r := DeleteEvents(cbs, item) + [AboutToDelete(c, item)];
    assert |l| == |r|;
    forall j | 0 <= j < |l| ensures l[j] == r[j] {
      if j < |cbs| {
        assert (cbs + [c])[j] == cbs[j];
      }
    }
  }

  lemma {:induction false} FlushEventsSnoc<K, V>(order: seq<K>, key: K, items: map<K, Item<K, V>>, cbs: seq<CallbackId>)
    requires forall k :: k in order ==> k in items
    requires key in items
    ensures forall k :: k in order + [key] ==> k in items
    ensures FlushEvents(order + [key], items, cbs) == FlushEvents(order, items, cbs) + DeleteEvents(cbs, Some(items[key]))
  {
    if order == [] {
      assert [key][1..] == [];
    } else {
      assert (order + [key])[1..] == order[1..] + [key];
      FlushEventsSnoc(order[1..], key, items, cbs);
    }
  }

  lemma ConcatAssoc<T>(a: seq<T>, b: seq<T>, c: seq<T>)
    ensures (a + b) + c == a + (b + c)
  {
  }

  /** One round of the outer loop of MostAccessed. */
  lemma WalkStep<K, V>(s: State<K, V>, freq: int, want: int, done: seq<Item<K, V>>, all: seq<Item<K, V>>)
    requires Wf(s) && freq > 0 && want > 0
    requires done + Walk(s, freq, want) == all
    ensures var here := TakeLive(s, Bucket(s.buckets, freq), want);
      (done + here) + Walk(s, freq - 1, want - |here|) == all
  {
    var here := TakeLive(s, Bucket(s.buckets, freq), want);
    ConcatAssoc(done, here, Walk(s, freq - 1, want - |here|));
  }

  /** A key is live exactly when some list holds a node for it. */
  lemma LiveIffListed<K, V>(s: State<K, V>, key: K)
    requires Valid(s)
    ensures key in s.items <==> exists f, n :: f in s.buckets && n in s.buckets[f] && s.nodeKey[n] == key
  {
    if key in s.items {
      var f := s.items[key].accessCount + 1;
      var n := s.keyToNode[key];
      assert f in s.buckets && n in s.buckets[f] && s.nodeKey[n] == key;
    } else {
      forall f, n | f in s.buckets && n in s.buckets[f] ensures s.nodeKey[n] != key {
        assert NodeIsLive(s.items, s.keyToNode, s.nodeKey, f, n);
      }
    }
  }

  lemma {:induction false} UnlinkDescending(b: seq<NodeId>, n: NodeId)
    requires Descending(b)
    ensures Descending(Unlink(b, n))
  {
    if b != [] {
      UnlinkDescending(b[1..], n);
      var t := Unlink(b[1..], n);
      if b[0] != n {
        forall m | m in t ensures m < b[0] {
          assert m in b[1..];
        }
        PushDescending(t, b[0]);
      }
    }
  }

  /** A push at the front with a fresh id keeps a list descending. */
  lemma PushDescending(b: seq<NodeId>, nn: NodeId)
    requires Descending(b)
    requires forall m :: m in b ==> m < nn
    ensures Descending([nn] + b)
  {
    var c := [nn] + b;
    forall i, j | 0 <= i < j < |c| ensures c[i] > c[j] {
      if i == 0 {
        assert c[j] in b;
      } else {
        assert c[i] == b[i - 1] && c[j] == b[j - 1];
      }
    }
  }

  /** Every listed node id is below `nn`. */
  ghost predicate ListedBelow(buckets: map<int, seq<NodeId>>, nn: NodeId)
  {
    forall f, m :: f in buckets && m in buckets[f] ==> m < nn
  }

  lemma WfListedBelow<K, V>(s: State<K, V>)
    requires Wf(s)
    ensures ListedBelow(s.buckets, s.nextNode) && s.nextNode !in s.nodeKey
  {
    forall f, m | f in s.buckets && m in s.buckets[f] ensures m < s.nextNode {
      assert m in s.nodeKey;
    }
  }

  /** Pointing `key` at the fresh node `nn` keeps the key map and the arena in step. */
  lemma RelinkKey<K>(keyToNode: map<K, NodeId>, nodeKey: map<NodeId, K>, key: K, nn: NodeId)
    requires KeysLinked(keyToNode, nodeKey) && nn !in nodeKey
    ensures KeysLinked(keyToNode[key := nn], nodeKey[nn := key])
  {
  }

  // ---------------------------------------------------------------------------
  // updateFrequency

  /** The lists after the touch of a key whose node `n0` sits in list `f`:
      `n0` leaves list `f` and the fresh node `nn` goes to the front of `f + 1`. */
  function Moved(buckets: map<int, seq<NodeId>>, f: int, n0: NodeId, nn: NodeId): map<int, seq<NodeId>>
    requires f in buckets
  {
    buckets[f := Unlink(buckets[f], n0)][f + 1 := [nn] + Bucket(buckets, f + 1)]
  }

  /** The touch changes the entry, the key's node, the lists and the
      watermark, and nothing else. */
  lemma TouchShape<K, V>(s: State<K, V>, key: K, item: Item<K, V>)
    requires Wf(s) && key in s.items
    requires item.accessCount == s.items[key].accessCount + 1
    requires item.accessCount in s.buckets
    ensures var r := Touch(s, key, item);
      && r.items == s.items[key := item]
      && r.keyToNode == s.keyToNode[key := s.nextNode]
      && r.nodeKey == s.nodeKey[s.nextNode := key]
      && r.nextNode == s.nextNode + 1
      && r.buckets == Moved(s.buckets, item.accessCount, s.keyToNode[key], s.nextNode)
      && r.size == s.size && r.capacity == s.capacity
      && r.minFrequency ==
           if |Unlink(s.buckets[item.accessCount], s.keyToNode[key])| == 0 && item.accessCount == s.minFrequency
           then s.minFrequency + 1 else s.minFrequency
  {
  }

  lemma TouchKeysListed<K, V>(items: map<K, Item<K, V>>, keyToNode: map<K, NodeId>, buckets: map<int, seq<NodeId>>,
                              nodeKey: map<NodeId, K>, key: K, item: Item<K, V>, nn: NodeId)
    requires KeysListed(items, keyToNode, buckets) && KeysLinked(keyToNode, nodeKey)
    requires key in items && item.accessCount == items[key].accessCount + 1
    ensures item.accessCount in buckets
    ensures KeysListed(items[key := item], keyToNode[key := nn], Moved(buckets, item.accessCount, keyToNode[key], nn))
  {
    var f := item.accessCount;
    var n0 := keyToNode[key];
    var moved := Moved(buckets, f, n0, nn);
    forall k | k in items
      ensures k in keyToNode[key := nn]
      ensures items[key := item][k].accessCount + 1 in moved
      ensures keyToNode[key := nn][k] in moved[items[key := item][k].accessCount + 1]
    {
      if k != key {
        var g := items[k].accessCount + 1;
        var m := keyToNode[k];
        assert m in buckets[g];
        if g == f {
          assert nodeKey[m] == k && nodeKey[n0] == key;
          assert m in Unlink(buckets[f], n0);
        } else if g == f + 1 {
          assert m in Bucket(buckets, f + 1);
        }
      }
    }
  }

  lemma TouchNodesLive<K, V>(items: map<K, Item<K, V>>, keyToNode: map<K, NodeId>, buckets: map<int, seq<NodeId>>,
                             nodeKey: map<NodeId, K>, key: K, item: Item<K, V>, nn: NodeId)
    requires NodesLive(items, keyToNode, buckets, nodeKey)
    requires key in items && key in keyToNode && item.accessCount == items[key].accessCount + 1
    requires item.accessCount in buckets && nn !in nodeKey
    ensures NodesLive(items[key := item], keyToNode[key := nn], Moved(buckets, item.accessCount, keyToNode[key], nn), nodeKey[nn := key])
  {
    var f := item.accessCount;
    var n0 := keyToNode[key];
    var moved := Moved(buckets, f, n0, nn);
    forall g, m | g in moved && m in moved[g]
      ensures NodeIsLive(items[key := item], keyToNode[key := nn], nodeKey[nn := key], g, m)
    {
      if g == f + 1 && m == nn {
      } else {
        if g == f {
          assert m in buckets[f] && m != n0;
        } else if g == f + 1 {
          assert m in Bucket(buckets, f + 1);
        }
        assert g in buckets && m in buckets[g];
        assert NodeIsLive(items, keyToNode, nodeKey, g, m);
        assert nodeKey[m] != key;
      }
    }
  }

  lemma TouchDescending(buckets: map<int, seq<NodeId>>, f: int, n0: NodeId, nn: NodeId)
    requires AllDescending(buckets) && f in buckets && ListedBelow(buckets, nn)
    ensures AllDescending(Moved(buckets, f, n0, nn))
  {
    var moved := Moved(buckets, f, n0, nn);
    forall g | g in moved ensures Descending(moved[g]) {
      if g == f + 1 {
        var c := Bucket(buckets, f + 1);
        forall m | m in c ensures m < nn {
          assert f + 1 in buckets;
        }
        PushDescending(c, nn);
      } else if g == f {
        UnlinkDescending(buckets[f], n0);
      }
    }
  }

  lemma TouchContiguous(buckets: map<int, seq<NodeId>>, f: int, n0: NodeId, nn: NodeId)
    requires Contiguous(buckets) && f in buckets
    ensures Contiguous(Moved(buckets, f, n0, nn))
  {
    var moved := Moved(buckets, f, n0, nn);
    if f + 1 in buckets {
      assert moved.Keys == buckets.Keys;
    } else {
      assert f == |buckets|;
      assert moved.Keys == buckets.Keys + {f + 1};
    }
  }

  /** The touch keeps the lists and maps linked. */
  lemma TouchLinked<K, V>(s: State<K, V>, key: K, item: Item<K, V>)
    requires Linked(s) && key in s.items
    requires item.accessCount == s.items[key].accessCount + 1
    ensures Linked(Touch(s, key, item))
  {
    WfListedBelow(s);
    TouchKeysListed(s.items, s.keyToNode, s.buckets, s.nodeKey, key, item, s.nextNode);
    TouchShape(s, key, item);
    RelinkKey(s.keyToNode, s.nodeKey, key, s.nextNode);
    TouchNodesLive(s.items, s.keyToNode, s.buckets, s.nodeKey, key, item, s.nextNode);
    TouchDescending(s.buckets, item.accessCount, s.keyToNode[key], s.nextNode);
    TouchContiguous(s.buckets, item.accessCount, s.keyToNode[key], s.nextNode);
  }

  /** Moving a node one list up keeps `minF` the lowest non-empty list,
      unless it empties list `minF`, which makes `minF + 1` the lowest. */
  lemma MovedLowest(buckets: map<int, seq<NodeId>>, f: int, n0: NodeId, nn: NodeId, minF: int)
    requires LowestNonEmpty(buckets, minF)
    requires f in buckets && n0 in buckets[f]
    ensures LowestNonEmpty(Moved(buckets, f, n0, nn),
                           if |Unlink(buckets[f], n0)| == 0 && f == minF then minF + 1 else minF)
  {
    var moved := Moved(buckets, f, n0, nn);
    assert f >= minF;
    assert moved[f + 1] != [];
    if |Unlink(buckets[f], n0)| != 0 && f == minF {
      assert moved[minF] == Unlink(buckets[f], n0);
    }
  }

  /** The touch keeps the watermark at the lowest non-empty list. */
  lemma TouchMinOk<K, V>(s: State<K, V>, key: K, item: Item<K, V>)
    requires Wf(s) && MinOk(s) && key in s.items
    requires item.accessCount == s.items[key].accessCount + 1
    requires item.accessCount in s.buckets && s.keyToNode[key] in s.buckets[item.accessCount]
    ensures MinOk(Touch(s, key, item))
  {
    var f := item.accessCount;
    var n0 := s.keyToNode[key];
    TouchShape(s, key, item);
    if s.size > 0 {
      MovedLowest(s.buckets, f, n0, s.nextNode, s.minFrequency);
    }
  }

  lemma TouchPreservesValid<K, V>(s: State<K, V>, key: K, item: Item<K, V>)
    requires Valid(s) && key in s.items
    requires item.accessCount == s.items[key].accessCount + 1
    ensures Valid(Touch(s, key, item))
  {
    TouchLinked(s, key, item);
    assert item.accessCount in s.buckets && s.keyToNode[key] in s.buckets[item.accessCount];
    TouchMinOk(s, key, item);
    TouchShape(s, key, item);
  }

  // ---------------------------------------------------------------------------
  // evictLFU

  /** The lists after the back of list `g` is removed. */
  function Popped(buckets: map<int, seq<NodeId>>, g: int): map<int, seq<NodeId>>
    requires g in buckets && buckets[g] != []
  {
    buckets[g := buckets[g][..|buckets[g]| - 1]]
  }

  lemma EvictKeysListed<K, V>(items: map<K, Item<K, V>>, keyToNode: map<K, NodeId>, buckets: map<int, seq<NodeId>>,
                              nodeKey: map<NodeId, K>, g: int)
    requires KeysListed(items, keyToNode, buckets) && KeysLinked(keyToNode, nodeKey)
    requires g in buckets && buckets[g] != []
    requires buckets[g][|buckets[g]| - 1] in nodeKey
    ensures var k := nodeKey[buckets[g][|buckets[g]| - 1]];
      KeysListed(items - {k}, keyToNode - {k}, Popped(buckets, g))
  {
    var b := buckets[g];
    var t := b[|b| - 1];
    var k := nodeKey[t];
    assert b == b[..|b| - 1] + [t];
    forall k' | k' in items - {k}
      ensures keyToNode[k'] in Popped(buckets, g)[items[k'].accessCount + 1]
    {
      var m := keyToNode[k'];
      if items[k'].accessCount + 1 == g {
        assert nodeKey[m] == k';
        assert m != t;
        assert m in b[..|b| - 1];
      }
    }
  }

  lemma EvictNodesLive<K, V>(items: map<K, Item<K, V>>, keyToNode: map<K, NodeId>, buckets: map<int, seq<NodeId>>,
                             nodeKey: map<NodeId, K>, g: int)
    requires NodesLive(items, keyToNode, buckets, nodeKey)
    requires g in buckets && buckets[g] != [] && Descending(buckets[g])
    ensures buckets[g][|buckets[g]| - 1] in nodeKey
    ensures var k := nodeKey[buckets[g][|buckets[g]| - 1]];
      NodesLive(items - {k}, keyToNode - {k}, Popped(buckets, g), nodeKey)
  {
    var b := buckets[g];
    var t := b[|b| - 1];
    assert t in b;
    assert NodeIsLive(items, keyToNode, nodeKey, g, t);
    var k := nodeKey[t];
    var popped := Popped(buckets, g);
    forall h, m | h in popped && m in popped[h]
      ensures NodeIsLive(items - {k}, keyToNode - {k}, nodeKey, h, m)
    {
      if h == g {
        var i :| 0 <= i < |b| - 1 && b[i] == m;
        assert m > t;
      }
      assert m in buckets[h];
      assert NodeIsLive(items, keyToNode, nodeKey, h, m);
    }
  }

  lemma EvictDescending(buckets: map<int, seq<NodeId>>, g: int)
    requires AllDescending(buckets) && g in buckets && buckets[g] != []
    ensures AllDescending(Popped(buckets, g))
  {
    var popped := Popped(buckets, g);
    forall h | h in popped ensures Descending(popped[h]) {
      if h == g {
        assert Descending(buckets[g]);
      }
    }
  }

  /** The entry evictLFU hands to the callbacks and the keys it drops. */
  lemma EvictShape<K, V>(s: State<K, V>)
    requires Wf(s) && CanEvict(s)
    ensures var r := Evict(s); var k := Victim(s);
      && r.items == s.items - {k}
      && r.keyToNode == s.keyToNode - {k}
      && r.nodeKey == s.nodeKey && r.nextNode == s.nextNode
      && r.buckets == Popped(s.buckets, s.minFrequency)
      && r.size == s.size - 1 && r.capacity == s.capacity && r.minFrequency == s.minFrequency
  {
  }

  /** On a valid non-empty cache the minimum list is non-empty and its back
      node is the live node of its key. */
  lemma VictimLive<K, V>(s: State<K, V>)
    requires Linked(s) && MinOk(s) && s.size > 0
    ensures CanEvict(s) && Victim(s) in s.items
    ensures Descending(s.buckets[s.minFrequency])
  {
    var b := s.buckets[s.minFrequency];
    assert b[|b| - 1] in b;
    assert NodeIsLive(s.items, s.keyToNode, s.nodeKey, s.minFrequency, b[|b| - 1]);
  }

  /** evictLFU keeps everything linked once the victim is known to be live. */
  lemma EvictKeepsLinked<K, V>(s: State<K, V>)
    requires Linked(s) && CanEvict(s) && Victim(s) in s.items
    requires Descending(s.buckets[s.minFrequency])
    ensures Linked(Evict(s))
  {
    var g := s.minFrequency;
    EvictShape(s);
    EvictKeysListed(s.items, s.keyToNode, s.buckets, s.nodeKey, g);
    EvictNodesLive(s.items, s.keyToNode, s.buckets, s.nodeKey, g);
    EvictDescending(s.buckets, g);
    var r := Evict(s);
    assert r.buckets.Keys == s.buckets.Keys;
    assert r.items.Keys == s.items.Keys - {Victim(s)};
  }

  /** On a valid non-empty cache evictLFU removes the back of the minimum
      list, a live key, and keeps everything else linked. */
  lemma EvictLinked<K, V>(s: State<K, V>)
    requires Valid(s) && s.size > 0
    ensures CanEvict(s) && Victim(s) in s.items
    ensures Linked(Evict(s))
    ensures Evict(s).items == s.items - {Victim(s)}
    ensures Evict(s).size == s.size - 1
  {
    VictimLive(s);
    EvictKeepsLinked(s);
    EvictShape(s);
  }

  // ---------------------------------------------------------------------------
  // insertion at frequency 1

  /** The lists after a fresh node `nn` is pushed to the front of list 1. */
  function Pushed(buckets: map<int, seq<NodeId>>, nn: NodeId): map<int, seq<NodeId>>
  {
    buckets[1 := [nn] + Bucket(buckets, 1)]
  }

  lemma PushKeysListed<K, V>(items: map<K, Item<K, V>>, keyToNode: map<K, NodeId>, buckets: map<int, seq<NodeId>>,
                             key: K, item: Item<K, V>, nn: NodeId)
    requires KeysListed(items, keyToNode, buckets)
    requires key !in items && item.accessCount == 0
    ensures KeysListed(items[key := item], keyToNode[key := nn], Pushed(buckets, nn))
  {
    forall k | k in items && k != key
      ensures keyToNode[k] in Pushed(buckets, nn)[items[k].accessCount + 1]
    {
      if items[k].accessCount + 1 == 1 {
        assert keyToNode[k] in Bucket(buckets, 1);
      }
    }
  }

  lemma PushNodesLive<K, V>(items: map<K, Item<K, V>>, keyToNode: map<K, NodeId>, buckets: map<int, seq<NodeId>>,
                            nodeKey: map<NodeId, K>, key: K, item: Item<K, V>, nn: NodeId)
    requires NodesLive(items, keyToNode, buckets, nodeKey)
    requires key !in items && item.accessCount == 0 && nn !in nodeKey
    ensures NodesLive(items[key := item], keyToNode[key := nn], Pushed(buckets, nn), nodeKey[nn := key])
  {
    var pushed := Pushed(buckets, nn);
    forall g, m | g in pushed && m in pushed[g]
      ensures NodeIsLive(items[key := item], keyToNode[key := nn], nodeKey[nn := key], g, m)
    {
      if g == 1 && m == nn {
      } else {
        if g == 1 {
          assert m in Bucket(buckets, 1);
        }
        assert m in buckets[g];
        assert NodeIsLive(items, keyToNode, nodeKey, g, m);
      }
    }
  }

  lemma PushDescendingAll(buckets: map<int, seq<NodeId>>, nn: NodeId)
    requires AllDescending(buckets) && ListedBelow(buckets, nn)
    ensures AllDescending(Pushed(buckets, nn))
  {
    var c := Bucket(buckets, 1);
    forall m | m in c ensures m < nn {
      assert 1 in buckets;
    }
    PushDescending(c, nn);
  }

  lemma PushContiguous(buckets: map<int, seq<NodeId>>, nn: NodeId)
    requires Contiguous(buckets)
    ensures Contiguous(Pushed(buckets, nn))
    ensures forall f :: f in Pushed(buckets, nn) ==> f >= 1
  {
    if 1 in buckets {
      assert Pushed(buckets, nn).Keys == buckets.Keys;
    } else {
      assert |buckets| == 0;
      assert buckets == map[];
      assert [nn] + Bucket(buckets, 1) == [nn];
      assert Pushed(buckets, nn) == map[1 := [nn]];
    }
  }

  /** Storing a fresh entry at the front of list 1 restores the whole invariant
      but the capacity bound. */
  lemma PushFreshLinked<K, V>(s: State<K, V>, key: K, item: Item<K, V>)
    requires Linked(s) && key !in s.items && item.accessCount == 0
    ensures Linked(PushFresh(s, key, item)) && MinOk(PushFresh(s, key, item))
    ensures PushFresh(s, key, item).size == s.size + 1
  {
    var nn := s.nextNode;
    WfListedBelow(s);
    var r := PushFresh(s, key, item);
    assert r.buckets == Pushed(s.buckets, nn);
    assert key !in s.keyToNode;
    assert |r.items| == |s.items| + 1;
    RelinkKey(s.keyToNode, s.nodeKey, key, nn);
    PushKeysListed(s.items, s.keyToNode, s.buckets, key, item, nn);
    PushNodesLive(s.items, s.keyToNode, s.buckets, s.nodeKey, key, item, nn);
    PushDescendingAll(s.buckets, nn);
    PushContiguous(s.buckets, nn);
  }

  /** Evict-if-full followed by the insertion keeps the invariant, the
      capacity bound included, when the new entry is fresh. */
  lemma InsertPreservesValid<K, V>(s: State<K, V>, key: K, item: Item<K, V>)
    requires Valid(s) && key !in s.items && item.accessCount == 0
    ensures Valid(Insert(s, key, item))
  {
    if s.size >= s.capacity && s.size > 0 {
      EvictLinked(s);
      PushFreshLinked(Evict(s), key, item);
    } else {
      PushFreshLinked(s, key, item);
    }
  }

  /** The invariant does not look at the event log. */
  lemma ValidIgnoresEvents<K, V>(s: State<K, V>, events: seq<Event<K, V>>)
    requires Valid(s)
    ensures Valid(s.(events := events))
  {
    var t := s.(events := events);
    assert t.items == s.items && t.keyToNode == s.keyToNode && t.buckets == s.buckets && t.nodeKey == s.nodeKey;
    assert t.size == s.size && t.nextNode == s.nextNode && t.minFrequency == s.minFrequency && t.capacity == s.capacity;
  }

  /** Add on a cached key is Touch with the refreshed entry. */
  lemma AddExistingIsTouch<K, V>(s: State<K, V>, key: K, lifeSpan: int, data: V)
    requires Wf(s) && key in s.items
    requires Valid(Touch(s, key, Refresh(s.items[key], lifeSpan, data)))
    ensures Valid(Add(s, key, lifeSpan, data).0)
  {
  }

  lemma AddExistingValid<K, V>(s: State<K, V>, key: K, lifeSpan: int, data: V)
    requires Valid(s) && key in s.items
    ensures Valid(Add(s, key, lifeSpan, data).0)
  {
    TouchPreservesValid(s, key, Refresh(s.items[key], lifeSpan, data));
    AddExistingIsTouch(s, key, lifeSpan, data);
  }

  lemma AddNewValid<K, V>(s: State<K, V>, key: K, lifeSpan: int, data: V)
    requires Valid(s) && key !in s.items
    ensures Valid(Add(s, key, lifeSpan, data).0)
  {
    var item := NewItem(key, lifeSpan, data);
    var s1 := Insert(s, key, item);
    InsertPreservesValid(s, key, item);
    ValidIgnoresEvents(s1, s1.events + AddedEvents(s.addedCallbacks, item));
  }

  lemma AddPreservesValid<K, V>(s: State<K, V>, key: K, lifeSpan: int, data: V)
    requires Valid(s)
    ensures Valid(Add(s, key, lifeSpan, data).0)
  {
    if key in s.items {
      AddExistingValid(s, key, lifeSpan, data);
    } else {
      AddNewValid(s, key, lifeSpan, data);
    }
  }

  lemma ValuePreservesValid<K, V>(s: State<K, V>, key: K, loaded: LoadOutcome<K, V>)
    requires Valid(s) && LoadsFresh(loaded)
    ensures Valid(Value(s, key, loaded).0)
  {
    if key in s.items {
      TouchPreservesValid(s, key, KeepAlive(s.items[key]));
    } else if loaded.Loaded? && loaded.item.Some? {
      InsertPreservesValid(s, key, loaded.item.value);
    }
  }
}
