/** The LFUCache type of lfu.go as a class whose methods update its fields in
    place. Each method is proved to compute the matching step of LfuState, and
    the ones that keep the invariant say so. */
module Lfu {
  import opened LfuState
  import LfuInvariants

  class LFUCache<K(==), V, A> {
    const name: string
    const capacity: int
    var size: int
    var items: map<K, Item<K, V>>
    /** keyToListElement of the source: the arena id of the key's current node. */
    var keyToNode: map<K, NodeId>
    /** frequencies of the source: each list as node ids, front first. */
    var buckets: map<int, seq<NodeId>>
    /** The arena: the key stored in each node ever pushed. */
    var nodeKey: map<NodeId, K>
    var nextNode: NodeId
    var minFrequency: int
    var loadData: Option<(K, seq<A>) -> Option<Item<K, V>>>
    var addedItem: seq<CallbackId>
    var aboutToDeleteItem: seq<CallbackId>
    /** Every callback invocation so far, in order. */
    ghost var events: seq<Event<K, V>>

    ghost function Snapshot(): State<K, V>
      reads this
    {
      State(capacity, size, items, keyToNode, buckets, nodeKey, nextNode, minFrequency,
            addedItem, aboutToDeleteItem, events)
    }

    ghost predicate Wf()
      reads this
    {
      LfuState.Wf(Snapshot())
    }

    ghost predicate Valid()
      reads this
    {
      LfuState.Valid(Snapshot())
    }

    /** What the configured loader returns for `key` and `args`. */
    function Load(key: K, args: seq<A>): LoadOutcome<K, V>
      reads this
    {
      match loadData
      case None => NoLoader
      case Some(f) => Loaded(f(key, args))
    }

    /** NewLFUCache. */
    constructor (name: string, capacity: int)
      ensures Snapshot() == Init(capacity) && this.name == name
      ensures Valid() && loadData == None
    {
      this.name := name;
      this.capacity := capacity;
      size := 0;
      items := map[];
      keyToNode := map[];
      buckets := map[];
      nodeKey := map[];
      nextNode := 0;
      minFrequency := 0;
      loadData := None;
      addedItem := [];
      aboutToDeleteItem := [];
      events := [];
      new;
    }

    /** Invokes every added-callback with `item`, in registration order. */
    method FireAdded(item: Item<K, V>)
      modifies this`events
      ensures events == old(events) + AddedEvents(addedItem, item)
    {
      var i := 0;
      while i < |addedItem|
        invariant 0 <= i <= |addedItem|
        invariant events == old(events) + AddedEvents(addedItem[..i], item)
      {
        assert addedItem[..i + 1] == addedItem[..i] + [addedItem[i]];
        LfuInvariants.AddedEventsSnoc(addedItem[..i], addedItem[i], item);
        events := events + [Added(addedItem[i], item)];
        i := i + 1;
      }
      assert addedItem[..i] == addedItem;
    }

    /** Invokes every about-to-delete callback with `item`, in registration order. */
    method FireAboutToDelete(item: Option<Item<K, V>>)
      modifies this`events
      ensures events == old(events) + DeleteEvents(aboutToDeleteItem, item)
    {
      var i := 0;
      while i < |aboutToDeleteItem|
        invariant 0 <= i <= |aboutToDeleteItem|
        invariant events == old(events) + DeleteEvents(aboutToDeleteItem[..i], item)
      {
        assert aboutToDeleteItem[..i + 1] == aboutToDeleteItem[..i] + [aboutToDeleteItem[i]];
        LfuInvariants.DeleteEventsSnoc(aboutToDeleteItem[..i], aboutToDeleteItem[i], item);
        events := events + [AboutToDelete(aboutToDeleteItem[i], item)];
        i := i + 1;
      }
      assert aboutToDeleteItem[..i] == aboutToDeleteItem;
    }

    /** The "remove from the frequency list" step shared by updateFrequency
        and Delete: unlink `element` from list `freq` when that list exists,
        and move minFrequency up when that empties the minimum list. */
    method RemoveElement(freq: int, element: NodeId)
      requires Wf()
      modifies this`buckets, this`minFrequency
      ensures Snapshot() == UnlinkFrom(old(Snapshot()), freq, element)
    {
      if freq in buckets {
        var rest := Unlink(buckets[freq], element);
        buckets := buckets[freq := rest];
        if |rest| == 0 && freq == minFrequency {
          minFrequency := minFrequency + 1;
        }
      }
    }

    /** The "add to the frequency list" step shared by updateFrequency and Add:
        create list `freq` when missing, push a fresh node for `key` at its
        front and point the key at it. */
    method PushFront(freq: int, key: K)
      modifies this`buckets, this`nodeKey, this`nextNode, this`keyToNode
      ensures nextNode == old(nextNode) + 1
      ensures buckets == old(buckets)[freq := [old(nextNode)] + Bucket(old(buckets), freq)]
      ensures nodeKey == old(nodeKey)[old(nextNode) := key]
      ensures keyToNode == old(keyToNode)[key := old(nextNode)]
    {
      if freq !in buckets {
        buckets := buckets[freq := []];
      }
      var node := nextNode;
      nextNode := nextNode + 1;
      nodeKey := nodeKey[node := key];
      assert [node] + buckets[freq] == [node] + Bucket(old(buckets), freq);
      buckets := buckets[freq := [node] + buckets[freq]];
      keyToNode := keyToNode[key := node];
    }

    /** updateFrequency. */
    method UpdateFrequency(key: K)
      requires Wf() && key in items
      modifies this
      ensures Snapshot() == LfuState.UpdateFrequency(old(Snapshot()), key)
      ensures loadData == old(loadData)
    {
      var item := items[key];
      var element := keyToNode[key];
      var oldFreq := item.accessCount;
      var newFreq := oldFreq + 1;
      RemoveElement(oldFreq, element);
      PushFront(newFreq, key);
    }

    /** evictLFU. */
    method EvictLFU()
      requires Wf()
      modifies this
      ensures Snapshot() == Evict(old(Snapshot()))
      ensures loadData == old(loadData)
    {
      if size == 0 {
        return;
      }
      if minFrequency !in buckets || |buckets[minFrequency]| == 0 {
        return;
      }
      ghost var s := Snapshot();
      var minNode := buckets[minFrequency];
      var element := minNode[|minNode| - 1];
      var key := nodeKey[element];
      assert CanEvict(s) && key == Victim(s);
      buckets := buckets[minFrequency := minNode[..|minNode| - 1]];
      var item := if key in items then Some(items[key]) else None;
      FireAboutToDelete(item);
      items := items - {key};
      keyToNode := keyToNode - {key};
      size := size - 1;
    }

    /** Evict when at capacity, then store `item` at the front of list 1:
        the common tail of Add and of the loader path of Value. */
    method Insert(key: K, item: Item<K, V>)
      requires Wf()
      modifies this
      ensures Snapshot() == LfuState.Insert(old(Snapshot()), key, item)
      ensures loadData == old(loadData)
    {
      if size >= capacity {
        EvictLFU();
      }
      items := items[key := item];
      size := size + 1;
      PushFront(1, key);
      minFrequency := 1;
    }

    /** Add. */
    method Add(key: K, lifeSpan: int, data: V) returns (item: Item<K, V>)
      requires Wf()
      modifies this
      ensures (Snapshot(), item) == LfuState.Add(old(Snapshot()), key, lifeSpan, data)
      ensures old(Valid()) ==> Valid()
      ensures Wf() && loadData == old(loadData)
    {
      ghost var s := Snapshot();
      if key in items {
        var existing := Refresh(items[key], lifeSpan, data);
        items := items[key := existing];
        UpdateFrequency(key);
        item := existing;
      } else {
        item := NewItem(key, lifeSpan, data);
        Insert(key, item);
        FireAdded(item);
      }
      if LfuState.Valid(s) {
        LfuInvariants.AddPreservesValid(s, key, lifeSpan, data);
      }
    }

    /** Value. */
    method Value(key: K, args: seq<A>) returns (r: Result<Item<K, V>>)
      requires Wf()
      modifies this
      ensures (Snapshot(), r) == LfuState.Value(old(Snapshot()), key, old(Load(key, args)))
      ensures old(Valid()) && LfuInvariants.LoadsFresh(old(Load(key, args))) ==> Valid()
      ensures Wf() && loadData == old(loadData)
    {
      ghost var s := Snapshot();
      ghost var outcome := Load(key, args);
      if key in items {
        var item := KeepAlive(items[key]);
        items := items[key := item];
        UpdateFrequency(key);
        r := Ok(item);
      } else if loadData.Some? {
        var loaded := loadData.value(key, args);
        if loaded.Some? {
          Insert(key, loaded.value);
          r := Ok(loaded.value);
        } else {
          r := Err(ErrKeyNotFoundOrLoadable);
        }
      } else {
        r := Err(ErrKeyNotFound);
      }
      if LfuState.Valid(s) && LfuInvariants.LoadsFresh(outcome) {
        LfuInvariants.ValuePreservesValid(s, key, outcome);
      }
    }

    /** Delete. */
    method Delete(key: K) returns (r: Result<Item<K, V>>)
      requires Wf()
      modifies this
      ensures (Snapshot(), r) == LfuState.Delete(old(Snapshot()), key)
      ensures Wf() && loadData == old(loadData)
    {
      if key !in items {
        return Err(ErrKeyNotFound);
      }
      var item := items[key];
      var element := keyToNode[key];
      var freq := item.accessCount;
      RemoveElement(freq, element);
      FireAboutToDelete(Some(item));
      items := items - {key};
      keyToNode := keyToNode - {key};
      size := size - 1;
      r := Ok(item);
    }

    /** Exists: whether `key` has an entry, in any state; on a valid cache
        that is whether some frequency list holds a node for it. */
    function Exists(key: K): (r: bool)
      reads this
      requires Wf()
      ensures r == (key in items)
      ensures Valid() ==> (r <==> exists f, n :: f in buckets && n in buckets[f] && nodeKey[n] == key)
    {
      assert Valid() ==> (key in items <==> exists f, n :: f in buckets && n in buckets[f] && nodeKey[n] == key) by {
        if Valid() {
          LfuInvariants.LiveIffListed(Snapshot(), key);
        }
      }
      key in items
    }

    /** Count: the size field, in any state; on a valid cache it is the
        number of live entries and at most the capacity (or 1, for a capacity
        below 1). */
    function Count(): (r: int)
      reads this
      requires Wf()
      ensures r == size
      ensures Valid() ==> r == |items| && 0 <= r <= Max(capacity, 1)
    {
      size
    }

    /** Capacity. */
    function Capacity(): (r: int)
      reads this
      ensures Valid() ==> Count() <= Max(r, 1)
    {
      capacity
    }

    /** The callback loop of Flush: every live entry is handed to every
        about-to-delete callback, visiting the entries in the order `order`
        (Go map iteration order is unspecified). */
    method FireFlush() returns (ghost order: seq<K>)
      modifies this`events
      ensures IsEnumeration(order, items.Keys)
      ensures forall k :: k in order ==> k in items
      ensures events == old(events) + FlushEvents(order, items, aboutToDeleteItem)
    {
      var live := items;
      var rest := live.Keys;
      order := [];
      while rest != {}
        invariant items == live
        invariant rest <= live.Keys
        invariant forall k :: k in order ==> k in live && k !in rest
        invariant forall i, j :: 0 <= i < j < |order| ==> order[i] != order[j]
        invariant forall k :: k in live ==> k in rest || k in order
        invariant events == old(events) + FlushEvents(order, live, aboutToDeleteItem)
        decreases |rest|
      {
        var key :| key in rest;
        ghost var before := FlushEvents(order, live, aboutToDeleteItem);
        FireAboutToDelete(Some(live[key]));
        LfuInvariants.FlushEventsSnoc(order, key, live, aboutToDeleteItem);
        LfuInvariants.ConcatAssoc(old(events), before, DeleteEvents(aboutToDeleteItem, Some(live[key])));
        order := order + [key];
        rest := rest - {key};
      }
    }

    /** Flush: the callbacks fire for every live entry, then all three maps
        are emptied. */
    method Flush() returns (ghost order: seq<K>)
      requires Wf()
      modifies this
      ensures IsEnumeration(order, old(items).Keys)
      ensures (forall k :: k in order ==> k in old(items)) && Snapshot() == LfuState.Flush(old(Snapshot()), order)
      ensures Valid() && loadData == old(loadData)
    {
      order := FireFlush();
      items := map[];
      keyToNode := map[];
      buckets := map[];
      size := 0;
      minFrequency := 0;
    }

    method SetDataLoader(f: Option<(K, seq<A>) -> Option<Item<K, V>>>)
      modifies this`loadData
      ensures loadData == f
    {
      loadData := f;
    }

    method SetAddedItemCallback(f: CallbackId)
      modifies this`addedItem
      ensures addedItem == [f]
    {
      if |addedItem| > 0 {
        RemoveAddedItemCallbacks();
      }
      addedItem := addedItem + [f];
    }

    method AddAddedItemCallback(f: CallbackId)
      modifies this`addedItem
      ensures addedItem == old(addedItem) + [f]
    {
      addedItem := addedItem + [f];
    }

    method RemoveAddedItemCallbacks()
      modifies this`addedItem
      ensures addedItem == []
    {
      addedItem := [];
    }

    method SetAboutToDeleteItemCallback(f: CallbackId)
      modifies this`aboutToDeleteItem
      ensures aboutToDeleteItem == [f]
    {
      if |aboutToDeleteItem| > 0 {
        RemoveAboutToDeleteItemCallback();
      }
      aboutToDeleteItem := aboutToDeleteItem + [f];
    }

    method AddAboutToDeleteItemCallback(f: CallbackId)
      modifies this`aboutToDeleteItem
      ensures aboutToDeleteItem == old(aboutToDeleteItem) + [f]
    {
      aboutToDeleteItem := aboutToDeleteItem + [f];
    }

    method RemoveAboutToDeleteItemCallback()
      modifies this`aboutToDeleteItem
      ensures aboutToDeleteItem == []
    {
      aboutToDeleteItem := [];
    }

    /** The inner loop of MostAccessed: list `node` read front to back,
        keeping the live keys' entries, until `want` are taken. */
    method TakeFront(node: seq<NodeId>, want: int) returns (taken: seq<Item<K, V>>)
      requires forall i :: 0 <= i < |node| ==> node[i] in nodeKey
      ensures taken == TakeLive(Snapshot(), node, want)
    {
      taken := [];
      var j := 0;
      while j < |node| && |taken| < want
        invariant 0 <= j <= |node|
        invariant taken + TakeLive(Snapshot(), node[j..], want - |taken|) == TakeLive(Snapshot(), node, want)
      {
        assert node[j..][1..] == node[j + 1..];
        var key := nodeKey[node[j]];
        if key in items {
          LfuInvariants.ConcatAssoc(taken, [items[key]], TakeLive(Snapshot(), node[j + 1..], want - |taken| - 1));
          taken := taken + [items[key]];
        }
        j := j + 1;
      }
      assert TakeLive(Snapshot(), node[j..], want - |taken|) == [];
    }

    /** MostAccessed: lists `len(frequencies)` down to 1, each front to back,
        live keys only, until `count` entries are collected. */
    method MostAccessed(count: int) returns (result: seq<Item<K, V>>)
      requires Wf()
      ensures result == LfuState.MostAccessed(Snapshot(), count)
    {
      ghost var s := Snapshot();
      result := [];
      var collected := 0;
      var freq := |buckets|;
      while freq > 0 && collected < count
        invariant s == Snapshot()
        invariant collected == |result|
        invariant result + Walk(s, freq, count - collected) == Walk(s, |s.buckets|, count)
      {
        var here := [];
        if freq in buckets {
          here := TakeFront(buckets[freq], count - collected);
        }
        assert here == TakeLive(s, Bucket(s.buckets, freq), count - collected);
        LfuInvariants.WalkStep(s, freq, count - collected, result, Walk(s, |s.buckets|, count));
        result := result + here;
        collected := collected + |here|;
        freq := freq - 1;
      }
    }
  }
}
