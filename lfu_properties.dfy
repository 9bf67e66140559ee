/** What the steps of LfuState mean for a caller of the cache: which entry an
    eviction picks, what Add, Value, Delete and Flush change and announce, and
    what MostAccessed returns. */
module LfuProperties {
  import opened LfuState
  import opened LfuInvariants

  // ---------------------------------------------------------------------------
  // The lists

  /** On a valid cache every live key sits in exactly one place of exactly
      one list: two list positions holding the same key are the same position. */
  lemma OneNodePerKey<K, V>(s: State<K, V>)
    requires Valid(s)
    ensures forall f, g, i, j ::
              (f in s.buckets && g in s.buckets && 0 <= i < |s.buckets[f]| && 0 <= j < |s.buckets[g]| &&
               s.nodeKey[s.buckets[f][i]] == s.nodeKey[s.buckets[g][j]]) ==> f == g && i == j
  {
    forall f, g, i, j | f in s.buckets && g in s.buckets && 0 <= i < |s.buckets[f]| && 0 <= j < |s.buckets[g]| &&
                        s.nodeKey[s.buckets[f][i]] == s.nodeKey[s.buckets[g][j]]
      ensures f == g && i == j
    {
      assert s.buckets[f][i] in s.buckets[f] && s.buckets[g][j] in s.buckets[g];
      assert NodeIsLive(s.items, s.keyToNode, s.nodeKey, f, s.buckets[f][i]);
      assert NodeIsLive(s.items, s.keyToNode, s.nodeKey, g, s.buckets[g][j]);
      assert Descending(s.buckets[f]);
    }
  }

  // ---------------------------------------------------------------------------
  // evictLFU

  /** The back of a descending list has the smallest id of the list. */
  lemma BackIsOldest(b: seq<NodeId>, m: NodeId)
    requires Descending(b) && m in b
    ensures b[|b| - 1] <= m
  {
    var i :| 0 <= i < |b| && b[i] == m;
    if i < |b| - 1 {
      assert b[i] > b[|b| - 1];
    }
  }

  /** The victim's counter is at most that of `k`, and not larger than the
      node of `k` when the counters are equal. */
  lemma VictimBeats<K, V>(s: State<K, V>, k: K)
    requires Wf(s) && KeysListed(s.items, s.keyToNode, s.buckets) && MinOk(s) && s.size > 0
    requires CanEvict(s) && Descending(s.buckets[s.minFrequency])
    requires NodeIsLive(s.items, s.keyToNode, s.nodeKey, s.minFrequency,
                        s.buckets[s.minFrequency][|s.buckets[s.minFrequency]| - 1])
    requires k in s.items
    ensures Victim(s) in s.items && Victim(s) in s.keyToNode && k in s.keyToNode
    ensures s.items[Victim(s)].accessCount <= s.items[k].accessCount
    ensures s.items[k].accessCount == s.items[Victim(s)].accessCount ==> s.keyToNode[Victim(s)] <= s.keyToNode[k]
  {
    var b := s.buckets[s.minFrequency];
    var f := s.items[k].accessCount + 1;
    assert s.keyToNode[k] in s.buckets[f];
    assert f >= s.minFrequency;
    if f == s.minFrequency {
      BackIsOldest(b, s.keyToNode[k]);
    }
  }

  /** evictLFU picks an entry with the lowest counter and, among the entries
      with that counter, the one whose last touch is the oldest (node ids grow
      with every touch). */
  lemma EvictsLeastFrequent<K, V>(s: State<K, V>)
    requires Valid(s) && s.size > 0
    ensures CanEvict(s) && Victim(s) in s.items
    ensures forall k :: k in s.items ==> s.items[Victim(s)].accessCount <= s.items[k].accessCount
    ensures forall k :: k in s.items && s.items[k].accessCount == s.items[Victim(s)].accessCount ==>
              s.keyToNode[Victim(s)] <= s.keyToNode[k]
  {
    VictimLive(s);
    var b := s.buckets[s.minFrequency];
    assert b[|b| - 1] in b;
    assert NodeIsLive(s.items, s.keyToNode, s.nodeKey, s.minFrequency, b[|b| - 1]);
    forall k | k in s.items
      ensures s.items[Victim(s)].accessCount <= s.items[k].accessCount
      ensures s.items[k].accessCount == s.items[Victim(s)].accessCount ==> s.keyToNode[Victim(s)] <= s.keyToNode[k]
    {
      VictimBeats(s, k);
    }
  }

  /** On a valid non-empty cache evictLFU drops exactly the victim and hands
      its entry to every about-to-delete callback, in registration order. */
  lemma EvictEffect<K, V>(s: State<K, V>)
    requires Valid(s) && s.size > 0
    ensures CanEvict(s) && Victim(s) in s.items
    ensures Evict(s).items == s.items - {Victim(s)}
    ensures Evict(s).size == s.size - 1
    ensures Evict(s).events == s.events + DeleteEvents(s.deleteCallbacks, Some(s.items[Victim(s)]))
  {
    EvictLinked(s);
  }

  // ---------------------------------------------------------------------------
  // Add

  /** The insertion of a key that is not cached (Add of a new key, a Value
      miss the loader answers): an entry is evicted first exactly when the
      cache is at capacity and not empty, the new key's node is the front of
      list 1, the watermark is 1, and the cache stays within max(capacity, 1)
      entries. Only the eviction announces anything. */
  lemma InsertEffect<K, V>(s: State<K, V>, key: K, item: Item<K, V>)
    requires Valid(s) && key !in s.items
    ensures var r := Insert(s, key, item);
      && r.minFrequency == 1
      && key in r.keyToNode && 1 in r.buckets && r.buckets[1][0] == r.keyToNode[key]
      && r.size == |r.items| <= Max(s.capacity, 1)
      && if s.size >= s.capacity && s.size > 0 then
           && CanEvict(s) && Victim(s) in s.items
           && r.items == (s.items - {Victim(s)})[key := item]
           && r.events == s.events + DeleteEvents(s.deleteCallbacks, Some(s.items[Victim(s)]))
         else
           && r.items == s.items[key := item]
           && r.events == s.events
  {
    if s.size >= s.capacity && s.size > 0 {
      EvictLinked(s);
      EvictEffect(s);
    }
  }

  /** Add of a new key: the entry is fresh and inserted as InsertEffect
      describes, and every added-callback hears of it after any about-to-delete
      callbacks. */
  lemma AddNewEffect<K, V>(s: State<K, V>, key: K, lifeSpan: int, data: V)
    requires Valid(s) && key !in s.items
    ensures var r := Add(s, key, lifeSpan, data).0;
            var item := Add(s, key, lifeSpan, data).1;
      && item == NewItem(key, lifeSpan, data)
      && r.minFrequency == 1
      && key in r.keyToNode && 1 in r.buckets && r.buckets[1][0] == r.keyToNode[key]
      && r.size == |r.items| <= Max(s.capacity, 1)
      && if s.size >= s.capacity && s.size > 0 then
           && CanEvict(s) && Victim(s) in s.items
           && r.items == (s.items - {Victim(s)})[key := item]
           && r.events == s.events + DeleteEvents(s.deleteCallbacks, Some(s.items[Victim(s)]))
                                   + AddedEvents(s.addedCallbacks, item)
         else
           && r.items == s.items[key := item]
           && r.events == s.events + AddedEvents(s.addedCallbacks, item)
  {
    InsertEffect(s, key, NewItem(key, lifeSpan, data));
  }

  /** Add of a cached key: the entry takes the new data and life span and one
      more access, no callback fires, the size is unchanged, and the key's node
      moves from its list to the front of the next one. */
  lemma AddExistingEffect<K, V>(s: State<K, V>, key: K, lifeSpan: int, data: V)
    requires Valid(s) && key in s.items
    ensures var r := Add(s, key, lifeSpan, data).0;
            var item := Add(s, key, lifeSpan, data).1;
      && item == Refresh(s.items[key], lifeSpan, data)
      && r.items == s.items[key := item]
      && r.size == s.size && r.events == s.events
      && Valid(r)
      && r.buckets[item.accessCount + 1][0] == r.keyToNode[key]
      && s.keyToNode[key] !in r.buckets[item.accessCount]
  {
    var item := Refresh(s.items[key], lifeSpan, data);
    assert item.accessCount in s.buckets;
    TouchShape(s, key, item);
    AddPreservesValid(s, key, lifeSpan, data);
  }

  // ---------------------------------------------------------------------------
  // Value

  /** A Value hit counts one more access, moves the key up one list, fires no
      callback and ignores the loader. */
  lemma ValueHitEffect<K, V>(s: State<K, V>, key: K, loaded: LoadOutcome<K, V>)
    requires Valid(s) && key in s.items
    ensures var r := Value(s, key, loaded).0;
            var item := KeepAlive(s.items[key]);
      && Value(s, key, loaded).1 == Ok(item)
      && r.items == s.items[key := item]
      && r.size == s.size && r.events == s.events
      && Valid(r)
      && r.buckets[item.accessCount + 1][0] == r.keyToNode[key]
  {
    var item := KeepAlive(s.items[key]);
    assert item.accessCount in s.buckets;
    TouchShape(s, key, item);
    TouchPreservesValid(s, key, item);
  }

  /** A Value miss without a loader, or whose loader returns nil, changes
      nothing and reports the matching error; a loaded entry is inserted as
      returned, and only about-to-delete callbacks (of an eviction) may fire.
      On a valid cache the loaded entry is inserted as InsertEffect describes,
      without added-callbacks. */
  lemma ValueMissEffect<K, V>(s: State<K, V>, key: K, loaded: LoadOutcome<K, V>)
    requires Wf(s) && key !in s.items
    ensures loaded.NoLoader? ==> Value(s, key, loaded) == (s, Err(ErrKeyNotFound))
    ensures loaded == Loaded(None) ==> Value(s, key, loaded) == (s, Err(ErrKeyNotFoundOrLoadable))
    ensures loaded.Loaded? && loaded.item.Some? ==>
      var r := Value(s, key, loaded).0;
      && Value(s, key, loaded).1 == Ok(loaded.item.value)
      && key in r.items && r.items[key] == loaded.item.value
      && |s.events| <= |r.events| && r.events[..|s.events|] == s.events
      && (forall i :: |s.events| <= i < |r.events| ==> r.events[i].AboutToDelete?)
    ensures Valid(s) && loaded.Loaded? && loaded.item.Some? ==>
      var r := Value(s, key, loaded).0;
      var item := loaded.item.value;
      && r.minFrequency == 1
      && key in r.keyToNode && 1 in r.buckets && r.buckets[1][0] == r.keyToNode[key]
      && r.size == |r.items| <= Max(s.capacity, 1)
      && if s.size >= s.capacity && s.size > 0 then
           && CanEvict(s) && Victim(s) in s.items
           && r.items == (s.items - {Victim(s)})[key := item]
           && r.events == s.events + DeleteEvents(s.deleteCallbacks, Some(s.items[Victim(s)]))
         else
           && r.items == s.items[key := item]
           && r.events == s.events
  {
    if Valid(s) && loaded.Loaded? && loaded.item.Some? {
      assert Value(s, key, loaded).0 == Insert(s, key, loaded.item.value);
      InsertEffect(s, key, loaded.item.value);
    }
    if loaded.Loaded? && loaded.item.Some? && s.size >= s.capacity && CanEvict(s) {
      var v := Victim(s);
      var entry := if v in s.items then Some(s.items[v]) else None;
      var d := DeleteEvents(s.deleteCallbacks, entry);
      assert Evict(s).events == s.events + d;
      assert Value(s, key, loaded).0.events == s.events + d;
    }
  }

  // ---------------------------------------------------------------------------
  // Delete

  /** Delete reports a missing key and changes nothing; otherwise it returns the
      entry, hands it to every about-to-delete callback and drops the key. */
  lemma DeleteEffect<K, V>(s: State<K, V>, key: K)
    requires Wf(s)
    ensures key !in s.items ==> Delete(s, key) == (s, Err(ErrKeyNotFound))
    ensures key in s.items ==>
      var r := Delete(s, key).0;
      && Delete(s, key).1 == Ok(s.items[key])
      && r.items == s.items - {key} && r.keyToNode == s.keyToNode - {key}
      && r.size == s.size - 1
      && r.events == s.events + DeleteEvents(s.deleteCallbacks, Some(s.items[key]))
  {
  }

  // ---------------------------------------------------------------------------
  // Flush

  /** Flush makes one about-to-delete invocation per visited entry and callback. */
  lemma {:induction false} FlushEventsLength<K, V>(order: seq<K>, items: map<K, Item<K, V>>, cbs: seq<CallbackId>)
    requires forall k :: k in order ==> k in items
    ensures |FlushEvents(order, items, cbs)| == |order| * |cbs|
  {
    if order != [] {
      FlushEventsLength(order[1..], items, cbs);
      assert |order| * |cbs| == |cbs| + |order[1..]| * |cbs|;
    }
  }

  /** Every visited entry is handed to every about-to-delete callback. */
  lemma {:induction false} FlushEventsAnnounce<K, V>(order: seq<K>, items: map<K, Item<K, V>>, cbs: seq<CallbackId>)
    requires forall k :: k in order ==> k in items
    ensures forall k, j :: k in order && 0 <= j < |cbs| ==>
              AboutToDelete(cbs[j], Some(items[k])) in FlushEvents(order, items, cbs)
  {
    if order != [] {
      var d := DeleteEvents(cbs, Some(items[order[0]]));
      var rest := FlushEvents(order[1..], items, cbs);
      FlushEventsAnnounce(order[1..], items, cbs);
      forall k, j | k in order && 0 <= j < |cbs|
        ensures AboutToDelete(cbs[j], Some(items[k])) in d + rest
      {
        if k == order[0] {
          assert d[j] == AboutToDelete(cbs[j], Some(items[k]));
        } else {
          assert k in order[1..];
        }
      }
    }
  }

  /** Flush empties the three maps, resets size and the watermark to 0, keeps
      the capacity and the callbacks, and reports every entry to every
      about-to-delete callback once per callback. The result is a valid cache
      whatever the history before. */
  lemma FlushEffect<K, V>(s: State<K, V>, order: seq<K>)
    requires Wf(s) && IsEnumeration(order, s.items.Keys)
    ensures var r := Flush(s, order);
      && r.items == map[] && r.keyToNode == map[] && r.buckets == map[]
      && r.size == 0 && r.minFrequency == 0 && r.capacity == s.capacity && Valid(r)
      && r.addedCallbacks == s.addedCallbacks && r.deleteCallbacks == s.deleteCallbacks
      && |r.events| == |s.events| + |order| * |s.deleteCallbacks|
      && r.events[..|s.events|] == s.events
      && forall k, j :: k in s.items && 0 <= j < |s.deleteCallbacks| ==>
           AboutToDelete(s.deleteCallbacks[j], Some(s.items[k])) in r.events[|s.events|..]
  {
    FlushEventsLength(order, s.items, s.deleteCallbacks);
    FlushEventsAnnounce(order, s.items, s.deleteCallbacks);
    var r := Flush(s, order);
    assert r.events[|s.events|..] == FlushEvents(order, s.items, s.deleteCallbacks);
  }

  // ---------------------------------------------------------------------------
  // MostAccessed

  /** In a valid cache every entry read from list `f` has counter `f - 1`. */
  lemma {:induction false} TakeLiveCounts<K, V>(s: State<K, V>, b: seq<NodeId>, want: int, f: int)
    requires forall i :: 0 <= i < |b| ==> b[i] in s.nodeKey
    requires forall i :: 0 <= i < |b| ==> NodeIsLive(s.items, s.keyToNode, s.nodeKey, f, b[i])
    ensures forall x :: x in TakeLive(s, b, want) ==> x.accessCount + 1 == f
  {
    if b != [] && want > 0 {
      assert NodeIsLive(s.items, s.keyToNode, s.nodeKey, f, b[0]);
      TakeLiveCounts(s, b[1..], want - 1, f);
      TakeLiveCounts(s, b[1..], want, f);
    }
  }

  /** Access counters never increase along `r`. */
  ghost predicate MostAccessedFirst<K, V>(r: seq<Item<K, V>>)
  {
    forall i, j :: 0 <= i < j < |r| ==> r[i].accessCount >= r[j].accessCount
  }

  /** Every node of list `f` is live when no list holds a stale node. */
  lemma BucketLive<K, V>(s: State<K, V>, f: int)
    requires Wf(s) && NodesLive(s.items, s.keyToNode, s.buckets, s.nodeKey)
    ensures forall i :: 0 <= i < |Bucket(s.buckets, f)| ==> Bucket(s.buckets, f)[i] in s.nodeKey
    ensures forall i :: 0 <= i < |Bucket(s.buckets, f)| ==>
              NodeIsLive(s.items, s.keyToNode, s.nodeKey, f, Bucket(s.buckets, f)[i])
  {
    var b := Bucket(s.buckets, f);
    forall i | 0 <= i < |b| ensures b[i] in s.nodeKey && NodeIsLive(s.items, s.keyToNode, s.nodeKey, f, b[i]) {
      assert b[i] in s.buckets[f];
    }
  }

  /** Entries of counter `c - 1` followed by a most-accessed-first run of
      smaller counters are most accessed first. */
  lemma ConcatOrdered<K, V>(here: seq<Item<K, V>>, rest: seq<Item<K, V>>, c: int)
    requires forall x :: x in here ==> x.accessCount + 1 == c
    requires forall x :: x in rest ==> x.accessCount + 1 <= c - 1
    requires MostAccessedFirst(rest)
    ensures MostAccessedFirst(here + rest)
  {
    var w := here + rest;
    forall i, j | 0 <= i < j < |w| ensures w[i].accessCount >= w[j].accessCount {
      if j < |here| {
        assert w[i] == here[i] && here[i] in here;
        assert w[j] == here[j] && here[j] in here;
      } else if i < |here| {
        assert w[i] == here[i] && here[i] in here;
        assert w[j] == rest[j - |here|] && rest[j - |here|] in rest;
      } else {
        assert w[i] == rest[i - |here|] && w[j] == rest[j - |here|];
      }
    }
  }

  /** In a valid cache the walk down from list `freq` lists counters below
      `freq`, highest first. */
  lemma {:induction false} WalkOrdered<K, V>(s: State<K, V>, freq: int, want: int)
    requires Wf(s) && NodesLive(s.items, s.keyToNode, s.buckets, s.nodeKey)
    ensures forall x :: x in Walk(s, freq, want) ==> x.accessCount + 1 <= freq
    ensures MostAccessedFirst(Walk(s, freq, want))
    decreases freq
  {
    if freq > 0 && want > 0 {
      var b := Bucket(s.buckets, freq);
      var here := TakeLive(s, b, want);
      BucketLive(s, freq);
      TakeLiveCounts(s, b, want, freq);
      WalkOrdered(s, freq - 1, want - |here|);
      ConcatOrdered(here, Walk(s, freq - 1, want - |here|), freq);
    }
  }

  /** A list whose nodes are all live yields every entry it holds unless
      `want` entries were taken first. */
  lemma {:induction false} TakeLiveComplete<K, V>(s: State<K, V>, b: seq<NodeId>, want: int, f: int)
    requires forall i :: 0 <= i < |b| ==> b[i] in s.nodeKey
    requires forall i :: 0 <= i < |b| ==> NodeIsLive(s.items, s.keyToNode, s.nodeKey, f, b[i])
    ensures |TakeLive(s, b, want)| < want ==>
              forall i :: 0 <= i < |b| && s.nodeKey[b[i]] in s.items ==> s.items[s.nodeKey[b[i]]] in TakeLive(s, b, want)
  {
    if b != [] && want > 0 {
      assert NodeIsLive(s.items, s.keyToNode, s.nodeKey, f, b[0]);
      TakeLiveComplete(s, b[1..], want - 1, f);
      if |TakeLive(s, b, want)| < want {
        forall i | 0 <= i < |b| && s.nodeKey[b[i]] in s.items ensures s.items[s.nodeKey[b[i]]] in TakeLive(s, b, want) {
          if i > 0 {
            assert b[i] == b[1..][i - 1];
          }
        }
      }
    }
  }

  /** The part of the invariant the walk of MostAccessed relies on. */
  ghost predicate Listed<K, V>(s: State<K, V>)
  {
    && Wf(s)
    && KeysLinked(s.keyToNode, s.nodeKey)
    && KeysListed(s.items, s.keyToNode, s.buckets)
    && NodesLive(s.items, s.keyToNode, s.buckets, s.nodeKey)
  }

  /** In a valid cache a live entry of counter `f - 1` is read from list `f`
      unless `want` entries were taken from it first. */
  lemma LiveKeyTaken<K, V>(s: State<K, V>, f: int, want: int, k: K)
    requires Listed(s)
    requires k in s.items && s.items[k].accessCount + 1 == f
    requires |TakeLive(s, Bucket(s.buckets, f), want)| < want
    ensures s.items[k] in TakeLive(s, Bucket(s.buckets, f), want)
  {
    var b := Bucket(s.buckets, f);
    BucketLive(s, f);
    TakeLiveComplete(s, b, want, f);
    var n := s.keyToNode[k];
    assert n in b;
    var i :| 0 <= i < |b| && b[i] == n;
  }

  /** In a valid cache a walk from list `freq` that finds fewer than `want`
      entries lists every live entry of a counter below `freq`. */
  lemma {:induction false} WalkShortIsAll<K, V>(s: State<K, V>, freq: int, want: int)
    requires Listed(s)
    ensures |Walk(s, freq, want)| < want ==>
              forall k :: k in s.items && s.items[k].accessCount + 1 <= freq ==> s.items[k] in Walk(s, freq, want)
    decreases freq
  {
    if freq > 0 && want > 0 {
      var here := TakeLive(s, Bucket(s.buckets, freq), want);
      WalkShortIsAll(s, freq - 1, want - |here|);
      if |Walk(s, freq, want)| < want {
        forall k | k in s.items && s.items[k].accessCount + 1 == freq ensures s.items[k] in here {
          LiveKeyTaken(s, freq, want, k);
        }
      }
    }
  }

  /** One round of the walk: an entry of counter `freq - 1` is taken unless
      nothing is left for the lower lists. */
  lemma TopCountsStep<K, V>(s: State<K, V>, freq: int, want: int, k: K, x: Item<K, V>)
    requires Listed(s) && freq > 0 && want > 0
    requires k in s.items && s.items[k].accessCount + 1 == freq
    requires x in Walk(s, freq, want) && x.accessCount < s.items[k].accessCount
    ensures s.items[k] in TakeLive(s, Bucket(s.buckets, freq), want)
  {
    var b := Bucket(s.buckets, freq);
    var here := TakeLive(s, b, want);
    BucketLive(s, freq);
    TakeLiveCounts(s, b, want, freq);
    assert x !in here;
    assert Walk(s, freq - 1, want - |here|) != [];
    LiveKeyTaken(s, freq, want, k);
  }

  /** In a valid cache a walk from list `freq` leaves out no live entry of a
      counter below `freq` while it lists one with a smaller counter. */
  lemma {:induction false} WalkTopCounts<K, V>(s: State<K, V>, freq: int, want: int)
    requires Listed(s)
    ensures forall k, x ::
              (k in s.items && s.items[k].accessCount + 1 <= freq && x in Walk(s, freq, want) &&
               x.accessCount < s.items[k].accessCount) ==> s.items[k] in Walk(s, freq, want)
    decreases freq
  {
    if freq > 0 && want > 0 {
      var b := Bucket(s.buckets, freq);
      var here := TakeLive(s, b, want);
      var rest := Walk(s, freq - 1, want - |here|);
      assert Walk(s, freq, want) == here + rest;
      BucketLive(s, freq);
      TakeLiveCounts(s, b, want, freq);
      WalkTopCounts(s, freq - 1, want - |here|);
      forall k, x: Item<K, V> | k in s.items && s.items[k].accessCount + 1 <= freq && x in here + rest &&
                                x.accessCount < s.items[k].accessCount
        ensures s.items[k] in here + rest
      {
        if s.items[k].accessCount + 1 == freq {
          TopCountsStep(s, freq, want, k, x);
        } else {
          assert x !in here;
          assert x in rest;
        }
      }
    }
  }

  /** The live keys of list `b`, front to back, at most `want` of them. This
      mirrors LfuState.TakeLive step for step, one key per entry, as
      TakeKeysEntries proves. */
  ghost function TakeKeys<K, V>(s: State<K, V>, b: seq<NodeId>, want: int): seq<K>
    requires forall i :: 0 <= i < |b| ==> b[i] in s.nodeKey
  {
    if b == [] || want <= 0 then []
    else
      var key := s.nodeKey[b[0]];
      if key in s.items then [key] + TakeKeys(s, b[1..], want - 1)
      else TakeKeys(s, b[1..], want)
  }

  /** The keys read by the walk down from list `freq`. This mirrors
      LfuState.Walk step for step, one key per entry, as WalkKeysEntries
      proves. */
  ghost function WalkKeys<K, V>(s: State<K, V>, freq: int, want: int): seq<K>
    requires Wf(s)
    decreases freq
  {
    if freq <= 0 || want <= 0 then []
    else
      var here := TakeKeys(s, Bucket(s.buckets, freq), want);
      here + WalkKeys(s, freq - 1, want - |here|)
  }

  /** `entries` are the entries of the live keys `keys`, position by position. */
  ghost predicate EntriesOf<K, V>(s: State<K, V>, entries: seq<Item<K, V>>, keys: seq<K>)
  {
    && |keys| == |entries|
    && forall i :: 0 <= i < |keys| ==> keys[i] in s.items && entries[i] == s.items[keys[i]]
  }

  /** TakeLive collects the entries of exactly the keys TakeKeys reads. */
  lemma {:induction false} TakeKeysEntries<K, V>(s: State<K, V>, b: seq<NodeId>, want: int)
    requires forall i :: 0 <= i < |b| ==> b[i] in s.nodeKey
    ensures EntriesOf(s, TakeLive(s, b, want), TakeKeys(s, b, want))
  {
    if b != [] && want > 0 {
      var key := s.nodeKey[b[0]];
      if key in s.items {
        TakeKeysEntries(s, b[1..], want - 1);
        var e := TakeLive(s, b[1..], want - 1);
        var k := TakeKeys(s, b[1..], want - 1);
        assert forall i :: 0 < i < |k| + 1 ==> ([key] + k)[i] == k[i - 1] && ([s.items[key]] + e)[i] == e[i - 1];
      } else {
        TakeKeysEntries(s, b[1..], want);
      }
    }
  }

  /** The entries collected by two reads in turn are those of the keys they read in turn. */
  lemma EntriesOfConcat<K, V>(s: State<K, V>, e1: seq<Item<K, V>>, k1: seq<K>, e2: seq<Item<K, V>>, k2: seq<K>)
    requires EntriesOf(s, e1, k1) && EntriesOf(s, e2, k2)
    ensures EntriesOf(s, e1 + e2, k1 + k2)
  {
    forall i | 0 <= i < |k1 + k2| ensures (k1 + k2)[i] in s.items && (e1 + e2)[i] == s.items[(k1 + k2)[i]] {
      if i < |k1| {
        assert (k1 + k2)[i] == k1[i] && (e1 + e2)[i] == e1[i];
      } else {
        assert (k1 + k2)[i] == k2[i - |k1|] && (e1 + e2)[i] == e2[i - |k1|];
      }
    }
  }

  /** Walk collects the entries of exactly the keys WalkKeys reads. */
  lemma {:induction false} WalkKeysEntries<K, V>(s: State<K, V>, freq: int, want: int)
    requires Wf(s)
    ensures EntriesOf(s, Walk(s, freq, want), WalkKeys(s, freq, want))
    decreases freq
  {
    if freq > 0 && want > 0 {
      var b := Bucket(s.buckets, freq);
      TakeKeysEntries(s, b, want);
      var here := TakeKeys(s, b, want);
      WalkKeysEntries(s, freq - 1, want - |here|);
      EntriesOfConcat(s, TakeLive(s, b, want), here,
                      Walk(s, freq - 1, want - |here|), WalkKeys(s, freq - 1, want - |here|));
    }
  }

  /** Along `keys` the counters never increase, and among equal counters the
      key touched last comes first. */
  ghost predicate Ranked<K, V>(s: State<K, V>, keys: seq<K>)
  {
    && (forall i :: 0 <= i < |keys| ==> keys[i] in s.items && keys[i] in s.keyToNode)
    && (forall i, j :: 0 <= i < j < |keys| ==>
          || s.items[keys[i]].accessCount > s.items[keys[j]].accessCount
          || (s.items[keys[i]].accessCount == s.items[keys[j]].accessCount &&
              s.keyToNode[keys[i]] > s.keyToNode[keys[j]]))
  }

  /** `t` holds live keys whose nodes are in list `b`, all with counter
      `f - 1`, touched last first. */
  ghost predicate TakenFrom<K, V>(s: State<K, V>, t: seq<K>, b: seq<NodeId>, f: int)
  {
    && (forall i :: 0 <= i < |t| ==>
          t[i] in s.items && t[i] in s.keyToNode && s.keyToNode[t[i]] in b && s.items[t[i]].accessCount + 1 == f)
    && (forall i, j :: 0 <= i < j < |t| ==> s.keyToNode[t[i]] > s.keyToNode[t[j]])
  }

  /** Putting the key of the front node before keys taken from the rest of a
      newest-first list keeps them newest first. */
  lemma TakenFromCons<K, V>(s: State<K, V>, k0: K, rest: seq<K>, b: seq<NodeId>, f: int)
    requires b != [] && Descending(b)
    requires k0 in s.items && k0 in s.keyToNode && s.keyToNode[k0] == b[0] && s.items[k0].accessCount + 1 == f
    requires TakenFrom(s, rest, b[1..], f)
    ensures TakenFrom(s, [k0] + rest, b, f)
  {
    var t := [k0] + rest;
    forall i | 0 <= i < |rest| ensures s.keyToNode[rest[i]] in b && s.keyToNode[rest[i]] < b[0] {
      var m := s.keyToNode[rest[i]];
      var k :| 0 <= k < |b[1..]| && b[1..][k] == m;
      assert b[k + 1] == m;
    }
    forall i, j | 0 <= i < j < |t| ensures s.keyToNode[t[i]] > s.keyToNode[t[j]] {
      assert t[j] == rest[j - 1];
      if i > 0 {
        assert t[i] == rest[i - 1];
      }
    }
    forall i | 0 <= i < |t|
      ensures t[i] in s.items && t[i] in s.keyToNode && s.keyToNode[t[i]] in b && s.items[t[i]].accessCount + 1 == f
    {
      if i > 0 {
        assert t[i] == rest[i - 1];
      }
    }
  }

  /** The keys read from a list of live nodes ordered newest first come out
      newest first, all with the list's counter. */
  lemma {:induction false} TakeKeysNewestFirst<K, V>(s: State<K, V>, b: seq<NodeId>, want: int, f: int)
    requires forall i :: 0 <= i < |b| ==> b[i] in s.nodeKey
    requires forall i :: 0 <= i < |b| ==> NodeIsLive(s.items, s.keyToNode, s.nodeKey, f, b[i])
    requires Descending(b)
    ensures TakenFrom(s, TakeKeys(s, b, want), b, f)
  {
    if b != [] && want > 0 {
      assert NodeIsLive(s.items, s.keyToNode, s.nodeKey, f, b[0]);
      var tail := b[1..];
      assert forall i :: 0 <= i < |tail| ==> tail[i] == b[i + 1];
      var k0 := s.nodeKey[b[0]];
      assert TakeKeys(s, b, want) == [k0] + TakeKeys(s, tail, want - 1);
      TakeKeysNewestFirst(s, tail, want - 1, f);
      TakenFromCons(s, k0, TakeKeys(s, tail, want - 1), b, f);
    }
  }

  /** The keys read from list `f` of a cache whose lists hold live nodes
      only, newest first. */
  lemma BucketTakenFrom<K, V>(s: State<K, V>, f: int, want: int)
    requires Wf(s) && NodesLive(s.items, s.keyToNode, s.buckets, s.nodeKey) && AllDescending(s.buckets)
    ensures TakenFrom(s, TakeKeys(s, Bucket(s.buckets, f), want), Bucket(s.buckets, f), f)
  {
    BucketLive(s, f);
    assert Descending(Bucket(s.buckets, f));
    TakeKeysNewestFirst(s, Bucket(s.buckets, f), want, f);
  }

  /** Every key of `keys` is live with a counter below `freq`. */
  ghost predicate LiveBelow<K, V>(s: State<K, V>, keys: seq<K>, freq: int)
  {
    forall i :: 0 <= i < |keys| ==> keys[i] in s.items && s.items[keys[i]].accessCount + 1 <= freq
  }

  /** Keys of list `f`, newest first, followed by ranked keys of lower
      counters are ranked. */
  lemma RankedConcat<K, V>(s: State<K, V>, here: seq<K>, rest: seq<K>, b: seq<NodeId>, f: int)
    requires TakenFrom(s, here, b, f)
    requires Ranked(s, rest) && LiveBelow(s, rest, f - 1)
    ensures Ranked(s, here + rest) && LiveBelow(s, here + rest, f)
  {
    var w := here + rest;
    forall i | 0 <= i < |w| ensures w[i] in s.items && w[i] in s.keyToNode && s.items[w[i]].accessCount + 1 <= f {
      if i < |here| {
        assert w[i] == here[i];
      } else {
        assert w[i] == rest[i - |here|];
      }
    }
    forall i, j | 0 <= i < j < |w|
      ensures || s.items[w[i]].accessCount > s.items[w[j]].accessCount
              || (s.items[w[i]].accessCount == s.items[w[j]].accessCount && s.keyToNode[w[i]] > s.keyToNode[w[j]])
    {
      if j < |here| {
        assert w[i] == here[i] && w[j] == here[j];
      } else if i < |here| {
        assert w[i] == here[i] && w[j] == rest[j - |here|];
      } else {
        assert w[i] == rest[i - |here|] && w[j] == rest[j - |here|];
      }
    }
  }

  /** In a valid cache the keys of the walk down from list `freq` are ranked:
      counters below `freq`, highest first, the latest touch first among equals. */
  lemma {:induction false} WalkKeysRanked<K, V>(s: State<K, V>, freq: int, want: int)
    requires Wf(s) && NodesLive(s.items, s.keyToNode, s.buckets, s.nodeKey) && AllDescending(s.buckets)
    ensures Ranked(s, WalkKeys(s, freq, want)) && LiveBelow(s, WalkKeys(s, freq, want), freq)
    decreases freq
  {
    if freq > 0 && want > 0 {
      var b := Bucket(s.buckets, freq);
      var here := TakeKeys(s, b, want);
      BucketTakenFrom(s, freq, want);
      var rest := WalkKeys(s, freq - 1, want - |here|);
      WalkKeysRanked(s, freq - 1, want - |here|);
      RankedConcat(s, here, rest, b, freq);
      assert WalkKeys(s, freq, want) == here + rest;
    }
  }

  /** The keys behind MostAccessed, when no list holds a stale node and
      every list is newest first: distinct live keys, one per entry, the
      latest touch first among equal counters. */
  lemma MostAccessedKeys<K, V>(s: State<K, V>, count: int)
    requires Wf(s) && NodesLive(s.items, s.keyToNode, s.buckets, s.nodeKey) && AllDescending(s.buckets)
    ensures var r := MostAccessed(s, count);
            var keys := WalkKeys(s, |s.buckets|, count);
      && EntriesOf(s, r, keys)
      && (forall i :: 0 <= i < |keys| ==> keys[i] in s.keyToNode)
      && Distinct(keys)
      && (forall i, j :: 0 <= i < j < |r| && r[i].accessCount == r[j].accessCount ==>
            s.keyToNode[keys[i]] > s.keyToNode[keys[j]])
      && (forall x :: x in r ==> x in s.items.Values)
  {
    WalkKeysRanked(s, |s.buckets|, count);
    WalkKeysEntries(s, |s.buckets|, count);
    var r := MostAccessed(s, count);
    var keys := WalkKeys(s, |s.buckets|, count);
    forall x | x in r ensures x in s.items.Values {
      var i :| 0 <= i < |r| && r[i] == x;
      assert s.items[keys[i]] == x;
    }
  }

  /** MostAccessed on a valid cache: at most `count` live entries, most
      accessed first; fewer than `count` only when every live entry is listed,
      and no live entry is left out while one with a smaller counter is listed.
      The entries belong to distinct live keys, and among equal counters the
      key touched last comes first, as each list is read front to back. */
  lemma MostAccessedEffect<K, V>(s: State<K, V>, count: int)
    requires Valid(s)
    ensures var r := MostAccessed(s, count);
      && |r| <= Max(count, 0)
      && (forall x :: x in r ==> x in s.items.Values)
      && MostAccessedFirst(r)
      && (|r| < count ==> forall k :: k in s.items ==> s.items[k] in r)
      && (forall k, x :: k in s.items && x in r && x.accessCount < s.items[k].accessCount ==> s.items[k] in r)
    ensures var r := MostAccessed(s, count);
            var keys := WalkKeys(s, |s.buckets|, count);
      && EntriesOf(s, r, keys)
      && (forall i :: 0 <= i < |keys| ==> keys[i] in s.keyToNode)
      && Distinct(keys)
      && (forall i, j :: 0 <= i < j < |r| && r[i].accessCount == r[j].accessCount ==>
            s.keyToNode[keys[i]] > s.keyToNode[keys[j]])
  {
    MostAccessedKeys(s, count);
    WalkOrdered(s, |s.buckets|, count);
    WalkShortIsAll(s, |s.buckets|, count);
    WalkTopCounts(s, |s.buckets|, count);
    forall k | k in s.items ensures s.items[k].accessCount + 1 <= |s.buckets| {
      assert s.items[k].accessCount + 1 in s.buckets;
    }
  }
}
