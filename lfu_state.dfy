/** The state of the LFU cache engine of lfu.go and one pure step function per
    operation. These functions are the reference definition: the methods of
    Lfu.LFUCache are proved to compute exactly these steps, and the lemmas in
    LfuInvariants and LfuProperties state what the steps mean. */
module LfuState {

  datatype Option<T> = None | Some(value: T)

  /** The elements of the frequency lists live in an arena and are named by ids.
      Every push takes a fresh id from a counter, so a smaller id was pushed earlier. */
  type NodeId = nat

  /** A registered callback, identified by a token; what it is called with goes
      to the event log. */
  type CallbackId = nat

  /** A cache entry: key, payload, lifespan and access counter. The timestamps
      of the entry are not modelled. */
  datatype Item<K, V> = Item(key: K, data: V, lifeSpan: int, accessCount: nat)

  /** One callback invocation. An about-to-delete callback may receive nil. */
  datatype Event<K, V> =
    | Added(callback: CallbackId, item: Item<K, V>)
    | AboutToDelete(callback: CallbackId, entry: Option<Item<K, V>>)

  datatype Error = ErrKeyNotFound | ErrKeyNotFoundOrLoadable

  datatype Result<T> = Ok(value: T) | Err(error: Error)

  /** What the data loader does for a missed key: there is none, or it returns
      an item or nil. */
  datatype LoadOutcome<K, V> = NoLoader | Loaded(item: Option<Item<K, V>>)

  /** The fields of LFUCache that the operations change. `buckets` maps a
      frequency to its list of node ids (front first), `nodeKey` is the arena,
      `events` records the callback invocations in order. */
  datatype State<K, V> = State(
    capacity: int,
    size: int,
    items: map<K, Item<K, V>>,
    keyToNode: map<K, NodeId>,
    buckets: map<int, seq<NodeId>>,
    nodeKey: map<NodeId, K>,
    nextNode: NodeId,
    minFrequency: int,
    addedCallbacks: seq<CallbackId>,
    deleteCallbacks: seq<CallbackId>,
    events: seq<Event<K, V>>)

  function Max(a: int, b: int): int { if a < b then b else a }

  /** The cache right after NewLFUCache: empty, with the given capacity, no
      callbacks and no invocations, and already satisfying the full invariant. */
  function Init<K, V>(capacity: int): (r: State<K, V>)
    ensures Valid(r)
    ensures r.capacity == capacity && r.items == map[] && r.size == 0
    ensures r.keyToNode == map[] && r.buckets == map[] && r.minFrequency == 0
    ensures r.addedCallbacks == [] && r.deleteCallbacks == [] && r.events == []
  {
    State(capacity, 0, map[], map[], map[], map[], 0, 0, [], [], [])
  }

  /** The structure every operation keeps, whatever the history: the two key
      maps agree, every listed node is in the arena and ids below the counter. */
  ghost predicate Wf<K, V>(s: State<K, V>)
  {
    && s.items.Keys == s.keyToNode.Keys
    && (forall n :: n in s.nodeKey ==> n < s.nextNode)
    && (forall f, n :: f in s.buckets && n in s.buckets[f] ==> n in s.nodeKey)
  }

  /** The list of frequency `f`, empty when it was never created. */
  function Bucket(buckets: map<int, seq<NodeId>>, f: int): seq<NodeId>
  {
    if f in buckets then buckets[f] else []
  }

  /** list.Remove: drops the element when it is in this list, otherwise
      leaves the list as it is. */
  function Unlink(b: seq<NodeId>, n: NodeId): (r: seq<NodeId>)
    ensures forall m :: m in r <==> m in b && m != n
    ensures n !in b ==> r == b
    ensures |r| <= |b|
  {
    if b == [] then []
    else if b[0] == n then Unlink(b[1..], n)
    else [b[0]] + Unlink(b[1..], n)
  }

  /** Removing an element that occurs only at position `i` closes the gap. */
  lemma {:induction false} UnlinkOnlyAt(b: seq<NodeId>, n: NodeId, i: int)
    requires 0 <= i < |b| && b[i] == n
    requires forall j :: 0 <= j < |b| && j != i ==> b[j] != n
    ensures Unlink(b, n) == b[..i] + b[i + 1..]
  {
    var t := b[1..];
    if i == 0 {
      assert n !in t by {
        forall j | 0 <= j < |t| ensures t[j] != n {
          assert t[j] == b[j + 1];
        }
      }
    } else {
      assert b[0] != n;
      forall j | 0 <= j < |t| && j != i - 1 ensures t[j] != n {
        assert t[j] == b[j + 1];
      }
      UnlinkOnlyAt(t, n, i - 1);
      calc {
        Unlink(b, n);
        [b[0]] + Unlink(t, n);
        [b[0]] + (t[..i - 1] + t[i..]);
        { assert [b[0]] + t[..i - 1] == b[..i]; assert t[i..] == b[i + 1..]; }
        b[..i] + b[i + 1..];
      }
    }
  }

  /** list.Remove keeps the order of the other elements: in a list without
      repetitions, removing the element at position `i` closes the gap. */
  lemma UnlinkKeepsOrder(b: seq<NodeId>, n: NodeId, i: int)
    requires Distinct(b) && 0 <= i < |b| && b[i] == n
    ensures Unlink(b, n) == b[..i] + b[i + 1..]
  {
    UnlinkOnlyAt(b, n, i);
  }

  /** `x` is the entry stored under some key. */
  ghost predicate IsEntry<K, V>(items: map<K, Item<K, V>>, x: Item<K, V>)
  {
    exists k :: k in items && items[k] == x
  }

  /** No element occurs twice. */
  ghost predicate Distinct<T>(b: seq<T>)
  {
    forall i, j :: 0 <= i < j < |b| ==> b[i] != b[j]
  }

  /** One added-callback invocation per registered callback, in registration order. */
  function AddedEvents<K, V>(cbs: seq<CallbackId>, item: Item<K, V>): (r: seq<Event<K, V>>)
    ensures |r| == |cbs|
    ensures forall j :: 0 <= j < |cbs| ==> r[j] == Added(cbs[j], item)
  {
    if cbs == [] then [] else [Added(cbs[0], item)] + AddedEvents(cbs[1..], item)
  }

  /** One about-to-delete invocation per registered callback, in registration order. */
  function DeleteEvents<K, V>(cbs: seq<CallbackId>, item: Option<Item<K, V>>): (r: seq<Event<K, V>>)
    ensures |r| == |cbs|
    ensures forall j :: 0 <= j < |cbs| ==> r[j] == AboutToDelete(cbs[j], item)
  {
    if cbs == [] then [] else [AboutToDelete(cbs[0], item)] + DeleteEvents(cbs[1..], item)
  }

  /** Removing `element` from the list of `freq`, if that list exists, followed by
      the watermark rule: when the list empties and `freq` was the minimum
      frequency, the minimum moves up by one. Shared by updateFrequency and Delete. */
  function UnlinkFrom<K, V>(s: State<K, V>, freq: int, element: NodeId): (r: State<K, V>)
    requires Wf(s)
    ensures Wf(r)
  {
    if freq in s.buckets then
      var rest := Unlink(s.buckets[freq], element);
      s.(buckets := s.buckets[freq := rest],
         minFrequency := if |rest| == 0 && freq == s.minFrequency then s.minFrequency + 1 else s.minFrequency)
    else s
  }

  /** updateFrequency: the entry's counter has already been incremented by the
      caller and is read as the old frequency; the key moves from that list to
      the front of the next one (created when absent). */
  function UpdateFrequency<K, V>(s: State<K, V>, key: K): (r: State<K, V>)
    requires Wf(s) && key in s.items
    ensures Wf(r)
  {
    var oldFreq := s.items[key].accessCount;
    var s1 := UnlinkFrom(s, oldFreq, s.keyToNode[key]);
    var newFreq := oldFreq + 1;
    var node := s1.nextNode;
    s1.(buckets := s1.buckets[newFreq := [node] + Bucket(s1.buckets, newFreq)],
        nodeKey := s1.nodeKey[node := key],
        nextNode := node + 1,
        keyToNode := s1.keyToNode[key := node])
  }

  /** Stores the caller's new version of the entry (counter already bumped) and
      then runs updateFrequency: the touch of Add on a present key and of a
      Value hit. */
  function Touch<K, V>(s: State<K, V>, key: K, item: Item<K, V>): (r: State<K, V>)
    requires Wf(s) && key in s.items
    ensures Wf(r)
  {
    UpdateFrequency(s.(items := s.items[key := item]), key)
  }

  /** KeepAlive: one more access. */
  function KeepAlive<K, V>(item: Item<K, V>): (r: Item<K, V>)
    ensures r.accessCount == item.accessCount + 1
    ensures r.key == item.key && r.data == item.data && r.lifeSpan == item.lifeSpan
  {
    item.(accessCount := item.accessCount + 1)
  }

  /** The in-place update Add makes to an entry that is already cached: new
      data and life span, one more access. */
  function Refresh<K, V>(item: Item<K, V>, lifeSpan: int, data: V): (r: Item<K, V>)
    ensures r.accessCount == item.accessCount + 1
    ensures r.key == item.key && r.data == data && r.lifeSpan == lifeSpan
  {
    item.(data := data, lifeSpan := lifeSpan, accessCount := item.accessCount + 1)
  }

  /** NewCacheItem: a fresh entry, never accessed. */
  function NewItem<K, V>(key: K, lifeSpan: int, data: V): (r: Item<K, V>)
    ensures r.key == key && r.data == data && r.lifeSpan == lifeSpan && r.accessCount == 0
  {
    Item(key, data, lifeSpan, 0)
  }

  /** True when evictLFU removes something: the cache is not empty and the
      list of the minimum frequency exists and is not empty. While
      `minFrequency` names the lowest non-empty list (as it does on a valid
      cache) that is the case exactly when the cache is not empty. */
  function CanEvict<K, V>(s: State<K, V>): (r: bool)
    ensures MinOk(s) && s.size >= 0 ==> (r <==> s.size > 0)
  {
    s.size != 0 && s.minFrequency in s.buckets && |s.buckets[s.minFrequency]| != 0
  }

  /** The key evictLFU removes: the one at the back of the minimum list. When
      no list holds a stale node (as on a valid cache) it is a live key whose
      counter puts it in the minimum list. */
  function Victim<K, V>(s: State<K, V>): (r: K)
    requires Wf(s) && CanEvict(s)
    ensures NodesLive(s.items, s.keyToNode, s.buckets, s.nodeKey) ==>
              r in s.items && s.items[r].accessCount + 1 == s.minFrequency
  {
    var b := s.buckets[s.minFrequency];
    assert b[|b| - 1] in b;
    s.nodeKey[b[|b| - 1]]
  }

  /** evictLFU. The entry handed to the callbacks is nil when the back node
      belongs to a key that is no longer in `items`. */
  function Evict<K, V>(s: State<K, V>): (r: State<K, V>)
    requires Wf(s)
    ensures Wf(r)
  {
    if !CanEvict(s) then s
    else
      var b := s.buckets[s.minFrequency];
      var key := Victim(s);
      var item := if key in s.items then Some(s.items[key]) else None;
      s.(buckets := s.buckets[s.minFrequency := b[..|b| - 1]],
         events := s.events + DeleteEvents(s.deleteCallbacks, item),
         items := s.items - {key},
         keyToNode := s.keyToNode - {key},
         size := s.size - 1)
  }

  /** The insertion shared by Add and the loader path of Value once eviction is
      done: store the entry, count it, push it to the front of list 1 and reset
      the watermark to 1. */
  function PushFresh<K, V>(s: State<K, V>, key: K, item: Item<K, V>): (r: State<K, V>)
    requires Wf(s)
    ensures Wf(r)
  {
    var node := s.nextNode;
    s.(items := s.items[key := item],
       size := s.size + 1,
       buckets := s.buckets[1 := [node] + Bucket(s.buckets, 1)],
       nodeKey := s.nodeKey[node := key],
       nextNode := node + 1,
       keyToNode := s.keyToNode[key := node],
       minFrequency := 1)
  }

  /** Evict when at capacity, then insert. */
  function Insert<K, V>(s: State<K, V>, key: K, item: Item<K, V>): (r: State<K, V>)
    requires Wf(s)
    ensures Wf(r)
  {
    PushFresh(if s.size >= s.capacity then Evict(s) else s, key, item)
  }

  /** Add: a present key is updated in place and touched; a new key is
      inserted and announced to every added-callback. Returns the entry. */
  function Add<K, V>(s: State<K, V>, key: K, lifeSpan: int, data: V): (r: (State<K, V>, Item<K, V>))
    requires Wf(s)
    ensures Wf(r.0)
  {
    if key in s.items then
      var updated := Refresh(s.items[key], lifeSpan, data);
      (Touch(s, key, updated), updated)
    else
      var item := NewItem(key, lifeSpan, data);
      var s1 := Insert(s, key, item);
      (s1.(events := s1.events + AddedEvents(s.addedCallbacks, item)), item)
  }

  /** Value: a hit is touched; a miss asks the loader, inserts what it returns
      (without added-callbacks) or fails. */
  function Value<K, V>(s: State<K, V>, key: K, loaded: LoadOutcome<K, V>): (r: (State<K, V>, Result<Item<K, V>>))
    requires Wf(s)
    ensures Wf(r.0)
  {
    if key in s.items then
      var item := KeepAlive(s.items[key]);
      (Touch(s, key, item), Ok(item))
    else
      match loaded
      case NoLoader => (s, Err(ErrKeyNotFound))
      case Loaded(None) => (s, Err(ErrKeyNotFoundOrLoadable))
      case Loaded(Some(item)) => (Insert(s, key, item), Ok(item))
  }

  /** Delete as written: it unlinks from the list of the counter's value
      (not counter + 1), then notifies and drops the key. */
  function Delete<K, V>(s: State<K, V>, key: K): (r: (State<K, V>, Result<Item<K, V>>))
    requires Wf(s)
    ensures Wf(r.0)
  {
    if key !in s.items then (s, Err(ErrKeyNotFound))
    else
      var item := s.items[key];
      var s1 := UnlinkFrom(s, item.accessCount, s.keyToNode[key]);
      (s1.(events := s1.events + DeleteEvents(s.deleteCallbacks, Some(item)),
           items := s1.items - {key},
           keyToNode := s1.keyToNode - {key},
           size := s1.size - 1),
       Ok(item))
  }

  /** `order` lists the keys of a map once each, in some order. */
  ghost predicate IsEnumeration<K>(order: seq<K>, keys: set<K>)
  {
    && (forall i, j :: 0 <= i < j < |order| ==> order[i] != order[j])
    && (forall i :: 0 <= i < |order| ==> order[i] in keys)
    && (forall k :: k in keys ==> k in order)
  }

  /** The about-to-delete invocations of Flush when the items are visited in
      `order`: only invocations of registered about-to-delete callbacks, each
      with a live entry. */
  function FlushEvents<K, V>(order: seq<K>, items: map<K, Item<K, V>>, cbs: seq<CallbackId>): (r: seq<Event<K, V>>)
    requires forall k :: k in order ==> k in items
    ensures forall e :: e in r ==>
              e.AboutToDelete? && e.callback in cbs && e.entry.Some? && IsEntry(items, e.entry.value)
  {
    if order == [] then []
    else DeleteEvents(cbs, Some(items[order[0]])) + FlushEvents(order[1..], items, cbs)
  }

  /** Flush with the (unspecified) map iteration order `order`. The arena is
      not reclaimed; every list is dropped. Whatever the history, the emptied
      cache satisfies the full invariant. */
  function Flush<K, V>(s: State<K, V>, order: seq<K>): (r: State<K, V>)
    requires forall k :: k in order ==> k in s.items
    ensures Wf(s) ==> Valid(r)
  {
    s.(items := map[], keyToNode := map[], buckets := map[], size := 0, minFrequency := 0,
       events := s.events + FlushEvents(order, s.items, s.deleteCallbacks))
  }

  /** The entries of the live keys of list `b`, front to back, at most `want` of them. */
  function TakeLive<K, V>(s: State<K, V>, b: seq<NodeId>, want: int): (r: seq<Item<K, V>>)
    requires forall i :: 0 <= i < |b| ==> b[i] in s.nodeKey
  {
    if b == [] || want <= 0 then []
    else
      var key := s.nodeKey[b[0]];
      if key in s.items then [s.items[key]] + TakeLive(s, b[1..], want - 1)
      else TakeLive(s, b[1..], want)
  }

  /** The frequency lists `freq`, `freq - 1`, ..., 1 read in turn until
      `want` entries are collected. */
  function Walk<K, V>(s: State<K, V>, freq: int, want: int): (r: seq<Item<K, V>>)
    requires Wf(s)
    decreases freq
  {
    if freq <= 0 || want <= 0 then []
    else
      var here := TakeLive(s, Bucket(s.buckets, freq), want);
      here + Walk(s, freq - 1, want - |here|)
  }

  /** At most `want` entries are read from list `b`. */
  lemma {:induction false} TakeLiveBound<K, V>(s: State<K, V>, b: seq<NodeId>, want: int)
    requires forall i :: 0 <= i < |b| ==> b[i] in s.nodeKey
    ensures |TakeLive(s, b, want)| <= Max(want, 0)
  {
    if b != [] && want > 0 {
      TakeLiveBound(s, b[1..], want - 1);
      TakeLiveBound(s, b[1..], want);
    }
  }

  /** The walk down from list `freq` collects at most `want` entries. */
  lemma {:induction false} WalkBound<K, V>(s: State<K, V>, freq: int, want: int)
    requires Wf(s)
    ensures |Walk(s, freq, want)| <= Max(want, 0)
    decreases freq
  {
    if freq > 0 && want > 0 {
      var here := TakeLive(s, Bucket(s.buckets, freq), want);
      TakeLiveBound(s, Bucket(s.buckets, freq), want);
      WalkBound(s, freq - 1, want - |here|);
    }
  }

  /** MostAccessed: the walk starts at the number of lists ever created. It
      returns at most `count` entries. */
  function MostAccessed<K, V>(s: State<K, V>, count: int): (r: seq<Item<K, V>>)
    requires Wf(s)
    ensures |r| <= Max(count, 0)
  {
    WalkBound(s, |s.buckets|, count);
    Walk(s, |s.buckets|, count)
  }

  // ---------------------------------------------------------------------------
  // The invariant of the histories made of NewLFUCache, Add, Value and Flush.

  /** Every key map entry points at a node of the arena that stores that key. */
  ghost predicate KeysLinked<K>(keyToNode: map<K, NodeId>, nodeKey: map<NodeId, K>)
  {
    forall k :: k in keyToNode ==> keyToNode[k] in nodeKey && nodeKey[keyToNode[k]] == k
  }

  /** Every live key has its node in the list one above its counter. */
  ghost predicate KeysListed<K, V>(items: map<K, Item<K, V>>, keyToNode: map<K, NodeId>, buckets: map<int, seq<NodeId>>)
  {
    forall k :: k in items ==>
      && k in keyToNode
      && items[k].accessCount + 1 in buckets
      && keyToNode[k] in buckets[items[k].accessCount + 1]
  }

  /** Node `n`, found in list `f`, is the current node of a live key whose
      counter is `f - 1`. */
  ghost predicate NodeIsLive<K, V>(items: map<K, Item<K, V>>, keyToNode: map<K, NodeId>, nodeKey: map<NodeId, K>, f: int, n: NodeId)
  {
    && n in nodeKey
    && nodeKey[n] in items
    && nodeKey[n] in keyToNode
    && keyToNode[nodeKey[n]] == n
    && items[nodeKey[n]].accessCount + 1 == f
  }

  /** No list holds a stale node. */
  ghost predicate NodesLive<K, V>(items: map<K, Item<K, V>>, keyToNode: map<K, NodeId>, buckets: map<int, seq<NodeId>>, nodeKey: map<NodeId, K>)
  {
    forall f, n :: f in buckets && n in buckets[f] ==> NodeIsLive(items, keyToNode, nodeKey, f, n)
  }

  /** Node ids strictly decrease from front to back: the front was pushed last. */
  ghost predicate Descending(b: seq<NodeId>)
  {
    forall i, j :: 0 <= i < j < |b| ==> b[i] > b[j]
  }

  ghost predicate AllDescending(buckets: map<int, seq<NodeId>>)
  {
    forall f :: f in buckets ==> Descending(buckets[f])
  }

  /** The list indices ever created are exactly 1..len(frequencies). */
  ghost predicate Contiguous(buckets: map<int, seq<NodeId>>)
  {
    forall f :: f in buckets <==> 1 <= f <= |buckets|
  }

  /** The three maps and the lists describe the same set of live keys, each
      key by exactly one node. */
  ghost predicate Linked<K, V>(s: State<K, V>)
  {
    && Wf(s)
    && s.size == |s.items|
    && KeysLinked(s.keyToNode, s.nodeKey)
    && KeysListed(s.items, s.keyToNode, s.buckets)
    && NodesLive(s.items, s.keyToNode, s.buckets, s.nodeKey)
    && AllDescending(s.buckets)
    && Contiguous(s.buckets)
  }

  /** `minF` names the lowest non-empty list. */
  ghost predicate LowestNonEmpty(buckets: map<int, seq<NodeId>>, minF: int)
  {
    && minF in buckets
    && buckets[minF] != []
    && (forall f :: f in buckets && f < minF ==> buckets[f] == [])
  }

  /** When the cache is not empty, `minFrequency` names the lowest non-empty list. */
  ghost predicate MinOk<K, V>(s: State<K, V>)
  {
    s.size > 0 ==> LowestNonEmpty(s.buckets, s.minFrequency)
  }

  ghost predicate Valid<K, V>(s: State<K, V>)
  {
    && Linked(s)
    && MinOk(s)
    && s.size <= Max(s.capacity, 1)
  }
}
