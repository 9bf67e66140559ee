# LFU cache engine of cache2go, in Dafny

This project models the least-frequently-used cache engine `LFUCache` of
cache2go (`lfu.go`) and proves properties of it.

The engine keeps three maps:

- `items`: key to entry;
- `keyToListElement`: key to its element in a frequency list;
- `frequencies`: frequency to a doubly linked list of keys, with the most
  recently pushed key at the front.

It also keeps the scalars `size` and `minFrequency` and two lists of
callbacks (added, about-to-delete), plus an optional data loader.

Files:

- `lfu_state.dfy` (module `LfuState`): the state as a datatype and one pure
  step function per operation. This is the reference definition. It also
  holds the structural predicates `Wf` (kept by every operation) and `Valid`
  (the full invariant).
- `lfu_cache.dfy` (module `Lfu`): the class `LFUCache`, whose fields the
  methods update in place, as the Go methods do. Each state-changing
  operation (`updateFrequency`, `evictLFU`, `Add`, `Value`, `Delete`,
  `Flush`, `MostAccessed` and their helpers) is proved to compute the
  matching step function, and methods that keep `Valid` say so. `Exists`,
  `Count`, `Capacity` and the loader and callback setters have no step
  function; their contracts speak of the fields directly.
- `lfu_invariants.dfy` (module `LfuInvariants`): `Valid` is kept by `Add`
  and `Value`, with the touch / evict / insert steps proved one at a time.
  `NewLFUCache` and `Flush` establish it by the contracts of
  `LfuState.Init` and `LfuState.Flush`.
- `lfu_properties.dfy` (module `LfuProperties`): what the steps mean to a
  caller. This covers which entry is evicted, what `Add`, `Value`, `Delete`
  and `Flush` change and announce, and which entries `MostAccessed` returns
  and in what order.
- `lfu_findings.dfy` (module `LfuFindings`): `Delete` on a live key leaves
  its list node behind. The module proves it in general, gives a concrete
  four-call history and proves a corrected `Delete`.

How the source is represented:

- **List elements.** They live in an arena of node ids handed out by an
  increasing counter (`nextNode`). `keyToListElement` becomes `keyToNode`,
  and each frequency list is a `seq<NodeId>` with the front at index 0.
  Go's `list.Remove(element)` becomes `Unlink`. Like `Remove` on an element
  of another list, `Unlink` leaves a list unchanged when the node is not
  in it. Because ids only grow, a smaller id in a list was pushed earlier.
- **Entries.** They are values `Item(key, data, lifeSpan, accessCount)`.
- **Callbacks.** They are tokens (`CallbackId`). Each invocation is
  recorded in a ghost event log as `Added(callback, item)` or
  `AboutToDelete(callback, entry)`. The entry is `None` when Go passes nil.
- **The loader.** It is a Dafny function value in the class. The step
  function `Value` takes its outcome (`LoadOutcome`) as a parameter.
- **Counter convention.** `cacheitem.go` is not part of this model. The
  model assumes that `NewCacheItem` starts the counter at 0 and that
  `KeepAlive` adds 1. With that, `updateFrequency` (which reads the counter
  after the caller has bumped it) keeps every live key in the list
  numbered counter + 1. That is the invariant `Valid` states.

Facts about the code that a reader might not expect:

- A fresh entry has counter 0 and goes to list 1, under the counter
  convention above (lfu.go:155-168).
- An insert evicts when `size >= capacity` (lfu.go:150), not only when the
  two are equal.
- With capacity 0 the first insert finds an empty cache, evicts nothing
  (lfu.go:95-97) and stores the entry, so the cache holds one entry. The
  bound proved is therefore `size <= max(capacity, 1)`.
- The field comment at lfu.go:40 calls `minFrequency` the minimum
  frequency in the cache. The code keeps that only on histories without
  `Delete`; see Findings.

## Model

| member | source | states |
|---|---|---|
| LfuState.Unlink | lfu.go:76 | list.Remove: the result holds exactly the nodes of the list other than the removed one; an absent node leaves the list unchanged; the list never grows |
| LfuState.UnlinkOnlyAt | lfu.go:76 | removing a node that occurs only at position i yields the list with position i cut out, the other nodes in their old order |
| LfuState.UnlinkKeepsOrder | lfu.go:76 | in a list without repetitions, list.Remove of the node at position i closes the gap and keeps the order of the rest |
| LfuState.Init | lfu.go:55-65 | NewLFUCache: the given capacity, empty items, keyToListElement and frequencies, size and minFrequency 0, no callbacks, no events, and the full invariant Valid |
| LfuState.CanEvict | lfu.go:95-103 | when the watermark is right and size is not negative, evictLFU evicts exactly when the cache is not empty |
| LfuState.Victim | lfu.go:100-107 | when every list holds live nodes only, the victim (the back of the minFrequency list) is a live key whose counter is minFrequency - 1 |
| LfuState.FlushEvents | lfu.go:289-295 | every invocation made by Flush is an about-to-delete one, for a registered callback, with a live entry |
| LfuState.Flush | lfu.go:283-303 | the emptied cache after Flush satisfies the full invariant Valid, from any well-formed state |
| LfuState.TakeLive | lfu.go:386-392 | the inner loop of MostAccessed: no contract of its own; its bound is LfuState.TakeLiveBound, its entries LfuProperties.TakeKeysEntries and their order LfuProperties.TakeKeysNewestFirst |
| LfuState.Walk | lfu.go:384-394 | the outer walk of MostAccessed: no contract of its own; its bound is LfuState.WalkBound, its entries LfuProperties.WalkKeysEntries and their order LfuProperties.WalkKeysRanked and LfuProperties.WalkOrdered |
| LfuState.TakeLiveBound | lfu.go:386-392 | the inner loop of MostAccessed collects at most the number still wanted |
| LfuState.WalkBound | lfu.go:384-394 | the walk down the lists collects at most the number wanted |
| LfuState.MostAccessed | lfu.go:376-397 | MostAccessed returns at most count entries (none for a count of 0 or less) |
| LfuState.AddedEvents | lfu.go:173-177 | one Added invocation per registered added-callback, the i-th for the i-th callback, all with the new entry |
| LfuState.DeleteEvents | lfu.go:116-120 | one AboutToDelete invocation per registered callback, the i-th for the i-th callback, all with the same (possibly nil) entry |
| LfuState.UnlinkFrom | lfu.go:74-80 | the removal step of updateFrequency and Delete keeps the always-true structure Wf |
| LfuState.UpdateFrequency | lfu.go:68-91 | updateFrequency keeps Wf; its full effect is stated by LfuInvariants.TouchShape |
| LfuState.Touch | lfu.go:136-145 | storing the bumped entry and running updateFrequency keeps Wf |
| LfuState.KeepAlive | lfu.go:189 | the access counter goes up by exactly one; key, data and life span are unchanged |
| LfuState.Refresh | lfu.go:138-143 | Add on a present key replaces data and life span, keeps the key and bumps the counter by exactly one |
| LfuState.NewItem | lfu.go:155 | a fresh entry carries the given key, data and life span and a zero counter |
| LfuState.Evict | lfu.go:94-128 | evictLFU keeps Wf, including when the back node is stale |
| LfuState.PushFresh | lfu.go:156-168 | storing a new key at the front of list 1 keeps Wf |
| LfuState.Insert | lfu.go:149-168 | evict-if-full then insert keeps Wf |
| LfuState.Add | lfu.go:131-180 | Add keeps Wf on every input |
| LfuState.Value | lfu.go:183-224 | Value keeps Wf on every input and loader outcome |
| LfuState.Delete | lfu.go:227-260 | Delete keeps Wf on every input, even though it breaks Valid (see Findings) |
| LfuInvariants.AddedEventsSnoc | lfu.go:174-176 | one more iteration of the added-callback loop appends exactly one Added event |
| LfuInvariants.DeleteEventsSnoc | lfu.go:117-119 | one more iteration of the about-to-delete loop appends exactly one AboutToDelete event |
| LfuInvariants.FlushEventsSnoc | lfu.go:291-295 | visiting one more entry in Flush appends that entry's invocations for every callback |
| LfuInvariants.WalkStep | lfu.go:384-394 | one outer iteration of MostAccessed appends the live entries of the current list and leaves the rest of the walk to the lower lists |
| LfuInvariants.LiveIffListed | lfu.go:263-268 | on a valid cache a key is present in items if and only if some frequency list holds a node for it |
| LfuInvariants.UnlinkDescending | lfu.go:76 | removing a node keeps a list ordered from newest to oldest |
| LfuInvariants.PushDescending | lfu.go:89 | pushing a node newer than every listed one keeps the list ordered from newest to oldest |
| LfuInvariants.TouchShape | lfu.go:68-91 | the touch moves the key's node out of list f and puts a fresh node at the front of list f + 1; minFrequency goes up by one exactly when list f empties and f was the minimum; size, capacity and other keys are unchanged |
| LfuInvariants.TouchLinked | lfu.go:68-91 | after the touch the maps and lists still describe the same live keys, one node each, lists ordered and numbered 1..n |
| LfuInvariants.MovedLowest | lfu.go:77-79 | the watermark rule of updateFrequency keeps minFrequency on the lowest non-empty list |
| LfuInvariants.TouchMinOk | lfu.go:74-89 | after the touch minFrequency still names the lowest non-empty list |
| LfuInvariants.TouchPreservesValid | lfu.go:136-147 | the touch of Add-on-present and of a Value hit keeps Valid |
| LfuInvariants.EvictShape | lfu.go:106-125 | evictLFU drops the key of the back node of the min list from both key maps and the node from its list, and decrements size |
| LfuInvariants.VictimLive | lfu.go:99-107 | on a valid non-empty cache the min list exists, is non-empty and its back node belongs to a live key |
| LfuInvariants.EvictKeepsLinked | lfu.go:106-125 | removing a live victim keeps maps and lists consistent |
| LfuInvariants.EvictLinked | lfu.go:94-128 | on a valid non-empty cache evictLFU removes exactly one live key and keeps the maps and lists consistent |
| LfuInvariants.PushFreshLinked | lfu.go:156-168 | inserting a new key at the front of list 1 with minFrequency 1 keeps maps and lists consistent and the watermark correct |
| LfuInvariants.InsertPreservesValid | lfu.go:149-168 | evict-when-full then insert keeps Valid, including the bound size <= max(capacity, 1) |
| LfuInvariants.ValidIgnoresEvents | lfu.go:172-177 | invoking callbacks changes no part of the invariant |
| LfuInvariants.AddExistingValid | lfu.go:136-147 | Add on a present key keeps Valid |
| LfuInvariants.AddNewValid | lfu.go:149-179 | Add of a new key keeps Valid |
| LfuInvariants.AddPreservesValid | lfu.go:131-180 | Add keeps Valid on every input |
| LfuInvariants.ValuePreservesValid | lfu.go:183-224 | Value keeps Valid on a hit, on both misses and on a loader insert of a fresh entry |
| LfuProperties.OneNodePerKey | lfu.go:34-39 | on a valid cache two list positions naming the same key are the same position in the same list |
| LfuProperties.BackIsOldest | lfu.go:106 | the back of a list holds its oldest node |
| LfuProperties.VictimBeats | lfu.go:99-107 | the victim's counter is at most any live key's, and among equal counters its node is the oldest |
| LfuProperties.EvictsLeastFrequent | lfu.go:94-107 | evictLFU removes a key with the lowest counter and, among those, the least recently pushed one |
| LfuProperties.EvictEffect | lfu.go:106-125 | on a valid non-empty cache eviction drops exactly the victim, decrements size and hands the victim's entry to every about-to-delete callback in order |
| LfuProperties.InsertEffect | lfu.go:149-168 | inserting an uncached key on a valid cache: the victim is evicted with its about-to-delete announcements exactly when size >= capacity and the cache is not empty; the key's node is the front of list 1, minFrequency is 1, size equals the entry count within max(capacity, 1), and no other event is recorded |
| LfuProperties.AddNewEffect | lfu.go:149-179 | Add of a new key returns a fresh entry, sets minFrequency to 1, puts the key's node at the front of list 1 and keeps size equal to the entry count within max(capacity, 1); when full it first evicts the victim with its callbacks, then announces the entry to every added-callback |
| LfuProperties.AddExistingEffect | lfu.go:136-147 | Add of a present key returns the refreshed entry, changes only that entry, fires no callbacks, keeps Valid and puts the key's node at the front of the next list, out of the old one |
| LfuProperties.ValueHitEffect | lfu.go:187-191 | a hit returns the entry with its counter bumped, changes nothing else, fires no callbacks, keeps Valid and puts the key at the front of the next list |
| LfuProperties.ValueMissEffect | lfu.go:194-223 | a miss without loader returns ErrKeyNotFound unchanged; a nil load returns ErrKeyNotFoundOrLoadable unchanged; a load inserts and returns the loaded entry, and every new event is an about-to-delete (no added-callback fires); on a valid cache the load evicts the victim with its announcements exactly when size >= capacity and the cache is not empty, puts the key at the front of list 1, sets minFrequency to 1 and keeps size equal to the entry count within max(capacity, 1) |
| LfuProperties.DeleteEffect | lfu.go:227-260 | Delete of an absent key is ErrKeyNotFound with nothing changed; of a present key it returns the entry, removes it from both key maps, decrements size and announces the entry to every about-to-delete callback |
| LfuProperties.FlushEventsLength | lfu.go:289-295 | Flush fires exactly one invocation per live entry and callback |
| LfuProperties.FlushEventsAnnounce | lfu.go:289-295 | every visited entry reaches every about-to-delete callback |
| LfuProperties.FlushEffect | lfu.go:283-303 | Flush empties items, keyToListElement and frequencies, resets size and minFrequency to 0, keeps the capacity and the callbacks, leaves a valid cache, keeps the old event log as a prefix and announces every live entry to every callback, |entries| x |callbacks| times in all |
| LfuProperties.TakeLiveCounts | lfu.go:386-392 | every entry taken from list f has counter f - 1 |
| LfuProperties.BucketLive | lfu.go:385-386 | every node of a frequency list belongs to a live key of that list's counter |
| LfuProperties.ConcatOrdered | lfu.go:384-394 | entries of a higher list followed by entries of lower lists are ordered by non-increasing counter |
| LfuProperties.WalkOrdered | lfu.go:384-394 | the walk from list f returns entries with counter below f, in non-increasing counter order |
| LfuProperties.TakeLiveComplete | lfu.go:386-392 | when the inner loop stops short, it took every live entry of the list |
| LfuProperties.LiveKeyTaken | lfu.go:386-392 | a live key of list f is taken when the inner loop of list f stops short |
| LfuProperties.WalkShortIsAll | lfu.go:384-394 | when the walk returns fewer than wanted it returned every live entry of the lists it visited |
| LfuProperties.TopCountsStep | lfu.go:384-394 | when an entry with a smaller counter is collected, every live key of the current list has been collected |
| LfuProperties.WalkTopCounts | lfu.go:384-394 | the walk never returns an entry while skipping a live entry with a larger counter |
| LfuProperties.TakeKeysEntries | lfu.go:386-392 | the inner loop of MostAccessed collects the entries of exactly the live keys it reads from the list, in list order |
| LfuProperties.EntriesOfConcat | lfu.go:384-394 | the entries collected from one list and then from the next are those of the keys read in turn |
| LfuProperties.WalkKeysEntries | lfu.go:384-394 | the walk down the lists collects the entries of exactly the live keys it reads, in reading order |
| LfuProperties.TakenFromCons | lfu.go:386-392 | the key of the front node followed by keys read from the rest of a newest-first list stays newest first |
| LfuProperties.TakeKeysNewestFirst | lfu.go:386-392 | reading a list of live nodes front to back yields live keys of that list's counter whose nodes strictly decrease, the most recently pushed first |
| LfuProperties.BucketTakenFrom | lfu.go:385-392 | on a cache without stale nodes the keys read from list f all have counter f - 1 and come newest first |
| LfuProperties.RankedConcat | lfu.go:384-394 | keys read from list f followed by ranked keys of lower counters are ranked: counters never increase, the most recently pushed first among equals |
| LfuProperties.WalkKeysRanked | lfu.go:384-394 | the keys of the walk from list f are live, have counters below f and are ranked |
| LfuProperties.MostAccessedKeys | lfu.go:376-397 | the entries of MostAccessed belong to distinct live keys, position by position, and among equal counters the key pushed last comes first |
| LfuProperties.MostAccessedEffect | lfu.go:376-397 | MostAccessed(count) returns at most count live entries in non-increasing counter order; all live entries when it returns fewer than count; no live entry is left out while a less accessed one is listed; the entries belong to distinct live keys, and among equal counters the most recently pushed key (front of its list, lfu.go:386) comes first |
| Lfu.LFUCache.constructor | lfu.go:55-65 | NewLFUCache: an empty cache with the given name and capacity, no loader, and Valid |
| Lfu.LFUCache.FireAdded | lfu.go:173-177 | the callback loop of Add appends one Added event per callback in registration order |
| Lfu.LFUCache.FireAboutToDelete | lfu.go:116-120 | the callback loop of evictLFU and Delete appends one AboutToDelete event per callback in registration order |
| Lfu.LFUCache.RemoveElement | lfu.go:74-80 | the removal step updates the lists and minFrequency to LfuState.UnlinkFrom of the old state |
| Lfu.LFUCache.PushFront | lfu.go:82-90 | the list is created when missing, a fresh node for the key goes to its front and the key points at it |
| Lfu.LFUCache.UpdateFrequency | lfu.go:68-91 | updateFrequency computes LfuState.UpdateFrequency of the old state |
| Lfu.LFUCache.EvictLFU | lfu.go:94-128 | evictLFU computes LfuState.Evict of the old state |
| Lfu.LFUCache.Insert | lfu.go:149-168 | evict-when-full then insert computes LfuState.Insert |
| Lfu.LFUCache.Add | lfu.go:131-180 | Add computes LfuState.Add (new state and returned entry) and keeps Valid |
| Lfu.LFUCache.Value | lfu.go:183-224 | Value computes LfuState.Value with the loader's outcome and keeps Valid when a loaded entry is fresh |
| Lfu.LFUCache.Delete | lfu.go:227-260 | Delete computes LfuState.Delete (new state and result) |
| Lfu.LFUCache.Exists | lfu.go:263-268 | in any state: true exactly when the key is in items; on a valid cache also exactly when some frequency list holds a node of the key |
| Lfu.LFUCache.Count | lfu.go:271-275 | in any state the size field; on a valid cache that is the number of entries and lies between 0 and max(capacity, 1) |
| Lfu.LFUCache.Capacity | lfu.go:278-280 | a valid cache never holds more than max(capacity, 1) entries |
| Lfu.LFUCache.FireFlush | lfu.go:289-296 | the callback loop visits every entry exactly once, in some order, and appends its invocations for every callback |
| Lfu.LFUCache.Flush | lfu.go:283-303 | Flush computes LfuState.Flush for the visiting order it used and leaves a valid cache |
| Lfu.LFUCache.SetDataLoader | lfu.go:306-310 | the loader is replaced |
| Lfu.LFUCache.SetAddedItemCallback | lfu.go:313-320 | the added-callbacks become exactly the given one |
| Lfu.LFUCache.AddAddedItemCallback | lfu.go:323-327 | the callback is appended |
| Lfu.LFUCache.RemoveAddedItemCallbacks | lfu.go:330-334 | no added-callback remains |
| Lfu.LFUCache.SetAboutToDeleteItemCallback | lfu.go:337-344 | the about-to-delete callbacks become exactly the given one |
| Lfu.LFUCache.AddAboutToDeleteItemCallback | lfu.go:347-351 | the callback is appended |
| Lfu.LFUCache.RemoveAboutToDeleteItemCallback | lfu.go:354-358 | no about-to-delete callback remains |
| Lfu.LFUCache.TakeFront | lfu.go:386-392 | the inner loop of MostAccessed computes LfuState.TakeLive of the list |
| Lfu.LFUCache.MostAccessed | lfu.go:376-397 | MostAccessed computes LfuState.MostAccessed, whose meaning LfuProperties.MostAccessedEffect states |
| LfuFindings.DeleteLeavesStaleNode | lfu.go:236-243 | on a valid cache, after Delete of a live key its node is still in list counter + 1 and still names the key, so the invariant is broken |
| LfuFindings.DeleteThenOverfill | lfu.go:236-255 | capacity 1: Add 1, Delete 1, Add 2, Add 3 ends with two entries while size says one |
| LfuFindings.LowestFrom | lfu.go:40-41 | the search for the lowest non-empty list never goes below where it starts |
| LfuFindings.LowestFromOk | lfu.go:40-41 | when the lists below f are empty and some list at or above f is not, the search finds the lowest non-empty list |
| LfuFindings.DeleteFixed | lfu.go:227-260 | the corrected Delete: same result, entry map, size and callbacks as the original, capacity unchanged; only the list index is a behavioural fix, the watermark rule keeps minFrequency on the lowest non-empty list |
| LfuFindings.DeleteFixedValid | lfu.go:227-260 | the corrected Delete keeps Valid |

## Left out

- Concurrency is not modelled: the `sync.RWMutex` of the cache, the
  per-entry lock taken by Add, and the window in which Value releases the
  lock around the loader call. The model is sequential and the loader
  cannot re-enter the cache.
- Time is not modelled. `time.Now()` and the access timestamp are not
  modelled, and the life span is carried as an opaque integer with no
  behaviour.
- Logging is not modelled: `SetLogger`, `log` and the `cache.log` calls are
  I/O.
- `Foreach` is not modelled. It hands every entry to a caller function in
  Go map iteration order, which is unspecified.
- `CacheItem` internals are not modelled, because `cacheitem.go` is not
  part of this model. An entry is a value with a counter, under the stated
  counter convention. Go hands out the same `*CacheItem` pointer that the
  cache keeps, so a caller's later mutation through it is not modelled.
- The package registry in `cache.go` and the example program are not part
  of this model.
- Callbacks are tokens, and the loader's variadic arguments are a
  `seq<A>`. What a callback does is not modelled: it cannot change the
  cache.
- Lfu.LFUCache.Flush: the visiting order of Go's map range is returned as a
  ghost out-parameter. The contract holds for every such order rather than
  fixing one.
- The node arena is never reclaimed. Node ids removed by `Unlink`, or
  dropped by Flush, stay in `nodeKey`, which has no observable effect.
- Integer widths are not modelled. `size`, frequencies and the `int64`
  count of MostAccessed are unbounded integers; the access counter is a
  `nat` with no wrap-around.
- LfuState.TakeLive: no contract of its own, because an ensures on this
  recursive function made every caller too costly to prove; its bound is
  LfuState.TakeLiveBound and its entries and order are stated by
  LfuProperties.TakeKeysEntries and LfuProperties.TakeKeysNewestFirst.
- LfuState.Walk: no contract of its own, for the same reason; its bound is
  LfuState.WalkBound and its entries and order are stated by
  LfuProperties.WalkKeysEntries, LfuProperties.WalkKeysRanked and
  LfuProperties.WalkOrdered.
- LfuState.UnlinkFrom: its own contract states only Wf; what it does to
  the lists and the watermark is stated by LfuInvariants.TouchShape and
  LfuFindings.DeleteFixedShape.
- LfuState.UpdateFrequency: its own contract states only Wf; its effect is
  stated by LfuInvariants.TouchShape.
- LfuState.Touch: its own contract states only Wf; its effect and the
  invariant it keeps are in LfuInvariants.TouchShape and
  LfuInvariants.TouchPreservesValid.
- LfuState.Evict: its own contract states only Wf; LfuInvariants.EvictShape,
  LfuProperties.EvictEffect and LfuProperties.EvictsLeastFrequent state
  what it removes.
- LfuState.PushFresh: its own contract states only Wf; its effect is in
  LfuInvariants.PushFreshLinked.
- LfuState.Insert: its own contract states only Wf; its effect is in
  LfuInvariants.InsertPreservesValid and LfuProperties.AddNewEffect.
- LfuState.Add: its own contract states only Wf; its effect is in
  LfuProperties.AddNewEffect and LfuProperties.AddExistingEffect.
- LfuState.Value: its own contract states only Wf; its effect is in
  LfuProperties.ValueHitEffect and LfuProperties.ValueMissEffect.
- LfuState.Delete: its own contract states only Wf; its effect is in
  LfuProperties.DeleteEffect and LfuFindings.DeleteLeavesStaleNode.
- LfuInvariants.ValuePreservesValid: Valid is proved to survive a loader
  insert only when the loaded entry has counter 0 (a fresh `NewCacheItem`,
  as the loader in lfu_test.go returns). An entry with a higher counter is
  still stored in list 1, as the code does, and then breaks the invariant.
- Lfu.LFUCache.Value: the same hypothesis on the loaded entry is needed for
  its `Valid` postcondition.
- Lfu.LFUCache.Delete: only its exact step is stated; Valid is not claimed
  after it (see Findings).
- LfuProperties.DeleteEffect: it is stated for any well-formed state, does
  not state the list contents, and carries no invariant (see Findings).

## Findings

| source | as written | input that shows it | evidently intended | confidence | as-written member | corrected member |
|---|---|---|---|---|---|---|
| lfu.go:236-243 | Delete removes the key's element from list `AccessCount()`, but every node sits in list `AccessCount() + 1` because updateFrequency reads the counter after it is bumped; `list.Remove` on an element of another list does nothing, so the node stays behind, and a later evictLFU can pop it, hand a nil entry to the callbacks and decrement size without removing any entry | capacity 1: Add(1), Delete(1), Add(2), Add(3); the last eviction pops the stale node of key 1, so both 2 and 3 stay while size is 1 | remove the element from list `AccessCount() + 1`, and when that empties the minimum list move `minFrequency` to the lowest list that still holds a node | not executed; depends on `NewCacheItem` starting the counter at 0, since `cacheitem.go` is not part of this model | LfuFindings.DeleteLeavesStaleNode | LfuFindings.DeleteFixedValid |

The class `Lfu.LFUCache` keeps the as-written `Delete`, and so does the step
function `LfuState.Delete`. The corrected `LfuFindings.DeleteFixed` shares
`LfuState.UnlinkFrom` with it; only the list index and the watermark
change. `LfuFindings.DeleteFixedValid` shows that the invariant then holds
over histories that include deletions.

The bug is the list index alone. The corrected watermark rule (move
`minFrequency` to the lowest list that still holds a node, `LowestFrom`,
rather than adding 1) changes nothing a caller can observe. After a
`Delete` the cache is below capacity, or empty when the capacity is 0 or
less. So evictLFU does not read `minFrequency` before the next insert,
and that insert sets it to 1. The rule is there so that `minFrequency`
names the lowest non-empty list, as the field comment at lfu.go:40 says
and as `Valid` requires.
