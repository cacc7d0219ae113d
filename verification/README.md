# Recency and frequency caches, modelled in Dafny

This project models the caches of a small Java cache library as pure Dafny
functions over immutable states, and proves what each operation does.

- **Recency (LRU) caches.** Each one has a hash index beside a doubly-linked
  list running from `head` (most recently used) to `tail` (least recently
  used), and a `size` counter.
  - `Lru` models the list as a sequence of keys (`order`) and the index as a
    map (`values`). It covers the generic cache `lruCache/LRUCache.java` and
    its twin `cache/lruCache/LRUCacheWithoutEncapsulation.java`.
  - `IntLru` covers the four `int` variants: `LRUCacheBasic`, `LRUCacheImpl`,
    `LRUCacheThreadSafeSimple` and `LRUCacheThreadSafeReentrantLock`. They
    share the same `put`. Their `get` answers `-1` for a miss, and their
    constructor accepts any capacity.
  - `LruWithoutEncapsulation` holds the two driver traces of the generic
    cache.
- **Elastic recency cache.** `Elastic` models
  `cache/lruCache/LRUCacheElastic.java`. It is the recency cache whose bound
  `currentCapacity` is moved between `initialCapacity` and `maxCapacity` by a
  periodic maintenance pass, modelled as the explicit step `Maintain`. The
  predicates `AboveUpper` and `BelowLower` are the ratio tests of
  `LRUCacheElastic.java` lines 142-143 and 147 in integer form. The
  functions `Grown` and `Shrunk` are the resize formulas of lines 144-145
  and 148-149.
  `Elastic.ThresholdsExact` relates all four to the source's `double`
  arithmetic.
- **Frequency (LFU) cache.** `Lfu` and `LfuFacts` model
  `cache/lfuCache/LFUCache.java`. Each key has a frequency (`freq`). There is
  one recency list per frequency (`buckets`, with each list's `size` counter),
  and a pointer `minFreq`.
  - `Lfu` defines the invariant: every key sits in exactly the bucket of its
    frequency, the counters are exact, and `minFreq` names a non-empty bucket
    that no key undercuts. It proves that `get` and `put` keep it.
  - `LfuFacts` proves the policy. `minFreq` is the least live frequency. The
    key `put` evicts has the least frequency. Among the keys of that
    frequency, it is the one touched longest ago.

Recency is stated against an independent reference (`Recency`). A map
`stamp` gives each key the time of its last use, and `NewestFirst` says a
list runs from the newest stamp to the oldest. Two lemma families build on
it:

- The `...Tracks` lemmas show that every `get` and `put`, stamping its key
  with the current `clock`, keeps the lists newest-first.
- The eviction lemmas then read off the least recently used key.

Java `null` is `None` (`CacheTypes.Option`). A thrown
`IllegalArgumentException` is `Failure(message)`, with the source's message.

Where the source and its own comments disagree, the model follows the code:

- **Elastic growth can stall.** `(int) (1 * 1.5)` is 1, so an elastic cache
  at bound 1 never grows, however full it is (`Elastic.GrowthStallsAtOne`).
- **The elastic eviction loop leaves the index untouched.**
  `evictUntilWithinCapacity` calls `map.remove(node)` with the node rather
  than its key. Were the loop ever to unlink a node, the index would keep
  that key (`Elastic.StaleIndexIfEvicting`). The loop never unlinks anything,
  though: below the lower threshold the size already fits the halved bound
  (`Elastic.ShrinkNeverEvicts`). So `Maintain` keeps the invariant with the
  code as written.
- **Elastic `fruits` driver.** With its five-second sleep, two maintenance
  passes run, and the bound grows to 3. So `put(3)` evicts nothing, and
  `get(2)` answers "Banana", where the driver's comments expect an eviction
  (`Elastic.FruitsTrace`).
- **LFU under the LRU driver.** Applied to the LFU cache, the LRU driver evicts
  3 and not 1 at `put(4)` (`LfuFacts.DriverTrace`).
- **`numbers` driver comments.** These comments say "-1" where the generic
  cache returns `null` (`LruWithoutEncapsulation.NumbersTrace`).

## Model

| member | source | states |
|---|---|---|
| `Lru.Empty` | src/main/java/lruCache/LRUCache.java:97-101 | a new cache has the given capacity, size 0, an empty list and index, and satisfies the invariant |
| `Lru.New` | src/main/java/lruCache/LRUCache.java:93-103 | construction fails exactly when capacity <= 0; otherwise an empty, well-formed cache of that capacity |
| `Lru.IndexSize` | src/main/java/lruCache/LRUCache.java:150-157 | while list and index hold the same distinct keys, the `size` counter equals the number of index entries |
| `Lru.Get` | src/main/java/lruCache/LRUCache.java:112-130 | hit iff the key is indexed; a miss changes nothing; a hit answers the stored value and puts the key first, with the other keys in their old order, the values and size untouched |
| `Lru.GetAt` | src/main/java/lruCache/LRUCache.java:123-125 | a hit at list position i unlinks the key there and relinks it at the head: the new list is the key followed by the list without position i |
| `Lru.GetTwice` | src/main/java/lruCache/LRUCache.java:112-130 | a second `get` of the same key answers the same and changes nothing more |
| `Lru.ProbedGet` | src/main/java/lruCache/LRUCache.java:112-130 | whatever the lock-free probe saw, an answer is a value the cache holds; a missed probe changes nothing; a probe that hit gives the plain `get` |
| `Lru.ProbedGetSequential` | src/main/java/lruCache/LRUCache.java:114-122 | without interference, probe plus re-check is the plain `get` |
| `Lru.Refresh` | src/main/java/lruCache/LRUCache.java:142-148 | `put` of a present key: new value, key at the head, other keys in order, size unchanged, invariant kept |
| `Lru.Admit` | src/main/java/lruCache/LRUCache.java:150-153 | a new key is indexed, linked at the head and counted; list and index stay consistent |
| `Lru.EvictLast` | src/main/java/lruCache/LRUCache.java:154-157 | `removeLast` plus index removal drops exactly the key before `tail` from both and decrements the counter |
| `Lru.AdmitThenEvict` | src/main/java/lruCache/LRUCache.java:150-157 | admitting a new key and evicting at once leaves the new key at the head and removes the old last key |
| `Lru.AdmitThenEvictEmpty` | src/main/java/lruCache/LRUCacheBasic.java:52-60 | with an unchecked capacity <= 0 an empty cache evicts the key it just admitted and returns to its former state |
| `Lru.Put` | src/main/java/lruCache/LRUCache.java:139-163 | invariant kept; with capacity >= 1 the key ends at the head with the new value; a present key keeps the size; a new key below capacity is added; at capacity the last key is evicted and the size is unchanged; at capacity <= 0 nothing changes |
| `Lru.PutThenGet` | src/main/java/lruCache/LRUCache.java:112-163 | a `get` right after `put(k, v)` answers v |
| `Lru.GetTracks` | src/main/java/lruCache/LRUCache.java:123-126 | against last-use stamps, a `get` at time `clock` keeps the list ordered newest to oldest |
| `Lru.PutTracks` | src/main/java/lruCache/LRUCache.java:139-163 | a `put` at time `clock` keeps the list ordered newest to oldest |
| `Lru.AdmitTracks` | src/main/java/lruCache/LRUCache.java:149-158 | the new-key path of `put`, with or without eviction, keeps the list ordered newest to oldest |
| `Lru.PutEvictsLeastRecent` | src/main/java/lruCache/LRUCache.java:154-157 | a key that `put` removes was used strictly before every other key the cache held |
| `Lru.GetOlderOfTwo` | src/main/java/lruCache/LRUCacheBasic.java:88 | in a two-key cache a `get` of the older key swaps the two |
| `Lru.PutIntoFullTwo` | src/main/java/lruCache/LRUCacheBasic.java:89 | a new key put into a full two-key cache evicts the older key |
| `Lru.CapacityTwoScenario` | src/main/java/lruCache/LRUCacheBasic.java:84-95 | the capacity-2 driver, for any four distinct keys: the gets answer the first value, nothing, nothing, the third and the fourth value |
| `Recency.MoveToFront` | src/main/java/lruCache/LRUCacheBasic.java:64-68 | `moveToHead`: same length and members, key first, the rest in their old order, still duplicate-free |
| `LruWithoutEncapsulation.FruitsTrace` | src/main/java/cache/lruCache/LRUCacheWithoutEncapsulation.java:155-178 | the `fruits` driver answers "Apple", null, null, "Cherry", "Date" |
| `LruWithoutEncapsulation.NumbersTrace` | src/main/java/cache/lruCache/LRUCacheWithoutEncapsulation.java:180-192 | the `numbers` driver answers 1, null, null, 3, 4 |
| `IntLru.New` | src/main/java/lruCache/LRUCacheBasic.java:27-35 | any capacity, even a non-positive one, yields an empty well-formed cache |
| `IntLru.Get` | src/main/java/lruCache/LRUCacheBasic.java:37-44 | a miss answers -1 and changes nothing; a hit answers the value and moves the key as the generic `get` does |
| `IntLru.ProbedGet` | src/main/java/lruCache/LRUCacheThreadSafeReentrantLock.java:41-57 | a missed probe answers -1 with no change; an absent key always answers -1; a probe that hit gives the plain `get` |
| `IntLru.NonPositiveCapacityStaysEmpty` | src/main/java/lruCache/LRUCacheBasic.java:46-61 | with capacity <= 0 every `put` evicts its own key: the cache stays empty and the next `get` answers -1 |
| `IntLru.InRangeKept` | src/main/java/LRUCacheImpl.java:87-92 | values within the documented range 0..10^5 stay in range under `put` and `get` |
| `IntLru.MinusOneMeansAbsent` | src/main/java/LRUCacheImpl.java:22-30 | under the documented constraints `get` answers -1 exactly for absent keys, and the cache never holds more than capacity entries |
| `IntLru.StoredMinusOneLooksAbsent` | src/main/java/lruCache/LRUCacheBasic.java:37-49 | outside the constraints a stored -1 is present yet reads as a miss |
| `IntLru.CapacityTwoTrace` | src/main/java/LRUCacheImpl.java:95-111 | the documented input sequence produces the documented output 1, -1, -1, 3, 4 |
| `Elastic.New` | src/main/java/cache/lruCache/LRUCacheElastic.java:109-119 | the two configuration checks in order with their messages; otherwise an empty cache whose bound starts at the initial capacity |
| `Elastic.Get` | src/main/java/cache/lruCache/LRUCacheElastic.java:182-200 | the recency `get` on the current list; bounds untouched |
| `Elastic.ProbedGet` | src/main/java/cache/lruCache/LRUCacheElastic.java:182-200 | a missed probe answers nothing and changes nothing; a stale probe can lose a hit but never invent one; a probe that hit gives the plain `get` |
| `Elastic.Put` | src/main/java/cache/lruCache/LRUCacheElastic.java:209-233 | the recency `put` against `currentCapacity`: size stays within the bound, present keys refreshed, a new key past the bound evicts the last key |
| `Elastic.RemoveLast` | src/main/java/cache/lruCache/LRUCacheElastic.java:70-75 | "nothing" exactly on an empty list; otherwise the last key, with the rest of the list intact |
| `Elastic.EvictUntilWithinCapacity` | src/main/java/cache/lruCache/LRUCacheElastic.java:163-173 | the loop as written: it only shortens the list from the tail, the index never changes, the counter falls with the list; started within the bound it changes nothing, started above it it stops at the first state within the bound (size exactly the bound) or on an empty list |
| `Elastic.StaleIndexIfEvicting` | src/main/java/cache/lruCache/LRUCacheElastic.java:165-168 | if the loop did unlink a node, the index would keep a key the list no longer holds |
| `Elastic.Maintain` | src/main/java/cache/lruCache/LRUCacheElastic.java:139-158 | the maintenance pass: above the upper threshold the bound becomes min(c + c/2, max); otherwise below the lower threshold it becomes max(c/2, initial); between the thresholds nothing changes; only the bound moves, and initial <= current <= max and size <= current hold afterwards |
| `Elastic.ShrinkNeverEvicts` | src/main/java/cache/lruCache/LRUCacheElastic.java:147-153 | below the lower threshold the size fits the shrunk bound, so the eviction loop changes nothing |
| `Elastic.ThresholdsExact` | src/main/java/cache/lruCache/LRUCacheElastic.java:142-148 | the integer tests 5·size > 4·c and 4·size < c are exactly `size / c > 0.8` and `size / c < 0.25`, and `(int)(c·1.5)`, `(int)(c·0.5)` are c + c/2 and c/2 |
| `Elastic.GrowthStrict` | src/main/java/cache/lruCache/LRUCacheElastic.java:143-145 | above the upper threshold a bound of at least 2 below the maximum strictly grows, never past the maximum |
| `Elastic.GrowthStallsAtOne` | src/main/java/cache/lruCache/LRUCacheElastic.java:143-145 | a full cache at bound 1 is above the threshold yet the pass leaves it unchanged |
| `Elastic.ShrinkStrict` | src/main/java/cache/lruCache/LRUCacheElastic.java:147-149 | below the lower threshold the bound never drops under the initial capacity and strictly drops when above it |
| `Elastic.GrowFromTwo` | src/main/java/cache/lruCache/LRUCacheElastic.java:142-145 | a full cache of bound 2, maximum 5, grows to 3 |
| `Elastic.GrownTwiceFromTwo` | src/main/java/cache/lruCache/LRUCacheElastic.java:139-154 | a second pass at size 2 and bound 3 changes nothing |
| `Elastic.ReadThenPutAfterGrowth` | src/main/java/cache/lruCache/LRUCacheElastic.java:219-224 | at bound 3 with two keys, `put` of a third key evicts nothing |
| `Elastic.ReadAfterGrowth` | src/main/java/cache/lruCache/LRUCacheElastic.java:193-196 | the oldest of three keys is still answered and moves to the head |
| `Elastic.EvictsAfterGrowth` | src/main/java/cache/lruCache/LRUCacheElastic.java:224-227 | a fourth key at size 3 evicts the key before `tail` |
| `Elastic.FruitsAfterGrowth` | src/main/java/cache/runner/Application.java:30-42 | after growth to 3, the rest of the `fruits` driver answers the first value, the second, nothing, the third, the fourth |
| `Elastic.FruitsTrace` | src/main/java/cache/runner/Application.java:15-42 | the `fruits` driver on `LRUCacheElastic(2, 5)` with two passes during its sleep answers the first value, the second, nothing, the third, the fourth |
| `Lfu.New` | src/main/java/cache/lfuCache/LFUCache.java:102-113 | construction fails exactly when capacity <= 0; otherwise empty, with `minFreq` 0 and the invariant holding |
| `Lfu.Unlink` | src/main/java/cache/lfuCache/LFUCache.java:62-66 | list `remove`: the key leaves, every other key stays, the counter still equals the length |
| `Lfu.AddFirst` | src/main/java/cache/lfuCache/LFUCache.java:83-89 | list `addFirst`: the key is first, every old key stays, the counter still equals the length |
| `Lfu.RemoveLast` | src/main/java/cache/lfuCache/LFUCache.java:72-77 | `removeLast` answers "nothing" exactly on an empty list, otherwise the last key with the rest intact |
| `Lfu.BucketAt` | src/main/java/cache/lfuCache/LFUCache.java:185 | `computeIfAbsent`: the existing list or a fresh empty one |
| `Lfu.Lowered` | src/main/java/cache/lfuCache/LFUCache.java:175-177 | the old bucket without the key, all its other keys kept |
| `Lfu.Raised` | src/main/java/cache/lfuCache/LFUCache.java:184-186 | the bucket one frequency up with the key first, all its other keys kept |
| `Lfu.Touch` | src/main/java/cache/lfuCache/LFUCache.java:174-187 | the key's frequency rises by exactly one, it heads bucket f + 1, values untouched; `minFreq` changes only when the key was the last of the minimum bucket, and then by one |
| `Lfu.TouchShaped` | src/main/java/cache/lfuCache/LFUCache.java:174-187 | the frequency update keeps every key in exactly the bucket of its frequency with exact counters |
| `Lfu.TouchPlaced` | src/main/java/cache/lfuCache/LFUCache.java:174-187 | after the update every key still sits in its frequency's bucket |
| `Lfu.TouchMembers` | src/main/java/cache/lfuCache/LFUCache.java:174-187 | after the update every bucket still holds only keys of its frequency |
| `Lfu.TouchMinFreq` | src/main/java/cache/lfuCache/LFUCache.java:179-182 | raising `minFreq` only when the old minimum bucket empties keeps it on a non-empty bucket no key undercuts |
| `Lfu.TouchValid` | src/main/java/cache/lfuCache/LFUCache.java:174-187 | the frequency update keeps the whole invariant |
| `Lfu.Get` | src/main/java/cache/lfuCache/LFUCache.java:122-139 | hit iff indexed; a miss changes nothing; a hit answers the value, raises the frequency by exactly one and heads bucket f + 1, invariant kept |
| `Lfu.ProbedGet` | src/main/java/cache/lfuCache/LFUCache.java:124-132 | a missed probe answers nothing and changes nothing; a stale probe can lose a hit but never invent one; a probe that hit gives the plain `get` |
| `Lfu.Victim` | src/main/java/cache/lfuCache/LFUCache.java:159-160 | the eviction candidate lies in bucket `minFreq` |
| `Lfu.Evict` | src/main/java/cache/lfuCache/LFUCache.java:158-162 | eviction removes exactly the victim from index and frequencies and shortens bucket `minFreq` by its last key |
| `Lfu.EvictShaped` | src/main/java/cache/lfuCache/LFUCache.java:158-162 | eviction keeps the bucket structure and frees exactly one slot |
| `Lfu.EvictPlaced` | src/main/java/cache/lfuCache/LFUCache.java:158-162 | after eviction every remaining key sits in its frequency's bucket |
| `Lfu.EvictMembers` | src/main/java/cache/lfuCache/LFUCache.java:158-162 | after eviction every bucket holds only live keys of its frequency |
| `Lfu.Insert` | src/main/java/cache/lfuCache/LFUCache.java:163-167 | a new key gets frequency 1 at the head of bucket 1, and `minFreq` becomes 1 |
| `Lfu.InsertValid` | src/main/java/cache/lfuCache/LFUCache.java:163-167 | inserting below capacity keeps the invariant, `minFreq` exact at 1 |
| `Lfu.InsertPlaced` | src/main/java/cache/lfuCache/LFUCache.java:163-167 | after insertion every key sits in its frequency's bucket |
| `Lfu.InsertMembers` | src/main/java/cache/lfuCache/LFUCache.java:163-167 | after insertion every bucket holds only keys of its frequency |
| `Lfu.SetValueValid` | src/main/java/cache/lfuCache/LFUCache.java:152-155 | replacing a present key's value keeps the invariant |
| `Lfu.UpdateValid` | src/main/java/cache/lfuCache/LFUCache.java:151-156 | new value plus frequency update keeps the invariant |
| `Lfu.Update` | src/main/java/cache/lfuCache/LFUCache.java:151-156 | `put` of a present key: new value, frequency up by one, key heading bucket f + 1, invariant kept |
| `Lfu.EvictInsertValid` | src/main/java/cache/lfuCache/LFUCache.java:157-167 | at capacity, eviction then insertion keeps the invariant |
| `Lfu.Add` | src/main/java/cache/lfuCache/LFUCache.java:157-167 | `put` of a new key keeps the invariant |
| `Lfu.AddEffect` | src/main/java/cache/lfuCache/LFUCache.java:157-167 | a new key ends at the head of bucket 1 with frequency 1 and `minFreq` 1; below capacity nothing else leaves, at capacity exactly the victim leaves |
| `Lfu.Put` | src/main/java/cache/lfuCache/LFUCache.java:148-172 | invariant kept, the key holds the new value, the number of entries never exceeds the capacity |
| `LfuFacts.MinFreqIsLeast` | src/main/java/cache/lfuCache/LFUCache.java:179-182 | in a non-empty cache some key has frequency `minFreq` and none has less |
| `LfuFacts.VictimLeastFrequent` | src/main/java/cache/lfuCache/LFUCache.java:158-161 | the eviction candidate is live, has frequency `minFreq`, and no key has a lower frequency |
| `LfuFacts.TouchOrdered` | src/main/java/cache/lfuCache/LFUCache.java:174-187 | against last-use stamps, the frequency update at time `clock` keeps every bucket ordered newest to oldest |
| `LfuFacts.RaisedOrdered` | src/main/java/cache/lfuCache/LFUCache.java:184-186 | the raised bucket with the key first is ordered newest to oldest |
| `LfuFacts.LoweredOrdered` | src/main/java/cache/lfuCache/LFUCache.java:175-177 | the lowered bucket stays ordered newest to oldest |
| `LfuFacts.GetTracks` | src/main/java/cache/lfuCache/LFUCache.java:122-139 | a `get` at time `clock` keeps the invariant and every bucket ordered newest to oldest |
| `LfuFacts.EvictOrdered` | src/main/java/cache/lfuCache/LFUCache.java:159-161 | eviction keeps every bucket ordered |
| `LfuFacts.InsertOrdered` | src/main/java/cache/lfuCache/LFUCache.java:163-167 | insertion at time `clock` keeps every bucket ordered |
| `LfuFacts.AddOrdered` | src/main/java/cache/lfuCache/LFUCache.java:157-167 | the new-key path of `put` keeps every bucket ordered |
| `LfuFacts.PutTracks` | src/main/java/cache/lfuCache/LFUCache.java:148-172 | a `put` at time `clock` keeps the invariant and every bucket ordered newest to oldest |
| `LfuFacts.PutEvictsLeastFrequent` | src/main/java/cache/lfuCache/LFUCache.java:158-162 | a key that `put` removes has a frequency no greater than any other key's, and was used strictly before every other key of equal frequency |
| `LfuFacts.PutPresentAsGet` | src/main/java/cache/lfuCache/LFUCache.java:151-156 | `put` of a present key changes frequencies, buckets and `minFreq` exactly as `get` does, and only that key's value |
| `LfuFacts.PutThenGet` | src/main/java/cache/lfuCache/LFUCache.java:122-172 | a `get` right after `put(k, v)` answers v |
| `LfuFacts.TwoPuts` | src/main/java/cache/lfuCache/LFUCache.java:163-167 | two new keys in an empty cache of capacity 2 are both held at frequency 1 |
| `LfuFacts.EvictUnread` | src/main/java/cache/lfuCache/LFUCache.java:158-167 | in a full cache of two keys, frequencies 2 and 1, a new key replaces the key of frequency 1 |
| `LfuFacts.ReadThenPut` | src/main/java/cache/lfuCache/LFUCache.java:122-172 | reading the first key then putting a third evicts the unread key |
| `LfuFacts.SecondEviction` | src/main/java/cache/lfuCache/LFUCache.java:158-167 | a miss changes nothing, and the next new key evicts the key of frequency 1 rather than the older key of frequency 2 |
| `LfuFacts.DriverTrace` | src/main/java/cache/runner/Application.java:45-56 | the `numbers` driver on an LFU cache of capacity 2 answers the first value, nothing, the first value, nothing, the fourth value |

## Left out

- Locks, `synchronized`, `ConcurrentHashMap` and `volatile` are not modelled, because every operation is modelled as one atomic step. The lock-free probe of `get` is the parameter `probeHit` of the `ProbedGet` functions.
- The maintenance thread is left out. That covers its scheduling, the two-second period, `close` and executor shutdown. A maintenance pass is the explicit step `Elastic.Maintain`, and the driver traces state which passes run.
- Floating point is not modelled. The thresholds and factors are stated as exact integer forms, and `Elastic.ThresholdsExact` relates them to real arithmetic. Double rounding does not change these comparisons or truncations for `int` sizes and capacities.
- Console output is left out: the `println`s and the `main` methods' printing. The traces state the values `get` returns.
- The linked nodes and sentinels are not modelled. Each list is the sequence of keys between `head` and `tail`, and the pointer updates of `moveToHead`, `remove`, `removeLast` and `addFirst` are their effect on that sequence.
- The reference test `node.value != val` in `put` is not modelled. Either branch leaves the node holding `val`, so the model just stores the new value.
- `LFUCache`'s own `size` field is left out. It is never updated and never read; the capacity test uses the index size.
- Integer overflow is not modelled. `size`, `freq` and `minFreq` are unbounded integers here, while Java wraps them at 2^31 - 1. For example, a key touched 2^31 - 1 times in a long-lived `LFUCache` wraps `node.freq++` to a negative frequency, and the model does not follow that.
- `LRUCacheWithLinkedHashMap`, the interfaces and the `src/main/java/runner/Application.java` runner are not part of this model. The other runner, `src/main/java/cache/runner/Application.java`, appears only through its driver traces.
- `Lfu.Put`: its contract states the invariant, the stored value and the capacity bound. The finer effects are stated by `Lfu.Update`, `Lfu.AddEffect` and `LfuFacts.PutPresentAsGet`.
- `Lfu.Add`: its contract states only the invariant. The effect is stated by `Lfu.AddEffect`.
- `Lru.Get`: a null key and a null value are not modelled. Keys and values range over any type, and a hit is `Some(value)`. In the source, the `ConcurrentHashMap` index throws `NullPointerException` for a null key, and a stored null value reads back as `null`, which a caller cannot tell from a miss. The same holds for `Lru.Put`. `IntLru.StoredMinusOneLooksAbsent` proves the `int` form of that ambiguity.
- `Elastic.Get`: null keys and values are not modelled either, for the same reason as `Lru.Get`. The same holds for `Elastic.Put`.
- `Lfu.Get`: null keys and values are not modelled. In `LFUCache.java` a null key throws from `nodeMap.containsKey` (lines 124 and 151) and from `nodeMap.put` (line 164). A stored null value reads as a miss. The same holds for `Lfu.Put`.
