/** The recency (LRU) policy shared by every LRU variant: a hash index kept in
    step with a doubly-linked list whose front is the most recently used key. */
module Lru {
  import opened CacheTypes
  import opened Seqs
  import Recency

  /** `order` is the list read from `head` to `tail`, `values` the index and
      `size` the counter the source keeps beside them. */
  datatype Cache<K, V> = Cache(capacity: int, size: int, order: seq<K>, values: map<K, V>)

  /** The most entries a cache of this capacity holds once a `put` completes
      (an unvalidated non-positive capacity holds nothing). */
  function Bound(capacity: int): nat {
    if capacity < 0 then 0 else capacity
  }

  /** The list holds each key once, list and index hold the same keys, and
      the counter is the list length. */
  predicate Linked<K(==), V>(c: Cache<K, V>) {
    && NoDup(c.order)
    && (forall k :: k in c.order ==> k in c.values)
    && (forall k :: k in c.values ==> k in c.order)
    && c.size == |c.order|
  }

  /** In a linked cache the index holds exactly `size` entries. */
  lemma IndexSize<K, V>(c: Cache<K, V>)
    requires Linked(c)
    ensures |c.values| == c.size
  {
    NoDupCard(c.order);
    assert c.values.Keys == set x | x in c.order;
  }

  /** `Linked`, and the capacity bound holds. */
  predicate Valid<K(==), V>(c: Cache<K, V>) {
    Linked(c) && c.size <= Bound(c.capacity)
  }

  /** A freshly constructed cache: sentinels linked to each other, empty index. */
  function Empty<K(==), V>(capacity: int): (c: Cache<K, V>)
    ensures Valid(c) && c.capacity == capacity && c.size == 0 && c.values == map[]
  {
    Cache(capacity, 0, [], map[])
  }

  /** The validating constructor of the generic caches: a non-positive
      capacity is refused, anything else yields an empty cache. */
  function New<K(==), V>(capacity: int): (r: Result<Cache<K, V>>)
    ensures r.Failure? <==> capacity <= 0
    ensures r.Failure? ==> r.message == "Capacity must be positive"
    ensures r.Success? ==> Valid(r.value) && r.value.capacity == capacity && r.value.size == 0 && r.value.values == map[]
  {
    if capacity <= 0 then Failure("Capacity must be positive") else Success(Empty(capacity))
  }

  /** `get`: a miss answers `None` and changes nothing; a hit answers the value
      and moves the key to the front. */
  function Get<K(==), V>(c: Cache<K, V>, key: K): (r: (Option<V>, Cache<K, V>))
    requires Valid(c)
    ensures Valid(r.1)
    ensures r.0.Some? <==> key in c.values
    ensures key !in c.values ==> r.1 == c
    ensures key in c.values ==> r.0.value == c.values[key]
    ensures r.1.values == c.values && r.1.size == c.size && r.1.capacity == c.capacity
    ensures key in c.values ==> r.1.order[0] == key && Remove(r.1.order, key) == Remove(c.order, key)
  {
    if key !in c.values then (None, c)
    else (Some(c.values[key]), c.(order := Recency.MoveToFront(c.order, key)))
  }

  /** `get` as the locking variants run it: `probeHit` is what the lock-free
      `containsKey` probe saw, possibly before another thread's change; the
      lookup is then repeated under the lock on the current state `c`. */
  function ProbedGet<K(==), V>(probeHit: bool, c: Cache<K, V>, key: K): (r: (Option<V>, Cache<K, V>))
    requires Valid(c)
    ensures Valid(r.1)
    ensures r.0.Some? ==> key in c.values && r.0.value == c.values[key]
    ensures r.0.None? ==> r.1 == c
    ensures !probeHit ==> r == (None, c)
    ensures probeHit ==> r == Get(c, key)
  {
    if !probeHit then (None, c) else Get(c, key)
  }

  /** Without interference the probe agrees with the index, and the two-step
      lookup is the plain `get`. */
  lemma ProbedGetSequential<K, V>(c: Cache<K, V>, key: K)
    requires Valid(c)
    ensures ProbedGet(key in c.values, c, key) == Get(c, key)
  {
  }

  /** `put` of a key already present: new value, key moved to the front. */
  function Refresh<K(==), V>(c: Cache<K, V>, key: K, value: V): (r: Cache<K, V>)
    requires Valid(c) && key in c.values
    ensures Valid(r) && r.capacity == c.capacity && r.size == c.size
    ensures r.values == c.values[key := value]
    ensures r.order[0] == key && Remove(r.order, key) == Remove(c.order, key)
  {
    c.(values := c.values[key := value], order := Recency.MoveToFront(c.order, key))
  }

  /** `put` of a new key up to the capacity test: index entry, `addFirst`, `size++`. */
  function Admit<K(==), V>(c: Cache<K, V>, key: K, value: V): (r: Cache<K, V>)
    requires Valid(c) && key !in c.values
    ensures Linked(r) && r.capacity == c.capacity && r.size == c.size + 1
    ensures r.values == c.values[key := value] && r.order == [key] + c.order
  {
    NoDupCons(key, c.order);
    c.(values := c.values[key := value], order := [key] + c.order, size := c.size + 1)
  }

  /** `removeLast` on the list, removal of the victim's key from the index, `size--`. */
  function EvictLast<K(==), V>(c: Cache<K, V>): (r: Cache<K, V>)
    requires Linked(c) && |c.order| > 0
    ensures Linked(r) && r.capacity == c.capacity && r.size == c.size - 1
    ensures r.order == DropLast(c.order) && r.values == c.values - {Last(c.order)}
  {
    DropLastMembers(c.order);
    c.(order := DropLast(c.order), values := c.values - {Last(c.order)}, size := c.size - 1)
  }

  /** What an admitted key followed by an eviction leaves behind. */
  lemma AdmitThenEvict<K, V>(c: Cache<K, V>, key: K, value: V)
    requires Valid(c) && key !in c.values && |c.order| > 0
    ensures EvictLast(Admit(c, key, value)).values == (c.values - {Last(c.order)})[key := value]
    ensures EvictLast(Admit(c, key, value)).order == [key] + DropLast(c.order)
  {
    var a := Admit(c, key, value);
    LastOfCons(key, c.order);
    assert Last(c.order) in c.order;
    MapUpdateRemove(c.values, key, value, Last(c.order));
  }

  /** Updating one key and removing another commute. */
  lemma MapUpdateRemove<K, V>(m: map<K, V>, k: K, v: V, x: K)
    requires k != x
    ensures m[k := v] - {x} == (m - {x})[k := v]
  {
  }

  /** Admitting into an empty cache and evicting at once restores it. */
  lemma AdmitThenEvictEmpty<K, V>(c: Cache<K, V>, key: K, value: V)
    requires Valid(c) && key !in c.values && |c.order| == 0
    ensures EvictLast(Admit(c, key, value)) == c
  {
    var r := EvictLast(Admit(c, key, value));
    assert r.order == [] == c.order;
    assert c.values == map[] by {
      assert forall k :: k in c.values ==> k in c.order;
    }
    assert r.values == map[];
  }

  /** `put`: an existing key takes the new value and moves to the front; a new
      key is spliced in at the front and, when the counter then exceeds the
      capacity, the key just before `tail` is evicted. */
  function Put<K(==), V>(c: Cache<K, V>, key: K, value: V): (r: Cache<K, V>)
    requires Valid(c)
    ensures Valid(r)
    ensures r.capacity == c.capacity
    ensures c.capacity >= 1 ==> key in r.values && r.values[key] == value && r.order[0] == key
    ensures key in c.values ==>
      && r.values == c.values[key := value] && r.size == c.size
      && Remove(r.order, key) == Remove(c.order, key)
    ensures key !in c.values && c.size < c.capacity ==>
      r.values == c.values[key := value] && r.order == [key] + c.order && r.size == c.size + 1
    ensures key !in c.values && 1 <= c.capacity <= c.size ==>
      && r.values == (c.values - {Last(c.order)})[key := value]
      && r.order == [key] + DropLast(c.order) && r.size == c.size
    ensures key !in c.values && c.capacity <= 0 ==> r == c
  {
    if key in c.values then Refresh(c, key, value)
    else
      var added := Admit(c, key, value);
      if added.size > added.capacity then
        if |c.order| > 0 then
          AdmitThenEvict(c, key, value);
          EvictLast(added)
        else
          AdmitThenEvictEmpty(c, key, value);
          EvictLast(added)
      else added
  }

  /** Round trip: a `get` right after `put(k, v)` answers `v`. */
  lemma PutThenGet<K, V>(c: Cache<K, V>, key: K, value: V)
    requires Valid(c) && c.capacity >= 1
    ensures Get(Put(c, key, value), key).0 == Some(value)
  {
  }

  /** Repeated `get`s of one key answer the same and the second changes nothing. */
  lemma GetTwice<K, V>(c: Cache<K, V>, key: K)
    requires Valid(c)
    ensures Get(Get(c, key).1, key) == Get(c, key)
  {
    var (v, c1) := Get(c, key);
    if key in c.values {
      Recency.MoveFrontToFront(c1.order);
    }
  }

  /** Reference view of recency: `stamp` holds the time of each key's last
      `get` or `put`, older than `clock`, and the list runs newest to oldest. */
  predicate Tracks<K(==), V>(c: Cache<K, V>, stamp: map<K, int>, clock: int) {
    && Valid(c)
    && Recency.NewestFirst(c.order, stamp)
    && (forall k :: k in stamp ==> stamp[k] < clock)
  }

  /** A `get` at time `clock` re-stamps a hit and keeps the list newest-first. */
  lemma GetTracks<K, V>(c: Cache<K, V>, stamp: map<K, int>, clock: int, key: K)
    requires Tracks(c, stamp, clock)
    ensures Tracks(Get(c, key).1, if key in c.values then stamp[key := clock] else stamp, clock + 1)
  {
    if key in c.values {
      Recency.NewestFirstTouch(c.order, stamp, key, clock);
    }
  }

  /** A `put` at time `clock` stamps its key and keeps the list newest-first. */
  lemma PutTracks<K, V>(c: Cache<K, V>, stamp: map<K, int>, clock: int, key: K, value: V)
    requires Tracks(c, stamp, clock)
    ensures Tracks(Put(c, key, value), stamp[key := clock], clock + 1)
  {
    if key in c.values {
      Recency.NewestFirstTouch(c.order, stamp, key, clock);
      assert Put(c, key, value) == Refresh(c, key, value);
    } else {
      AdmitTracks(c, stamp, clock, key, value);
    }
  }

  lemma AdmitTracks<K, V>(c: Cache<K, V>, stamp: map<K, int>, clock: int, key: K, value: V)
    requires Tracks(c, stamp, clock) && key !in c.values
    ensures Tracks(Put(c, key, value), stamp[key := clock], clock + 1)
  {
    var st := stamp[key := clock];
    var r := Put(c, key, value);
    Recency.NewestFirstInsert(c.order, stamp, key, clock);
    if 1 <= c.capacity <= c.size {
      Recency.NewestFirstDropLast([key] + c.order, st);
      LastOfCons(key, c.order);
      assert r.order == DropLast([key] + c.order);
    } else if c.capacity <= 0 {
      Recency.NewestFirstRestamp(c.order, stamp, key, clock);
    }
  }

  /** The evicted key is the least recently used: every other key held before
      the `put` was touched strictly later. */
  lemma PutEvictsLeastRecent<K, V>(c: Cache<K, V>, stamp: map<K, int>, clock: int, key: K, value: V)
    requires Tracks(c, stamp, clock)
    ensures forall x :: x in c.values && x !in Put(c, key, value).values ==>
      forall y :: y in c.values && y != x ==> stamp[x] < stamp[y]
  {
    var r := Put(c, key, value);
    if key !in c.values && 1 <= c.capacity <= c.size {
      DropLastMembers(c.order);
      Recency.LastIsOldest(c.order, stamp);
    }
  }

  /** A `get` hit unlinks the key from its position and relinks it at the
      front; the other keys keep their relative order. */
  lemma GetAt<K, V>(c: Cache<K, V>, i: int)
    requires Valid(c) && 0 <= i < |c.order|
    ensures Get(c, c.order[i]).1.order == [c.order[i]] + (c.order[..i] + c.order[i + 1..])
  {
    Recency.MoveToFrontAt(c.order, i);
  }

  /** A `get` of the older of two keys swaps them. */
  lemma GetOlderOfTwo<K, V>(c: Cache<K, V>)
    requires Valid(c) && |c.order| == 2
    ensures Get(c, c.order[1]) == (Some(c.values[c.order[1]]), c.(order := [c.order[1], c.order[0]]))
  {
    Recency.MoveToFrontAt(c.order, 1);
    assert c.order[..1] + c.order[2..] == [c.order[0]];
    assert [c.order[1]] + [c.order[0]] == [c.order[1], c.order[0]];
  }

  /** A new key put into a full two-entry cache evicts the older key. */
  lemma PutIntoFullTwo<K, V>(c: Cache<K, V>, key: K, value: V)
    requires Valid(c) && c.capacity == 2 && |c.order| == 2 && key !in c.values
    ensures Put(c, key, value) == c.(order := [key, c.order[0]], values := (c.values - {c.order[1]})[key := value])
  {
    assert DropLast(c.order) == [c.order[0]];
  }

  /** The capacity-2 driver scenario, for any four distinct keys:
      put k1, put k2, get k1 (hit), put k3 (evicts k2), get k2 (miss),
      put k4 (evicts k1), get k1 (miss), get k3 (hit), get k4 (hit). */
  lemma CapacityTwoScenario<K, V>(k1: K, k2: K, k3: K, k4: K, v1: V, v2: V, v3: V, v4: V)
    requires k1 != k2 && k1 != k3 && k1 != k4 && k2 != k3 && k2 != k4 && k3 != k4
    ensures
      var c2 := Put(Put(Empty(2), k1, v1), k2, v2);
      var g1 := Get(c2, k1);
      var c4 := Put(g1.1, k3, v3);
      var g2 := Get(c4, k2);
      var c6 := Put(g2.1, k4, v4);
      var g3 := Get(c6, k1);
      var g4 := Get(g3.1, k3);
      var g5 := Get(g4.1, k4);
      [g1.0, g2.0, g3.0, g4.0, g5.0] == [Some(v1), None, None, Some(v3), Some(v4)]
  {
    var c1 := Put(Empty(2), k1, v1);
    assert c1.order == [k1];
    var c2 := Put(c1, k2, v2);
    assert c2.order == [k2, k1];
    GetOlderOfTwo(c2);
    var c3 := Get(c2, k1).1;
    PutIntoFullTwo(c3, k3, v3);
    var c4 := Put(c3, k3, v3);
    assert c4.order == [k3, k1];
    assert k2 !in c4.values;
    PutIntoFullTwo(c4, k4, v4);
    var c6 := Put(c4, k4, v4);
    assert c6.order == [k4, k3];
    assert k1 !in c6.values;
    GetOlderOfTwo(c6);
    var c7 := Get(c6, k3).1;
    GetOlderOfTwo(c7);
  }
}
