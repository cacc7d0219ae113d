/** `LRUCacheElastic`: the recency cache whose bound `currentCapacity` is
    moved between `initialCapacity` and `maxCapacity` by a periodic
    maintenance pass. The pass is modelled as an explicit step. */
module Elastic {
  import opened CacheTypes
  import opened Seqs
  import Lru

  /** `lru.capacity` plays the part of `currentCapacity`. */
  datatype ElasticCache<K, V> = ElasticCache(initialCapacity: int, maxCapacity: int, lru: Lru.Cache<K, V>)

  /** The configured bounds hold, `initialCapacity <= currentCapacity <= maxCapacity`,
      and the list and index are consistent with `size <= currentCapacity`. */
  predicate Valid<K(==), V>(e: ElasticCache<K, V>) {
    && 1 <= e.initialCapacity <= e.lru.capacity <= e.maxCapacity
    && Lru.Valid(e.lru)
  }

  /** The constructor's two configuration checks, in source order. */
  function New<K(==), V>(initialCapacity: int, maxCapacity: int): (r: Result<ElasticCache<K, V>>)
    ensures r.Failure? <==> initialCapacity <= 0 || maxCapacity < initialCapacity
    ensures initialCapacity <= 0 ==> r == Failure("Capacity must be positive.")
    ensures 0 < initialCapacity && maxCapacity < initialCapacity ==>
      r == Failure("Maximum capacity must be >= initialCapacity.")
    ensures r.Success? ==>
      && Valid(r.value)
      && r.value.initialCapacity == initialCapacity && r.value.maxCapacity == maxCapacity
      && r.value.lru.capacity == initialCapacity && r.value.lru.size == 0
      && r.value.lru.values == map[]
  {
    if initialCapacity <= 0 then Failure("Capacity must be positive.")
    else if maxCapacity < initialCapacity then Failure("Maximum capacity must be >= initialCapacity.")
    else Success(ElasticCache(initialCapacity, maxCapacity, Lru.Empty(initialCapacity)))
  }

  /** `get`: the recency `get` on the current list; the bounds are untouched. */
  function Get<K(==), V>(e: ElasticCache<K, V>, key: K): (r: (Option<V>, ElasticCache<K, V>))
    requires Valid(e)
    ensures Valid(r.1)
    ensures r.0.Some? <==> key in e.lru.values
    ensures key !in e.lru.values ==> r.1 == e
    ensures key in e.lru.values ==>
      && r.0.value == e.lru.values[key]
      && |r.1.lru.order| > 0 && r.1.lru.order[0] == key
      && Remove(r.1.lru.order, key) == Remove(e.lru.order, key)
    ensures r.1.lru.values == e.lru.values && r.1.lru.size == e.lru.size
    ensures r.1.initialCapacity == e.initialCapacity && r.1.maxCapacity == e.maxCapacity
    ensures r.1.lru.capacity == e.lru.capacity
  {
    var (v, c) := Lru.Get(e.lru, key);
    (v, e.(lru := c))
  }

  /** `get` with its lock-free probe, as in `Lru.ProbedGet`. */
  function ProbedGet<K(==), V>(probeHit: bool, e: ElasticCache<K, V>, key: K): (r: (Option<V>, ElasticCache<K, V>))
    requires Valid(e)
    ensures Valid(r.1)
    ensures r.0.Some? ==> key in e.lru.values && r.0.value == e.lru.values[key]
    ensures r.0.None? ==> r.1 == e
    ensures !probeHit ==> r == (None, e)
    ensures probeHit ==> r == Get(e, key)
  {
    var (v, c) := Lru.ProbedGet(probeHit, e.lru, key);
    (v, e.(lru := c))
  }

  /** `put`: the recency `put` against the current bound; a new key past
      `currentCapacity` evicts the key before `tail`. */
  function Put<K(==), V>(e: ElasticCache<K, V>, key: K, value: V): (r: ElasticCache<K, V>)
    requires Valid(e)
    ensures Valid(r) && r.lru.size <= r.lru.capacity
    ensures key in r.lru.values && r.lru.values[key] == value && r.lru.order[0] == key
    ensures key in e.lru.values ==>
      && r.lru.values == e.lru.values[key := value] && r.lru.size == e.lru.size
      && Remove(r.lru.order, key) == Remove(e.lru.order, key)
    ensures key !in e.lru.values && e.lru.size < e.lru.capacity ==>
      r.lru.values == e.lru.values[key := value] && r.lru.order == [key] + e.lru.order
    ensures key !in e.lru.values && e.lru.size == e.lru.capacity ==>
      && r.lru.values == (e.lru.values - {Last(e.lru.order)})[key := value]
      && r.lru.order == [key] + DropLast(e.lru.order)
    ensures r.initialCapacity == e.initialCapacity && r.maxCapacity == e.maxCapacity
    ensures r.lru.capacity == e.lru.capacity
  {
    e.(lru := Lru.Put(e.lru, key, value))
  }

  /** `removeLast` of the elastic list: "nothing" on an empty list, else the
      key before `tail`, the rest of the order intact. */
  function RemoveLast<K>(order: seq<K>): (r: (Option<K>, seq<K>))
    ensures r.0.None? <==> order == []
    ensures r.0.None? ==> r.1 == order
    ensures r.0.Some? ==> r.1 + [r.0.value] == order
  {
    if |order| == 0 then (None, order) else (Some(Last(order)), DropLast(order))
  }

  /** `evictUntilWithinCapacity`, as written: while `size` exceeds the bound,
      unlink the last node and decrement `size`; the index removal is passed
      the node rather than its key and so removes nothing; an empty list
      stops the loop. */
  function EvictUntilWithinCapacity<K, V>(c: Lru.Cache<K, V>): (r: Lru.Cache<K, V>)
    ensures r.values == c.values && r.capacity == c.capacity
    ensures |r.order| <= |c.order| && r.order == c.order[..|r.order|]
    ensures c.size - r.size == |c.order| - |r.order|
    ensures c.size <= c.capacity ==> r == c
    ensures c.size > c.capacity && |c.order| > 0 ==> |r.order| < |c.order|
    ensures r.size <= r.capacity || r.order == []
    ensures c.size > c.capacity ==> r.size >= r.capacity
    decreases |c.order|
  {
    if c.size > c.capacity then
      var (node, rest) := RemoveLast(c.order);
      if node.None? then c
      else
        var r := EvictUntilWithinCapacity(c.(order := rest, size := c.size - 1));
        assert c.order[..|rest|] == rest;
        r
    else c
  }

  /** Were the loop ever to unlink a node, the index would keep that node's
      key although the list no longer holds it. */
  lemma StaleIndexIfEvicting<K, V>(c: Lru.Cache<K, V>)
    requires Lru.Linked(c) && c.size > c.capacity && c.capacity >= 0
    ensures Last(c.order) in EvictUntilWithinCapacity(c).values
    ensures Last(c.order) !in EvictUntilWithinCapacity(c).order
    ensures !Lru.Linked(EvictUntilWithinCapacity(c))
  {
    var r := EvictUntilWithinCapacity(c);
    var n := |c.order|;
    assert r.order == c.order[..|r.order|];
    forall i | 0 <= i < |r.order|
      ensures r.order[i] != Last(c.order)
    {
      assert r.order[i] == c.order[i];
    }
  }

  /** The fill ratio `size / currentCapacity` exceeds 0.8, in integers. */
  predicate AboveUpper(size: int, capacity: int) {
    5 * size > 4 * capacity
  }

  /** The fill ratio is below 0.25, in integers. */
  predicate BelowLower(size: int, capacity: int) {
    4 * size < capacity
  }

  /** `(int) (c * 1.5)` capped at `maxCapacity`. */
  function Grown(capacity: int, maxCapacity: int): int {
    if capacity + capacity / 2 < maxCapacity then capacity + capacity / 2 else maxCapacity
  }

  /** `(int) (c * 0.5)` raised to `initialCapacity`. */
  function Shrunk(capacity: int, initialCapacity: int): int {
    if capacity / 2 > initialCapacity then capacity / 2 else initialCapacity
  }

  /** `runElasticityManager`: grow above the upper threshold, else shrink
      below the lower one and evict down to the new bound, else nothing. */
  function Maintain<K(==), V>(e: ElasticCache<K, V>): (r: ElasticCache<K, V>)
    requires Valid(e)
    ensures Valid(r) && r.lru.size <= r.lru.capacity
    ensures r.initialCapacity == e.initialCapacity && r.maxCapacity == e.maxCapacity
    ensures r.lru == e.lru.(capacity := r.lru.capacity)
    ensures AboveUpper(e.lru.size, e.lru.capacity) ==> r.lru.capacity >= e.lru.capacity
    ensures !AboveUpper(e.lru.size, e.lru.capacity) ==> r.lru.capacity <= e.lru.capacity
    ensures AboveUpper(e.lru.size, e.lru.capacity) ==> r.lru.capacity == Grown(e.lru.capacity, e.maxCapacity)
    ensures !AboveUpper(e.lru.size, e.lru.capacity) && BelowLower(e.lru.size, e.lru.capacity) ==>
      r.lru.capacity == Shrunk(e.lru.capacity, e.initialCapacity)
    ensures !AboveUpper(e.lru.size, e.lru.capacity) && !BelowLower(e.lru.size, e.lru.capacity) ==> r == e
  {
    var size := e.lru.size;
    var c := e.lru.capacity;
    if AboveUpper(size, c) then
      e.(lru := e.lru.(capacity := Grown(c, e.maxCapacity)))
    else if BelowLower(size, c) then
      var shrunk := e.lru.(capacity := Shrunk(c, e.initialCapacity));
      ShrinkNeverEvicts(e);
      e.(lru := EvictUntilWithinCapacity(shrunk))
    else e
  }

  /** The shrink path never enters the eviction loop: below the lower
      threshold, `size` already fits the halved bound. */
  lemma ShrinkNeverEvicts<K, V>(e: ElasticCache<K, V>)
    requires Valid(e) && BelowLower(e.lru.size, e.lru.capacity)
    ensures e.lru.size <= Shrunk(e.lru.capacity, e.initialCapacity)
    ensures EvictUntilWithinCapacity(e.lru.(capacity := Shrunk(e.lru.capacity, e.initialCapacity)))
         == e.lru.(capacity := Shrunk(e.lru.capacity, e.initialCapacity))
  {
    assert e.lru.size <= e.lru.capacity / 2;
  }

  /** A ratio over a positive denominator exceeds `n / d` exactly when the
      cross products say so. */
  lemma RatioCompare(size: int, capacity: int, n: int, d: int)
    requires capacity >= 1 && d >= 1
    ensures (size as real) / (capacity as real) > (n as real) / (d as real) <==> d * size > n * capacity
    ensures (size as real) / (capacity as real) < (n as real) / (d as real) <==> d * size < n * capacity
  {
    var x := (size as real) / (capacity as real);
    var y := (n as real) / (d as real);
    assert x - y == ((d * size - n * capacity) as real) / ((d * capacity) as real);
  }

  /** The integer forms agree with the source's ratio tests and truncating
      casts, read over exact real arithmetic: `size / c > 0.8`,
      `size / c < 0.25`, `(int) (c * 1.5)` and `(int) (c * 0.5)`. */
  lemma ThresholdsExact(size: int, capacity: int)
    requires capacity >= 1
    ensures AboveUpper(size, capacity) <==> (size as real) / (capacity as real) > 0.8
    ensures BelowLower(size, capacity) <==> (size as real) / (capacity as real) < 0.25
    ensures ((capacity as real) * 1.5).Floor == capacity + capacity / 2
    ensures ((capacity as real) * 0.5).Floor == capacity / 2
  {
    RatioCompare(size, capacity, 4, 5);
    assert (4 as real) / (5 as real) == 0.8;
    RatioCompare(size, capacity, 1, 4);
    assert (1 as real) / (4 as real) == 0.25;
    var h := capacity / 2;
    if capacity % 2 == 0 {
      assert (capacity as real) * 1.5 == (capacity + h) as real;
      assert (capacity as real) * 0.5 == h as real;
    } else {
      assert (capacity as real) * 1.5 == (capacity + h) as real + 0.5;
      assert (capacity as real) * 0.5 == h as real + 0.5;
    }
  }

  /** Growth is strict once the bound is at least 2 and below the maximum. */
  lemma GrowthStrict<K, V>(e: ElasticCache<K, V>)
    requires Valid(e) && AboveUpper(e.lru.size, e.lru.capacity)
    requires 2 <= e.lru.capacity < e.maxCapacity
    ensures e.lru.capacity < Maintain(e).lru.capacity <= e.maxCapacity
  {
  }

  /** At a bound of 1 a full cache stays at 1, whatever the maximum:
      `(int) (1 * 1.5)` is 1. */
  lemma GrowthStallsAtOne<K, V>(e: ElasticCache<K, V>)
    requires Valid(e) && e.lru.capacity == 1 && e.lru.size == 1
    ensures AboveUpper(e.lru.size, e.lru.capacity)
    ensures Maintain(e) == e
  {
    assert Grown(1, e.maxCapacity) == 1;
    assert e.lru.(capacity := 1) == e.lru;
  }

  /** Below the lower threshold the bound halves, but never below
      `initialCapacity`; it falls strictly whenever it was above that floor. */
  lemma ShrinkStrict<K, V>(e: ElasticCache<K, V>)
    requires Valid(e) && BelowLower(e.lru.size, e.lru.capacity)
    ensures e.initialCapacity <= Maintain(e).lru.capacity
    ensures e.initialCapacity < e.lru.capacity ==> Maintain(e).lru.capacity < e.lru.capacity
  {
  }

  /** Initial capacity 2, maximum 5: after two `put`s of distinct keys the
      fill ratio is 1.0 and a maintenance pass grows the bound to 3. */
  lemma GrowFromTwo<K, V>(k1: K, k2: K, v1: V, v2: V)
    requires k1 != k2
    ensures New<K, V>(2, 5).Success?
    ensures Maintain(Put(Put(New<K, V>(2, 5).value, k1, v1), k2, v2)).lru.capacity == 3
  {
    var e2 := Put(Put(New<K, V>(2, 5).value, k1, v1), k2, v2);
    assert e2.lru.size == 2;
  }

  /** A second maintenance pass at size 2 and bound 3 changes nothing: the
      fill ratio 2/3 lies between the thresholds. */
  lemma GrownTwiceFromTwo<K, V>(k1: K, k2: K, v1: V, v2: V)
    requires k1 != k2
    ensures New<K, V>(2, 5).Success?
    ensures var m := Maintain(Maintain(Put(Put(New<K, V>(2, 5).value, k1, v1), k2, v2)));
      && m.lru.capacity == 3 && m.lru.size == 2 && m.lru.order == [k2, k1]
      && m.lru.values == map[k1 := v1][k2 := v2]
  {
    GrowFromTwo<K, V>(k1, k2, v1, v2);
    var e2 := Put(Put(New<K, V>(2, 5).value, k1, v1), k2, v2);
    assert e2.lru.order == [k2, k1];
  }

  /** After the growth to 3: `get(1)` answers and `put(3)` evicts nothing. */
  lemma ReadThenPutAfterGrowth<K, V>(m: ElasticCache<K, V>, k1: K, k2: K, k3: K, v1: V, v2: V, v3: V)
    requires k1 != k2 && k1 != k3 && k2 != k3
    requires Valid(m) && m.lru.capacity == 3 && m.lru.size == 2 && m.lru.order == [k2, k1]
    requires m.lru.values == map[k1 := v1][k2 := v2]
    ensures Get(m, k1).0 == Some(v1)
    ensures var e4 := Put(Get(m, k1).1, k3, v3);
      && e4.lru.capacity == 3 && e4.lru.order == [k3, k1, k2]
      && e4.lru.values == map[k1 := v1][k2 := v2][k3 := v3]
  {
    Lru.GetAt(m.lru, 1);
    var e3 := Get(m, k1).1;
    assert e3.lru.order == [k1, k2];
  }

  /** Then `get(2)` still answers and moves 2 to the front. */
  lemma ReadAfterGrowth<K, V>(e: ElasticCache<K, V>, k1: K, k2: K, k3: K, v1: V, v2: V, v3: V)
    requires k1 != k2 && k1 != k3 && k2 != k3
    requires Valid(e) && e.lru.capacity == 3 && e.lru.order == [k3, k1, k2]
    requires e.lru.values == map[k1 := v1][k2 := v2][k3 := v3]
    ensures Get(e, k2).0 == Some(v2)
    ensures var e5 := Get(e, k2).1;
      && e5.lru.capacity == 3 && e5.lru.order == [k2, k3, k1]
      && k3 in e5.lru.values && e5.lru.values[k3] == v3
  {
    Lru.GetAt(e.lru, 2);
  }

  /** Then `put(4)` at size 3 evicts 1, the key before `tail`; `get(1)`
      misses and 3 and 4 answer. */
  lemma EvictsAfterGrowth<K, V>(e: ElasticCache<K, V>, k1: K, k2: K, k3: K, k4: K, v3: V, v4: V)
    requires k1 != k2 && k1 != k3 && k1 != k4 && k2 != k3 && k2 != k4 && k3 != k4
    requires Valid(e) && e.lru.capacity == 3 && e.lru.order == [k2, k3, k1]
    requires k3 in e.lru.values && e.lru.values[k3] == v3
    ensures var e6 := Put(e, k4, v4);
      var g3 := Get(e6, k1);
      var g4 := Get(g3.1, k3);
      && g3.0 == None && g4.0 == Some(v3) && Get(g4.1, k4).0 == Some(v4)
  {
    assert Last(e.lru.order) == k1;
    assert e.lru.size == 3;
  }

  /** The `fruits` driver against `LRUCacheElastic(2, 5)` with its sleep of
      five seconds after the first two `put`s, taken as two maintenance
      passes (at two and four seconds) and none afterwards. The bound grows
      to 3, so `put(3)` evicts nothing and `get(2)` still answers; `put(4)`
      then evicts 1. The gets answer 1, 2, nothing, 3, 4. */
  lemma FruitsAfterGrowth<K, V>(m: ElasticCache<K, V>, k1: K, k2: K, k3: K, k4: K, v1: V, v2: V, v3: V, v4: V)
    requires k1 != k2 && k1 != k3 && k1 != k4 && k2 != k3 && k2 != k4 && k3 != k4
    requires Valid(m) && m.lru.capacity == 3 && m.lru.size == 2 && m.lru.order == [k2, k1]
    requires m.lru.values == map[k1 := v1][k2 := v2]
    ensures var g1 := Get(m, k1);
      var e4 := Put(g1.1, k3, v3);
      var g2 := Get(e4, k2);
      var e6 := Put(g2.1, k4, v4);
      var g3 := Get(e6, k1);
      var g4 := Get(g3.1, k3);
      var g5 := Get(g4.1, k4);
      [g1.0, g2.0, g3.0, g4.0, g5.0] == [Some(v1), Some(v2), None, Some(v3), Some(v4)]
  {
    ReadThenPutAfterGrowth(m, k1, k2, k3, v1, v2, v3);
    var e4 := Put(Get(m, k1).1, k3, v3);
    ReadAfterGrowth(e4, k1, k2, k3, v1, v2, v3);
    var e5 := Get(e4, k2).1;
    EvictsAfterGrowth(e5, k1, k2, k3, k4, v3, v4);
  }

  /** The whole `fruits` run on the elastic cache. */
  lemma FruitsTrace<K, V>(k1: K, k2: K, k3: K, k4: K, v1: V, v2: V, v3: V, v4: V)
    requires k1 != k2 && k1 != k3 && k1 != k4 && k2 != k3 && k2 != k4 && k3 != k4
    ensures New<K, V>(2, 5).Success?
    ensures var m := Maintain(Maintain(Put(Put(New<K, V>(2, 5).value, k1, v1), k2, v2)));
      var g1 := Get(m, k1);
      var e4 := Put(g1.1, k3, v3);
      var g2 := Get(e4, k2);
      var e6 := Put(g2.1, k4, v4);
      var g3 := Get(e6, k1);
      var g4 := Get(g3.1, k3);
      var g5 := Get(g4.1, k4);
      [g1.0, g2.0, g3.0, g4.0, g5.0] == [Some(v1), Some(v2), None, Some(v3), Some(v4)]
  {
    GrownTwiceFromTwo<K, V>(k1, k2, v1, v2);
    var m := Maintain(Maintain(Put(Put(New<K, V>(2, 5).value, k1, v1), k2, v2)));
    FruitsAfterGrowth(m, k1, k2, k3, k4, v1, v2, v3, v4);
  }
}
