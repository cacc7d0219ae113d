/** The four `int` recency caches (`LRUCacheBasic`, `LRUCacheImpl`,
    `LRUCacheThreadSafeSimple`, `LRUCacheThreadSafeReentrantLock`): the same
    list and index as the generic cache, but `int` keys and values, `-1` for
    "not found", and a constructor that accepts any capacity. */
module IntLru {
  import Lru

  /** The answer of `get` for an absent key. */
  const NotFound: int := -1

  /** The documented value range of the `LRUCacheImpl` exercise. */
  const MaxValue: int := 100000

  type IntCache = Lru.Cache<int, int>

  /** The constructor stores the capacity unchecked: even a non-positive one
      yields a well-formed, empty cache. */
  function New(capacity: int): (c: IntCache)
    ensures Lru.Valid(c) && c.capacity == capacity
    ensures c.values == map[] && c.order == [] && c.size == 0
  {
    Lru.Empty(capacity)
  }

  /** `get`: the stored value and a move to the head on a hit, `-1` and no
      change on a miss. */
  function Get(c: IntCache, key: int): (r: (int, IntCache))
    requires Lru.Valid(c)
    ensures Lru.Valid(r.1)
    ensures key !in c.values ==> r.0 == NotFound && r.1 == c
    ensures key in c.values ==> r.0 == c.values[key]
    ensures r.1 == Lru.Get(c, key).1
  {
    var (v, c1) := Lru.Get(c, key);
    (if v.Some? then v.value else NotFound, c1)
  }

  /** `get` of the re-checking variant: a probe that missed answers `-1`
      at once; otherwise the lookup is repeated under the lock, so a stale
      probe can lose a hit but never report a value the cache lacks. */
  function ProbedGet(probeHit: bool, c: IntCache, key: int): (r: (int, IntCache))
    requires Lru.Valid(c)
    ensures Lru.Valid(r.1)
    ensures key !in c.values ==> r == (NotFound, c)
    ensures key in c.values && probeHit ==> r == Get(c, key)
    ensures !probeHit ==> r == (NotFound, c)
  {
    if !probeHit then (NotFound, c) else Get(c, key)
  }

  /** With `capacity <= 0` every new key evicts itself at once: the cache
      stays empty and a following `get` misses. */
  lemma NonPositiveCapacityStaysEmpty(capacity: int, key: int, value: int)
    requires capacity <= 0
    ensures Lru.Put(New(capacity), key, value) == New(capacity)
    ensures Get(Lru.Put(New(capacity), key, value), key).0 == NotFound
  {
  }

  /** Every stored value lies in the documented range `0..10^5`. */
  predicate InRange(c: IntCache) {
    forall k :: k in c.values ==> 0 <= c.values[k] <= MaxValue
  }

  /** `put` of an in-range value keeps every stored value in range; `get`
      does not touch values. */
  lemma InRangeKept(c: IntCache, key: int, value: int, probe: int)
    requires Lru.Valid(c) && InRange(c) && 0 <= value <= MaxValue
    ensures InRange(Lru.Put(c, key, value))
    ensures InRange(Get(c, probe).1)
  {
    var r := Lru.Put(c, key, value);
    forall k | k in r.values
      ensures 0 <= r.values[k] <= MaxValue
    {
      if k != key {
        assert k in c.values;
      }
    }
  }

  /** Under the documented constraints `-1` answers exactly the absent keys,
      and the entry count stays within the capacity. */
  lemma MinusOneMeansAbsent(c: IntCache, key: int)
    requires Lru.Valid(c) && c.capacity >= 1 && InRange(c)
    ensures Get(c, key).0 == NotFound <==> key !in c.values
    ensures c.size <= c.capacity && |c.values| <= c.capacity
  {
    Lru.IndexSize(c);
  }

  /** Outside those constraints the sentinel is ambiguous: a stored `-1`
      is present, yet `get` answers as for a miss. */
  lemma StoredMinusOneLooksAbsent(c: IntCache, key: int)
    requires Lru.Valid(c) && c.capacity >= 1
    ensures key in Lru.Put(c, key, NotFound).values
    ensures Get(Lru.Put(c, key, NotFound), key).0 == NotFound
  {
  }

  /** The capacity-2 trace of the `main` drivers and of the exercise's
      expected output: the five `get`s answer 1, -1, -1, 3, 4. */
  lemma CapacityTwoTrace()
    ensures
      var c2 := Lru.Put(Lru.Put(New(2), 1, 1), 2, 2);
      var g1 := Get(c2, 1);
      var c4 := Lru.Put(g1.1, 3, 3);
      var g2 := Get(c4, 2);
      var c6 := Lru.Put(g2.1, 4, 4);
      var g3 := Get(c6, 1);
      var g4 := Get(g3.1, 3);
      var g5 := Get(g4.1, 4);
      [g1.0, g2.0, g3.0, g4.0, g5.0] == [1, NotFound, NotFound, 3, 4]
  {
    Lru.CapacityTwoScenario(1, 2, 3, 4, 1, 2, 3, 4);
  }
}
