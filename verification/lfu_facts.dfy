/** What `LFUCache` promises beyond its invariant: `minFreq` is the least
    live frequency, eviction takes a key of that frequency and, among those,
    the one touched longest ago. Recency is measured against the reference
    of `Recency`: a stamp per key holding the time of its last use. */
module LfuFacts {
  import opened CacheTypes
  import opened Seqs
  import Recency
  import opened Lfu

  /** Under the invariant `minFreq` is exactly the least frequency in use:
      some key has it and none has less. */
  lemma MinFreqIsLeast<K, V>(c: LfuCache<K, V>)
    requires Valid(c) && |c.values| > 0
    ensures exists k :: k in c.freq && c.freq[k] == c.minFreq
    ensures forall k :: k in c.freq ==> c.minFreq <= c.freq[k]
  {
    var v := Victim(c);
    assert v in c.freq && c.freq[v] == c.minFreq;
  }

  /** The eviction candidate is a live key of least frequency. */
  lemma VictimLeastFrequent<K, V>(c: LfuCache<K, V>)
    requires Valid(c) && |c.values| > 0
    ensures Victim(c) in c.values && c.freq[Victim(c)] == c.minFreq
    ensures forall k :: k in c.freq ==> c.freq[Victim(c)] <= c.freq[k]
  {
    var v := Victim(c);
    assert v in c.freq;
  }

  /** Every bucket lists its keys from the newest stamp to the oldest. */
  predicate Ordered<K(==)>(buckets: map<int, Bucket<K>>, stamp: map<K, int>) {
    forall f :: f in buckets ==> Recency.NewestFirst(buckets[f].order, stamp)
  }

  /** `stamp` records, before time `clock`, the last use of every key, and
      each bucket agrees with it. */
  predicate Tracks<K(==), V>(c: LfuCache<K, V>, stamp: map<K, int>, clock: int) {
    && Valid(c)
    && Ordered(c.buckets, stamp)
    && (forall k :: k in stamp ==> stamp[k] < clock)
  }

  /** A key sits in no bucket but the one of its own frequency. */
  lemma OnlyOwnBucket<K, V>(c: LfuCache<K, V>, key: K, g: int)
    requires Shaped(c) && g in c.buckets
    requires key in c.freq ==> c.freq[key] != g
    ensures key !in c.buckets[g].order
  {
  }

  /** `updateNodeFrequency` at time `clock` keeps every bucket newest-first
      once the key is stamped `clock`. */
  lemma TouchOrdered<K, V>(c: LfuCache<K, V>, stamp: map<K, int>, clock: int, key: K)
    requires Tracks(c, stamp, clock) && key in c.freq
    ensures Ordered(Touch(c, key).buckets, stamp[key := clock])
  {
    var r := Touch(c, key);
    var f := c.freq[key];
    assert r.buckets == c.buckets[f := Lowered(c, key)][f + 1 := Raised(c, key)];
    RaisedOrdered(c, stamp, clock, key);
    LoweredOrdered(c, stamp, clock, key);
    forall g | g in r.buckets && g != f && g != f + 1
      ensures Recency.NewestFirst(r.buckets[g].order, stamp[key := clock])
    {
      OnlyOwnBucket(c, key, g);
      Recency.NewestFirstRestamp(c.buckets[g].order, stamp, key, clock);
    }
  }

  lemma RaisedOrdered<K, V>(c: LfuCache<K, V>, stamp: map<K, int>, clock: int, key: K)
    requires Tracks(c, stamp, clock) && key in c.freq
    ensures Recency.NewestFirst(Raised(c, key).order, stamp[key := clock])
  {
    var f := c.freq[key];
    var b := BucketAt(c, f + 1);
    if f + 1 in c.buckets {
      OnlyOwnBucket(c, key, f + 1);
    }
    Recency.NewestFirstInsert(b.order, stamp, key, clock);
  }

  lemma LoweredOrdered<K, V>(c: LfuCache<K, V>, stamp: map<K, int>, clock: int, key: K)
    requires Tracks(c, stamp, clock) && key in c.freq
    ensures Recency.NewestFirst(Lowered(c, key).order, stamp[key := clock])
  {
    var s := c.buckets[c.freq[key]].order;
    Recency.NewestFirstRemove(s, stamp, key);
    Recency.NewestFirstRestamp(Remove(s, key), stamp, key, clock);
  }

  /** A `get` at time `clock` stamps a hit and keeps every bucket
      newest-first. */
  lemma GetTracks<K, V>(c: LfuCache<K, V>, stamp: map<K, int>, clock: int, key: K)
    requires Tracks(c, stamp, clock)
    ensures Tracks(Get(c, key).1, if key in c.values then stamp[key := clock] else stamp, clock + 1)
  {
    if key in c.values {
      TouchOrdered(c, stamp, clock, key);
    }
  }

  /** Eviction drops the oldest key of one bucket and keeps the order. */
  lemma EvictOrdered<K, V>(c: LfuCache<K, V>, stamp: map<K, int>)
    requires Valid(c) && |c.values| > 0 && Ordered(c.buckets, stamp)
    ensures Ordered(Evict(c).buckets, stamp)
  {
    Recency.NewestFirstDropLast(c.buckets[c.minFreq].order, stamp);
  }

  /** Insertion at time `clock` puts the newest key first in bucket 1. */
  lemma InsertOrdered<K, V>(c: LfuCache<K, V>, stamp: map<K, int>, clock: int, key: K, value: V)
    requires Shaped(c) && key !in c.values && Ordered(c.buckets, stamp)
    requires forall k :: k in stamp ==> stamp[k] < clock
    ensures Ordered(Insert(c, key, value).buckets, stamp[key := clock])
  {
    var r := Insert(c, key, value);
    forall g | g in r.buckets
      ensures Recency.NewestFirst(r.buckets[g].order, stamp[key := clock])
    {
      if g == 1 {
        var b := BucketAt(c, 1);
        if 1 in c.buckets {
          OnlyOwnBucket(c, key, 1);
        }
        Recency.NewestFirstInsert(b.order, stamp, key, clock);
      } else {
        OnlyOwnBucket(c, key, g);
        Recency.NewestFirstRestamp(c.buckets[g].order, stamp, key, clock);
      }
    }
  }

  /** A `put` at time `clock` stamps its key and keeps every bucket
      newest-first. */
  lemma PutTracks<K, V>(c: LfuCache<K, V>, stamp: map<K, int>, clock: int, key: K, value: V)
    requires Tracks(c, stamp, clock)
    ensures Tracks(Put(c, key, value), stamp[key := clock], clock + 1)
  {
    if key in c.values {
      TouchOrdered(c, stamp, clock, key);
    } else {
      AddOrdered(c, stamp, clock, key, value);
    }
  }

  lemma AddOrdered<K, V>(c: LfuCache<K, V>, stamp: map<K, int>, clock: int, key: K, value: V)
    requires Tracks(c, stamp, clock) && key !in c.values
    ensures Ordered(Add(c, key, value).buckets, stamp[key := clock])
  {
    if |c.values| >= c.capacity {
      EvictShaped(c);
      EvictOrdered(c, stamp);
      InsertOrdered(Evict(c), stamp, clock, key, value);
    } else {
      InsertOrdered(c, stamp, clock, key, value);
    }
  }

  /** The key a `put` evicts has the least frequency of all keys held, and
      among the keys of that frequency it was touched longest ago. */
  lemma PutEvictsLeastFrequent<K, V>(c: LfuCache<K, V>, stamp: map<K, int>, clock: int, key: K, value: V)
    requires Tracks(c, stamp, clock)
    ensures forall x :: x in c.values && x !in Put(c, key, value).values ==>
      && (forall y :: y in c.freq ==> c.freq[x] <= c.freq[y])
      && (forall y :: y in c.freq && y != x && c.freq[y] == c.freq[x] ==> stamp[x] < stamp[y])
  {
    if key !in c.values && |c.values| >= c.capacity {
      AddEffect(c, key, value);
      var v := Victim(c);
      var s := c.buckets[c.minFreq].order;
      VictimLeastFrequent(c);
      DropLastMembers(s);
      Recency.LastIsOldest(s, stamp);
      forall y | y in c.freq && y != v && c.freq[y] == c.freq[v]
        ensures stamp[v] < stamp[y]
      {
        assert y in s;
      }
    }
  }

  /** `put` of a present key moves it through the buckets exactly as `get`
      does and evicts nothing; only the value changes. */
  lemma PutPresentAsGet<K, V>(c: LfuCache<K, V>, key: K, value: V)
    requires Valid(c) && key in c.values
    ensures Put(c, key, value).values == c.values[key := value]
    ensures Put(c, key, value).freq == Get(c, key).1.freq
    ensures Put(c, key, value).buckets == Get(c, key).1.buckets
    ensures Put(c, key, value).minFreq == Get(c, key).1.minFreq
  {
  }

  /** A value put is the value read back next. */
  lemma PutThenGet<K, V>(c: LfuCache<K, V>, key: K, value: V)
    requires Valid(c)
    ensures Get(Put(c, key, value), key).0 == Some(value)
  {
  }

  /** Two distinct keys put into an empty cache of capacity 2 are both held
      at frequency 1. */
  lemma TwoPuts<K, V>(k1: K, k2: K, v1: V, v2: V)
    requires k1 != k2
    ensures New<K, V>(2).Success?
    ensures var c2 := Put(Put(New<K, V>(2).value, k1, v1), k2, v2);
      && c2.capacity == 2
      && c2.values == map[k1 := v1, k2 := v2]
      && c2.freq == map[k1 := 1, k2 := 1]
  {
    var c0 := New<K, V>(2).value;
    AddEffect(c0, k1, v1);
    var c1 := Put(c0, k1, v1);
    AddEffect(c1, k2, v2);
  }

  /** In a full cache of capacity 2 a new key evicts the key of frequency 1
      and keeps the key of frequency 2. */
  lemma EvictUnread<K, V>(c: LfuCache<K, V>, k1: K, k2: K, k3: K, v3: V)
    requires Valid(c) && c.capacity == 2 && k1 != k2
    requires c.values.Keys == {k1, k2} && k3 !in c.values
    requires c.freq[k1] == 2 && c.freq[k2] == 1
    ensures Put(c, k3, v3).values == (c.values - {k2})[k3 := v3]
    ensures Put(c, k3, v3).freq == (c.freq - {k2})[k3 := 1]
  {
    assert |c.values| == 2 by {
      assert |c.values.Keys| == 2;
    }
    VictimLeastFrequent(c);
    assert Victim(c) == k2;
    AddEffect(c, k3, v3);
  }

  /** Reading `k1` once and then putting `k3` evicts `k2`: `k1` stays at
      frequency 2 beside `k3` at frequency 1. */
  lemma ReadThenPut<K, V>(c: LfuCache<K, V>, k1: K, k2: K, k3: K, v1: V, v2: V, v3: V)
    requires k1 != k2 && k2 != k3 && k1 != k3
    requires Valid(c) && c.capacity == 2
    requires c.values == map[k1 := v1, k2 := v2] && c.freq == map[k1 := 1, k2 := 1]
    ensures Get(c, k1).0 == Some(v1)
    ensures var c4 := Put(Get(c, k1).1, k3, v3);
      && c4.capacity == 2 && c4.values.Keys == {k1, k3} && c4.values[k1] == v1
      && c4.freq[k1] == 2 && c4.freq[k3] == 1
  {
    var c3 := Get(c, k1).1;
    assert c3.values == c.values && c3.freq[k1] == 2 && c3.freq[k2] == 1;
    EvictUnread(c3, k1, k2, k3, v3);
    ReplaceKey(c3.values, k1, k2, k3, v3);
  }

  /** Replacing `b` by `c` in a map on `{a, b}` gives a map on `{a, c}`. */
  lemma ReplaceKey<K, X>(m: map<K, X>, a: K, b: K, c: K, x: X)
    requires m.Keys == {a, b} && a != b && c != a
    ensures ((m - {b})[c := x]).Keys == {a, c}
  {
  }

  /** From a full cache holding `k1` at frequency 2 and `k3` at frequency 1:
      a miss on `k2` changes nothing, and `put(k4)` evicts `k3`, not `k1`;
      then `k1` and `k4` answer and `k3` misses. */
  lemma SecondEviction<K, V>(c: LfuCache<K, V>, k1: K, k2: K, k3: K, k4: K, v1: V, v4: V)
    requires k1 != k3 && k4 != k1 && k4 != k3 && k2 != k1 && k2 != k3
    requires Valid(c) && c.capacity == 2
    requires c.values.Keys == {k1, k3} && c.values[k1] == v1
    requires c.freq[k1] == 2 && c.freq[k3] == 1
    ensures Get(c, k2) == (None, c)
    ensures var c6 := Put(c, k4, v4);
      var (g3, c7) := Get(c6, k1);
      && g3 == Some(v1)
      && Get(c7, k3).0 == None
      && Get(Get(c7, k3).1, k4).0 == Some(v4)
  {
    EvictUnread(c, k1, k3, k4, v4);
  }

  /** The `fruits`/`numbers` driver on an LFU cache of capacity 2:
      `put(1)`, `put(2)`, `get(1)`, `put(3)`, `get(2)`, `put(4)`, `get(1)`,
      `get(3)`, `get(4)`. The third put evicts 2 as under LRU, but the fourth
      evicts 3, the key of frequency 1, where LRU would evict 1: the gets
      answer 1, nothing, 1, nothing, 4. */
  lemma DriverTrace<K, V>(k1: K, k2: K, k3: K, k4: K, v1: V, v2: V, v3: V, v4: V)
    requires k1 != k2 && k1 != k3 && k1 != k4 && k2 != k3 && k2 != k4 && k3 != k4
    ensures New<K, V>(2).Success?
    ensures var c2 := Put(Put(New<K, V>(2).value, k1, v1), k2, v2);
      var g1 := Get(c2, k1);
      var c4 := Put(g1.1, k3, v3);
      var g2 := Get(c4, k2);
      var c6 := Put(g2.1, k4, v4);
      var g3 := Get(c6, k1);
      var g4 := Get(g3.1, k3);
      var g5 := Get(g4.1, k4);
      [g1.0, g2.0, g3.0, g4.0, g5.0] == [Some(v1), None, Some(v1), None, Some(v4)]
  {
    TwoPuts<K, V>(k1, k2, v1, v2);
    var c2 := Put(Put(New<K, V>(2).value, k1, v1), k2, v2);
    ReadThenPut(c2, k1, k2, k3, v1, v2, v3);
    var c4 := Put(Get(c2, k1).1, k3, v3);
    SecondEviction(c4, k1, k2, k3, k4, v1, v4);
  }
}
