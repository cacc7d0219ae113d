/** `LFUCache`: one recency list per access frequency and a pointer
    `minFreq` to the lowest frequency in use; eviction takes the oldest key
    of the lowest-frequency list. */
module Lfu {
  import opened CacheTypes
  import opened Seqs

  /** A frequency bucket: its list from `head` to `tail` and the `size`
      counter the list keeps beside it. */
  datatype Bucket<K> = Bucket(order: seq<K>, count: int)

  /** `values` and `freq` are the index (`nodeMap` with each node's value and
      `freq`), `buckets` is `freqMap`, whose lists stay once created. */
  datatype LfuCache<K, V> = LfuCache(
    capacity: int,
    values: map<K, V>,
    freq: map<K, int>,
    buckets: map<int, Bucket<K>>,
    minFreq: int)

  /** The list holds each key once and the counter is its length. */
  predicate BucketOk<K(==)>(b: Bucket<K>) {
    NoDup(b.order) && b.count == |b.order|
  }

  /** Every indexed key has a frequency of at least 1 and sits in that
      frequency's bucket. */
  predicate Placed<K(==)>(freq: map<K, int>, buckets: map<int, Bucket<K>>) {
    forall k :: k in freq ==> freq[k] >= 1 && freq[k] in buckets && k in buckets[freq[k]].order
  }

  /** Every key in a bucket is indexed with that bucket's frequency. */
  predicate Members<K(==)>(freq: map<K, int>, buckets: map<int, Bucket<K>>) {
    forall f, k :: f in buckets && k in buckets[f].order ==> k in freq && freq[k] == f
  }

  /** Every bucket is well formed. */
  predicate Counted<K(==)>(buckets: map<int, Bucket<K>>) {
    forall f :: f in buckets ==> BucketOk(buckets[f])
  }

  /** `minFreq` names a non-empty bucket and no key has a lower frequency. */
  predicate MinFreqOk<K(==)>(freq: map<K, int>, buckets: map<int, Bucket<K>>, minFreq: int) {
    && minFreq in buckets
    && |buckets[minFreq].order| > 0
    && (forall k :: k in freq ==> minFreq <= freq[k])
  }

  /** The structure without the `minFreq` claim. */
  predicate Shaped<K(==), V>(c: LfuCache<K, V>) {
    && c.capacity >= 1
    && c.values.Keys == c.freq.Keys
    && |c.values| <= c.capacity
    && Placed(c.freq, c.buckets) && Members(c.freq, c.buckets) && Counted(c.buckets)
  }

  /** The invariant every public operation keeps. */
  predicate Valid<K(==), V>(c: LfuCache<K, V>) {
    Shaped(c) && (|c.values| > 0 ==> MinFreqOk(c.freq, c.buckets, c.minFreq))
  }

  /** The validating constructor: `minFreq` starts at 0 with no buckets. */
  function New<K(==), V>(capacity: int): (r: Result<LfuCache<K, V>>)
    ensures r.Failure? <==> capacity <= 0
    ensures r.Failure? ==> r.message == "Capacity must be positive"
    ensures r.Success? ==> Valid(r.value) && r.value.capacity == capacity && r.value.values == map[]
    ensures r.Success? ==> r.value.minFreq == 0
  {
    if capacity <= 0 then Failure("Capacity must be positive")
    else Success(LfuCache(capacity, map[], map[], map[], 0))
  }

  /** Bucket `remove`: unlink the key and decrement the counter. */
  function Unlink<K(==)>(b: Bucket<K>, k: K): (r: Bucket<K>)
    requires BucketOk(b) && k in b.order
    ensures BucketOk(r) && k !in r.order
    ensures forall y :: y in r.order ==> y in b.order && y != k
    ensures forall y :: y in b.order && y != k ==> y in r.order
  {
    Bucket(Remove(b.order, k), b.count - 1)
  }

  /** Bucket `addFirst`: link the key after `head` and increment the counter. */
  function AddFirst<K(==)>(b: Bucket<K>, k: K): (r: Bucket<K>)
    requires BucketOk(b) && k !in b.order
    ensures BucketOk(r) && |r.order| > 0 && r.order[0] == k
    ensures forall y :: y in r.order ==> y in b.order || y == k
    ensures forall y :: y in b.order ==> y in r.order
  {
    NoDupCons(k, b.order);
    Bucket([k] + b.order, b.count + 1)
  }

  /** Bucket `removeLast`: "nothing" when the counter is 0, else the key
      before `tail`, unlinked. */
  function RemoveLast<K(==)>(b: Bucket<K>): (r: (Option<K>, Bucket<K>))
    requires BucketOk(b)
    ensures r.0.None? <==> b.order == []
    ensures r.0.None? ==> r.1 == b
    ensures r.0.Some? ==> r.0.value == Last(b.order) && r.1.order == DropLast(b.order)
    ensures BucketOk(r.1)
  {
    if b.count == 0 then (None, b)
    else
      DropLastMembers(b.order);
      (Some(Last(b.order)), Bucket(DropLast(b.order), b.count - 1))
  }

  /** `computeIfAbsent`: the bucket of frequency `f`, a fresh empty one if
      none was created yet. */
  function BucketAt<K(==), V>(c: LfuCache<K, V>, f: int): (b: Bucket<K>)
    requires Counted(c.buckets)
    ensures BucketOk(b)
    ensures f in c.buckets ==> b == c.buckets[f]
    ensures f !in c.buckets ==> b.order == []
  {
    if f in c.buckets then c.buckets[f] else Bucket([], 0)
  }

  /** The old bucket of `key` after `remove`. */
  function Lowered<K(==), V>(c: LfuCache<K, V>, key: K): (b: Bucket<K>)
    requires Shaped(c) && key in c.freq
    ensures BucketOk(b) && key !in b.order
    ensures forall y :: y in b.order ==> y in c.buckets[c.freq[key]].order && y != key
    ensures forall y :: y in c.buckets[c.freq[key]].order && y != key ==> y in b.order
  {
    Unlink(c.buckets[c.freq[key]], key)
  }

  /** The bucket one frequency up after `addFirst` of `key`. */
  function Raised<K(==), V>(c: LfuCache<K, V>, key: K): (b: Bucket<K>)
    requires Shaped(c) && key in c.freq
    ensures BucketOk(b) && |b.order| > 0 && b.order[0] == key
    ensures forall y :: y in b.order ==> y in BucketAt(c, c.freq[key] + 1).order || y == key
    ensures forall y :: y in BucketAt(c, c.freq[key] + 1).order ==> y in b.order
  {
    AddFirst(BucketAt(c, c.freq[key] + 1), key)
  }

  /** `updateNodeFrequency`: move `key` from bucket `f` to the front of
      bucket `f + 1`, raising `minFreq` when bucket `f` was the minimum and
      is now empty. */
  function Touch<K(==), V>(c: LfuCache<K, V>, key: K): (r: LfuCache<K, V>)
    requires Shaped(c) && key in c.freq
    ensures r.values == c.values && r.capacity == c.capacity
    ensures r.freq == c.freq[key := c.freq[key] + 1]
    ensures c.freq[key] + 1 in r.buckets && |r.buckets[c.freq[key] + 1].order| > 0
    ensures r.buckets[c.freq[key] + 1].order[0] == key
    ensures r.minFreq != c.minFreq ==>
      && c.freq[key] == c.minFreq && r.minFreq == c.minFreq + 1
      && forall k :: k in c.freq && k != key ==> c.freq[k] != c.minFreq
  {
    var f := c.freq[key];
    var low := Lowered(c, key);
    var r := c.(freq := c.freq[key := f + 1],
                buckets := c.buckets[f := low][f + 1 := Raised(c, key)],
                minFreq := if f == c.minFreq && low.count == 0 then c.minFreq + 1 else c.minFreq);
    assert r.minFreq != c.minFreq ==> forall k :: k in c.freq && k != key ==> c.freq[k] != c.minFreq by {
      if r.minFreq != c.minFreq {
        forall k | k in c.freq && k != key
          ensures c.freq[k] != c.minFreq
        {
          assert k !in low.order;
        }
      }
    }
    r
  }

  /** `updateNodeFrequency` keeps the structure: the key leaves bucket `f`
      for bucket `f + 1` and every other key stays where it was. */
  lemma TouchShaped<K, V>(c: LfuCache<K, V>, key: K)
    requires Shaped(c) && key in c.freq
    ensures Shaped(Touch(c, key))
  {
    TouchPlaced(c, key);
    TouchMembers(c, key);
    var r := Touch(c, key);
    forall g | g in r.buckets
      ensures BucketOk(r.buckets[g])
    {
    }
  }

  lemma TouchPlaced<K, V>(c: LfuCache<K, V>, key: K)
    requires Shaped(c) && key in c.freq
    ensures Placed(Touch(c, key).freq, Touch(c, key).buckets)
  {
    var r := Touch(c, key);
    var f := c.freq[key];
    assert r.buckets == c.buckets[f := Lowered(c, key)][f + 1 := Raised(c, key)];
    forall k | k in r.freq
      ensures r.freq[k] >= 1 && r.freq[k] in r.buckets && k in r.buckets[r.freq[k]].order
    {
      if k != key {
        var g := c.freq[k];
        assert k in c.buckets[g].order;
        if g == f {
          assert k in Lowered(c, key).order;
        } else if g == f + 1 {
          assert k in BucketAt(c, f + 1).order;
        }
      }
    }
  }

  lemma TouchMembers<K, V>(c: LfuCache<K, V>, key: K)
    requires Shaped(c) && key in c.freq
    ensures Members(Touch(c, key).freq, Touch(c, key).buckets)
  {
    var r := Touch(c, key);
    var f := c.freq[key];
    assert r.buckets == c.buckets[f := Lowered(c, key)][f + 1 := Raised(c, key)];
    forall g, k | g in r.buckets && k in r.buckets[g].order
      ensures k in r.freq && r.freq[k] == g
    {
      if g == f + 1 {
        if k != key {
          assert k in BucketAt(c, f + 1).order;
        }
      } else if g == f {
        assert k in c.buckets[f].order && k != key;
      } else {
        assert k in c.buckets[g].order;
      }
    }
  }

  /** `updateNodeFrequency` keeps `minFreq` exact: raised only when the
      minimum bucket was left empty, and then the key just moved sits at
      the new minimum. */
  lemma TouchMinFreq<K, V>(c: LfuCache<K, V>, key: K)
    requires Valid(c) && key in c.freq
    ensures var r := Touch(c, key); MinFreqOk(r.freq, r.buckets, r.minFreq)
  {
    var r := Touch(c, key);
    var f := c.freq[key];
    assert key in c.values;
    if r.minFreq == c.minFreq {
      if f == c.minFreq {
        assert Lowered(c, key).count != 0;
        assert r.buckets[f] == Lowered(c, key);
      } else {
        assert r.buckets[c.minFreq] == c.buckets[c.minFreq];
      }
    }
    forall k | k in r.freq
      ensures r.minFreq <= r.freq[k]
    {
      if k != key {
        assert c.minFreq <= c.freq[k];
      }
    }
  }

  /** `updateNodeFrequency` keeps the invariant. */
  lemma TouchValid<K, V>(c: LfuCache<K, V>, key: K)
    requires Valid(c) && key in c.freq
    ensures Valid(Touch(c, key))
  {
    TouchShaped(c, key);
    TouchMinFreq(c, key);
  }

  /** `get`: a miss answers `None` and changes nothing; a hit answers the
      value and raises the key's frequency by exactly one. */
  function Get<K(==), V>(c: LfuCache<K, V>, key: K): (r: (Option<V>, LfuCache<K, V>))
    requires Valid(c)
    ensures Valid(r.1)
    ensures r.0.Some? <==> key in c.values
    ensures r.1.capacity == c.capacity
    ensures key !in c.values ==> r.1 == c
    ensures key in c.values ==>
      && r.0.value == c.values[key]
      && r.1.values == c.values
      && r.1.freq == c.freq[key := c.freq[key] + 1]
      && c.freq[key] + 1 in r.1.buckets && |r.1.buckets[c.freq[key] + 1].order| > 0
      && r.1.buckets[c.freq[key] + 1].order[0] == key
  {
    if key !in c.values then (None, c)
    else
      TouchValid(c, key);
      (Some(c.values[key]), Touch(c, key))
  }

  /** `get` with its lock-free probe: a probe that missed answers `None` at
      once; otherwise the lookup is repeated under the lock on the current
      state `c`. */
  function ProbedGet<K(==), V>(probeHit: bool, c: LfuCache<K, V>, key: K): (r: (Option<V>, LfuCache<K, V>))
    requires Valid(c)
    ensures Valid(r.1)
    ensures r.0.Some? ==> key in c.values && r.0.value == c.values[key]
    ensures r.0.None? ==> r.1 == c
    ensures !probeHit ==> r == (None, c)
    ensures probeHit ==> r == Get(c, key)
  {
    if !probeHit then (None, c) else Get(c, key)
  }

  /** The key an eviction removes: the last of bucket `minFreq`. */
  function Victim<K(==), V>(c: LfuCache<K, V>): (k: K)
    requires Valid(c) && |c.values| > 0
    ensures k in c.buckets[c.minFreq].order
  {
    Last(c.buckets[c.minFreq].order)
  }

  /** The eviction step of `put`: `removeLast` on bucket `minFreq`, which
      under the invariant always finds a node, then the index removal. */
  function Evict<K(==), V>(c: LfuCache<K, V>): (r: LfuCache<K, V>)
    requires Valid(c) && |c.values| > 0
    ensures r.capacity == c.capacity
    ensures r.values == c.values - {Victim(c)} && r.freq == c.freq - {Victim(c)}
    ensures r.buckets == c.buckets[c.minFreq := Bucket(DropLast(c.buckets[c.minFreq].order), c.buckets[c.minFreq].count - 1)]
  {
    var (node, rest) := RemoveLast(c.buckets[c.minFreq]);
    var v := node.value;
    c.(values := c.values - {v}, freq := c.freq - {v}, buckets := c.buckets[c.minFreq := rest])
  }

  /** Removing a present key shrinks a map by one entry. */
  lemma MapRemoveCard<K, V>(m: map<K, V>, k: K)
    requires k in m
    ensures |m - {k}| == |m| - 1
  {
    assert (m - {k}).Keys == m.Keys - {k};
    assert |m.Keys - {k}| == |m.Keys| - 1;
  }

  /** Eviction keeps the structure and frees one slot. */
  lemma EvictShaped<K, V>(c: LfuCache<K, V>)
    requires Valid(c) && |c.values| > 0
    ensures Shaped(Evict(c)) && |Evict(c).values| == |c.values| - 1
  {
    var r := Evict(c);
    var v := Victim(c);
    assert v in c.freq;
    assert v in c.values;
    MapRemoveCard(c.values, v);
    EvictPlaced(c);
    EvictMembers(c);
    forall g | g in r.buckets
      ensures BucketOk(r.buckets[g])
    {
      if g == c.minFreq {
        DropLastMembers(c.buckets[g].order);
      }
    }
  }

  lemma EvictPlaced<K, V>(c: LfuCache<K, V>)
    requires Valid(c) && |c.values| > 0
    ensures Placed(Evict(c).freq, Evict(c).buckets)
  {
    var r := Evict(c);
    var m := c.minFreq;
    DropLastMembers(c.buckets[m].order);
    forall k | k in r.freq
      ensures r.freq[k] >= 1 && r.freq[k] in r.buckets && k in r.buckets[r.freq[k]].order
    {
      assert k in c.buckets[c.freq[k]].order;
    }
  }

  lemma EvictMembers<K, V>(c: LfuCache<K, V>)
    requires Valid(c) && |c.values| > 0
    ensures Members(Evict(c).freq, Evict(c).buckets)
  {
    var r := Evict(c);
    var v := Victim(c);
    var m := c.minFreq;
    DropLastMembers(c.buckets[m].order);
    assert c.freq[v] == m;
    forall g, k | g in r.buckets && k in r.buckets[g].order
      ensures k in r.freq && r.freq[k] == g
    {
      if g == m {
        assert k in DropLast(c.buckets[m].order);
        assert k in c.buckets[m].order && k != v;
      } else {
        assert k in c.buckets[g].order;
        assert k != v;
      }
    }
  }

  /** The insertion step of `put`: a node of frequency 1 at the front of
      bucket 1, and `minFreq` reset to 1. */
  function Insert<K(==), V>(c: LfuCache<K, V>, key: K, value: V): (r: LfuCache<K, V>)
    requires Shaped(c) && key !in c.values
    ensures r.capacity == c.capacity
    ensures r.values == c.values[key := value] && r.freq == c.freq[key := 1]
    ensures r.minFreq == 1 && 1 in r.buckets && |r.buckets[1].order| > 0 && r.buckets[1].order[0] == key
  {
    c.(values := c.values[key := value], freq := c.freq[key := 1],
       buckets := c.buckets[1 := AddFirst(BucketAt(c, 1), key)], minFreq := 1)
  }

  /** Inserting below capacity keeps the invariant, with `minFreq` exact at 1. */
  lemma InsertValid<K, V>(c: LfuCache<K, V>, key: K, value: V)
    requires Shaped(c) && key !in c.values && |c.values| < c.capacity
    ensures Valid(Insert(c, key, value))
  {
    var r := Insert(c, key, value);
    InsertPlaced(c, key, value);
    InsertMembers(c, key, value);
    forall g | g in r.buckets
      ensures BucketOk(r.buckets[g])
    {
    }
    assert MinFreqOk(r.freq, r.buckets, r.minFreq);
  }

  lemma InsertPlaced<K, V>(c: LfuCache<K, V>, key: K, value: V)
    requires Shaped(c) && key !in c.values
    ensures Placed(Insert(c, key, value).freq, Insert(c, key, value).buckets)
  {
    var r := Insert(c, key, value);
    assert r.buckets == c.buckets[1 := AddFirst(BucketAt(c, 1), key)];
    forall k | k in r.freq
      ensures r.freq[k] >= 1 && r.freq[k] in r.buckets && k in r.buckets[r.freq[k]].order
    {
      if k != key && c.freq[k] == 1 {
        assert k in BucketAt(c, 1).order;
      }
    }
  }

  lemma InsertMembers<K, V>(c: LfuCache<K, V>, key: K, value: V)
    requires Shaped(c) && key !in c.values
    ensures Members(Insert(c, key, value).freq, Insert(c, key, value).buckets)
  {
    var r := Insert(c, key, value);
    assert r.buckets == c.buckets[1 := AddFirst(BucketAt(c, 1), key)];
    forall g, k | g in r.buckets && k in r.buckets[g].order
      ensures k in r.freq && r.freq[k] == g
    {
      if g == 1 {
        if k != key {
          assert k in BucketAt(c, 1).order;
        }
      } else {
        assert k in c.buckets[g].order;
      }
    }
  }

  /** Replacing the value of a present key leaves the structure alone. */
  lemma SetValueValid<K, V>(c: LfuCache<K, V>, key: K, value: V)
    requires Valid(c) && key in c.values
    ensures Valid(c.(values := c.values[key := value]))
  {
    var m := c.values[key := value];
    assert m.Keys == c.values.Keys;
    assert |m| == |m.Keys| == |c.values.Keys| == |c.values|;
  }

  lemma UpdateValid<K, V>(c: LfuCache<K, V>, key: K, value: V)
    requires Valid(c) && key in c.values
    ensures Valid(Touch(c, key).(values := c.values[key := value]))
  {
    TouchValid(c, key);
    SetValueValid(Touch(c, key), key, value);
  }

  /** `put` of a present key: the node takes the new value and its
      frequency is raised as by `get` (the frequency update does not read
      the value, so the order of the two steps is immaterial). */
  function Update<K(==), V>(c: LfuCache<K, V>, key: K, value: V): (r: LfuCache<K, V>)
    requires Valid(c) && key in c.values
    ensures Valid(r) && r.capacity == c.capacity
    ensures r.values == c.values[key := value]
    ensures r.freq == c.freq[key := c.freq[key] + 1]
    ensures c.freq[key] + 1 in r.buckets && |r.buckets[c.freq[key] + 1].order| > 0
    ensures r.buckets[c.freq[key] + 1].order[0] == key
  {
    UpdateValid(c, key, value);
    Touch(c, key).(values := c.values[key := value])
  }

  lemma EvictInsertValid<K, V>(c: LfuCache<K, V>, key: K, value: V)
    requires Valid(c) && key !in c.values && |c.values| >= c.capacity
    ensures Shaped(Evict(c)) && Valid(Insert(Evict(c), key, value))
  {
    EvictShaped(c);
    InsertValid(Evict(c), key, value);
  }

  /** `put` of a new key: evict from bucket `minFreq` when the index is
      full, then insert at frequency 1. */
  function Add<K(==), V>(c: LfuCache<K, V>, key: K, value: V): (r: LfuCache<K, V>)
    requires Valid(c) && key !in c.values
    ensures Valid(r)
  {
    if |c.values| >= c.capacity then
      EvictInsertValid(c, key, value);
      Insert(Evict(c), key, value)
    else
      InsertValid(c, key, value);
      Insert(c, key, value)
  }

  /** What `put` of a new key leaves: the key at the front of bucket 1 with
      frequency 1 and `minFreq` 1; below capacity nothing else changes, at
      capacity exactly the victim leaves. */
  lemma AddEffect<K, V>(c: LfuCache<K, V>, key: K, value: V)
    requires Valid(c) && key !in c.values
    ensures var r := Add(c, key, value);
      && r.capacity == c.capacity && r.freq[key] == 1 && r.minFreq == 1
      && 1 in r.buckets && |r.buckets[1].order| > 0 && r.buckets[1].order[0] == key
    ensures |c.values| < c.capacity ==>
      Add(c, key, value).values == c.values[key := value] && Add(c, key, value).freq == c.freq[key := 1]
    ensures |c.values| >= c.capacity ==>
      && Add(c, key, value).values == (c.values - {Victim(c)})[key := value]
      && Add(c, key, value).freq == (c.freq - {Victim(c)})[key := 1]
  {
  }

  /** `put`: update a present key, add a new one. */
  function Put<K(==), V>(c: LfuCache<K, V>, key: K, value: V): (r: LfuCache<K, V>)
    requires Valid(c)
    ensures Valid(r) && r.capacity == c.capacity
    ensures key in r.values && r.values[key] == value
    ensures |r.values| <= r.capacity
  {
    if key in c.values then Update(c, key, value) else Add(c, key, value)
  }
}
