/** The recency order: a duplicate-free sequence of keys, most recently used first. */
module Recency {
  import opened Seqs

  /** Unlink `k` and splice it in right after the head sentinel
      (`moveToHead`, or `remove` followed by `addFirst`). */
  function MoveToFront<K(==)>(s: seq<K>, k: K): (r: seq<K>)
    requires NoDup(s) && k in s
    ensures |r| == |s| && r[0] == k
    ensures Remove(r, k) == Remove(s, k)
    ensures NoDup(r)
    ensures forall y :: y in r ==> y in s
    ensures forall y :: y in s ==> y in r
  {
    var rest := Remove(s, k);
    NoDupCons(k, rest);
    assert ([k] + rest)[1..] == rest;
    [k] + rest
  }

  /** Moving the key at position `i` to the front cuts it out there. */
  lemma MoveToFrontAt<K>(s: seq<K>, i: int)
    requires NoDup(s) && 0 <= i < |s|
    ensures MoveToFront(s, s[i]) == [s[i]] + (s[..i] + s[i + 1..])
  {
    RemoveAt(s, i);
  }

  /** Touching the key that is already first changes nothing. */
  lemma MoveFrontToFront<K>(s: seq<K>)
    requires NoDup(s) && |s| > 0
    ensures MoveToFront(s, s[0]) == s
  {
    RemoveAt(s, 0);
    assert s[..0] + s[1..] == s[1..];
  }

  /** `stamp` gives every key of `order` the time of its last use, and `order`
      lists the keys from the newest stamp to the oldest. */
  predicate NewestFirst<K(==)>(order: seq<K>, stamp: map<K, int>) {
    && (forall i :: 0 <= i < |order| ==> order[i] in stamp)
    && (forall i, j :: 0 <= i < j < |order| ==> stamp[order[i]] > stamp[order[j]])
  }

  lemma NewestFirstTail<K>(s: seq<K>, stamp: map<K, int>)
    requires NewestFirst(s, stamp) && |s| > 0
    ensures NewestFirst(s[1..], stamp)
    ensures forall y :: y in s[1..] ==> y in stamp && stamp[y] < stamp[s[0]]
  {
    forall y | y in s[1..]
      ensures y in stamp && stamp[y] < stamp[s[0]]
    {
      var j :| 0 <= j < |s[1..]| && s[1..][j] == y;
      assert s[j + 1] == y;
    }
  }

  lemma NewestFirstCons<K>(a: K, s: seq<K>, stamp: map<K, int>)
    requires NewestFirst(s, stamp) && a in stamp
    requires forall y :: y in s ==> stamp[y] < stamp[a]
    ensures NewestFirst([a] + s, stamp)
  {
    var t := [a] + s;
    forall i, j | 0 <= i < j < |t|
      ensures stamp[t[i]] > stamp[t[j]]
    {
      assert t[j] == s[j - 1];
      if i > 0 {
        assert t[i] == s[i - 1];
      } else {
        assert t[j] in s;
      }
    }
  }

  /** Taking keys out of the order keeps the rest newest-first. */
  lemma {:induction false} NewestFirstRemove<K>(s: seq<K>, stamp: map<K, int>, x: K)
    requires NewestFirst(s, stamp)
    ensures NewestFirst(Remove(s, x), stamp)
    decreases |s|
  {
    if |s| > 0 {
      NewestFirstTail(s, stamp);
      NewestFirstRemove(s[1..], stamp, x);
      if s[0] != x {
        NewestFirstCons(s[0], Remove(s[1..], x), stamp);
      }
    }
  }

  /** A key absent from the order can be re-stamped without disturbing it. */
  lemma NewestFirstRestamp<K>(s: seq<K>, stamp: map<K, int>, x: K, t: int)
    requires NewestFirst(s, stamp) && x !in s
    ensures NewestFirst(s, stamp[x := t])
  {
    forall i | 0 <= i < |s|
      ensures stamp[x := t][s[i]] == stamp[s[i]]
    {
      assert s[i] != x;
    }
  }

  /** Touching a key at the current time keeps the order newest-first. */
  lemma NewestFirstTouch<K>(s: seq<K>, stamp: map<K, int>, k: K, clock: int)
    requires NoDup(s) && k in s && NewestFirst(s, stamp)
    requires forall y :: y in stamp ==> stamp[y] < clock
    ensures NewestFirst(MoveToFront(s, k), stamp[k := clock])
  {
    var rest := Remove(s, k);
    NewestFirstRemove(s, stamp, k);
    NewestFirstRestamp(rest, stamp, k, clock);
    NewestFirstCons(k, rest, stamp[k := clock]);
  }

  /** Inserting a fresh key at the current time keeps the order newest-first. */
  lemma NewestFirstInsert<K>(s: seq<K>, stamp: map<K, int>, k: K, clock: int)
    requires k !in s && NewestFirst(s, stamp)
    requires forall y :: y in stamp ==> stamp[y] < clock
    ensures NewestFirst([k] + s, stamp[k := clock])
  {
    NewestFirstRestamp(s, stamp, k, clock);
    NewestFirstCons(k, s, stamp[k := clock]);
  }

  /** Dropping the oldest key keeps the order newest-first. */
  lemma NewestFirstDropLast<K>(s: seq<K>, stamp: map<K, int>)
    requires NewestFirst(s, stamp) && |s| > 0
    ensures NewestFirst(DropLast(s), stamp)
  {
    var r := DropLast(s);
    forall i, j | 0 <= i < j < |r|
      ensures stamp[r[i]] > stamp[r[j]]
    {
      assert r[i] == s[i] && r[j] == s[j];
    }
  }

  /** The last key carries the oldest stamp of the order. */
  lemma LastIsOldest<K>(s: seq<K>, stamp: map<K, int>)
    requires NewestFirst(s, stamp) && |s| > 0
    ensures forall y :: y in DropLast(s) ==> y in stamp && stamp[Last(s)] < stamp[y]
  {
    forall y | y in DropLast(s)
      ensures y in stamp && stamp[Last(s)] < stamp[y]
    {
      var j :| 0 <= j < |DropLast(s)| && DropLast(s)[j] == y;
      assert s[j] == y;
    }
  }
}
