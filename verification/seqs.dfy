/** Sequence facts used by every list-shaped part of the model. */
module Seqs {

  /** No element occurs twice: a linked list never holds the same node twice. */
  predicate NoDup<T(==)>(s: seq<T>) {
    forall i, j :: 0 <= i < j < |s| ==> s[i] != s[j]
  }

  lemma NoDupCons<T>(x: T, s: seq<T>)
    requires NoDup(s) && x !in s
    ensures NoDup([x] + s)
  {
    forall i, j | 0 <= i < j < |[x] + s|
      ensures ([x] + s)[i] != ([x] + s)[j]
    {
      assert ([x] + s)[j] == s[j - 1];
      if i > 0 {
        assert ([x] + s)[i] == s[i - 1];
      }
    }
  }

  /** The head of a duplicate-free sequence does not occur again in its tail. */
  lemma NoDupTail<T>(s: seq<T>)
    requires NoDup(s) && |s| > 0
    ensures NoDup(s[1..]) && s[0] !in s[1..]
  {
    forall j | 0 <= j < |s[1..]|
      ensures s[1..][j] != s[0]
    {
      assert s[1..][j] == s[j + 1];
    }
  }

  /** A duplicate-free sequence has as many distinct elements as entries. */
  lemma {:induction false} NoDupCard<T>(s: seq<T>)
    requires NoDup(s)
    ensures |set x | x in s| == |s|
    decreases |s|
  {
    if |s| > 0 {
      NoDupTail(s);
      NoDupCard(s[1..]);
      assert (set x | x in s) == (set x | x in s[1..]) + {s[0]};
    }
  }

  /** The last element. */
  function Last<T>(s: seq<T>): T
    requires |s| > 0
  {
    s[|s| - 1]
  }

  /** Everything but the last element. */
  function DropLast<T>(s: seq<T>): (r: seq<T>)
    requires |s| > 0
    ensures |r| == |s| - 1
    ensures forall i :: 0 <= i < |r| ==> r[i] == s[i]
    ensures r + [Last(s)] == s
  {
    s[..|s| - 1]
  }

  /** Putting an element in front changes neither the last element nor what precedes it. */
  lemma LastOfCons<T>(x: T, s: seq<T>)
    requires |s| > 0
    ensures Last([x] + s) == Last(s)
    ensures DropLast([x] + s) == [x] + DropLast(s)
  {
    assert DropLast([x] + s) == ([x] + s)[..|s|];
  }

  lemma DropLastMembers<T>(s: seq<T>)
    requires |s| > 0 && NoDup(s)
    ensures NoDup(DropLast(s))
    ensures Last(s) !in DropLast(s)
    ensures forall y :: y in s ==> y in DropLast(s) || y == Last(s)
    ensures forall y :: y in DropLast(s) ==> y in s
  {
    var r := DropLast(s);
    forall y | y in s
      ensures y in r || y == Last(s)
    {
      var i :| 0 <= i < |s| && s[i] == y;
      if i < |s| - 1 {
        assert r[i] == y;
      }
    }
    forall j | 0 <= j < |r|
      ensures r[j] != Last(s)
    {
      assert r[j] == s[j];
    }
  }

  /** `s` with every occurrence of `x` taken out; the others keep their order. */
  function Remove<T(==)>(s: seq<T>, x: T): (r: seq<T>)
    ensures x !in r
    ensures forall y :: y in r ==> y in s && y != x
    ensures forall y :: y in s && y != x ==> y in r
    ensures |r| <= |s|
    ensures x !in s ==> r == s
    ensures NoDup(s) ==> NoDup(r)
    ensures NoDup(s) && x in s ==> |r| == |s| - 1
  {
    if |s| == 0 then []
    else if s[0] == x then
      assert NoDup(s) ==> x !in s[1..] by {
        if NoDup(s) {
          NoDupTail(s);
        }
      }
      Remove(s[1..], x)
    else
      var rest := Remove(s[1..], x);
      assert NoDup(s) ==> NoDup([s[0]] + rest) by {
        if NoDup(s) {
          NoDupTail(s);
          NoDupCons(s[0], rest);
        }
      }
      assert s == [s[0]] + s[1..];
      [s[0]] + rest
  }

  /** Removing the element at a known position is the same as cutting it out. */
  lemma {:induction false} RemoveAt<T>(s: seq<T>, i: int)
    requires NoDup(s) && 0 <= i < |s|
    ensures Remove(s, s[i]) == s[..i] + s[i + 1..]
    decreases i
  {
    if i == 0 {
      NoDupTail(s);
      assert s[..0] + s[1..] == s[1..];
    } else {
      var t := s[1..];
      var x := s[i];
      NoDupTail(s);
      assert t[i - 1] == x && s[0] != x;
      RemoveAt(t, i - 1);
      calc {
        Remove(s, x);
        [s[0]] + Remove(t, x);
        [s[0]] + (t[..i - 1] + t[i..]);
        { assert t[..i - 1] == s[1..i] && t[i..] == s[i + 1..]; }
        [s[0]] + (s[1..i] + s[i + 1..]);
        ([s[0]] + s[1..i]) + s[i + 1..];
        { assert s[..i] == [s[0]] + s[1..i]; }
        s[..i] + s[i + 1..];
      }
    }
  }
}
