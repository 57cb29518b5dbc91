/** Strictly ascending lists: the set of elements leaves no choice of list. */
module Ordered {

  /** Every key is greater than all those before it. */
  predicate Ascends<T>(a: seq<T>, key: T -> int) {
    forall i, j :: 0 <= i < j < |a| ==> key(a[i]) < key(a[j])
  }

  /** The i-th key is greater than the one before it. */
  predicate InOrder<T>(a: seq<T>, key: T -> int, i: nat)
    requires i < |a|
  {
    i > 0 ==> key(a[i - 1]) < key(a[i])
  }

  /** Comparing neighbours is enough to order every pair. */
  lemma {:induction false} NeighboursOrderAll<T>(a: seq<T>, key: T -> int)
    ensures Ascends(a, key) <==> forall i | 0 <= i < |a| :: InOrder(a, key, i)
  {
    if forall i | 0 <= i < |a| :: InOrder(a, key, i) {
      forall i, j | 0 <= i < j < |a|
        ensures key(a[i]) < key(a[j])
      {
        LaterIsGreater(a, key, i, j);
      }
    } else {
      var i :| 0 <= i < |a| && !InOrder(a, key, i);
      assert key(a[i - 1]) >= key(a[i]);
    }
  }

  lemma {:induction false} LaterIsGreater<T>(a: seq<T>, key: T -> int, i: nat, j: nat)
    requires i < j < |a|
    requires forall k | 0 <= k < |a| :: InOrder(a, key, k)
    ensures key(a[i]) < key(a[j])
    decreases j
  {
    assert InOrder(a, key, j);
    if i < j - 1 {
      LaterIsGreater(a, key, i, j - 1);
    }
  }

  /** Lists with the same keys ascend together. */
  lemma SameKeys<T, U>(a: seq<T>, k: T -> int, b: seq<U>, l: U -> int)
    requires |a| == |b|
    requires forall i | 0 <= i < |a| :: k(a[i]) == l(b[i])
    ensures Ascends(a, k) <==> Ascends(b, l)
  {
    if Ascends(a, k) {
      forall i, j | 0 <= i < j < |b|
        ensures l(b[i]) < l(b[j])
      {
        assert k(a[i]) < k(a[j]);
      }
    }
    if Ascends(b, l) {
      forall i, j | 0 <= i < j < |a|
        ensures k(a[i]) < k(a[j])
      {
        assert l(b[i]) < l(b[j]);
      }
    }
  }

  ghost function Elements<T>(a: seq<T>): set<T> {
    set x | x in a
  }

  lemma {:induction false} OneAscendingList<T(!new)>(a: seq<T>, b: seq<T>, key: T -> int)
    requires Ascends(a, key) && Ascends(b, key)
    requires Elements(a) == Elements(b)
    ensures a == b
    decreases |a|
  {
    NoElements(a);
    NoElements(b);
    if a != [] {
      assert a[0] in Elements(a) && b[0] in Elements(b);
      var j :| 0 <= j < |b| && b[j] == a[0];
      var k :| 0 <= k < |a| && a[k] == b[0];
      assert a[0] == b[0];
      TailElements(a, key);
      TailElements(b, key);
      OneAscendingList(a[1..], b[1..], key);
      assert a == [a[0]] + a[1..] && b == [b[0]] + b[1..];
    }
  }

  lemma NoElements<T>(a: seq<T>)
    ensures a == [] <==> Elements(a) == {}
  {
    if a != [] {
      assert a[0] in Elements(a);
    }
  }

  lemma TailElements<T(!new)>(a: seq<T>, key: T -> int)
    requires Ascends(a, key) && a != []
    ensures Ascends(a[1..], key)
    ensures Elements(a[1..]) == Elements(a) - {a[0]}
  {
    assert a == [a[0]] + a[1..];
    forall x | x in a[1..]
      ensures x != a[0]
    {
      var i :| 0 <= i < |a[1..]| && a[1..][i] == x;
      assert a[i + 1] == x;
    }
  }

  ghost function KeysOf<T>(a: seq<T>, key: T -> int): set<int> {
    set x | x in a :: key(x)
  }

  /** As many elements as distinct keys. */
  lemma {:induction false} DistinctKeys<T(!new)>(a: seq<T>, key: T -> int)
    requires Ascends(a, key)
    ensures |KeysOf(a, key)| == |a|
    decreases |a|
  {
    if a == [] {
      assert KeysOf(a, key) == {};
    } else {
      var tail := a[1..];
      TailElements(a, key);
      DistinctKeys(tail, key);
      assert a == [a[0]] + tail;
      var keys := KeysOf(tail, key);
      FirstKeyIsNew(a, key);
      assert KeysOf(a, key) == keys + {key(a[0])};
    }
  }

  lemma FirstKeyIsNew<T(!new)>(a: seq<T>, key: T -> int)
    requires Ascends(a, key) && a != []
    ensures forall x | x in a[1..] :: key(x) != key(a[0])
  {
    forall x | x in a[1..]
      ensures key(x) != key(a[0])
    {
      var i :| 0 <= i < |a[1..]| && a[1..][i] == x;
      assert a[i + 1] == x;
    }
  }
}
