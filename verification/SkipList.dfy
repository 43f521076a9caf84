/** The ordered lists the mempool is built on. The skip-list library itself is external to the
    repository; a list is modelled by the sequence of its nodes in iteration order, and its
    operations by what their callers rely on: keys stay strictly ordered, `Set` overwrites the
    node with an equal key, `Remove` deletes it. */
module SkipList {

  datatype Node<K, V> = Node(key: K, value: V)

  ghost predicate StrictTotalOrder<K(!new)>(before: (K, K) -> bool) {
    && (forall a :: !before(a, a))
    && (forall a, b, c :: before(a, b) && before(b, c) ==> before(a, c))
    && (forall a, b :: before(a, b) || a == b || before(b, a))
  }

  ghost predicate Sorted<K, V>(before: (K, K) -> bool, l: seq<Node<K, V>>) {
    forall i, j {:trigger before(l[i].key, l[j].key)} :: 0 <= i < j < |l| ==> before(l[i].key, l[j].key)
  }

  function Set<K(==), V>(before: (K, K) -> bool, l: seq<Node<K, V>>, n: Node<K, V>): seq<Node<K, V>> {
    if l == [] then [n]
    else if before(l[0].key, n.key) then [l[0]] + Set(before, l[1..], n)
    else if l[0].key == n.key then [n] + l[1..]
    else [n] + l
  }

  function Remove<K(==), V>(l: seq<Node<K, V>>, key: K): seq<Node<K, V>> {
    if l == [] then []
    else if l[0].key == key then l[1..]
    else [l[0]] + Remove(l[1..], key)
  }

  /** The position of the node with the given key; the length of the list when there is none. */
  function Find<K(==), V>(l: seq<Node<K, V>>, key: K): (i: nat)
    ensures i <= |l|
    ensures i < |l| ==> l[i].key == key
    ensures i == |l| ==> forall n :: n in l ==> n.key != key
  {
    if l == [] then 0
    else if l[0].key == key then 0
    else 1 + Find(l[1..], key)
  }

  /** How many nodes have a key that satisfies `p`. */
  function Count<K, V>(l: seq<Node<K, V>>, p: K -> bool): nat {
    if l == [] then 0 else (if p(l[0].key) then 1 else 0) + Count(l[1..], p)
  }

  lemma SortedCons<K, V>(before: (K, K) -> bool, h: Node<K, V>, t: seq<Node<K, V>>)
    requires Sorted(before, t)
    requires forall i :: 0 <= i < |t| ==> before(h.key, t[i].key)
    ensures Sorted(before, [h] + t)
  {
  }

  lemma {:induction false} SetMembers<K(!new), V(!new)>(before: (K, K) -> bool, l: seq<Node<K, V>>, n: Node<K, V>)
    requires StrictTotalOrder(before) && Sorted(before, l)
    ensures Sorted(before, Set(before, l, n))
    ensures forall m :: m in Set(before, l, n) <==> m == n || (m in l && m.key != n.key)
  {
    if l == [] {
    } else if before(l[0].key, n.key) {
      var tail := Set(before, l[1..], n);
      SetMembers(before, l[1..], n);
      forall i | 0 <= i < |tail| ensures before(l[0].key, tail[i].key) {
        assert tail[i] in tail;
      }
      SortedCons(before, l[0], tail);
      assert l == [l[0]] + l[1..];
    } else {
      assert l == [l[0]] + l[1..];
    }
  }

  lemma {:induction false} RemoveMembers<K(!new), V(!new)>(before: (K, K) -> bool, l: seq<Node<K, V>>, key: K)
    requires StrictTotalOrder(before) && Sorted(before, l)
    ensures Sorted(before, Remove(l, key))
    ensures forall m :: m in Remove(l, key) <==> m in l && m.key != key
  {
    if l == [] {
    } else {
      assert l == [l[0]] + l[1..];
      var tail := Remove(l[1..], key);
      RemoveMembers(before, l[1..], key);
      forall i | 0 < i < |l| ensures l[i].key != l[0].key {
        assert before(l[0].key, l[i].key);
      }
      if l[0].key != key {
        forall i | 0 <= i < |tail| ensures before(l[0].key, tail[i].key) {
          assert tail[i] in tail;
        }
        SortedCons(before, l[0], tail);
      }
    }
  }

  /** Setting a key that is not in the list adds one node. */
  lemma {:induction false} SetCount<K, V>(before: (K, K) -> bool, l: seq<Node<K, V>>, n: Node<K, V>, p: K -> bool)
    requires forall m :: m in l ==> m.key != n.key
    ensures |Set(before, l, n)| == |l| + 1
    ensures Count(Set(before, l, n), p) == Count(l, p) + if p(n.key) then 1 else 0
  {
    if l != [] {
      var s := Set(before, l, n);
      if before(l[0].key, n.key) {
        SetCount(before, l[1..], n, p);
        assert s[1..] == Set(before, l[1..], n);
      } else {
        assert s[1..] == l;
      }
    }
  }

  /** Removing a key that is in the list removes one node. */
  lemma {:induction false} RemoveCount<K, V>(l: seq<Node<K, V>>, key: K, p: K -> bool)
    requires exists m :: m in l && m.key == key
    ensures |Remove(l, key)| == |l| - 1
    ensures Count(Remove(l, key), p) == Count(l, p) - if p(key) then 1 else 0
  {
    if l[0].key != key {
      var m :| m in l && m.key == key;
      assert m in l[1..];
      RemoveCount(l[1..], key, p);
      assert Remove(l, key)[1..] == Remove(l[1..], key);
    }
  }

  lemma {:induction false} CountIsZero<K, V>(l: seq<Node<K, V>>, p: K -> bool)
    ensures Count(l, p) == 0 <==> forall n :: n in l ==> !p(n.key)
  {
    if l != [] {
      CountIsZero(l[1..], p);
      assert l == [l[0]] + l[1..];
    }
  }

  lemma {:induction false} CountedOnce<K, V>(l: seq<Node<K, V>>, p: K -> bool) returns (i: nat)
    requires Count(l, p) > 0
    ensures i < |l| && p(l[i].key)
  {
    if p(l[0].key) {
      i := 0;
    } else {
      var k := CountedOnce(l[1..], p);
      i := k + 1;
    }
  }

  /** A count above one comes from two different nodes. */
  lemma {:induction false} CountedTwice<K, V>(l: seq<Node<K, V>>, p: K -> bool) returns (i: nat, j: nat)
    requires Count(l, p) > 1
    ensures i < j < |l| && p(l[i].key) && p(l[j].key)
  {
    if p(l[0].key) {
      var k := CountedOnce(l[1..], p);
      i, j := 0, k + 1;
    } else {
      var k, m := CountedTwice(l[1..], p);
      i, j := k + 1, m + 1;
    }
  }

  /** Two different nodes that satisfy `p` count for at least two. */
  lemma {:induction false} CountOfTwo<K, V>(l: seq<Node<K, V>>, p: K -> bool, i: nat, j: nat)
    requires i < j < |l| && p(l[i].key) && p(l[j].key)
    ensures Count(l, p) >= 2
  {
    if i == 0 {
      CountIsZero(l[1..], p);
      assert l[1..][j - 1] == l[j];
    } else {
      CountOfTwo(l[1..], p, i - 1, j - 1);
    }
  }
}
