/**
 * Sequences used as the doubly-linked lists of the graph (the vertex list and
 * each vertex's adjacency list), the unordered vertex pair that keys the
 * edge index, and the optional value that stands for a null reference.
 */
module Seqs {

  /** A value that may be absent: the null of the graph code. */
  datatype Option<T> = None | Some(value: T)

  /** No item occurs twice. */
  ghost predicate Distinct<T>(s: seq<T>) {
    forall i, j :: 0 <= i < j < |s| ==> s[i] != s[j]
  }

  /**
   * The list after removing the node that holds `x`. A node that is already
   * detached is not found, and removing it again changes nothing.
   */
  function Without<T(==)>(s: seq<T>, x: T): (r: seq<T>)
    ensures |r| <= |s|
  {
    if s == [] then []
    else if s[0] == x then Without(s[1..], x)
    else [s[0]] + Without(s[1..], x)
  }

  /** Detaching `x` keeps every other item and only those. */
  lemma {:induction false} WithoutMembers<T>(s: seq<T>, x: T, y: T)
    ensures y in Without(s, x) <==> y in s && y != x
  {
    if s != [] {
      WithoutMembers(s[1..], x, y);
      assert y in s <==> y == s[0] || y in s[1..];
    }
  }

  lemma {:induction false} WithoutAbsent<T>(s: seq<T>, x: T)
    requires x !in s
    ensures Without(s, x) == s
  {
    if s != [] {
      assert s == [s[0]] + s[1..];
      WithoutAbsent(s[1..], x);
    }
  }

  /** Detaching a node that is already detached changes nothing. */
  lemma WithoutTwice<T>(s: seq<T>, x: T)
    ensures Without(Without(s, x), x) == Without(s, x)
  {
    WithoutMembers(s, x, x);
    WithoutAbsent(Without(s, x), x);
  }

  /** Removing the front node of a list without repeats leaves its tail. */
  lemma WithoutFront<T>(s: seq<T>)
    requires s != [] && Distinct(s)
    ensures Without(s, s[0]) == s[1..]
  {
    assert s[0] !in s[1..];
    WithoutAbsent(s[1..], s[0]);
  }

  /** Detaching a node from a list without repeats shortens it by exactly one. */
  lemma {:induction false} WithoutDistinct<T>(s: seq<T>, x: T)
    requires Distinct(s)
    ensures Distinct(Without(s, x))
    ensures x in s ==> |Without(s, x)| == |s| - 1
    ensures x !in s ==> |Without(s, x)| == |s|
  {
    if s == [] {
    } else {
      assert Distinct(s[1..]);
      WithoutDistinct(s[1..], x);
      WithoutMembers(s[1..], x, s[0]);
      if s[0] == x {
        WithoutAbsent(s[1..], x);
      } else {
        var t := Without(s[1..], x);
        assert s[0] !in t;
        assert Without(s, x) == [s[0]] + t;
        forall i, j | 0 <= i < j < |[s[0]] + t|
          ensures ([s[0]] + t)[i] != ([s[0]] + t)[j]
        {
          if i > 0 {
            assert ([s[0]] + t)[i] == t[i - 1];
          }
        }
      }
    }
  }

  /** Removing the item at one index of a list without repeats is removing that item. */
  lemma {:induction false} WithoutAt<T>(s: seq<T>, i: nat)
    requires Distinct(s) && i < |s|
    ensures Without(s, s[i]) == s[..i] + s[i + 1..]
  {
    if i == 0 {
      WithoutFront(s);
    } else {
      assert Distinct(s[1..]);
      WithoutAt(s[1..], i - 1);
      assert s[1..][i - 1] == s[i];
      assert s[1..][..i - 1] + s[1..][i..] == s[1..i] + s[i + 1..];
      assert s[..i] + s[i + 1..] == [s[0]] + (s[1..i] + s[i + 1..]);
    }
  }

  /**
   * The unordered pair {u, v} that keys the edge index: equal regardless of the
   * order of its arguments, and a single key for a self-edge.
   */
  type Pair<K> = set<K>

  function PairOf<K>(u: K, v: K): (p: Pair<K>)
    ensures u in p && v in p
  {
    {u, v}
  }

  /** Two pairs are equal exactly when they name the same endpoints in either order. */
  lemma PairEquality<K>(u: K, v: K, x: K, y: K)
    ensures PairOf(u, v) == PairOf(x, y) <==> (u == x && v == y) || (u == y && v == x)
  {
    if PairOf(u, v) == PairOf(x, y) {
      assert u in PairOf(x, y) && v in PairOf(x, y);
      assert x in PairOf(u, v) && y in PairOf(u, v);
    }
  }

  /** A pair has one element for a self-edge and two otherwise. */
  lemma PairSize<K>(u: K, v: K)
    ensures |PairOf(u, v)| == if u == v then 1 else 2
  {
    if u != v {
      assert PairOf(u, v) == {u} + {v};
    }
  }
}
