/**
 * The disjoint sets over the indices 0..n-1 that the spanning-tree loop
 * uses, modelled by their contract: a parent array in which every element's
 * parent is the root of its set.
 */
module UnionFind {

  /** Every entry names a root: an index within range that is its own parent. */
  ghost predicate Rooted(parent: seq<nat>) {
    forall i :: 0 <= i < |parent| ==> parent[i] < |parent| && parent[parent[i]] == parent[i]
  }

  /** The parent array after the set whose root is `from` is merged into the set whose root is `to`. */
  function Relabel(parent: seq<nat>, from: nat, to: nat): (r: seq<nat>)
    ensures |r| == |parent|
  {
    seq(|parent|, i requires 0 <= i < |parent| => if parent[i] == from then to else parent[i])
  }

  /** The roots in use, one per set. */
  ghost function Roots(parent: seq<nat>): set<nat> {
    set i | 0 <= i < |parent| :: parent[i]
  }

  /** Merging two sets under a root keeps every entry naming a root. */
  lemma RelabelRooted(parent: seq<nat>, from: nat, to: nat)
    requires Rooted(parent) && from < |parent| && to < |parent|
    requires parent[from] == from && parent[to] == to
    ensures Rooted(Relabel(parent, from, to))
  {
  }

  /**
   * After the merge two elements share a root exactly when they did before,
   * or one was in the set of `from` and the other in the set of `to`.
   */
  lemma RelabelSame(parent: seq<nat>, from: nat, to: nat, x: nat, y: nat)
    requires x < |parent| && y < |parent| && from != to
    ensures Relabel(parent, from, to)[x] == Relabel(parent, from, to)[y] <==>
      parent[x] == parent[y] || (parent[x] in {from, to} && parent[y] in {from, to})
  {
  }

  /** Merging two different sets leaves one set fewer. */
  lemma RelabelRoots(parent: seq<nat>, from: nat, to: nat)
    requires Rooted(parent) && from < |parent| && to < |parent| && from != to
    requires parent[from] == from && parent[to] == to
    ensures Roots(Relabel(parent, from, to)) == Roots(parent) - {from}
    ensures |Roots(Relabel(parent, from, to))| == |Roots(parent)| - 1
  {
    var r := Relabel(parent, from, to);
    forall k | k in Roots(parent) - {from} ensures k in Roots(r) {
      var i :| 0 <= i < |parent| && parent[i] == k;
      assert r[i] == k;
    }
    assert r[to] == to;
    assert from in Roots(parent) by {
      assert parent[from] == from;
    }
  }

  /** Every element alone: each is its own parent. */
  function Identity(n: nat): (r: seq<nat>)
    ensures |r| == n && forall i :: 0 <= i < n ==> r[i] == i
  {
    seq(n, i => i)
  }

  /** Every element alone: n sets. */
  lemma {:induction false} IdentityRoots(n: nat)
    ensures Rooted(Identity(n))
    ensures |Roots(Identity(n))| == n
  {
    if n > 0 {
      IdentityRoots(n - 1);
      var a, b := Identity(n), Identity(n - 1);
      forall k | k in Roots(a) ensures k in Roots(b) + {n - 1} {
        var i :| 0 <= i < n && a[i] == k;
        if i < n - 1 {
          assert b[i] == k;
        }
      }
      forall k | k in Roots(b) ensures k in Roots(a) && k < n - 1 {
        var i :| 0 <= i < n - 1 && b[i] == k;
        assert a[i] == k;
      }
      assert a[n - 1] == n - 1;
      assert Roots(a) == Roots(b) + {n - 1};
    }
  }

  /** A non-empty parent array has at least one set. */
  lemma RootsNonEmpty(parent: seq<nat>)
    requires parent != []
    ensures |Roots(parent)| >= 1
  {
    assert parent[0] in Roots(parent);
  }

  /**
   * The root of the set holding `x`: one of the roots in use, its own parent,
   * and shared by exactly the elements of the set of `x`.
   */
  function Find(parent: seq<nat>, x: nat): (root: nat)
    requires Rooted(parent) && x < |parent|
    ensures root < |parent| && parent[root] == root && root in Roots(parent)
    ensures forall y :: 0 <= y < |parent| ==> (parent[y] == parent[x] <==> parent[y] == root)
  {
    parent[x]
  }

  /**
   * Merges the set whose root is `root2` into the set whose root is `root1`:
   * the result names roots only, two elements share a root exactly when they
   * did before or lay in the two merged sets, and there is one set fewer.
   */
  function Union(parent: seq<nat>, root1: nat, root2: nat): (r: seq<nat>)
    requires Rooted(parent) && root1 < |parent| && root2 < |parent| && root1 != root2
    requires parent[root1] == root1 && parent[root2] == root2
    ensures Rooted(r) && |r| == |parent|
    ensures forall x, y :: 0 <= x < |parent| && 0 <= y < |parent| ==>
      (r[x] == r[y] <==> parent[x] == parent[y] || (parent[x] in {root1, root2} && parent[y] in {root1, root2}))
    ensures |Roots(r)| == |Roots(parent)| - 1
  {
    RelabelRooted(parent, root2, root1);
    RelabelRoots(parent, root2, root1);
    forall x, y | 0 <= x < |parent| && 0 <= y < |parent|
      ensures Relabel(parent, root2, root1)[x] == Relabel(parent, root2, root1)[y] <==>
        parent[x] == parent[y] || (parent[x] in {root1, root2} && parent[y] in {root1, root2})
    {
      RelabelSame(parent, root2, root1, x, y);
    }
    Relabel(parent, root2, root1)
  }
}
