/**
 * Forests over a list of links, each link an (unordered) pair of vertices
 * kept in the order the links were added: walks, connectivity, and the
 * property that every link joined two vertices not yet connected.
 */
module Forests {

  /** Some link has ends `x` and `y`, in either order. */
  ghost predicate Joined<T(!new)>(links: seq<(T, T)>, x: T, y: T) {
    exists i :: 0 <= i < |links| && (links[i] == (x, y) || links[i] == (y, x))
  }

  /** `w` is a non-empty walk: each vertex of it is joined to the next by a link. */
  ghost predicate IsWalk<T(!new)>(links: seq<(T, T)>, w: seq<T>)
    decreases |w|
  {
    w != [] && (|w| == 1 || (Joined(links, w[0], w[1]) && IsWalk(links, w[1..])))
  }

  /** Some walk leads from `x` to `y`. */
  ghost predicate Connected<T(!new)>(links: seq<(T, T)>, x: T, y: T) {
    exists w :: IsWalk(links, w) && w[0] == x && w[|w| - 1] == y
  }

  /**
   * Every link joined two vertices that the links before it did not
   * connect, so no link closes a cycle: the links form a forest.
   */
  ghost predicate Acyclic<T(!new)>(links: seq<(T, T)>) {
    forall i :: 0 <= i < |links| ==> !Connected(links[..i], links[i].0, links[i].1)
  }

  /** Consecutive vertices of a walk are joined by a link. */
  lemma {:induction false} WalkStep<T(!new)>(links: seq<(T, T)>, w: seq<T>, i: nat)
    requires IsWalk(links, w) && i < |w| - 1
    ensures Joined(links, w[i], w[i + 1])
    decreases i
  {
    if i > 0 {
      WalkStep(links, w[1..], i - 1);
    }
  }

  /** Every vertex is connected to itself by the walk that does not move. */
  lemma ConnectedSelf<T(!new)>(links: seq<(T, T)>, x: T)
    ensures Connected(links, x, x)
  {
    assert IsWalk(links, [x]);
  }

  /** The two ends of a link are connected, in both directions. */
  lemma ConnectedJoined<T(!new)>(links: seq<(T, T)>, x: T, y: T)
    requires Joined(links, x, y)
    ensures Connected(links, x, y) && Connected(links, y, x)
  {
    assert [x, y][1..] == [y] && IsWalk(links, [y]);
    assert [y, x][1..] == [x] && IsWalk(links, [x]);
    assert Joined(links, y, x);
    assert IsWalk(links, [x, y]) && IsWalk(links, [y, x]);
  }

  /** Two walks that meet make one walk. */
  lemma {:induction false} WalkConcat<T(!new)>(links: seq<(T, T)>, u: seq<T>, v: seq<T>)
    requires IsWalk(links, u) && IsWalk(links, v) && u[|u| - 1] == v[0]
    ensures IsWalk(links, u + v[1..])
    decreases |u|
  {
    if |u| == 1 {
      assert u + v[1..] == v;
    } else {
      WalkConcat(links, u[1..], v);
      assert (u + v[1..])[1..] == u[1..] + v[1..];
    }
  }

  /** Connectivity is transitive: two walks that meet can be joined into one. */
  lemma ConnectedTrans<T(!new)>(links: seq<(T, T)>, x: T, y: T, z: T)
    requires Connected(links, x, y) && Connected(links, y, z)
    ensures Connected(links, x, z)
  {
    var u :| IsWalk(links, u) && u[0] == x && u[|u| - 1] == y;
    var v :| IsWalk(links, v) && v[0] == y && v[|v| - 1] == z;
    WalkConcat(links, u, v);
    var w := u + v[1..];
    assert w[0] == x && w[|w| - 1] == z;
  }

  /** A walk read backwards connects its last vertex to its first. */
  lemma {:induction false} WalkBack<T(!new)>(links: seq<(T, T)>, w: seq<T>)
    requires IsWalk(links, w)
    ensures Connected(links, w[|w| - 1], w[0])
    decreases |w|
  {
    if |w| == 1 {
      ConnectedSelf(links, w[0]);
    } else {
      WalkBack(links, w[1..]);
      ConnectedJoined(links, w[0], w[1]);
      ConnectedTrans(links, w[|w| - 1], w[1], w[0]);
    }
  }

  /** Connectivity is symmetric: a walk read backwards is a walk. */
  lemma ConnectedSym<T(!new)>(links: seq<(T, T)>, x: T, y: T)
    requires Connected(links, x, y)
    ensures Connected(links, y, x)
  {
    var w :| IsWalk(links, w) && w[0] == x && w[|w| - 1] == y;
    WalkBack(links, w);
  }

  /** Adding a link keeps every walk a walk. */
  lemma {:induction false} WalkGrow<T(!new)>(links: seq<(T, T)>, e: (T, T), w: seq<T>)
    requires IsWalk(links, w)
    ensures IsWalk(links + [e], w)
    decreases |w|
  {
    if |w| > 1 {
      WalkGrow(links, e, w[1..]);
      var j :| 0 <= j < |links| && (links[j] == (w[0], w[1]) || links[j] == (w[1], w[0]));
      assert (links + [e])[j] == links[j];
    }
  }

  /** Adding a link keeps every connection. */
  lemma ConnectedGrow<T(!new)>(links: seq<(T, T)>, e: (T, T), x: T, y: T)
    requires Connected(links, x, y)
    ensures Connected(links + [e], x, y)
  {
    var w :| IsWalk(links, w) && w[0] == x && w[|w| - 1] == y;
    WalkGrow(links, e, w);
  }

  /** A link between two vertices that are not yet connected keeps the links a forest. */
  lemma AcyclicGrow<T(!new)>(links: seq<(T, T)>, e: (T, T))
    requires Acyclic(links) && !Connected(links, e.0, e.1)
    ensures Acyclic(links + [e])
  {
    forall i | 0 <= i < |links + [e]|
      ensures !Connected((links + [e])[..i], (links + [e])[i].0, (links + [e])[i].1)
    {
      if i < |links| {
        assert (links + [e])[..i] == links[..i];
      } else {
        assert (links + [e])[..i] == links;
      }
    }
  }

  /** The links of a forest join distinct vertices, and no two of them join the same pair. */
  lemma AcyclicSimple<T(!new)>(links: seq<(T, T)>, i: nat, j: nat)
    requires Acyclic(links) && i < j < |links|
    ensures links[i].0 != links[i].1
    ensures links[j] != links[i] && links[j] != (links[i].1, links[i].0)
  {
    ConnectedSelf(links[..i], links[i].0);
    assert links[..j][i] == links[i];
    ConnectedJoined(links[..j], links[i].0, links[i].1);
  }
}
