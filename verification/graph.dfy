/**
 * The weighted undirected graph: vertex records, edge records and the graph
 * that indexes them.
 *
 * Each vertex record owns its adjacency list, a list of edge-end nodes whose
 * item is an edge record. An edge record holds handles to its (at most two)
 * edge-end nodes and its weight. A node handle is modelled by the vertex whose
 * adjacency list holds the node: the node itself is the occurrence of the edge
 * in that list, so (list, edge) identifies it. A self-edge owns one node, which
 * both of its handles name.
 */
module Graph {
  import opened Seqs

  /** The two parallel arrays returned for the neighbours of a vertex. */
  datatype Neighbors<K> = Neighbors(neighborList: array<K>, weightList: array<int>)

  class Vertex<K> {
    /** The application's key; never reassigned. */
    const key: K
    /** The adjacency list: one node per incident edge. */
    var edges: seq<Edge<K>>

    constructor (k: K)
      ensures key == k && edges == [] && Degree() == 0
    {
      key := k;
      edges := [];
    }

    /** The degree is the length of the adjacency list; a self-edge adds one. */
    function Degree(): (d: nat)
      reads this
      ensures d == |edges|
    {
      |edges|
    }

    function Key(): (k: K)
      ensures k == key
    {
      key
    }
  }

  class Edge<K> {
    /** Handles to the edge-end nodes; null once detached. */
    var nodeA: Vertex?<K>
    var nodeB: Vertex?<K>
    var edgeWeight: int

    constructor (a: Vertex?<K>, b: Vertex?<K>, w: int)
      ensures nodeA == a && nodeB == b && edgeWeight == w
    {
      nodeA := a;
      nodeB := b;
      edgeWeight := w;
    }

    method SetWeight(w: int)
      modifies this
      ensures edgeWeight == w
      ensures nodeA == old(nodeA) && nodeB == old(nodeB)
    {
      edgeWeight := w;
    }

    function GetWeight(): (w: int)
      reads this
      ensures w == edgeWeight
    {
      edgeWeight
    }

    /**
     * Detaches both edge-end nodes from the lists that hold them and forgets
     * them. Because nodeA is cleared first, the test that nodeB differs from
     * nodeA reduces to nodeB being non-null; for a self-edge the second detach
     * finds the node already gone and changes nothing.
     */
    method Remove()
      modifies this, nodeA, nodeB
      ensures nodeA == null && nodeB == null && edgeWeight == old(edgeWeight)
      ensures old(nodeA) != null ==> old(nodeA).edges == Without(old(nodeA.edges), this)
      ensures old(nodeB) != null ==> old(nodeB).edges == Without(old(nodeB.edges), this)
      ensures old(nodeA) == null && old(nodeB) == null ==> unchanged(this)
    {
      if nodeA != null {
        WithoutTwice(nodeA.edges, this);
        nodeA.edges := Without(nodeA.edges, this);
        nodeA := null;
      }
      if nodeB != null && nodeB != nodeA {
        nodeB.edges := Without(nodeB.edges, this);
        nodeB := null;
      }
    }
  }

  /** The keys of a list of vertex records, in list order. */
  function KeysOf<K>(vs: seq<Vertex<K>>): (ks: seq<K>)
    ensures |ks| == |vs|
    ensures forall i :: 0 <= i < |vs| ==> ks[i] == vs[i].key
  {
    seq(|vs|, i requires 0 <= i < |vs| => vs[i].key)
  }

  /** The sum of the lengths of the adjacency lists of the keys `ks`. */
  ghost function DegreeSum<K>(ks: seq<K>, adj: map<K, seq<Edge<K>>>): nat {
    if ks == [] then 0
    else DegreeSum(ks[..|ks| - 1], adj) + (if ks[|ks| - 1] in adj then |adj[ks[|ks| - 1]]| else 0)
  }

  /** The pairs of `ps` that key a self-edge. */
  ghost function SelfLoops<K>(ps: set<Pair<K>>): set<Pair<K>> {
    set p | p in ps && |p| == 1
  }

  lemma {:induction false} DegreeSumConcat<K>(a: seq<K>, b: seq<K>, adj: map<K, seq<Edge<K>>>)
    ensures DegreeSum(a + b, adj) == DegreeSum(a, adj) + DegreeSum(b, adj)
    decreases |b|
  {
    if b == [] {
      assert a + b == a;
    } else {
      var n := |b| - 1;
      assert (a + b)[..|a + b| - 1] == a + b[..n];
      DegreeSumConcat(a, b[..n], adj);
    }
  }

  lemma DegreeSumPrefix<K>(ks: seq<K>, adj: map<K, seq<Edge<K>>>, i: nat)
    requires i < |ks| && ks[i] in adj
    ensures DegreeSum(ks[..i + 1], adj) == DegreeSum(ks[..i], adj) + |adj[ks[i]]|
    ensures DegreeSum(ks[..i + 1], adj) <= DegreeSum(ks, adj)
  {
    assert ks[..i + 1][..i] == ks[..i];
    assert ks == ks[..i + 1] + ks[i + 1..];
    DegreeSumConcat(ks[..i + 1], ks[i + 1..], adj);
  }

  /** Dropping the key at index `i` drops its list length from the sum. */
  lemma DegreeSumRemoveAt<K>(ks: seq<K>, adj: map<K, seq<Edge<K>>>, i: nat)
    requires i < |ks| && ks[i] in adj
    ensures DegreeSum(ks[..i] + ks[i + 1..], adj) == DegreeSum(ks, adj) - |adj[ks[i]]|
  {
    DegreeSumPrefix(ks, adj, i);
    assert ks == ks[..i + 1] + ks[i + 1..];
    DegreeSumConcat(ks[..i + 1], ks[i + 1..], adj);
    DegreeSumConcat(ks[..i], ks[i + 1..], adj);
  }

  /** Replacing the list of one key changes the sum by the change of that list. */
  lemma {:induction false} DegreeSumUpdate<K>(ks: seq<K>, adj: map<K, seq<Edge<K>>>, u: K, s: seq<Edge<K>>)
    requires Distinct(ks) && u in adj
    ensures DegreeSum(ks, adj[u := s]) as int
      == DegreeSum(ks, adj) as int + (if u in ks then |s| - |adj[u]| else 0)
  {
    if ks != [] {
      var n := |ks| - 1;
      assert Distinct(ks[..n]);
      assert ks == ks[..n] + [ks[n]];
      assert ks[n] !in ks[..n];
      DegreeSumUpdate(ks[..n], adj, u, s);
    }
  }

  /** Keys outside `ks` do not contribute to the sum. */
  lemma {:induction false} DegreeSumOutside<K>(ks: seq<K>, adj: map<K, seq<Edge<K>>>, u: K, s: seq<Edge<K>>)
    requires u !in ks
    ensures DegreeSum(ks, adj[u := s]) == DegreeSum(ks, adj)
  {
    if ks != [] {
      var n := |ks| - 1;
      assert ks[n] in ks;
      DegreeSumOutside(ks[..n], adj, u, s);
    }
  }

  lemma SelfLoopsAdd<K>(ps: set<Pair<K>>, u: K, v: K)
    requires PairOf(u, v) !in ps
    ensures |SelfLoops(ps + {PairOf(u, v)})| == |SelfLoops(ps)| + (if u == v then 1 else 0)
  {
    PairSize(u, v);
    if u == v {
      assert SelfLoops(ps + {PairOf(u, v)}) == SelfLoops(ps) + {PairOf(u, v)};
    } else {
      assert SelfLoops(ps + {PairOf(u, v)}) == SelfLoops(ps);
    }
  }

  lemma SelfLoopsRemove<K>(ps: set<Pair<K>>, u: K, v: K)
    requires PairOf(u, v) in ps
    ensures |SelfLoops(ps - {PairOf(u, v)})| == |SelfLoops(ps)| - (if u == v then 1 else 0)
  {
    PairSize(u, v);
    if u == v {
      assert SelfLoops(ps - {PairOf(u, v)}) == SelfLoops(ps) - {PairOf(u, v)};
    } else {
      assert SelfLoops(ps - {PairOf(u, v)}) == SelfLoops(ps);
    }
  }

  lemma {:induction false} DistinctKeysCount<K>(vs: seq<Vertex<K>>)
    requires forall i, j :: 0 <= i < j < |vs| ==> vs[i].key != vs[j].key
    ensures |set v | v in vs :: v.key| == |vs|
  {
    if vs != [] {
      var n := |vs| - 1;
      var pre := vs[..n];
      DistinctKeysCount(pre);
      assert vs == pre + [vs[n]];
      var a := set v | v in pre :: v.key;
      assert (set v | v in vs :: v.key) == a + {vs[n].key};
      assert vs[n].key !in a by {
        forall v | v in pre ensures v.key != vs[n].key {
          var i :| 0 <= i < n && pre[i] == v;
        }
      }
    }
  }

  /** Two maps that give the same list lengths to the keys `ks` give the same sum. */
  lemma {:induction false} DegreeSumAgree<K>(ks: seq<K>, adj1: map<K, seq<Edge<K>>>, adj2: map<K, seq<Edge<K>>>)
    requires forall k :: k in ks ==> (k in adj1 <==> k in adj2)
    requires forall k :: k in ks && k in adj1 && k in adj2 ==> |adj1[k]| == |adj2[k]|
    ensures DegreeSum(ks, adj1) == DegreeSum(ks, adj2)
  {
    if ks != [] {
      var n := |ks| - 1;
      assert ks[n] in ks;
      assert forall k :: k in ks[..n] ==> k in ks;
      DegreeSumAgree(ks[..n], adj1, adj2);
    }
  }

  /*
   * The graph invariant, stated on the values of the graph's fields: the
   * vertex list `vs`, the vertex index `vd`, the edge index `ed`, the
   * adjacency lists `adj` (by vertex key) and the endpoint keys `ends` of every
   * indexed edge, as (key of nodeA, key of nodeB).
   */

  /*
   * Each quantifier of the invariant is instantiated only where a proof names
   * the membership it needs (Has, At, Listed); this keeps them idle in the
   * methods that merely carry the invariant along.
   */

  ghost predicate Has<K, V>(m: map<K, V>, k: K) {
    k in m
  }

  ghost predicate At<T>(s: seq<T>, i: int) {
    0 <= i < |s|
  }

  ghost predicate Listed<K>(adj: map<K, seq<Edge<K>>>, k: K, e: Edge<K>) {
    k in adj && e in adj[k]
  }

  /** The vertex list and the vertex index hold the same records, one per key. */
  ghost predicate VerticesOk<K>(vs: seq<Vertex<K>>, vd: map<K, Vertex<K>>) {
    && (forall i, j {:trigger At(vs, i), At(vs, j)} :: 0 <= i < j < |vs| ==> vs[i].key != vs[j].key)
    && (forall i {:trigger At(vs, i)} :: 0 <= i < |vs| ==> vs[i].key in vd && vd[vs[i].key] == vs[i])
    && (forall k {:trigger Has(vd, k)} :: k in vd ==> vd[k].key == k && vd[k] in vs)
  }

  /**
   * Every indexed edge is keyed by the unordered pair of its endpoints, both
   * endpoints are vertices, and the edge sits in the adjacency list of each.
   */
  ghost predicate EdgeIndexOk<K>(vd: map<K, Vertex<K>>, ed: map<Pair<K>, Edge<K>>,
                                 adj: map<K, seq<Edge<K>>>, ends: map<Edge<K>, (K, K)>) {
    && (forall p {:trigger Has(ed, p)} :: p in ed ==>
          ed[p] in ends && p == PairOf(ends[ed[p]].0, ends[ed[p]].1))
    && (forall e {:trigger Has(ends, e)} :: e in ends ==>
          && ends[e].0 in vd && ends[e].1 in vd
          && ends[e].0 in adj && e in adj[ends[e].0]
          && ends[e].1 in adj && e in adj[ends[e].1]
          && PairOf(ends[e].0, ends[e].1) in ed && ed[PairOf(ends[e].0, ends[e].1)] == e)
  }

  /** Every vertex has an adjacency list, holding once each indexed edges incident on it. */
  ghost predicate ListsOk<K>(vd: map<K, Vertex<K>>, adj: map<K, seq<Edge<K>>>, ends: map<Edge<K>, (K, K)>) {
    && adj.Keys == vd.Keys
    && (forall k {:trigger Has(adj, k)} :: k in adj ==> Distinct(adj[k]))
    && (forall k, e {:trigger Listed(adj, k, e)} :: k in adj && e in adj[k] ==>
          e in ends && (ends[e].0 == k || ends[e].1 == k))
  }

  /**
   * A non-self edge is counted in two adjacency lists and a self-edge in one,
   * so the degrees sum to twice the number of edges less the self-edges.
   */
  ghost predicate DegreesOk<K>(vs: seq<Vertex<K>>, ed: map<Pair<K>, Edge<K>>, adj: map<K, seq<Edge<K>>>) {
    DegreeSum(KeysOf(vs), adj) + |SelfLoops(ed.Keys)| == 2 * |ed|
  }

  ghost predicate GraphInv<K>(vs: seq<Vertex<K>>, vd: map<K, Vertex<K>>, ed: map<Pair<K>, Edge<K>>,
                              adj: map<K, seq<Edge<K>>>, ends: map<Edge<K>, (K, K)>) {
    VerticesOk(vs, vd) && EdgeIndexOk(vd, ed, adj, ends) && ListsOk(vd, adj, ends) && DegreesOk(vs, ed, adj)
  }

  /** What the invariant says about the vertex at index `i` of the list. */
  lemma VertexAt<K>(vs: seq<Vertex<K>>, vd: map<K, Vertex<K>>, i: int)
    requires VerticesOk(vs, vd) && 0 <= i < |vs|
    ensures vs[i].key in vd && vd[vs[i].key] == vs[i]
  {
    assert At(vs, i);
  }

  /** What the invariant says about the vertex indexed under `k`. */
  lemma KeyAt<K>(vs: seq<Vertex<K>>, vd: map<K, Vertex<K>>, k: K)
    requires VerticesOk(vs, vd) && k in vd
    ensures vd[k].key == k && vd[k] in vs
  {
    assert Has(vd, k);
  }

  /** A vertex is in the index exactly when its key is in the vertex list. */
  lemma IndexMatchesList<K>(vs: seq<Vertex<K>>, vd: map<K, Vertex<K>>, k: K)
    requires VerticesOk(vs, vd)
    ensures k in vd <==> k in KeysOf(vs)
  {
    if k in vd {
      KeyAt(vs, vd, k);
      var i :| 0 <= i < |vs| && vs[i] == vd[k];
      assert KeysOf(vs)[i] == k;
    }
    if k in KeysOf(vs) {
      var i :| 0 <= i < |vs| && KeysOf(vs)[i] == k;
      VertexAt(vs, vd, i);
    }
  }

  /** No key occurs twice in the vertex list. */
  lemma DistinctKeys<K>(vs: seq<Vertex<K>>, vd: map<K, Vertex<K>>)
    requires VerticesOk(vs, vd)
    ensures Distinct(KeysOf(vs))
  {
    forall i, j | 0 <= i < j < |vs| ensures KeysOf(vs)[i] != KeysOf(vs)[j] {
      assert At(vs, i) && At(vs, j);
    }
  }

  /** The adjacency list of every vertex has no repeats. */
  lemma ListDistinct<K>(vd: map<K, Vertex<K>>, adj: map<K, seq<Edge<K>>>, ends: map<Edge<K>, (K, K)>, k: K)
    requires ListsOk(vd, adj, ends) && k in adj
    ensures Distinct(adj[k])
  {
    assert Has(adj, k);
  }

  /** What the invariant says about the edge indexed under `p`. */
  lemma EdgeAt<K>(vd: map<K, Vertex<K>>, ed: map<Pair<K>, Edge<K>>, adj: map<K, seq<Edge<K>>>,
                  ends: map<Edge<K>, (K, K)>, p: Pair<K>)
    requires EdgeIndexOk(vd, ed, adj, ends) && p in ed
    ensures ed[p] in ends && p == PairOf(ends[ed[p]].0, ends[ed[p]].1)
    ensures ends[ed[p]].0 in vd && ends[ed[p]].1 in vd
    ensures ends[ed[p]].0 in adj && ed[p] in adj[ends[ed[p]].0]
    ensures ends[ed[p]].1 in adj && ed[p] in adj[ends[ed[p]].1]
  {
    assert Has(ed, p);
    assert Has(ends, ed[p]);
  }

  /** What the invariant says about a recorded edge `e`. */
  lemma RecordAt<K>(vd: map<K, Vertex<K>>, ed: map<Pair<K>, Edge<K>>, adj: map<K, seq<Edge<K>>>,
                    ends: map<Edge<K>, (K, K)>, e: Edge<K>)
    requires EdgeIndexOk(vd, ed, adj, ends) && e in ends
    ensures ends[e].0 in vd && ends[e].1 in vd
    ensures ends[e].0 in adj && e in adj[ends[e].0] && ends[e].1 in adj && e in adj[ends[e].1]
    ensures PairOf(ends[e].0, ends[e].1) in ed && ed[PairOf(ends[e].0, ends[e].1)] == e
  {
    assert Has(ends, e);
  }

  /** What the invariant says about an edge `e` in the adjacency list of `k`. */
  lemma ListAt<K>(vd: map<K, Vertex<K>>, adj: map<K, seq<Edge<K>>>, ends: map<Edge<K>, (K, K)>, k: K, e: Edge<K>)
    requires ListsOk(vd, adj, ends) && k in adj && e in adj[k]
    ensures e in ends && (ends[e].0 == k || ends[e].1 == k)
  {
    assert Listed(adj, k, e);
  }

  /** An edge that is not recorded is in no adjacency list. */
  lemma UnlistedAt<K>(vd: map<K, Vertex<K>>, adj: map<K, seq<Edge<K>>>, ends: map<Edge<K>, (K, K)>, k: K, e: Edge<K>)
    requires ListsOk(vd, adj, ends) && k in adj && e !in ends
    ensures e !in adj[k]
  {
    assert Listed(adj, k, e) ==> e in ends;
  }

  /** Adding a new vertex with an empty adjacency list keeps the invariant. */
  lemma AddVertexKeeps<K>(vs: seq<Vertex<K>>, vd: map<K, Vertex<K>>, ed: map<Pair<K>, Edge<K>>,
                          adj: map<K, seq<Edge<K>>>, ends: map<Edge<K>, (K, K)>, v: Vertex<K>)
    requires GraphInv(vs, vd, ed, adj, ends) && v.key !in vd
    ensures GraphInv(vs + [v], vd[v.key := v], ed, adj[v.key := []], ends)
    ensures KeysOf(vs + [v]) == KeysOf(vs) + [v.key]
  {
    AddVertexCounts(vs, vd, ed, adj, v);
    AddVertexRecords(vs, vd, v);
    AddVertexEdges(vd, ed, adj, ends, v);
  }

  lemma AddVertexEdges<K>(vd: map<K, Vertex<K>>, ed: map<Pair<K>, Edge<K>>,
                          adj: map<K, seq<Edge<K>>>, ends: map<Edge<K>, (K, K)>, v: Vertex<K>)
    requires EdgeIndexOk(vd, ed, adj, ends) && ListsOk(vd, adj, ends) && v.key !in vd
    ensures EdgeIndexOk(vd[v.key := v], ed, adj[v.key := []], ends)
    ensures ListsOk(vd[v.key := v], adj[v.key := []], ends)
  {
    var vd', adj' := vd[v.key := v], adj[v.key := []];
    forall p | p in ed ensures ed[p] in ends && p == PairOf(ends[ed[p]].0, ends[ed[p]].1) {
      EdgeAt(vd, ed, adj, ends, p);
    }
    forall e | e in ends
      ensures && ends[e].0 in vd' && ends[e].1 in vd'
              && ends[e].0 in adj' && e in adj'[ends[e].0]
              && ends[e].1 in adj' && e in adj'[ends[e].1]
              && PairOf(ends[e].0, ends[e].1) in ed && ed[PairOf(ends[e].0, ends[e].1)] == e
    {
      RecordAt(vd, ed, adj, ends, e);
    }
    forall k | k in adj' ensures Distinct(adj'[k]) {
      if k != v.key {
        ListDistinct(vd, adj, ends, k);
      }
    }
    forall k, e | k in adj' && e in adj'[k] ensures e in ends && (ends[e].0 == k || ends[e].1 == k) {
      ListAt(vd, adj, ends, k, e);
    }
  }

  lemma AddVertexCounts<K>(vs: seq<Vertex<K>>, vd: map<K, Vertex<K>>, ed: map<Pair<K>, Edge<K>>,
                           adj: map<K, seq<Edge<K>>>, v: Vertex<K>)
    requires VerticesOk(vs, vd) && DegreesOk(vs, ed, adj) && v.key !in vd
    ensures DegreesOk(vs + [v], ed, adj[v.key := []])
    ensures KeysOf(vs + [v]) == KeysOf(vs) + [v.key]
  {
    var ks := KeysOf(vs);
    IndexMatchesList(vs, vd, v.key);
    assert KeysOf(vs + [v]) == ks + [v.key];
    assert (ks + [v.key])[..|ks|] == ks;
    DegreeSumAgree(ks, adj[v.key := []], adj);
  }

  lemma AddVertexRecords<K>(vs: seq<Vertex<K>>, vd: map<K, Vertex<K>>, v: Vertex<K>)
    requires VerticesOk(vs, vd) && v.key !in vd
    ensures VerticesOk(vs + [v], vd[v.key := v])
  {
    var vs', vd' := vs + [v], vd[v.key := v];
    forall i, j | 0 <= i < j < |vs'| ensures vs'[i].key != vs'[j].key {
      VertexAt(vs, vd, i);
      if j < |vs| {
        assert At(vs, i) && At(vs, j);
      }
    }
    forall i | 0 <= i < |vs'| ensures vs'[i].key in vd' && vd'[vs'[i].key] == vs'[i] {
      if i < |vs| {
        VertexAt(vs, vd, i);
      }
    }
    forall k | k in vd' ensures vd'[k].key == k && vd'[k] in vs' {
      if k != v.key {
        KeyAt(vs, vd, k);
      }
    }
  }

  /** The adjacency lists after a new edge `e` between `u` and `v` is appended to them. */
  ghost function AdjAdd<K>(adj: map<K, seq<Edge<K>>>, u: K, v: K, e: Edge<K>): map<K, seq<Edge<K>>>
    requires u in adj && v in adj
  {
    var adj1 := adj[u := adj[u] + [e]];
    if u == v then adj1 else adj1[v := adj1[v] + [e]]
  }

  /** Adding a new edge between two vertices that are not yet joined keeps the invariant. */
  lemma AddEdgeKeeps<K>(vs: seq<Vertex<K>>, vd: map<K, Vertex<K>>, ed: map<Pair<K>, Edge<K>>,
                        adj: map<K, seq<Edge<K>>>, ends: map<Edge<K>, (K, K)>, u: K, v: K, e: Edge<K>)
    requires GraphInv(vs, vd, ed, adj, ends)
    requires u in vd && v in vd && PairOf(u, v) !in ed && e !in ends
    ensures u in adj && v in adj
    ensures GraphInv(vs, vd, ed[PairOf(u, v) := e], AdjAdd(adj, u, v, e), ends[e := (u, v)])
  {
    AddEdgeCounts(vs, vd, ed, adj, u, v, e);
    AddEdgeLists(vd, adj, ends, u, v, e);
    AddEdgeIndex(vd, ed, adj, ends, u, v, e);
  }

  lemma AddEdgeCounts<K>(vs: seq<Vertex<K>>, vd: map<K, Vertex<K>>, ed: map<Pair<K>, Edge<K>>,
                         adj: map<K, seq<Edge<K>>>, u: K, v: K, e: Edge<K>)
    requires VerticesOk(vs, vd) && DegreesOk(vs, ed, adj)
    requires u in vd && v in vd && u in adj && v in adj && PairOf(u, v) !in ed
    ensures DegreesOk(vs, ed[PairOf(u, v) := e], AdjAdd(adj, u, v, e))
  {
    var p := PairOf(u, v);
    var adj1 := adj[u := adj[u] + [e]];
    var ks := KeysOf(vs);
    DistinctKeys(vs, vd);
    IndexMatchesList(vs, vd, u);
    IndexMatchesList(vs, vd, v);
    DegreeSumUpdate(ks, adj, u, adj[u] + [e]);
    if u != v {
      DegreeSumUpdate(ks, adj1, v, adj1[v] + [e]);
    }
    SelfLoopsAdd(ed.Keys, u, v);
    assert ed[p := e].Keys == ed.Keys + {p};
  }

  lemma AddEdgeLists<K>(vd: map<K, Vertex<K>>, adj: map<K, seq<Edge<K>>>, ends: map<Edge<K>, (K, K)>,
                        u: K, v: K, e: Edge<K>)
    requires ListsOk(vd, adj, ends) && u in vd && v in vd && e !in ends
    ensures u in adj && v in adj
    ensures ListsOk(vd, AdjAdd(adj, u, v, e), ends[e := (u, v)])
  {
    var adj', ends' := AdjAdd(adj, u, v, e), ends[e := (u, v)];
    forall k | k in adj' ensures Distinct(adj'[k]) {
      ListDistinct(vd, adj, ends, k);
      UnlistedAt(vd, adj, ends, k, e);
      if k == u || k == v {
        assert adj'[k] == adj[k] + [e];
      }
    }
    forall k, f | k in adj' && f in adj'[k] ensures f in ends' && (ends'[f].0 == k || ends'[f].1 == k) {
      UnlistedAt(vd, adj, ends, k, e);
      if f != e {
        assert f in adj[k];
        ListAt(vd, adj, ends, k, f);
      }
    }
  }

  lemma AddEdgeIndex<K>(vd: map<K, Vertex<K>>, ed: map<Pair<K>, Edge<K>>, adj: map<K, seq<Edge<K>>>,
                        ends: map<Edge<K>, (K, K)>, u: K, v: K, e: Edge<K>)
    requires EdgeIndexOk(vd, ed, adj, ends) && u in vd && v in vd && u in adj && v in adj
    requires PairOf(u, v) !in ed && e !in ends
    ensures EdgeIndexOk(vd, ed[PairOf(u, v) := e], AdjAdd(adj, u, v, e), ends[e := (u, v)])
  {
    var p := PairOf(u, v);
    var ed', adj', ends' := ed[p := e], AdjAdd(adj, u, v, e), ends[e := (u, v)];
    forall q | q in ed' ensures ed'[q] in ends' && q == PairOf(ends'[ed'[q]].0, ends'[ed'[q]].1) {
      if q != p {
        EdgeAt(vd, ed, adj, ends, q);
      }
    }
    forall f | f in ends'
      ensures && ends'[f].0 in vd && ends'[f].1 in vd
              && ends'[f].0 in adj' && f in adj'[ends'[f].0]
              && ends'[f].1 in adj' && f in adj'[ends'[f].1]
              && PairOf(ends'[f].0, ends'[f].1) in ed' && ed'[PairOf(ends'[f].0, ends'[f].1)] == f
    {
      if f != e {
        RecordAt(vd, ed, adj, ends, f);
        assert PairOf(ends[f].0, ends[f].1) != p;
      }
    }
  }

  /** The adjacency lists after the edge `e` between `a` and `b` is detached from both. */
  ghost function AdjRemove<K>(adj: map<K, seq<Edge<K>>>, a: K, b: K, e: Edge<K>): map<K, seq<Edge<K>>>
    requires a in adj && b in adj
  {
    var adj1 := adj[a := Without(adj[a], e)];
    adj1[b := Without(adj1[b], e)]
  }

  /** Removing an indexed edge from the index and from its endpoints' lists keeps the invariant. */
  lemma RemoveEdgeKeeps<K>(vs: seq<Vertex<K>>, vd: map<K, Vertex<K>>, ed: map<Pair<K>, Edge<K>>,
                           adj: map<K, seq<Edge<K>>>, ends: map<Edge<K>, (K, K)>, p: Pair<K>)
    requires GraphInv(vs, vd, ed, adj, ends) && p in ed
    ensures ed[p] in ends && p == PairOf(ends[ed[p]].0, ends[ed[p]].1)
    ensures ends[ed[p]].0 in vd && ends[ed[p]].1 in vd
    ensures ends[ed[p]].0 in adj && ed[p] in adj[ends[ed[p]].0]
    ensures ends[ed[p]].1 in adj && ed[p] in adj[ends[ed[p]].1]
    ensures GraphInv(vs, vd, ed - {p}, AdjRemove(adj, ends[ed[p]].0, ends[ed[p]].1, ed[p]), ends - {ed[p]})
  {
    EdgeAt(vd, ed, adj, ends, p);
    var e := ed[p];
    var a, b := ends[e].0, ends[e].1;
    ListDistinct(vd, adj, ends, a);
    ListDistinct(vd, adj, ends, b);
    RemoveEdgeCounts(vs, vd, ed, adj, a, b, e);
    RemoveEdgeLists(vd, adj, ends, e);
    RemoveEdgeIndex(vd, ed, adj, ends, p);
  }

  lemma RemoveEdgeCounts<K>(vs: seq<Vertex<K>>, vd: map<K, Vertex<K>>, ed: map<Pair<K>, Edge<K>>,
                            adj: map<K, seq<Edge<K>>>, a: K, b: K, e: Edge<K>)
    requires VerticesOk(vs, vd) && DegreesOk(vs, ed, adj)
    requires a in vd && b in vd && a in adj && b in adj && Distinct(adj[a]) && Distinct(adj[b])
    requires e in adj[a] && e in adj[b] && PairOf(a, b) in ed
    ensures DegreesOk(vs, ed - {PairOf(a, b)}, AdjRemove(adj, a, b, e))
  {
    var p := PairOf(a, b);
    var adj1 := adj[a := Without(adj[a], e)];
    var ks := KeysOf(vs);
    DistinctKeys(vs, vd);
    IndexMatchesList(vs, vd, a);
    IndexMatchesList(vs, vd, b);
    WithoutDistinct(adj[a], e);
    DegreeSumUpdate(ks, adj, a, Without(adj[a], e));
    assert DegreeSum(ks, adj1) == DegreeSum(ks, adj) - 1;
    if a == b {
      WithoutTwice(adj[a], e);
      assert AdjRemove(adj, a, b, e) == adj1;
    } else {
      WithoutDistinct(adj[b], e);
      DegreeSumUpdate(ks, adj1, b, Without(adj1[b], e));
      assert DegreeSum(ks, AdjRemove(adj, a, b, e)) == DegreeSum(ks, adj) - 2;
    }
    SelfLoopsRemove(ed.Keys, a, b);
    assert (ed - {p}).Keys == ed.Keys - {p};
    assert |ed - {p}| == |ed| - 1;
  }

  lemma RemoveEdgeLists<K>(vd: map<K, Vertex<K>>, adj: map<K, seq<Edge<K>>>, ends: map<Edge<K>, (K, K)>,
                           e: Edge<K>)
    requires ListsOk(vd, adj, ends) && e in ends && ends[e].0 in adj && ends[e].1 in adj
    ensures ListsOk(vd, AdjRemove(adj, ends[e].0, ends[e].1, e), ends - {e})
  {
    var a, b := ends[e].0, ends[e].1;
    var adj', ends' := AdjRemove(adj, a, b, e), ends - {e};
    forall k | k in adj' ensures Distinct(adj'[k]) {
      ListDistinct(vd, adj, ends, k);
      if k == a || k == b {
        WithoutDistinct(adj[k], e);
        WithoutTwice(adj[k], e);
      }
    }
    forall k, f | k in adj' && f in adj'[k] ensures f in ends' && (ends'[f].0 == k || ends'[f].1 == k) {
      if k == a || k == b {
        WithoutTwice(adj[k], e);
        assert adj'[k] == Without(adj[k], e);
        WithoutMembers(adj[k], e, f);
        ListAt(vd, adj, ends, k, f);
      } else {
        assert adj'[k] == adj[k];
        ListAt(vd, adj, ends, k, f);
      }
    }
  }

  lemma RemoveEdgeIndex<K>(vd: map<K, Vertex<K>>, ed: map<Pair<K>, Edge<K>>, adj: map<K, seq<Edge<K>>>,
                           ends: map<Edge<K>, (K, K)>, p: Pair<K>)
    requires EdgeIndexOk(vd, ed, adj, ends) && p in ed
    ensures ed[p] in ends && ends[ed[p]].0 in adj && ends[ed[p]].1 in adj
    ensures EdgeIndexOk(vd, ed - {p}, AdjRemove(adj, ends[ed[p]].0, ends[ed[p]].1, ed[p]), ends - {ed[p]})
  {
    EdgeAt(vd, ed, adj, ends, p);
    var e := ed[p];
    var a, b := ends[e].0, ends[e].1;
    var adj1 := adj[a := Without(adj[a], e)];
    var ed', adj', ends' := ed - {p}, AdjRemove(adj, a, b, e), ends - {e};
    forall q | q in ed' ensures ed'[q] in ends' && q == PairOf(ends'[ed'[q]].0, ends'[ed'[q]].1) {
      EdgeAt(vd, ed, adj, ends, q);
      RecordAt(vd, ed, adj, ends, ed[q]);
    }
    forall f | f in ends'
      ensures && ends'[f].0 in vd && ends'[f].1 in vd
              && ends'[f].0 in adj' && f in adj'[ends'[f].0]
              && ends'[f].1 in adj' && f in adj'[ends'[f].1]
              && PairOf(ends'[f].0, ends'[f].1) in ed' && ed'[PairOf(ends'[f].0, ends'[f].1)] == f
    {
      RecordAt(vd, ed, adj, ends, f);
      var x, y := ends[f].0, ends[f].1;
      assert PairOf(x, y) != p;
      WithoutMembers(adj[x], e, f);
      WithoutMembers(adj[y], e, f);
      WithoutMembers(adj1[x], e, f);
      WithoutMembers(adj1[y], e, f);
    }
  }

  /** Removing a vertex with an empty adjacency list, at index `j` of the list, keeps the invariant. */
  lemma RemoveVertexKeeps<K>(vs: seq<Vertex<K>>, vd: map<K, Vertex<K>>, ed: map<Pair<K>, Edge<K>>,
                             adj: map<K, seq<Edge<K>>>, ends: map<Edge<K>, (K, K)>, x: K, j: nat)
    requires GraphInv(vs, vd, ed, adj, ends) && x in vd && x in adj && adj[x] == []
    requires j < |vs| && vs[j] == vd[x]
    ensures GraphInv(vs[..j] + vs[j + 1..], vd - {x}, ed, adj - {x}, ends)
    ensures KeysOf(vs[..j] + vs[j + 1..]) == Without(KeysOf(vs), x)
  {
    RemoveVertexCounts(vs, vd, ed, adj, x, j);
    RemoveVertexRecords(vs, vd, x, j);
    RemoveVertexEdges(vd, ed, adj, ends, x);
  }

  lemma RemoveVertexCounts<K>(vs: seq<Vertex<K>>, vd: map<K, Vertex<K>>, ed: map<Pair<K>, Edge<K>>,
                              adj: map<K, seq<Edge<K>>>, x: K, j: nat)
    requires VerticesOk(vs, vd) && DegreesOk(vs, ed, adj) && x in vd && x in adj && adj[x] == []
    requires j < |vs| && vs[j] == vd[x]
    ensures DegreesOk(vs[..j] + vs[j + 1..], ed, adj - {x})
    ensures KeysOf(vs[..j] + vs[j + 1..]) == Without(KeysOf(vs), x)
  {
    var ks := KeysOf(vs);
    var vs' := vs[..j] + vs[j + 1..];
    DistinctKeys(vs, vd);
    KeyAt(vs, vd, x);
    assert ks[j] == x;
    WithoutAt(ks, j);
    assert KeysOf(vs') == ks[..j] + ks[j + 1..];
    DegreeSumRemoveAt(ks, adj, j);
    assert x !in ks[..j] + ks[j + 1..] by {
      forall i | 0 <= i < |ks| && i != j ensures ks[i] != x { }
    }
    DegreeSumAgree(ks[..j] + ks[j + 1..], adj, adj - {x});
  }

  lemma RemoveVertexRecords<K>(vs: seq<Vertex<K>>, vd: map<K, Vertex<K>>, x: K, j: nat)
    requires VerticesOk(vs, vd) && x in vd && j < |vs| && vs[j] == vd[x]
    ensures VerticesOk(vs[..j] + vs[j + 1..], vd - {x})
  {
    var vs', vd' := vs[..j] + vs[j + 1..], vd - {x};
    KeyAt(vs, vd, x);
    forall i, i' | 0 <= i < i' < |vs'| ensures vs'[i].key != vs'[i'].key {
      var m, m' := if i < j then i else i + 1, if i' < j then i' else i' + 1;
      assert vs'[i] == vs[m] && vs'[i'] == vs[m'];
      assert At(vs, m) && At(vs, m');
    }
    forall k | k in vd' ensures vd'[k].key == k && vd'[k] in vs' {
      KeyAt(vs, vd, k);
      var i :| 0 <= i < |vs| && vs[i] == vd[k];
      VertexAt(vs, vd, j);
      assert i != j;
      if i < j {
        assert vs'[i] == vs[i];
      } else {
        assert vs'[i - 1] == vs[i];
      }
    }
    forall i | 0 <= i < |vs'| ensures vs'[i].key in vd' && vd'[vs'[i].key] == vs'[i] {
      var m := if i < j then i else i + 1;
      assert vs'[i] == vs[m];
      VertexAt(vs, vd, m);
      assert At(vs, m) && At(vs, j);
    }
  }

  lemma RemoveVertexEdges<K>(vd: map<K, Vertex<K>>, ed: map<Pair<K>, Edge<K>>, adj: map<K, seq<Edge<K>>>,
                             ends: map<Edge<K>, (K, K)>, x: K)
    requires EdgeIndexOk(vd, ed, adj, ends) && ListsOk(vd, adj, ends) && x in adj && adj[x] == []
    ensures EdgeIndexOk(vd - {x}, ed, adj - {x}, ends) && ListsOk(vd - {x}, adj - {x}, ends)
  {
    var vd', adj' := vd - {x}, adj - {x};
    forall p | p in ed ensures ed[p] in ends && p == PairOf(ends[ed[p]].0, ends[ed[p]].1) {
      EdgeAt(vd, ed, adj, ends, p);
    }
    forall e | e in ends
      ensures && ends[e].0 in vd' && ends[e].1 in vd'
              && ends[e].0 in adj' && e in adj'[ends[e].0]
              && ends[e].1 in adj' && e in adj'[ends[e].1]
              && PairOf(ends[e].0, ends[e].1) in ed && ed[PairOf(ends[e].0, ends[e].1)] == e
    {
      RecordAt(vd, ed, adj, ends, e);
    }
    forall k | k in adj' ensures Distinct(adj'[k]) {
      ListDistinct(vd, adj, ends, k);
    }
    forall k, e | k in adj' && e in adj'[k] ensures e in ends && (ends[e].0 == k || ends[e].1 == k) {
      ListAt(vd, adj, ends, k, e);
    }
  }

  /** Appending a new edge raises the degree of each endpoint by one, and of a self-edge's vertex by one in all. */
  lemma AdjAddDegree<K>(adj: map<K, seq<Edge<K>>>, u: K, v: K, e: Edge<K>, k: K)
    requires u in adj && v in adj
    ensures AdjAdd(adj, u, v, e).Keys == adj.Keys
    ensures k in adj ==> |AdjAdd(adj, u, v, e)[k]| == |adj[k]| + (if k == u || k == v then 1 else 0)
  {
  }

  /** Detaching `e` from the lists of `a` and `b` removes it from those two lists only. */
  lemma AdjRemoveAt<K>(adj: map<K, seq<Edge<K>>>, a: K, b: K, e: Edge<K>, k: K)
    requires a in adj && b in adj
    ensures AdjRemove(adj, a, b, e).Keys == adj.Keys
    ensures k in adj ==> AdjRemove(adj, a, b, e)[k] == if k == a || k == b then Without(adj[k], e) else adj[k]
  {
    if k == a && k == b {
      WithoutTwice(adj[k], e);
    }
  }

  /** The order of the two endpoints does not matter when detaching an edge. */
  lemma AdjRemoveSwap<K>(adj: map<K, seq<Edge<K>>>, a: K, b: K, e: Edge<K>)
    requires a in adj && b in adj
    ensures AdjRemove(adj, a, b, e) == AdjRemove(adj, b, a, e)
  {
    forall k | k in adj ensures AdjRemove(adj, a, b, e)[k] == AdjRemove(adj, b, a, e)[k] {
      AdjRemoveAt(adj, a, b, e, k);
      AdjRemoveAt(adj, b, a, e, k);
    }
    AdjRemoveAt(adj, a, b, e, a);
    AdjRemoveAt(adj, b, a, e, a);
  }

  /**
   * Removing an indexed edge lowers the degree of each endpoint by one, and
   * of a self-edge's vertex by one in all.
   */
  lemma RemoveEdgeDegree<K>(vs: seq<Vertex<K>>, vd: map<K, Vertex<K>>, ed: map<Pair<K>, Edge<K>>,
                            adj: map<K, seq<Edge<K>>>, ends: map<Edge<K>, (K, K)>, u: K, v: K, k: K)
    requires GraphInv(vs, vd, ed, adj, ends) && PairOf(u, v) in ed
    ensures u in adj && v in adj
    ensures k in adj ==>
      |AdjRemove(adj, u, v, ed[PairOf(u, v)])[k]| == |adj[k]| - (if k == u || k == v then 1 else 0)
  {
    var p := PairOf(u, v);
    EdgeAt(vd, ed, adj, ends, p);
    var e := ed[p];
    PairEquality(u, v, ends[e].0, ends[e].1);
    if k in adj {
      AdjRemoveAt(adj, u, v, e, k);
      if k == u || k == v {
        ListDistinct(vd, adj, ends, k);
        WithoutDistinct(adj[k], e);
      }
    }
  }

  /** The endpoint of the edge `e` other than `k`; `k` itself for a self-edge. */
  ghost function OtherEnd<K>(ends: map<Edge<K>, (K, K)>, e: Edge<K>, k: K): K
    requires e in ends
  {
    if ends[e].0 == k then ends[e].1 else ends[e].0
  }

  /**
   * The edges in the adjacency list of `k` lead to pairwise different
   * neighbours, because the edge index holds one edge per unordered pair.
   */
  lemma NeighborsDistinct<K>(vs: seq<Vertex<K>>, vd: map<K, Vertex<K>>, ed: map<Pair<K>, Edge<K>>,
                             adj: map<K, seq<Edge<K>>>, ends: map<Edge<K>, (K, K)>, k: K, m: int, n: int)
    requires GraphInv(vs, vd, ed, adj, ends) && k in adj && 0 <= m < n < |adj[k]|
    ensures adj[k][m] in ends && adj[k][n] in ends
    ensures OtherEnd(ends, adj[k][m], k) != OtherEnd(ends, adj[k][n], k)
  {
    var e, f := adj[k][m], adj[k][n];
    ListAt(vd, adj, ends, k, e);
    ListAt(vd, adj, ends, k, f);
    ListDistinct(vd, adj, ends, k);
    RecordAt(vd, ed, adj, ends, e);
    RecordAt(vd, ed, adj, ends, f);
    if OtherEnd(ends, e, k) == OtherEnd(ends, f, k) {
      PairEquality(ends[e].0, ends[e].1, ends[f].0, ends[f].1);
      assert false;
    }
  }

  /** An edge incident on `k` is indexed under the pair of `k` and its other end. */
  lemma NeighborEdge<K>(vs: seq<Vertex<K>>, vd: map<K, Vertex<K>>, ed: map<Pair<K>, Edge<K>>,
                        adj: map<K, seq<Edge<K>>>, ends: map<Edge<K>, (K, K)>, k: K, e: Edge<K>)
    requires GraphInv(vs, vd, ed, adj, ends) && k in adj && e in adj[k]
    ensures e in ends && OtherEnd(ends, e, k) in vd
    ensures PairOf(k, OtherEnd(ends, e, k)) in ed && ed[PairOf(k, OtherEnd(ends, e, k))] == e
  {
    ListAt(vd, adj, ends, k, e);
    RecordAt(vd, ed, adj, ends, e);
    PairEquality(k, OtherEnd(ends, e, k), ends[e].0, ends[e].1);
  }

  /** Every indexed pair that contains `k` is the pair of an edge in the adjacency list of `k`. */
  lemma IncidentListed<K>(vs: seq<Vertex<K>>, vd: map<K, Vertex<K>>, ed: map<Pair<K>, Edge<K>>,
                          adj: map<K, seq<Edge<K>>>, ends: map<Edge<K>, (K, K)>, k: K, p: Pair<K>)
    requires GraphInv(vs, vd, ed, adj, ends) && p in ed && k in p
    ensures k in adj && ed[p] in adj[k] && ed[p] in ends
    ensures p == PairOf(k, OtherEnd(ends, ed[p], k))
  {
    EdgeAt(vd, ed, adj, ends, p);
    PairEquality(k, OtherEnd(ends, ed[p], k), ends[ed[p]].0, ends[ed[p]].1);
  }

  /** An indexed pair contains `x` exactly when its edge is in the adjacency list of `x`. */
  lemma IncidentIff<K>(vs: seq<Vertex<K>>, vd: map<K, Vertex<K>>, ed: map<Pair<K>, Edge<K>>,
                       adj: map<K, seq<Edge<K>>>, ends: map<Edge<K>, (K, K)>, x: K, p: Pair<K>)
    requires GraphInv(vs, vd, ed, adj, ends) && x in adj && p in ed
    ensures x in p <==> ed[p] in adj[x]
  {
    EdgeAt(vd, ed, adj, ends, p);
    if ed[p] in adj[x] {
      ListAt(vd, adj, ends, x, ed[p]);
    }
  }

  /** The edge index holds each edge record under one pair only. */
  lemma EdgeUnique<K>(vd: map<K, Vertex<K>>, ed: map<Pair<K>, Edge<K>>, adj: map<K, seq<Edge<K>>>,
                      ends: map<Edge<K>, (K, K)>, p: Pair<K>, q: Pair<K>)
    requires EdgeIndexOk(vd, ed, adj, ends) && p in ed && q in ed && ed[p] == ed[q]
    ensures p == q
  {
    EdgeAt(vd, ed, adj, ends, p);
    EdgeAt(vd, ed, adj, ends, q);
  }

  /** The edge index without the entries whose edge record is in `es`. */
  ghost function Restrict<K>(ed: map<Pair<K>, Edge<K>>, es: seq<Edge<K>>): map<Pair<K>, Edge<K>> {
    map p | p in ed && ed[p] !in es :: ed[p]
  }

  /** Removing one more edge record from the index drops exactly its own pair. */
  lemma RestrictStep<K>(vd: map<K, Vertex<K>>, ed: map<Pair<K>, Edge<K>>, adj: map<K, seq<Edge<K>>>,
                        ends: map<Edge<K>, (K, K)>, es: seq<Edge<K>>, i: nat, p: Pair<K>)
    requires EdgeIndexOk(vd, ed, adj, ends) && i < |es| && p in ed && ed[p] == es[i]
    ensures Restrict(ed, es[..i + 1]) == Restrict(ed, es[..i]) - {p}
  {
    assert es[..i + 1] == es[..i] + [es[i]];
    forall q | q in ed && ed[q] == es[i] ensures q == p {
      EdgeUnique(vd, ed, adj, ends, q, p);
    }
  }

  /** Once the whole adjacency list of `x` is gone, what remains are the pairs without `x`. */
  lemma RestrictIncident<K>(vs: seq<Vertex<K>>, vd: map<K, Vertex<K>>, ed: map<Pair<K>, Edge<K>>,
                            adj: map<K, seq<Edge<K>>>, ends: map<Edge<K>, (K, K)>, x: K)
    requires GraphInv(vs, vd, ed, adj, ends) && x in adj
    ensures Restrict(ed, adj[x]) == map p | p in ed && x !in p :: ed[p]
  {
    forall p | p in ed ensures ed[p] !in adj[x] <==> x !in p {
      IncidentIff(vs, vd, ed, adj, ends, x, p);
    }
  }

  /*
   * The records in the heap agree with the invariant's values: each vertex
   * record holds the adjacency list of its key, and each edge record's handles
   * name the vertices of its endpoints. Each predicate reads only the records
   * it speaks of, so an update of other records, or of the graph's own fields,
   * leaves it intact.
   */

  ghost predicate ListsMirror<K>(vd: map<K, Vertex<K>>, adj: map<K, seq<Edge<K>>>)
    reads vd.Values
  {
    forall k {:trigger Has(vd, k)} :: k in vd ==> k in adj && vd[k].edges == adj[k]
  }

  ghost predicate EndsMirror<K>(vd: map<K, Vertex<K>>, ends: map<Edge<K>, (K, K)>)
    reads ends.Keys
  {
    forall e: Edge<K> {:trigger Has(ends, e)} :: e in ends ==>
      && ends[e].0 in vd && ends[e].1 in vd
      && e.nodeA == vd[ends[e].0] && e.nodeB == vd[ends[e].1]
  }

  lemma ListsMirrorAt<K>(vd: map<K, Vertex<K>>, adj: map<K, seq<Edge<K>>>, k: K)
    requires ListsMirror(vd, adj) && k in vd
    ensures k in adj && vd[k].edges == adj[k]
  {
    assert Has(vd, k);
  }

  lemma EndsMirrorAt<K>(vd: map<K, Vertex<K>>, ends: map<Edge<K>, (K, K)>, e: Edge<K>)
    requires EndsMirror(vd, ends) && e in ends
    ensures ends[e].0 in vd && ends[e].1 in vd
    ensures e.nodeA == vd[ends[e].0] && e.nodeB == vd[ends[e].1]
  {
    assert Has(ends, e);
  }

  /** A new vertex record with an empty list mirrors the list of its new key. */
  lemma ListsMirrorAddVertex<K>(vd: map<K, Vertex<K>>, adj: map<K, seq<Edge<K>>>, v: Vertex<K>)
    requires ListsMirror(vd, adj) && v.edges == []
    ensures ListsMirror(vd[v.key := v], adj[v.key := []])
  {
    var vd', adj' := vd[v.key := v], adj[v.key := []];
    forall k | k in vd' ensures k in adj' && vd'[k].edges == adj'[k] {
      if k != v.key {
        assert Has(vd, k);
      }
    }
  }

  /** Edge handles keep naming the same records when another vertex is indexed. */
  lemma EndsMirrorAddVertex<K>(vd: map<K, Vertex<K>>, ends: map<Edge<K>, (K, K)>, v: Vertex<K>)
    requires EndsMirror(vd, ends) && v.key !in vd
    ensures EndsMirror(vd[v.key := v], ends)
  {
    forall e: Edge<K> | e in ends
      ensures && ends[e].0 in vd[v.key := v] && ends[e].1 in vd[v.key := v]
              && e.nodeA == vd[v.key := v][ends[e].0] && e.nodeB == vd[v.key := v][ends[e].1]
    {
      assert Has(ends, e);
    }
  }

  lemma EndsMirrorAddEdge<K>(vd: map<K, Vertex<K>>, ends: map<Edge<K>, (K, K)>, e: Edge<K>, u: K, v: K)
    requires EndsMirror(vd, ends) && u in vd && v in vd && e.nodeA == vd[u] && e.nodeB == vd[v]
    ensures EndsMirror(vd, ends[e := (u, v)])
  {
    forall f: Edge<K> | f in ends[e := (u, v)]
      ensures && ends[e := (u, v)][f].0 in vd && ends[e := (u, v)][f].1 in vd
              && f.nodeA == vd[ends[e := (u, v)][f].0] && f.nodeB == vd[ends[e := (u, v)][f].1]
    {
      if f != e {
        assert Has(ends, f);
      }
    }
  }

  lemma EndsMirrorRemoveEdge<K>(vd: map<K, Vertex<K>>, ends: map<Edge<K>, (K, K)>, e: Edge<K>)
    requires EndsMirror(vd, ends)
    ensures EndsMirror(vd, ends - {e})
  {
    forall f: Edge<K> | f in ends - {e}
      ensures && ends[f].0 in vd && ends[f].1 in vd && f.nodeA == vd[ends[f].0] && f.nodeB == vd[ends[f].1]
    {
      assert Has(ends, f);
    }
  }

  /** Once a vertex has no incident edges, dropping it keeps both mirrors. */
  lemma MirrorRemoveVertex<K>(vs: seq<Vertex<K>>, vd: map<K, Vertex<K>>, ed: map<Pair<K>, Edge<K>>,
                              adj: map<K, seq<Edge<K>>>, ends: map<Edge<K>, (K, K)>, x: K)
    requires GraphInv(vs, vd, ed, adj, ends) && ListsMirror(vd, adj) && EndsMirror(vd, ends)
    requires x in adj && adj[x] == []
    ensures ListsMirror(vd - {x}, adj - {x}) && EndsMirror(vd - {x}, ends)
  {
    forall k | k in vd - {x} ensures k in adj - {x} && (vd - {x})[k].edges == (adj - {x})[k] {
      assert Has(vd, k);
    }
    forall e: Edge<K> | e in ends
      ensures && ends[e].0 in vd - {x} && ends[e].1 in vd - {x}
              && e.nodeA == (vd - {x})[ends[e].0] && e.nodeB == (vd - {x})[ends[e].1]
    {
      assert Has(ends, e);
      RecordAt(vd, ed, adj, ends, e);
    }
  }

  /** The weight of every edge of the edge index `ed`, by unordered pair. */
  ghost function WeightsOf<K>(ed: map<Pair<K>, Edge<K>>): (w: map<Pair<K>, int>)
    reads ed.Values
    ensures w.Keys == ed.Keys
  {
    map p | p in ed :: ed[p].edgeWeight
  }

  lemma WeightsOfUpdate<K>(ed: map<Pair<K>, Edge<K>>, p: Pair<K>, e: Edge<K>)
    ensures WeightsOf(ed[p := e]) == WeightsOf(ed)[p := e.edgeWeight]
  {
  }

  lemma WeightsOfRemove<K>(ed: map<Pair<K>, Edge<K>>, p: Pair<K>)
    ensures WeightsOf(ed - {p}) == WeightsOf(ed) - {p}
  {
  }

  lemma WeightsOfRestrict<K>(ed: map<Pair<K>, Edge<K>>, s: set<Pair<K>>)
    ensures WeightsOf(ed - s) == map p | p in WeightsOf(ed) && p !in s :: WeightsOf(ed)[p]
  {
  }

  /** The entries of `m` whose key is in `s`. */
  function Keep<A, B>(m: map<A, B>, s: set<A>): (r: map<A, B>)
    ensures r.Keys == m.Keys * s
  {
    map a | a in m && a in s :: m[a]
  }

  lemma KeepRemove<A, B>(m: map<A, B>, s: set<A>, a: A)
    ensures Keep(m, s) - {a} == Keep(m, s - {a})
  {
  }

  /** Keeping the pairs of an index without `x` is dropping the pairs that mention `x`. */
  lemma KeepIncident<K, V>(m: map<Pair<K>, V>, ed: map<Pair<K>, Edge<K>>, x: K)
    requires m.Keys == ed.Keys
    ensures Keep(m, (map p | p in ed && x !in p :: ed[p]).Keys) == map p | p in m && x !in p :: m[p]
  {
  }

  /** The handles and weight of an edge record, as read at one moment. */
  datatype EdgeView<K> = EdgeView(nodeA: Vertex?<K>, nodeB: Vertex?<K>, weight: int)

  /** The views of the edge records of a list, in list order. */
  ghost function Views<K>(es: seq<Edge<K>>): (r: seq<EdgeView<K>>)
    reads es
    ensures |r| == |es|
  {
    seq(|es|, i reads es requires 0 <= i < |es| => EdgeView(es[i].nodeA, es[i].nodeB, es[i].edgeWeight))
  }

  lemma ViewAt<K>(es: seq<Edge<K>>, i: nat)
    requires i < |es|
    ensures Views(es)[i] == EdgeView(es[i].nodeA, es[i].nodeB, es[i].edgeWeight)
  {
  }

  /** The handle of the edge viewed as `e` that leads away from `vtx`; null when neither handle names `vtx`. */
  function Away<K>(e: EdgeView<K>, vtx: Vertex<K>): Vertex?<K> {
    if e.nodeA == vtx then e.nodeB else if e.nodeB == vtx then e.nodeA else null
  }

  /**
   * The neighbour keys and edge weights collected by walking an adjacency
   * list of the vertex record `vtx` from the front: the neighbour is the other
   * handle of the edge (the vertex itself for a self-edge), and a neighbour
   * already collected is skipped.
   */
  ghost function Collected<K>(es: seq<EdgeView<K>>, vtx: Vertex<K>): (r: (seq<K>, seq<int>))
    ensures |r.0| == |r.1| <= |es|
  {
    if es == [] then ([], [])
    else
      var pre := Collected(es[..|es| - 1], vtx);
      var nb := Away(es[|es| - 1], vtx);
      if nb != null && nb.key !in pre.0 then (pre.0 + [nb.key], pre.1 + [es[|es| - 1].weight]) else pre
  }

  /** The walk never collects a neighbour twice, whatever the list holds. */
  lemma {:induction false} CollectedDistinct<K>(es: seq<EdgeView<K>>, vtx: Vertex<K>)
    ensures Distinct(Collected(es, vtx).0)
  {
    if es != [] {
      var pre := Collected(es[..|es| - 1], vtx);
      CollectedDistinct(es[..|es| - 1], vtx);
      var r := Collected(es, vtx).0;
      if r != pre.0 {
        var x := r[|r| - 1];
        assert r == pre.0 + [x] && x !in pre.0;
        forall i, j | 0 <= i < j < |r| ensures r[i] != r[j] {
          if j == |pre.0| {
            assert r[i] == pre.0[i];
          }
        }
      }
    }
  }

  /** One more step of the walk: the edge at index `j` adds its other handle unless already collected. */
  lemma CollectedStep<K>(es: seq<EdgeView<K>>, vtx: Vertex<K>, j: nat)
    requires j < |es|
    ensures var pre, nb := Collected(es[..j], vtx), Away(es[j], vtx);
      Collected(es[..j + 1], vtx) ==
        if nb != null && nb.key !in pre.0 then (pre.0 + [nb.key], pre.1 + [es[j].weight]) else pre
  {
    assert es[..j + 1][..j] == es[..j];
  }

  /**
   * Every edge of the adjacency list of `k` is recorded with `k` as one of
   * its ends, and the edges lead to pairwise different neighbours.
   */
  ghost predicate FanOut<K>(adj: map<K, seq<Edge<K>>>, ends: map<Edge<K>, (K, K)>, k: K)
    requires k in adj
  {
    && (forall i :: 0 <= i < |adj[k]| ==> adj[k][i] in ends && (ends[adj[k][i]].0 == k || ends[adj[k][i]].1 == k))
    && (forall i, j :: 0 <= i < j < |adj[k]| ==> OtherEnd(ends, adj[k][i], k) != OtherEnd(ends, adj[k][j], k))
  }

  /**
   * When the adjacency list of `k` fans out to different neighbours, every
   * edge of it contributes its other end and its weight, in list order: no
   * handle is missing and no neighbour repeats.
   */
  lemma {:induction false} CollectedAll<K>(vs: seq<Vertex<K>>, vd: map<K, Vertex<K>>, adj: map<K, seq<Edge<K>>>,
                                           ends: map<Edge<K>, (K, K)>, k: K, n: nat)
    requires VerticesOk(vs, vd) && EndsMirror(vd, ends) && k in vd && k in adj && n <= |adj[k]| && FanOut(adj, ends, k)
    ensures |Collected(Views(adj[k])[..n], vd[k]).0| == n
    ensures forall i :: 0 <= i < n ==>
      && Collected(Views(adj[k])[..n], vd[k]).0[i] == OtherEnd(ends, adj[k][i], k)
      && Collected(Views(adj[k])[..n], vd[k]).1[i] == adj[k][i].edgeWeight
  {
    if n > 0 {
      var es := Views(adj[k]);
      CollectedAll(vs, vd, adj, ends, k, n - 1);
      CollectedStep(es, vd[k], n - 1);
      var e := adj[k][n - 1];
      EndsMirrorAt(vd, ends, e);
      var a, b := ends[e].0, ends[e].1;
      assert Has(vd, a) && Has(vd, b) && Has(vd, k);
      var pre := Collected(es[..n - 1], vd[k]);
      forall i | 0 <= i < n - 1 ensures pre.0[i] != OtherEnd(ends, e, k) {
        assert OtherEnd(ends, adj[k][i], k) != OtherEnd(ends, adj[k][n - 1], k);
      }
    }
  }

  class WUGraph<K(==,0)> {
    /** The vertex index: key to vertex record. */
    var vertexDict: map<K, Vertex<K>>
    /** The edge index: unordered vertex pair to edge record. */
    var edgeDict: map<Pair<K>, Edge<K>>
    /** The vertex list, in insertion order. */
    var vertices: seq<Vertex<K>>
    /** The adjacency list of every vertex, by key. */
    ghost var Adj: map<K, seq<Edge<K>>>
    /** The endpoint keys of every indexed edge: (key of nodeA, key of nodeB). */
    ghost var Ends: map<Edge<K>, (K, K)>
    ghost var Repr: set<object>

    ghost predicate Valid()
      reads this, Repr
    {
      && this in Repr && vertexDict.Values <= Repr && edgeDict.Values <= Repr && Ends.Keys <= Repr
      && GraphInv(vertices, vertexDict, edgeDict, Adj, Ends)
      && ListsMirror(vertexDict, Adj) && EndsMirror(vertexDict, Ends)
    }

    /** The vertex keys in insertion order. */
    ghost function Keys(): seq<K>
      reads this
    {
      KeysOf(vertices)
    }

    /** The weight of every edge, by unordered pair. */
    ghost function Weights(): map<Pair<K>, int>
      reads this, edgeDict.Values
    {
      WeightsOf(edgeDict)
    }

    constructor ()
      ensures Valid() && fresh(Repr)
      ensures Keys() == [] && Weights() == map[] && Adj == map[]
    {
      vertexDict := map[];
      edgeDict := map[];
      vertices := [];
      Adj := map[];
      Ends := map[];
      Repr := {this};
    }

    /**
     * Every non-self edge sits in two adjacency lists and a self-edge in one,
     * so the degrees sum to twice the number of edges less the self-edges.
     */
    lemma Handshake()
      requires Valid()
      ensures DegreeSum(Keys(), Adj) == 2 * |edgeDict| - |SelfLoops(edgeDict.Keys)|
    {
      assert DegreesOk(vertices, edgeDict, Adj);
    }

    function VertexCount(): (n: nat)
      requires Valid()
      reads this, Repr
      ensures n == |vertexDict| == |Keys()|
    {
      assert VerticesOk(vertices, vertexDict);
      assert vertexDict.Keys == set v | v in vertices :: v.key by {
        forall k | k in vertexDict ensures k in set v | v in vertices :: v.key {
          KeyAt(vertices, vertexDict, k);
        }
        forall v | v in vertices ensures v.key in vertexDict {
          var i :| 0 <= i < |vertices| && vertices[i] == v;
          VertexAt(vertices, vertexDict, i);
        }
      }
      DistinctKeys(vertices, vertexDict);
      DistinctKeysCount(vertices);
      |vertices|
    }

    function EdgeCount(): (n: nat)
      requires Valid()
      reads this, Repr, edgeDict.Values
      ensures n == |Weights()|
    {
      assert Weights().Keys == edgeDict.Keys;
      |edgeDict|
    }

    function IsVertex(k: K): (b: bool)
      requires Valid()
      reads this, Repr
      ensures b <==> k in Keys()
    {
      IndexMatchesList(vertices, vertexDict, k);
      k in vertexDict
    }

    function Degree(k: K): (d: nat)
      requires Valid()
      reads this, Repr
      ensures !IsVertex(k) ==> d == 0
      ensures IsVertex(k) ==> k in Adj && d == |Adj[k]|
    {
      if k in vertexDict then
        ListsMirrorAt(vertexDict, Adj, k);
        vertexDict[k].Degree()
      else
        0
    }

    function IsEdge(u: K, v: K): (b: bool)
      requires Valid()
      reads this, Repr, edgeDict.Values
      ensures b <==> PairOf(u, v) in Weights() && PairOf(v, u) in Weights()
      ensures b ==> IsVertex(u) && IsVertex(v)
    {
      PairEquality(u, v, v, u);
      if PairOf(u, v) in edgeDict then
        EdgeAt(vertexDict, edgeDict, Adj, Ends, PairOf(u, v));
        var e := edgeDict[PairOf(u, v)];
        PairEquality(u, v, Ends[e].0, Ends[e].1);
        true
      else
        false
    }

    function Weight(u: K, v: K): (w: int)
      requires Valid()
      reads this, Repr, edgeDict.Values
      ensures IsEdge(u, v) ==> w == Weights()[PairOf(u, v)] == Weights()[PairOf(v, u)]
      ensures !IsEdge(u, v) ==> w == 0
    {
      PairEquality(u, v, v, u);
      if PairOf(u, v) in edgeDict then edgeDict[PairOf(u, v)].GetWeight() else 0
    }

    /**
     * A fresh array of the vertex keys, in insertion order, one per vertex.
     * The vertex list is walked from the front while fewer than
     * `VertexCount()` keys have been copied.
     */
    method GetVertices() returns (vertexList: array<K>)
      requires Valid()
      ensures fresh(vertexList) && vertexList[..] == Keys()
    {
      var count := VertexCount();
      vertexList := new K[count];
      var i := 0;
      while i < |vertices| && i < count
        invariant 0 <= i <= count
        invariant vertexList[..i] == Keys()[..i]
      {
        vertexList[i] := vertices[i].key;
        i := i + 1;
      }
    }

    /**
     * The neighbours of `k` and the weights of the edges to them, as two fresh
     * arrays of equal length; None when `k` is not a vertex or has degree 0.
     */
    method GetNeighbors(k: K) returns (r: Option<Neighbors<K>>)
      requires Valid()
      ensures r.None? <==> !IsVertex(k) || Degree(k) == 0
      ensures r.Some? ==>
        && fresh(r.value.neighborList) && fresh(r.value.weightList)
        && k in vertexDict && k in Adj
        && (r.value.neighborList[..], r.value.weightList[..]) == Collected(Views(Adj[k]), vertexDict[k])
    {
      if !IsVertex(k) {
        return None;
      }
      var vertexObj := vertexDict[k];
      var degree := vertexObj.Degree();
      if degree == 0 {
        ListsMirrorAt(vertexDict, Adj, k);
        return None;
      }
      ListsMirrorAt(vertexDict, Adj, k);
      var neighbors, weights, index := Collect(vertexObj, degree);
      var neighborList := CopyOf(neighbors, index);
      var weightList := CopyOf(weights, index);
      r := Some(Neighbors(neighborList, weightList));
    }

    /**
     * Walks the adjacency list of `vertexObj` into fresh arrays of `degree`
     * slots, skipping neighbours already collected; the first `index` slots
     * are filled.
     */
    static method Collect(vertexObj: Vertex<K>, degree: nat)
      returns (neighbors: array<K>, weights: array<int>, index: nat)
      requires degree == |vertexObj.edges|
      ensures fresh(neighbors) && fresh(weights)
      ensures index <= neighbors.Length && index <= weights.Length
      ensures (neighbors[..index], weights[..index]) == Collected(old(Views(vertexObj.edges)), vertexObj)
    {
      var es := vertexObj.edges;
      ghost var views := Views(es);
      neighbors := new K[degree];
      weights := new int[degree];
      var j := 0;
      index := 0;
      ghost var ns, ws := [], [];
      while j < |es| && index < degree
        invariant 0 <= index <= j <= |es| && index <= degree
        invariant ns == Collected(views[..j], vertexObj).0 && ws == Collected(views[..j], vertexObj).1
        invariant neighbors[..index] == ns && weights[..index] == ws
        invariant views == old(Views(es))
      {
        var edge := es[j];
        CollectedStep(views, vertexObj, j);
        assert views[j] == old(EdgeView(es[j].nodeA, es[j].nodeB, es[j].edgeWeight));
        var neighborNode: Vertex?<K> := null;
        if edge.nodeA == vertexObj {
          neighborNode := edge.nodeB;
        } else if edge.nodeB == vertexObj {
          neighborNode := edge.nodeA;
        }
        assert neighborNode == Away(views[j], vertexObj);
        if neighborNode != null {
          var alreadyAdded := Seen(neighbors, index, neighborNode.key);
          if !alreadyAdded {
            Put(neighbors, weights, index, neighborNode.key, edge.GetWeight());
            ns, ws := ns + [neighborNode.key], ws + [edge.edgeWeight];
            index := index + 1;
          }
        }
        j := j + 1;
      }
      assert views[..j] == views;
    }

    /** Stores a neighbour and its weight in slot `n` of the two arrays. */
    static method Put(neighbors: array<K>, weights: array<int>, n: nat, key: K, w: int)
      requires n < neighbors.Length && n < weights.Length && neighbors as object != weights as object
      modifies neighbors, weights
      ensures neighbors[..n + 1] == old(neighbors[..n]) + [key]
      ensures weights[..n + 1] == old(weights[..n]) + [w]
    {
      neighbors[n] := key;
      weights[n] := w;
    }

    /** Whether `key` is among the first `n` collected neighbours, scanning from the front. */
    static method Seen(neighbors: array<K>, n: nat, key: K) returns (alreadyAdded: bool)
      requires n <= neighbors.Length
      ensures alreadyAdded <==> key in neighbors[..n]
    {
      alreadyAdded := false;
      var i := 0;
      while i < n
        invariant 0 <= i <= n
        invariant key !in neighbors[..i]
      {
        if neighbors[i] == key {
          alreadyAdded := true;
          break;
        }
        i := i + 1;
      }
    }

    /**
     * What `GetNeighbors` collects for a vertex: one neighbour per incident
     * edge, so exactly `Degree(k)` of them, none repeated, each joined to `k` by
     * an edge of the listed weight, and every edge at `k` reaching one of them.
     */
    lemma NeighborsOf(k: K)
      requires Valid() && k in vertexDict
      ensures k in Adj
      ensures |Collected(Views(Adj[k]), vertexDict[k]).0| == Degree(k)
      ensures Distinct(Collected(Views(Adj[k]), vertexDict[k]).0)
      ensures forall i :: 0 <= i < Degree(k) ==>
        && PairOf(k, Collected(Views(Adj[k]), vertexDict[k]).0[i]) in Weights()
        && Weights()[PairOf(k, Collected(Views(Adj[k]), vertexDict[k]).0[i])] == Collected(Views(Adj[k]), vertexDict[k]).1[i]
      ensures forall p :: p in Weights() && k in p ==>
        exists i :: 0 <= i < Degree(k) && p == PairOf(k, Collected(Views(Adj[k]), vertexDict[k]).0[i])
    {
      ListsMirrorAt(vertexDict, Adj, k);
      var es := Adj[k];
      CollectedDistinct(Views(es), vertexDict[k]);
      forall i | 0 <= i < |es| ensures es[i] in Ends && (Ends[es[i]].0 == k || Ends[es[i]].1 == k) {
        ListAt(vertexDict, Adj, Ends, k, es[i]);
      }
      forall i, j | 0 <= i < j < |es| ensures OtherEnd(Ends, es[i], k) != OtherEnd(Ends, es[j], k) {
        NeighborsDistinct(vertices, vertexDict, edgeDict, Adj, Ends, k, i, j);
      }
      CollectedAll(vertices, vertexDict, Adj, Ends, k, |es|);
      assert Views(es)[..|es|] == Views(es);
      var c := Collected(Views(es), vertexDict[k]);
      forall i | 0 <= i < |es|
        ensures PairOf(k, c.0[i]) in Weights() && Weights()[PairOf(k, c.0[i])] == c.1[i]
      {
        NeighborEdge(vertices, vertexDict, edgeDict, Adj, Ends, k, es[i]);
      }
      forall p | p in Weights() && k in p ensures exists i :: 0 <= i < |es| && p == PairOf(k, c.0[i]) {
        IncidentListed(vertices, vertexDict, edgeDict, Adj, Ends, k, p);
        var i :| 0 <= i < |es| && es[i] == edgeDict[p];
      }
    }

    /** No key occurs twice in the vertex list. */
    lemma KeysDistinct()
      requires Valid()
      ensures Distinct(Keys())
    {
      DistinctKeys(vertices, vertexDict);
    }

    /**
     * `Weight` reads the edge index: the weight stored under the pair {u, v},
     * or 0 when there is none; both ends of an indexed pair are vertices.
     */
    lemma WeightOf(u: K, v: K)
      requires Valid()
      ensures Weight(u, v) == if PairOf(u, v) in Weights() then Weights()[PairOf(u, v)] else 0
      ensures PairOf(u, v) in Weights() ==> u in Keys() && v in Keys()
    {
      PairEquality(u, v, v, u);
      if PairOf(u, v) in Weights() {
        assert IsEdge(u, v);
        assert IsVertex(u) && IsVertex(v);
      }
    }

    /**
     * Adds a vertex with no incident edges. A null key (None) or a key that is
     * already a vertex leaves the graph unchanged; otherwise the key becomes
     * the last vertex in insertion order.
     */
    method AddVertex(x: Option<K>)
      requires Valid()
      modifies this
      ensures Valid() && fresh(Repr - old(Repr))
      ensures x.None? || x.value in old(vertexDict) ==> unchanged(this)
      ensures x.Some? && x.value !in old(vertexDict) ==>
        && Keys() == old(Keys()) + [x.value]
        && Adj == old(Adj)[x.value := []]
        && edgeDict == old(edgeDict)
      ensures Weights() == old(Weights())
    {
      if x.None? {
        return;
      }
      var key := x.value;
      if key !in vertexDict {
        var newVertex := new Vertex(key);
        Attach(newVertex);
      }
    }

    /** Appends a new vertex record to the vertex list and inserts it in the vertex index. */
    method Attach(v: Vertex<K>)
      requires Valid() && v.key !in vertexDict && v.edges == [] && v !in Repr
      modifies this
      ensures Valid() && Repr == old(Repr) + {v}
      ensures vertices == old(vertices) + [v] && Keys() == old(Keys()) + [v.key]
      ensures Adj == old(Adj)[v.key := []] && edgeDict == old(edgeDict)
    {
      AddVertexKeeps(vertices, vertexDict, edgeDict, Adj, Ends, v);
      ListsMirrorAddVertex(vertexDict, Adj, v);
      EndsMirrorAddVertex(vertexDict, Ends, v);
      IndexVertex(v);
    }

    /** Enters the vertex record `v` at the back of the vertex list and in the vertex index. */
    method IndexVertex(v: Vertex<K>)
      modifies this
      ensures vertices == old(vertices) + [v] && vertexDict == old(vertexDict)[v.key := v]
      ensures Adj == old(Adj)[v.key := []] && Repr == old(Repr) + {v}
      ensures edgeDict == old(edgeDict) && Ends == old(Ends)
    {
      vertices, vertexDict, Adj, Repr := vertices + [v], vertexDict[v.key := v], Adj[v.key := []], Repr + {v};
    }

    /**
     * Adds the edge (u, v) with the given weight, or updates the weight if the
     * edge exists. If u or v is not a vertex the graph is unchanged. Self-edges
     * are allowed.
     */
    method AddEdge(u: K, v: K, weight: int)
      requires Valid()
      modifies Repr
      ensures Valid() && fresh(Repr - old(Repr))
      ensures !(old(IsVertex(u)) && old(IsVertex(v))) ==> Repr == old(Repr) && unchanged(Repr)
      ensures old(IsVertex(u)) && old(IsVertex(v)) ==>
        && Weights() == old(Weights())[PairOf(u, v) := weight]
        && vertices == old(vertices) && vertexDict == old(vertexDict)
        && IsEdge(u, v) && IsEdge(v, u) && Weight(u, v) == Weight(v, u) == weight
      ensures old(IsEdge(u, v)) ==> edgeDict == old(edgeDict) && Adj == old(Adj)
      ensures old(IsVertex(u)) && old(IsVertex(v)) && !old(IsEdge(u, v)) ==>
        && PairOf(u, v) in edgeDict && edgeDict == old(edgeDict)[PairOf(u, v) := edgeDict[PairOf(u, v)]]
        && u in old(Adj) && v in old(Adj) && Adj == AdjAdd(old(Adj), u, v, edgeDict[PairOf(u, v)])
    {
      if IsVertex(u) && IsVertex(v) {
        if IsEdge(u, v) {
          EdgeAt(vertexDict, edgeDict, Adj, Ends, PairOf(u, v));
          Reweigh(PairOf(u, v), weight);
        } else {
          Link(u, v, weight);
          WeightsOfUpdate(old(edgeDict), PairOf(u, v), edgeDict[PairOf(u, v)]);
        }
      }
    }

    /** Overwrites the weight of the edge indexed under `p`. */
    method Reweigh(p: Pair<K>, weight: int)
      requires Valid() && p in edgeDict
      modifies edgeDict[p]
      ensures edgeDict[p].edgeWeight == weight
      ensures Valid() && Weights() == old(Weights())[p := weight]
    {
      EdgeAt(vertexDict, edgeDict, Adj, Ends, p);
      var e := edgeDict[p];
      forall q | q in edgeDict && q != p ensures edgeDict[q] != e {
        EdgeAt(vertexDict, edgeDict, Adj, Ends, q);
      }
      e.SetWeight(weight);
      forall f: Edge<K> | f in Ends
        ensures && Ends[f].0 in vertexDict && Ends[f].1 in vertexDict
                && f.nodeA == vertexDict[Ends[f].0] && f.nodeB == vertexDict[Ends[f].1]
      {
        assert Has(Ends, f);
      }
    }

    /**
     * Creates the record of a new edge (u, v) whose handles name the nodes it
     * will own in the adjacency lists of u and v, and inserts it. Both handles
     * of a self-edge name the one node it owns.
     */
    method Link(u: K, v: K, weight: int)
      requires Valid() && u in vertexDict && v in vertexDict && PairOf(u, v) !in edgeDict
      modifies this, vertexDict[u], vertexDict[v]
      ensures Valid() && PairOf(u, v) in edgeDict && fresh(edgeDict[PairOf(u, v)])
      ensures Repr == old(Repr) + {edgeDict[PairOf(u, v)]}
      ensures vertices == old(vertices) && vertexDict == old(vertexDict)
      ensures edgeDict == old(edgeDict)[PairOf(u, v) := edgeDict[PairOf(u, v)]]
      ensures u in old(Adj) && v in old(Adj) && Adj == AdjAdd(old(Adj), u, v, edgeDict[PairOf(u, v)])
      ensures edgeDict[PairOf(u, v)].edgeWeight == weight
    {
      var e := new Edge(vertexDict[u], vertexDict[v], weight);
      Insert(u, v, e);
    }

    /**
     * Indexes the edge record `e` under the pair {u, v} and appends it to the
     * adjacency list of u and, unless the edge is a self-edge, of v.
     */
    method Insert(u: K, v: K, e: Edge<K>)
      requires Valid() && u in vertexDict && v in vertexDict && PairOf(u, v) !in edgeDict
      requires e !in Repr && e.nodeA == vertexDict[u] && e.nodeB == vertexDict[v]
      modifies this, vertexDict[u], vertexDict[v]
      ensures Valid() && Repr == old(Repr) + {e}
      ensures vertices == old(vertices) && vertexDict == old(vertexDict)
      ensures edgeDict == old(edgeDict)[PairOf(u, v) := e]
      ensures u in old(Adj) && v in old(Adj) && Adj == AdjAdd(old(Adj), u, v, e)
    {
      var vertexU, vertexV := vertexDict[u], vertexDict[v];
      AddEdgeKeeps(vertices, vertexDict, edgeDict, Adj, Ends, u, v, e);
      EndsMirrorAddEdge(vertexDict, Ends, e, u, v);
      assert Has(vertexDict, u) && Has(vertexDict, v);
      Append(vertexU, vertexV, e);
      forall k | k in vertexDict ensures k in AdjAdd(Adj, u, v, e) && vertexDict[k].edges == AdjAdd(Adj, u, v, e)[k] {
        assert Has(vertexDict, k);
      }
      IndexEdge(u, v, e);
    }

    /**
     * Inserts a node for `e` at the back of the adjacency list of `a` and,
     * when `b` is a different vertex, of `b`.
     */
    static method Append(a: Vertex<K>, b: Vertex<K>, e: Edge<K>)
      modifies a, b
      ensures a.edges == old(a.edges) + [e]
      ensures a != b ==> b.edges == old(b.edges) + [e]
    {
      a.edges := a.edges + [e];
      if a != b {
        b.edges := b.edges + [e];
      }
    }

    /** Enters the edge record `e` of the new edge (u, v) in the edge index. */
    method IndexEdge(u: K, v: K, e: Edge<K>)
      requires u in Adj && v in Adj
      modifies this
      ensures edgeDict == old(edgeDict)[PairOf(u, v) := e] && Adj == AdjAdd(old(Adj), u, v, e)
      ensures Ends == old(Ends)[e := (u, v)] && Repr == old(Repr) + {e}
      ensures vertices == old(vertices) && vertexDict == old(vertexDict)
    {
      edgeDict, Adj, Ends, Repr := edgeDict[PairOf(u, v) := e], AdjAdd(Adj, u, v, e), Ends[e := (u, v)], Repr + {e};
    }

    /** Takes the edge record `e` of the edge (a, b), indexed under `p`, out of the edge index. */
    method UnindexEdge(p: Pair<K>, ghost a: K, ghost b: K, e: Edge<K>)
      requires a in Adj && b in Adj
      modifies this
      ensures edgeDict == old(edgeDict) - {p} && Adj == AdjRemove(old(Adj), a, b, e) && Ends == old(Ends) - {e}
      ensures vertices == old(vertices) && vertexDict == old(vertexDict) && Repr == old(Repr)
    {
      edgeDict, Adj, Ends := edgeDict - {p}, AdjRemove(Adj, a, b, e), Ends - {e};
    }

    /**
     * Removes the node of `e` from the adjacency list of `a` and, when `b` is
     * not null, from that of `b`; for a self-edge the second removal finds the
     * node already gone.
     */
    static method Detach(a: Vertex<K>, b: Vertex?<K>, e: Edge<K>)
      modifies a, b
      ensures a.edges == Without(old(a.edges), e)
      ensures b != null && b != a ==> b.edges == Without(old(b.edges), e)
    {
      a.edges := Without(a.edges, e);
      if b != null {
        WithoutTwice(old(a.edges), e);
        b.edges := Without(b.edges, e);
      }
    }

    /**
     * Removes the edge (u, v). If it is not an edge the graph is unchanged.
     * The edge leaves the edge index and both adjacency lists; a self-edge
     * leaves the one list that holds it.
     */
    method RemoveEdge(u: K, v: K)
      requires Valid()
      modifies this, vertexDict.Values
      ensures Valid() && Repr == old(Repr)
      ensures !old(IsEdge(u, v)) ==> Repr == old(Repr) && unchanged(Repr)
      ensures !IsEdge(u, v)
      ensures old(IsEdge(u, v)) ==>
        && Weights() == old(Weights()) - {PairOf(u, v)}
        && vertices == old(vertices) && vertexDict == old(vertexDict)
        && edgeDict == old(edgeDict) - {PairOf(u, v)}
        && u in old(Adj) && v in old(Adj) && Adj == AdjRemove(old(Adj), u, v, old(edgeDict)[PairOf(u, v)])
    {
      if IsEdge(u, v) {
        WeightsOfRemove(edgeDict, PairOf(u, v));
        Unlink(u, v);
      }
    }

    /** Removes the edge (u, v) from the edge index and detaches both of its nodes. */
    method Unlink(u: K, v: K)
      requires Valid() && u in vertexDict && v in vertexDict && PairOf(u, v) in edgeDict
      modifies this, vertexDict[u], vertexDict[v]
      ensures Valid() && Repr == old(Repr)
      ensures vertices == old(vertices) && vertexDict == old(vertexDict)
      ensures edgeDict == old(edgeDict) - {PairOf(u, v)}
      ensures u in old(Adj) && v in old(Adj) && Adj == AdjRemove(old(Adj), u, v, old(edgeDict)[PairOf(u, v)])
    {
      var edge := edgeDict[PairOf(u, v)];
      RemoveEdgeKeeps(vertices, vertexDict, edgeDict, Adj, Ends, PairOf(u, v));
      EndsMirrorAt(vertexDict, Ends, edge);
      EndsMirrorRemoveEdge(vertexDict, Ends, edge);
      PairEquality(u, v, Ends[edge].0, Ends[edge].1);
      AdjRemoveSwap(Adj, u, v, edge);
      assert Has(vertexDict, u) && Has(vertexDict, v);
      UnindexEdge(PairOf(u, v), u, v, edge);
      Detach(edge.nodeA, edge.nodeB, edge);
      forall k | k in vertexDict ensures k in Adj && vertexDict[k].edges == Adj[k] {
        assert Has(vertexDict, k);
        AdjRemoveAt(old(Adj), u, v, edge, k);
      }
    }

    /**
     * Removes a vertex and every edge incident on it. If the key is not a
     * vertex the graph is unchanged.
     */
    method RemoveVertex(x: K)
      requires Valid()
      modifies this, vertexDict.Values
      ensures Valid() && Repr == old(Repr)
      ensures x !in old(vertexDict) ==> unchanged(this, vertexDict.Values)
      ensures x in old(vertexDict) ==>
        && Keys() == Without(old(Keys()), x)
        && Weights() == map p | p in old(Weights()) && x !in p :: old(Weights())[p]
    {
      if IsVertex(x) {
        RemoveIncidentEdges(x);
        Unlist(x);
      }
    }

    /**
     * The cascade of `RemoveVertex`: removes, one by one, every edge in a
     * snapshot of the adjacency list of `x`, through `RemoveEdge`.
     */
    method RemoveIncidentEdges(x: K)
      requires Valid() && x in vertexDict
      modifies this, vertexDict.Values
      ensures Valid() && Repr == old(Repr)
      ensures vertices == old(vertices) && vertexDict == old(vertexDict)
      ensures x in Adj && Adj[x] == []
      ensures Weights() == map p | p in old(Weights()) && x !in p :: old(Weights())[p]
    {
      var vertexObj := vertexDict[x];
      ListsMirrorAt(vertexDict, Adj, x);
      var edgesToRemove := vertexObj.edges;
      ghost var ed0, w0 := edgeDict, Weights();
      RestrictIncident(vertices, vertexDict, edgeDict, Adj, Ends, x);
      var i := 0;
      while i < |edgesToRemove|
        invariant 0 <= i <= |edgesToRemove|
        invariant Valid() && Repr == old(Repr)
        invariant vertices == old(vertices) && vertexDict == old(vertexDict)
        invariant x in Adj && Adj[x] == edgesToRemove[i..]
        invariant edgeDict == Restrict(ed0, edgesToRemove[..i])
        invariant Weights() == Keep(w0, edgeDict.Keys)
      {
        ghost var keys := edgeDict.Keys;
        ghost var p := RemoveIncident(x, edgesToRemove[i]);
        RestrictStep(vertexDict, ed0, old(Adj), old(Ends), edgesToRemove, i, p);
        KeepRemove(w0, keys, p);
        i := i + 1;
      }
      KeepIncident(w0, ed0, x);
    }

    /** Removes the edge at the front of the adjacency list of `x`, as `RemoveEdge` on its endpoints. */
    method RemoveIncident(x: K, edge: Edge<K>) returns (ghost p: Pair<K>)
      requires Valid() && x in Adj && Adj[x] != [] && Adj[x][0] == edge
      modifies this, vertexDict.Values
      ensures Valid() && Repr == old(Repr)
      ensures vertices == old(vertices) && vertexDict == old(vertexDict)
      ensures x in Adj && Adj[x] == old(Adj)[x][1..]
      ensures p in old(edgeDict) && old(edgeDict)[p] == edge && edgeDict == old(edgeDict) - {p}
      ensures Weights() == old(Weights()) - {p}
    {
      ListDistinct(vertexDict, Adj, Ends, x);
      ListAt(vertexDict, Adj, Ends, x, edge);
      RecordAt(vertexDict, edgeDict, Adj, Ends, edge);
      EndsMirrorAt(vertexDict, Ends, edge);
      ghost var a, b := Ends[edge].0, Ends[edge].1;
      assert Has(vertexDict, a) && Has(vertexDict, b);
      p := PairOf(a, b);
      RemoveEdge(edge.nodeA.key, edge.nodeB.key);
      AdjRemoveAt(old(Adj), a, b, edge, x);
      WithoutFront(old(Adj)[x]);
    }

    /** Takes a vertex with no incident edges out of the vertex index and the vertex list. */
    method Unlist(x: K)
      requires Valid() && x in vertexDict && x in Adj && Adj[x] == []
      modifies this
      ensures Valid() && Repr == old(Repr)
      ensures Keys() == Without(old(Keys()), x)
      ensures vertexDict == old(vertexDict) - {x} && Adj == old(Adj) - {x} && edgeDict == old(edgeDict)
    {
      var vertexObj := vertexDict[x];
      KeyAt(vertices, vertexDict, x);
      var j := Find(vertices, vertexObj);
      RemoveVertexKeeps(vertices, vertexDict, edgeDict, Adj, Ends, x, j);
      MirrorRemoveVertex(vertices, vertexDict, edgeDict, Adj, Ends, x);
      UnindexVertex(x, j);
    }

    /** Takes the vertex `x`, at position `j` of the vertex list, out of the vertex index and the list. */
    method UnindexVertex(x: K, j: nat)
      requires j < |vertices|
      modifies this
      ensures vertexDict == old(vertexDict) - {x} && vertices == old(vertices[..j] + vertices[j + 1..])
      ensures Adj == old(Adj) - {x} && edgeDict == old(edgeDict) && Ends == old(Ends) && Repr == old(Repr)
    {
      vertexDict, vertices, Adj := vertexDict - {x}, vertices[..j] + vertices[j + 1..], Adj - {x};
    }

    /** The position of the record `v` in the vertex list, found by walking the list from the front. */
    static method Find(vs: seq<Vertex<K>>, v: Vertex<K>) returns (j: nat)
      requires v in vs
      ensures j < |vs| && vs[j] == v && v !in vs[..j]
    {
      j := 0;
      while vs[j] != v
        invariant j < |vs| && v in vs[j..] && v !in vs[..j]
        decreases |vs| - j
      {
        j := j + 1;
      }
    }
  }

  /** A fresh array holding the first `n` items of `a`. */
  method CopyOf<T>(a: array<T>, n: nat) returns (b: array<T>)
    requires n <= a.Length
    ensures fresh(b) && b[..] == a[..n]
  {
    b := new T[n](i reads a requires 0 <= i < n => a[i]);
  }
}
