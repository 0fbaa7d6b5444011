/**
 * Kruskal's minimum spanning forest over a weighted undirected graph: the
 * candidate edges are gathered from every vertex's neighbours, sorted by
 * weight, and each is kept when its ends lie in different sets of a
 * disjoint-set structure, whose sets are then merged.
 */
module Kruskal {
  import opened Seqs
  import opened Graph
  import opened Sorting
  import opened Forests
  import opened UnionFind

  /**
   * A candidate drawn from a graph with vertex keys `ks` and edge weights
   * `w`: both ends are vertices and {a, b} is an edge whose weight is the
   * candidate's and positive.
   */
  ghost predicate FromGraph<K>(ks: seq<K>, w: map<Pair<K>, int>, c: Cand<K>) {
    c.a in ks && c.b in ks && PairOf(c.a, c.b) in w && w[PairOf(c.a, c.b)] == c.weight && c.weight > 0
  }

  /** The vertex numbering: the key at position i of `ks` is numbered i, and only those keys are numbered. */
  ghost predicate Dense<K>(hashed: map<K, nat>, ks: seq<K>) {
    && (forall i :: 0 <= i < |ks| ==> ks[i] in hashed && hashed[ks[i]] == i)
    && (forall k :: k in hashed ==> k in ks)
  }

  /** Numbering one more key, which the list does not hold yet, with the next number. */
  lemma DenseSnoc<K>(hashed: map<K, nat>, ks: seq<K>, k: K)
    requires Dense(hashed, ks) && k !in ks
    ensures Dense(hashed[k := |ks|], ks + [k])
  {
    var ks' := ks + [k];
    forall i | 0 <= i < |ks'| ensures ks'[i] in hashed[k := |ks|] && hashed[k := |ks|][ks'[i]] == i {
      if i < |ks| {
        assert ks'[i] == ks[i];
      }
    }
  }

  /** A numbered key sits at the position given by its number. */
  lemma DenseAt<K>(hashed: map<K, nat>, ks: seq<K>, k: K)
    requires Dense(hashed, ks) && k in hashed
    ensures hashed[k] < |ks| && ks[hashed[k]] == k
  {
    var i :| 0 <= i < |ks| && ks[i] == k;
  }

  /**
   * The candidates one vertex contributes from its first `i` neighbours, in
   * neighbour order: one per neighbour that the edge index joins to it with a
   * positive weight, carrying the weight listed with that neighbour.
   */
  ghost function Picked<K>(w: map<Pair<K>, int>, vertex: K, ns: seq<K>, ws: seq<int>, i: nat): (r: seq<Cand<K>>)
    requires i <= |ns| == |ws|
    ensures |r| <= i
  {
    if i == 0 then []
    else
      Picked(w, vertex, ns, ws, i - 1)
        + if PairOf(vertex, ns[i - 1]) in w && w[PairOf(vertex, ns[i - 1])] > 0 then [Cand(ws[i - 1], vertex, ns[i - 1])] else []
  }

  /** Every candidate a vertex contributes is drawn from the graph. */
  lemma {:induction false} PickedFromGraph<K>(ks: seq<K>, w: map<Pair<K>, int>, vertex: K, ns: seq<K>, ws: seq<int>, i: nat)
    requires i <= |ns| == |ws| && vertex in ks
    requires forall j :: 0 <= j < |ns| ==> ns[j] in ks && PairOf(vertex, ns[j]) in w && w[PairOf(vertex, ns[j])] == ws[j]
    ensures forall c :: c in Picked(w, vertex, ns, ws, i) ==> FromGraph(ks, w, c)
  {
    if i > 0 {
      PickedFromGraph(ks, w, vertex, ns, ws, i - 1);
    }
  }

  /** Whether the graph joins `vertex` and `n` by an edge of positive weight. */
  method Positive<K(==,0)>(g: WUGraph<K>, ghost w: map<Pair<K>, int>, vertex: K, n: K) returns (keep: bool)
    requires g.Valid() && w == g.Weights()
    ensures keep <==> PairOf(vertex, n) in w && w[PairOf(vertex, n)] > 0
  {
    g.WeightOf(vertex, n);
    keep := g.Weight(vertex, n) > 0;
  }

  /**
   * Walks the neighbours of `vertex` and their weights, collecting a
   * candidate for each neighbour whose edge to `vertex` has positive weight;
   * `w` is the graph's edge weights.
   */
  method Scan<K(==,0)>(g: WUGraph<K>, ghost w: map<Pair<K>, int>, vertex: K, neighbors: Neighbors<K>)
    returns (found: seq<Cand<K>>)
    requires g.Valid() && w == g.Weights()
    requires neighbors.neighborList.Length == neighbors.weightList.Length
    ensures found == Picked(w, vertex, neighbors.neighborList[..], neighbors.weightList[..], neighbors.neighborList.Length)
  {
    var neighborList, weightList := neighbors.neighborList, neighbors.weightList;
    ghost var ns, ws := neighborList[..], weightList[..];
    found := [];
    for i := 0 to neighborList.Length
      invariant found == Picked(w, vertex, ns, ws, i)
    {
      var keep := Positive(g, w, vertex, neighborList[i]);
      if i < neighborList.Length && keep {
        found := found + [Cand(weightList[i], vertex, neighborList[i])];
      }
    }
  }

  /** Writes `found` into `edges` from `at` on. */
  method Store<K>(edges: array<Cand<K>>, at: nat, found: seq<Cand<K>>) returns (next: nat)
    requires at + |found| <= edges.Length
    modifies edges
    ensures next == at + |found|
    ensures edges[..next] == old(edges[..at]) + found
    ensures edges[..at] == old(edges[..at])
  {
    ghost var pre := edges[..at];
    next := at;
    for i := 0 to |found|
      invariant next == at + i
      invariant edges[..next] == pre + found[..i]
    {
      edges[next] := found[i];
      next := next + 1;
    }
  }

  /**
   * The neighbours `ns` of `vertex`, with the weights `ws` of the edges to
   * them, as a graph with vertex keys `ks` and edge weights `w` lists them:
   * each is a vertex joined to `vertex` by an edge of the listed weight, and
   * every edge at `vertex` leads to one of them.
   */
  ghost predicate NeighbourArrays<K>(ks: seq<K>, w: map<Pair<K>, int>, vertex: K, ns: seq<K>, ws: seq<int>) {
    && |ns| == |ws|
    && (forall j :: 0 <= j < |ns| ==> ns[j] in ks && PairOf(vertex, ns[j]) in w && w[PairOf(vertex, ns[j])] == ws[j])
    && (forall p :: p in w && vertex in p ==> exists j :: 0 <= j < |ns| && p == PairOf(vertex, ns[j]))
  }

  /** The arrays `GetNeighbors` returns list the neighbours of the vertex, one per adjacency-list entry. */
  lemma NeighboursListed<K(0)>(g: WUGraph<K>, k: K, ns: seq<K>, ws: seq<int>)
    requires g.Valid() && k in g.vertexDict && k in g.Adj
    requires (ns, ws) == Collected(Views(g.Adj[k]), g.vertexDict[k])
    ensures NeighbourArrays(g.Keys(), g.Weights(), k, ns, ws) && |ns| == |g.Adj[k]|
  {
    g.NeighborsOf(k);
    forall j | 0 <= j < |ns| ensures ns[j] in g.Keys() {
      g.WeightOf(k, ns[j]);
    }
  }

  /** A vertex for which `GetNeighbors` finds nothing has an empty adjacency list and no edge. */
  lemma IsolatedListed<K(0)>(g: WUGraph<K>, k: K)
    requires g.Valid() && g.IsVertex(k) && g.Degree(k) == 0
    ensures NeighbourArrays(g.Keys(), g.Weights(), k, [], []) && k in g.Adj && |g.Adj[k]| == 0
  {
    g.NeighborsOf(k);
  }

  /** The candidates a vertex contributes include one for each of its positive-weight edges. */
  lemma {:induction false} PickedHas<K>(w: map<Pair<K>, int>, vertex: K, ns: seq<K>, ws: seq<int>, i: nat, j: nat)
    requires j < i <= |ns| == |ws|
    requires PairOf(vertex, ns[j]) in w && w[PairOf(vertex, ns[j])] > 0
    ensures Cand(ws[j], vertex, ns[j]) in Picked(w, vertex, ns, ws, i)
  {
    if j < i - 1 {
      PickedHas(w, vertex, ns, ws, i - 1, j);
    }
  }

  /** Every positive-weight edge at `k` has ends equal to some candidate's. */
  ghost predicate CoveredAt<K>(w: map<Pair<K>, int>, cs: seq<Cand<K>>, k: K) {
    forall p :: p in w && k in p && w[p] > 0 ==> exists c :: c in cs && PairOf(c.a, c.b) == p
  }

  /**
   * The state of the candidate gathering after the first `vi` vertices of
   * `ks`: the candidates `cs` number no more than the adjacency entries seen,
   * each is drawn from the graph, and every positive-weight edge at a vertex
   * seen is among them.
   */
  ghost predicate Gathered<K>(ks: seq<K>, w: map<Pair<K>, int>, adj: map<K, seq<Edge<K>>>, vi: nat, cs: seq<Cand<K>>) {
    && vi <= |ks|
    && |cs| <= DegreeSum(ks[..vi], adj)
    && (forall c :: c in cs ==> FromGraph(ks, w, c))
    && (forall j :: 0 <= j < vi ==> CoveredAt(w, cs, ks[j]))
  }

  /** Appending candidates keeps every edge covered that was covered, and covers the edges at the new vertex. */
  lemma CoverStep<K>(w: map<Pair<K>, int>, cs: seq<Cand<K>>, ks: seq<K>, vi: nat, ns: seq<K>, ws: seq<int>)
    requires vi < |ks| && NeighbourArrays(ks, w, ks[vi], ns, ws)
    requires forall j :: 0 <= j < vi ==> CoveredAt(w, cs, ks[j])
    ensures forall j :: 0 <= j <= vi ==> CoveredAt(w, cs + Picked(w, ks[vi], ns, ws, |ns|), ks[j])
  {
    var vertex := ks[vi];
    var cs' := cs + Picked(w, vertex, ns, ws, |ns|);
    forall j | 0 <= j < vi ensures CoveredAt(w, cs', ks[j]) {
      forall p | p in w && ks[j] in p && w[p] > 0 ensures exists c :: c in cs' && PairOf(c.a, c.b) == p {
        assert CoveredAt(w, cs, ks[j]);
        var c :| c in cs && PairOf(c.a, c.b) == p;
        assert c in cs';
      }
    }
    forall p | p in w && vertex in p && w[p] > 0 ensures exists c :: c in cs' && PairOf(c.a, c.b) == p {
      var i :| 0 <= i < |ns| && p == PairOf(vertex, ns[i]);
      PickedHas(w, vertex, ns, ws, |ns|, i);
      assert Cand(ws[i], vertex, ns[i]) in cs';
    }
    assert CoveredAt(w, cs', ks[vi]);
  }

  /** Visiting the next vertex adds the candidates its neighbours give. */
  lemma GatherStep<K>(ks: seq<K>, w: map<Pair<K>, int>, adj: map<K, seq<Edge<K>>>, vi: nat,
                      cs: seq<Cand<K>>, ns: seq<K>, ws: seq<int>)
    requires Gathered(ks, w, adj, vi, cs) && vi < |ks|
    requires ks[vi] in adj && |ns| == |adj[ks[vi]]| && NeighbourArrays(ks, w, ks[vi], ns, ws)
    ensures Gathered(ks, w, adj, vi + 1, cs + Picked(w, ks[vi], ns, ws, |ns|))
  {
    DegreeSumPrefix(ks, adj, vi);
    PickedFromGraph(ks, w, ks[vi], ns, ws, |ns|);
    CoverStep(w, cs, ks, vi, ns, ws);
  }

  /**
   * The neighbour walk for the `vi`-th of the graph's keys `ks`: the
   * candidates its neighbours give are appended to `edges` from `edgeIndex` on.
   */
  method Visit<K(==,0)>(g: WUGraph<K>, ghost ks: seq<K>, ghost w: map<Pair<K>, int>, ghost adj: map<K, seq<Edge<K>>>,
                        vertex: K, ghost vi: nat, edges: array<Cand<K>>, edgeIndex: nat)
    returns (next: nat)
    requires g.Valid() && g.Keys() == ks && g.Weights() == w && g.Adj == adj && edges !in g.Repr
    requires vi < |ks| && ks[vi] == vertex && DegreeSum(ks, adj) <= edges.Length
    requires edgeIndex <= edges.Length && Gathered(ks, w, adj, vi, edges[..edgeIndex])
    modifies edges
    ensures edgeIndex <= next <= edges.Length && edges[..edgeIndex] == old(edges[..edgeIndex])
    ensures Gathered(ks, w, adj, vi + 1, edges[..next])
  {
    ghost var cs := edges[..edgeIndex];
    var r := g.GetNeighbors(vertex);
    DegreeSumPrefix(ks, adj, vi);
    if r.Some? {
      ghost var ns, ws := r.value.neighborList[..], r.value.weightList[..];
      NeighboursListed(g, vertex, ns, ws);
      var found := Scan(g, w, vertex, r.value);
      GatherStep(ks, w, adj, vi, cs, ns, ws);
      next := Store(edges, edgeIndex, found);
    } else {
      IsolatedListed(g, vertex);
      GatherStep(ks, w, adj, vi, cs, [], []);
      assert cs + Picked(w, vertex, [], [], 0) == cs;
      next := edgeIndex;
    }
  }

  /**
   * The candidate half of the vertex loop of the spanning-tree construction:
   * the candidates the neighbours of every vertex in `vertexList` give are
   * appended to `edges`, vertex by vertex.
   */
  method Gather<K(==,0)>(g: WUGraph<K>, vertexList: array<K>, edges: array<Cand<K>>) returns (edgeIndex: nat)
    requires g.Valid() && vertexList[..] == g.Keys() && edges !in g.Repr && edges as object != vertexList
    requires edges.Length == 2 * |g.Weights()|
    modifies edges
    ensures edgeIndex <= edges.Length
    ensures Gathered(g.Keys(), g.Weights(), g.Adj, |g.Keys()|, edges[..edgeIndex])
  {
    ghost var ks, w, adj := g.Keys(), g.Weights(), g.Adj;
    g.Handshake();
    assert w.Keys == g.edgeDict.Keys;
    edgeIndex := 0;
    for vi := 0 to vertexList.Length
      invariant g.Valid() && g.Keys() == ks && g.Weights() == w && g.Adj == adj
      invariant edgeIndex <= edges.Length && Gathered(ks, w, adj, vi, edges[..edgeIndex])
    {
      edgeIndex := Visit(g, ks, w, adj, vertexList[vi], vi, edges, edgeIndex);
    }
    assert ks[..|ks|] == ks;
  }

  /**
   * One step of the tree half of the vertex loop: the next key of `ks` is
   * added to the tree as a vertex and numbered by its position.
   */
  method AddNumbered<K(==,0)>(t: WUGraph<K>, hashed: map<K, nat>, ghost ks: seq<K>, vertex: K, vertMap: nat)
    returns (hashed': map<K, nat>)
    requires Distinct(ks) && vertMap < |ks| && ks[vertMap] == vertex
    requires t.Valid() && t.Keys() == ks[..vertMap] && t.Weights() == map[] && Dense(hashed, ks[..vertMap])
    modifies t
    ensures t.Valid() && t.Keys() == ks[..vertMap + 1] && t.Weights() == map[] && fresh(t.Repr - old(t.Repr))
    ensures Dense(hashed', ks[..vertMap + 1])
  {
    assert ks[..vertMap + 1] == ks[..vertMap] + [vertex];
    assert !t.IsVertex(vertex) by {
      assert vertex !in ks[..vertMap];
    }
    t.AddVertex(Some(vertex));
    DenseSnoc(hashed, ks[..vertMap], vertex);
    hashed' := hashed[vertex := vertMap];
  }

  /**
   * The tree half of the vertex loop: a new graph to which every key of
   * `vertexList` is added as a vertex, in order, each numbered by its position.
   */
  method AddVertices<K(==,0)>(vertexList: array<K>) returns (t: WUGraph<K>, hashed: map<K, nat>)
    requires Distinct(vertexList[..])
    ensures t.Valid() && fresh(t.Repr) && t.Keys() == vertexList[..] && t.Weights() == map[]
    ensures Dense(hashed, vertexList[..])
  {
    t := new WUGraph();
    ghost var ks := vertexList[..];
    hashed := map[];
    var vertMap := 0;
    for vi := 0 to vertexList.Length
      invariant t.Valid() && t.Keys() == ks[..vi] && t.Weights() == map[] && fresh(t.Repr)
      invariant vertMap == vi && Dense(hashed, ks[..vi])
    {
      hashed := AddNumbered(t, hashed, ks, vertexList[vi], vertMap);
      vertMap := vertMap + 1;
    }
    assert ks[..|ks|] == ks;
  }

  /**
   * The labels `lab` (the disjoint-set parents, indexed by vertex number) track
   * the connectivity of the links over the vertex keys `ks`: two vertices share
   * a label exactly when the links connect them.
   */
  ghost predicate Tracks<K(!new)>(lab: seq<nat>, ks: seq<K>, links: seq<(K, K)>) {
    && |lab| == |ks|
    && forall x, y :: 0 <= x < |ks| && 0 <= y < |ks| ==> (lab[x] == lab[y] <==> Connected(links, ks[x], ks[y]))
  }

  /** Both ends of every link are vertex keys. */
  ghost predicate LinkEnds<K>(links: seq<(K, K)>, ks: seq<K>) {
    forall i :: 0 <= i < |links| ==> links[i].0 in ks && links[i].1 in ks
  }

  /** A key listed twice carries one label. */
  lemma LabelOfKey<K(!new)>(lab: seq<nat>, ks: seq<K>, links: seq<(K, K)>, i: nat, j: nat)
    requires Tracks(lab, ks, links) && i < |ks| && j < |ks| && ks[i] == ks[j]
    ensures lab[i] == lab[j]
  {
    ConnectedSelf(links, ks[i]);
  }

  /**
   * After the set labelled lab[y0] is merged into the set labelled lab[x0]
   * and the link (ks[x0], ks[y0]) is added, the ends of every link share a label.
   */
  lemma JoinedLabel<K(!new)>(lab: seq<nat>, ks: seq<K>, links: seq<(K, K)>, x0: nat, y0: nat, i: nat, j: nat)
    requires Tracks(lab, ks, links) && x0 < |ks| && y0 < |ks| && lab[x0] != lab[y0]
    requires i < |ks| && j < |ks| && Joined(links + [(ks[x0], ks[y0])], ks[i], ks[j])
    ensures Relabel(lab, lab[y0], lab[x0])[i] == Relabel(lab, lab[y0], lab[x0])[j]
  {
    var links' := links + [(ks[x0], ks[y0])];
    var k :| 0 <= k < |links'| && (links'[k] == (ks[i], ks[j]) || links'[k] == (ks[j], ks[i]));
    if k < |links| {
      assert links'[k] == links[k];
      ConnectedJoined(links, ks[i], ks[j]);
    } else {
      assert ks[i] in {ks[x0], ks[y0]} && ks[j] in {ks[x0], ks[y0]};
      if ks[i] == ks[x0] { LabelOfKey(lab, ks, links, i, x0); } else { LabelOfKey(lab, ks, links, i, y0); }
      if ks[j] == ks[x0] { LabelOfKey(lab, ks, links, j, x0); } else { LabelOfKey(lab, ks, links, j, y0); }
    }
  }

  /** The ends of every link carry one label. */
  ghost predicate LinksAgree<K(!new)>(lab: seq<nat>, ks: seq<K>, links: seq<(K, K)>) {
    && |lab| == |ks| && LinkEnds(links, ks)
    && forall i, j :: 0 <= i < |ks| && 0 <= j < |ks| && Joined(links, ks[i], ks[j]) ==> lab[i] == lab[j]
  }

  /** When the ends of every link carry one label, every vertex on a walk carries the label of its start. */
  lemma {:induction false} WalkLabel<K(!new)>(lab: seq<nat>, ks: seq<K>, links: seq<(K, K)>, wk: seq<K>, n: nat, x: nat)
    requires LinksAgree(lab, ks, links) && IsWalk(links, wk) && n < |wk| && x < |ks| && ks[x] == wk[0]
    ensures exists i :: 0 <= i < |ks| && ks[i] == wk[n] && lab[i] == lab[x]
  {
    if n > 0 {
      WalkLabel(lab, ks, links, wk, n - 1, x);
      var i :| 0 <= i < |ks| && ks[i] == wk[n - 1] && lab[i] == lab[x];
      WalkStep(links, wk, n - 1);
      var k :| 0 <= k < |links| && (links[k] == (wk[n - 1], wk[n]) || links[k] == (wk[n], wk[n - 1]));
      assert wk[n] in ks;
      var j :| 0 <= j < |ks| && ks[j] == wk[n];
    }
  }

  /** A vertex in either merged set is connected, over the grown links, to ks[x0]. */
  lemma MergedToX0<K(!new)>(lab: seq<nat>, ks: seq<K>, links: seq<(K, K)>, x0: nat, y0: nat, z: nat)
    requires Tracks(lab, ks, links) && x0 < |ks| && y0 < |ks| && z < |ks|
    requires lab[z] == lab[x0] || lab[z] == lab[y0]
    ensures Connected(links + [(ks[x0], ks[y0])], ks[z], ks[x0])
  {
    var e := (ks[x0], ks[y0]);
    if lab[z] == lab[x0] {
      ConnectedGrow(links, e, ks[z], ks[x0]);
    } else {
      ConnectedGrow(links, e, ks[z], ks[y0]);
      assert (links + [e])[|links|] == e;
      ConnectedJoined(links + [e], ks[x0], ks[y0]);
      ConnectedTrans(links + [e], ks[z], ks[y0], ks[x0]);
    }
  }

  /**
   * Merging the set of ks[y0] into the set of ks[x0], when they differ, tracks
   * the links grown by the link (ks[x0], ks[y0]).
   */
  lemma UnionTracks<K(!new)>(lab: seq<nat>, ks: seq<K>, links: seq<(K, K)>, x0: nat, y0: nat)
    requires Tracks(lab, ks, links) && LinkEnds(links, ks) && x0 < |ks| && y0 < |ks| && lab[x0] != lab[y0]
    ensures Tracks(Relabel(lab, lab[y0], lab[x0]), ks, links + [(ks[x0], ks[y0])])
  {
    var lab', links' := Relabel(lab, lab[y0], lab[x0]), links + [(ks[x0], ks[y0])];
    forall i, j | 0 <= i < |ks| && 0 <= j < |ks| && Joined(links', ks[i], ks[j]) ensures lab'[i] == lab'[j] {
      JoinedLabel(lab, ks, links, x0, y0, i, j);
    }
    forall i | 0 <= i < |links'| ensures links'[i].0 in ks && links'[i].1 in ks {
      if i < |links| {
        assert links'[i] == links[i];
      }
    }
    assert LinksAgree(lab', ks, links');
    forall x, y | 0 <= x < |ks| && 0 <= y < |ks| ensures lab'[x] == lab'[y] <==> Connected(links', ks[x], ks[y]) {
      RelabelSame(lab, lab[y0], lab[x0], x, y);
      if lab'[x] == lab'[y] {
        if lab[x] == lab[y] {
          ConnectedGrow(links, (ks[x0], ks[y0]), ks[x], ks[y]);
        } else {
          MergedToX0(lab, ks, links, x0, y0, x);
          MergedToX0(lab, ks, links, x0, y0, y);
          ConnectedSym(links', ks[y], ks[x0]);
          ConnectedTrans(links', ks[x], ks[x0], ks[y]);
        }
      }
      if Connected(links', ks[x], ks[y]) {
        var wk :| IsWalk(links', wk) && wk[0] == ks[x] && wk[|wk| - 1] == ks[y];
        WalkLabel(lab', ks, links', wk, |wk| - 1, x);
        var i :| 0 <= i < |ks| && ks[i] == ks[y] && lab'[i] == lab'[x];
        LabelOfKey(lab, ks, links, i, y);
      }
    }
  }

  /** The vertex pairs the links join. */
  ghost function PairsOf<K>(links: seq<(K, K)>): set<Pair<K>> {
    set i | 0 <= i < |links| :: PairOf(links[i].0, links[i].1)
  }

  /** A grown link list joins one more pair. */
  lemma PairsSnoc<K>(links: seq<(K, K)>, e: (K, K))
    ensures PairsOf(links + [e]) == PairsOf(links) + {PairOf(e.0, e.1)}
  {
    var links' := links + [e];
    forall p | p in PairsOf(links') ensures p in PairsOf(links) + {PairOf(e.0, e.1)} {
      var i :| 0 <= i < |links'| && p == PairOf(links'[i].0, links'[i].1);
      if i < |links| {
        assert links'[i] == links[i];
      }
    }
    forall p | p in PairsOf(links) ensures p in PairsOf(links') {
      var i :| 0 <= i < |links| && p == PairOf(links[i].0, links[i].1);
      assert links'[i] == links[i];
    }
    assert links'[|links|] == e;
  }

  /** The links of a forest join pairwise different pairs, one pair per link. */
  lemma {:induction false} PairsOfAcyclic<K(!new)>(links: seq<(K, K)>)
    requires Acyclic(links)
    ensures |PairsOf(links)| == |links|
  {
    if links != [] {
      var n := |links| - 1;
      var pre := links[..n];
      assert Acyclic(pre) by {
        forall i | 0 <= i < |pre| ensures !Connected(pre[..i], pre[i].0, pre[i].1) {
          assert pre[..i] == links[..i];
        }
      }
      PairsOfAcyclic(pre);
      assert links == pre + [links[n]];
      PairsSnoc(pre, links[n]);
      assert PairOf(links[n].0, links[n].1) !in PairsOf(pre) by {
        if PairOf(links[n].0, links[n].1) in PairsOf(pre) {
          var i :| 0 <= i < |pre| && PairOf(links[n].0, links[n].1) == PairOf(pre[i].0, pre[i].1);
          PairEquality(links[n].0, links[n].1, pre[i].0, pre[i].1);
          AcyclicSimple(links, i, n);
          assert false;
        }
      }
    }
  }

  /**
   * The state of the greedy loop over the vertex keys `ks` of a graph with
   * edge weights `w`, after the candidates `done`: the disjoint-set labels
   * `lab` track the accepted links, which form a forest over the vertices
   * with one set fewer per link; the tree's edge weights `tw` are exactly the
   * links' pairs, each with its positive weight in the graph; and the ends of
   * every candidate seen are connected.
   */
  ghost predicate Spanning<K(!new)>(lab: seq<nat>, ks: seq<K>, links: seq<(K, K)>, tw: map<Pair<K>, int>,
                                    w: map<Pair<K>, int>, done: seq<Cand<K>>) {
    && Tracks(lab, ks, links) && LinkEnds(links, ks) && Acyclic(links)
    && |links| + |Roots(lab)| == |ks|
    && tw.Keys == PairsOf(links)
    && (forall p :: p in tw ==> p in w && tw[p] == w[p] && w[p] > 0)
    && (forall c :: c in done ==> Connected(links, c.a, c.b))
  }

  /** The greedy-loop state holds once each of its parts does. */
  lemma SpanningIntro<K(!new)>(lab: seq<nat>, ks: seq<K>, links: seq<(K, K)>, tw: map<Pair<K>, int>,
                               w: map<Pair<K>, int>, done: seq<Cand<K>>)
    requires Tracks(lab, ks, links) && LinkEnds(links, ks) && Acyclic(links)
    requires |links| + |Roots(lab)| == |ks|
    requires tw.Keys == PairsOf(links)
    requires forall p :: p in tw ==> p in w && tw[p] == w[p] && w[p] > 0
    requires forall c :: c in done ==> Connected(links, c.a, c.b)
    ensures Spanning(lab, ks, links, tw, w, done)
  {
  }

  /** Before any candidate: every vertex alone, no links, no tree edges. */
  lemma SpanningStart<K(!new)>(ks: seq<K>, w: map<Pair<K>, int>)
    requires Distinct(ks)
    ensures Spanning(Identity(|ks|), ks, [], map[], w, [])
  {
    IdentityRoots(|ks|);
    forall x, y | 0 <= x < |ks| && 0 <= y < |ks| ensures x == y <==> Connected([], ks[x], ks[y]) {
      if x == y {
        ConnectedSelf([], ks[x]);
      }
      if Connected([], ks[x], ks[y]) {
        var wk :| IsWalk([], wk) && wk[0] == ks[x] && wk[|wk| - 1] == ks[y];
        if |wk| > 1 {
          WalkStep([], wk, 0);
        }
      }
    }
    assert PairsOf<K>([]) == {};
  }

  /** A candidate whose ends already share a set is skipped, and its ends are connected. */
  lemma SpanningSame<K(!new)>(lab: seq<nat>, ks: seq<K>, links: seq<(K, K)>, tw: map<Pair<K>, int>,
                              w: map<Pair<K>, int>, done: seq<Cand<K>>, c: Cand<K>, x: nat, y: nat)
    requires Spanning(lab, ks, links, tw, w, done)
    requires x < |ks| && y < |ks| && ks[x] == c.a && ks[y] == c.b && lab[x] == lab[y]
    ensures Spanning(lab, ks, links, tw, w, done + [c])
  {
  }

  /** Accepting a link between two different sets keeps the labels tracking a forest over the vertices. */
  lemma UnionForest<K(!new)>(lab: seq<nat>, ks: seq<K>, links: seq<(K, K)>, x: nat, y: nat)
    requires Tracks(lab, ks, links) && LinkEnds(links, ks) && Acyclic(links) && Rooted(lab)
    requires x < |ks| && y < |ks| && lab[x] != lab[y]
    ensures Tracks(Relabel(lab, lab[y], lab[x]), ks, links + [(ks[x], ks[y])])
    ensures LinkEnds(links + [(ks[x], ks[y])], ks) && Acyclic(links + [(ks[x], ks[y])])
    ensures |Roots(Relabel(lab, lab[y], lab[x]))| == |Roots(lab)| - 1
  {
    var e := (ks[x], ks[y]);
    var links' := links + [e];
    UnionTracks(lab, ks, links, x, y);
    AcyclicGrow(links, e);
    RelabelRoots(lab, lab[y], lab[x]);
    forall i | 0 <= i < |links'| ensures links'[i].0 in ks && links'[i].1 in ks {
      if i < |links| {
        assert links'[i] == links[i];
      }
    }
  }

  /** Accepting a link keeps the ends of every candidate seen connected, and connects its own ends. */
  lemma UnionDone<K(!new)>(links: seq<(K, K)>, done: seq<Cand<K>>, c: Cand<K>)
    requires forall d :: d in done ==> Connected(links, d.a, d.b)
    ensures forall d :: d in done + [c] ==> Connected(links + [(c.a, c.b)], d.a, d.b)
  {
    var e := (c.a, c.b);
    var links' := links + [e];
    assert links'[|links|] == e;
    ConnectedJoined(links', c.a, c.b);
    forall d | d in done ensures Connected(links', d.a, d.b) {
      ConnectedGrow(links, e, d.a, d.b);
    }
  }

  /** Accepting a link of the graph adds its pair to the tree with the graph's positive weight. */
  lemma UnionTree<K>(links: seq<(K, K)>, tw: map<Pair<K>, int>, w: map<Pair<K>, int>, ks: seq<K>, c: Cand<K>)
    requires tw.Keys == PairsOf(links) && FromGraph(ks, w, c)
    requires forall p :: p in tw ==> p in w && tw[p] == w[p] && w[p] > 0
    ensures tw[PairOf(c.a, c.b) := c.weight].Keys == PairsOf(links + [(c.a, c.b)])
    ensures forall p :: p in tw[PairOf(c.a, c.b) := c.weight] ==> p in w && tw[PairOf(c.a, c.b) := c.weight][p] == w[p] && w[p] > 0
  {
    PairsSnoc(links, (c.a, c.b));
  }

  /**
   * A candidate drawn from the graph whose ends lie in different sets is
   * accepted: the sets merge, the link joins the forest and the edge joins
   * the tree with the candidate's weight.
   */
  lemma SpanningUnion<K(!new)>(lab: seq<nat>, ks: seq<K>, links: seq<(K, K)>, tw: map<Pair<K>, int>,
                               w: map<Pair<K>, int>, done: seq<Cand<K>>, c: Cand<K>, x: nat, y: nat)
    requires Spanning(lab, ks, links, tw, w, done) && Rooted(lab) && FromGraph(ks, w, c)
    requires x < |ks| && y < |ks| && ks[x] == c.a && ks[y] == c.b && lab[x] != lab[y]
    ensures Spanning(Relabel(lab, lab[y], lab[x]), ks, links + [(c.a, c.b)], tw[PairOf(c.a, c.b) := c.weight], w, done + [c])
  {
    UnionForest(lab, ks, links, x, y);
    UnionDone(links, done, c);
    UnionTree(links, tw, w, ks, c);
    SpanningIntro(Relabel(lab, lab[y], lab[x]), ks, links + [(c.a, c.b)], tw[PairOf(c.a, c.b) := c.weight], w, done + [c]);
  }

  /**
   * One step of the greedy loop: the ends of candidate `c` are looked up in
   * the vertex numbering `hashed`; when their sets in `sets` differ, the sets
   * are merged and the edge is added to the tree `t`.
   */
  method Consider<K(==,0,!new)>(t: WUGraph<K>, sets: seq<nat>, hashed: map<K, nat>, c: Cand<K>,
                                ghost ks: seq<K>, ghost w: map<Pair<K>, int>, ghost links: seq<(K, K)>, ghost done: seq<Cand<K>>)
    returns (sets': seq<nat>, ghost links': seq<(K, K)>)
    requires t.Valid() && t.Keys() == ks && Rooted(sets)
    requires Dense(hashed, ks) && FromGraph(ks, w, c)
    requires Spanning(sets, ks, links, t.Weights(), w, done)
    modifies t.Repr
    ensures t.Valid() && t.Keys() == ks && Rooted(sets') && fresh(t.Repr - old(t.Repr))
    ensures Spanning(sets', ks, links', t.Weights(), w, done + [c])
  {
    sets', links' := sets, links;
    ghost var tw := t.Weights();
    if c.a in hashed && c.b in hashed {
      DenseAt(hashed, ks, c.a);
      DenseAt(hashed, ks, c.b);
      var vert1 := hashed[c.a];
      var vert2 := hashed[c.b];
      ghost var x, y := vert1, vert2;
      vert1 := Find(sets, vert1);
      vert2 := Find(sets, vert2);
      if vert1 != vert2 {
        SpanningUnion(sets, ks, links, tw, w, done, c, x, y);
        sets' := Union(sets, vert1, vert2);
        t.AddEdge(c.a, c.b, c.weight);
        links' := links + [(c.a, c.b)];
      } else {
        SpanningSame(sets, ks, links, tw, w, done, c, x, y);
      }
    } else {
      assert false;
    }
  }

  /**
   * The greedy loop: every candidate of `sorted`, in order, is considered
   * once; the accepted ones are returned as the links of the forest.
   */
  method Greedy<K(==,0,!new)>(t: WUGraph<K>, sets: seq<nat>, hashed: map<K, nat>, sorted: array<Cand<K>>,
                              ghost ks: seq<K>, ghost w: map<Pair<K>, int>)
    returns (sets': seq<nat>, ghost links: seq<(K, K)>)
    requires t.Valid() && t.Keys() == ks && Rooted(sets) && sorted !in t.Repr
    requires Dense(hashed, ks) && forall c :: c in sorted[..] ==> FromGraph(ks, w, c)
    requires Spanning(sets, ks, [], t.Weights(), w, [])
    modifies t.Repr
    ensures t.Valid() && t.Keys() == ks && Rooted(sets') && fresh(t.Repr - old(t.Repr))
    ensures Spanning(sets', ks, links, t.Weights(), w, sorted[..])
  {
    sets', links := sets, [];
    for i := 0 to sorted.Length
      invariant t.Valid() && t.Keys() == ks && Rooted(sets') && sorted !in t.Repr
      invariant fresh(t.Repr - old(t.Repr))
      invariant Spanning(sets', ks, links, t.Weights(), w, sorted[..i])
    {
      assert sorted[..i + 1] == sorted[..i] + [sorted[i]];
      sets', links := Consider(t, sets', hashed, sorted[i], ks, w, links, sorted[..i]);
    }
    assert sorted[..sorted.Length] == sorted[..];
  }

  /**
   * The candidate edges of `g`, gathered vertex by vertex into an array of
   * twice the edge count, copied into an array of the gathered length, and
   * sorted by weight.
   */
  method SortedCandidates<K(==,0)>(g: WUGraph<K>, vertexList: array<K>) returns (sorted: array<Cand<K>>, ghost cs: seq<Cand<K>>)
    requires g.Valid() && vertexList[..] == g.Keys()
    ensures Gathered(g.Keys(), g.Weights(), g.Adj, |g.Keys()|, cs)
    ensures sorted[..] == SortedBy(cs)
  {
    var edges := new Cand<K>[2 * g.EdgeCount()];
    var edgeIndex := Gather(g, vertexList, edges);
    cs := edges[..edgeIndex];
    var cleanEdges := CopyRange(edges, 0, edgeIndex);
    sorted := Mergesort(cleanEdges);
  }

  /**
   * The tree half of the construction: a new graph holding the keys of
   * `vertexList` as vertices, each vertex alone in a set of its own, and then
   * the greedy loop over the sorted candidates.
   */
  method Tree<K(==,0,!new)>(vertexList: array<K>, sorted: array<Cand<K>>, ghost w: map<Pair<K>, int>)
    returns (t: WUGraph<K>, ghost lab: seq<nat>, ghost links: seq<(K, K)>)
    requires Distinct(vertexList[..]) && forall c :: c in sorted[..] ==> FromGraph(vertexList[..], w, c)
    ensures t.Valid() && fresh(t.Repr) && t.Keys() == vertexList[..]
    ensures Spanning(lab, vertexList[..], links, t.Weights(), w, sorted[..])
  {
    var hashed;
    t, hashed := AddVertices(vertexList);
    var sets := Identity(vertexList.Length);
    IdentityRoots(vertexList.Length);
    SpanningStart(vertexList[..], w);
    var sets' := sets;
    sets', links := Greedy(t, sets, hashed, sorted, vertexList[..], w);
    lab := sets';
  }

  /** A positive-weight edge at a vertex that the candidates cover, all of whose ends are connected, has connected ends. */
  lemma CoveredConnected<K(!new)>(ks: seq<K>, w: map<Pair<K>, int>, adj: map<K, seq<Edge<K>>>, cs: seq<Cand<K>>,
                                  done: seq<Cand<K>>, links: seq<(K, K)>, u: K, v: K)
    requires Gathered(ks, w, adj, |ks|, cs) && multiset(done) == multiset(cs)
    requires forall c :: c in done ==> Connected(links, c.a, c.b)
    requires u in ks && PairOf(u, v) in w && w[PairOf(u, v)] > 0
    ensures Connected(links, u, v)
  {
    var j :| 0 <= j < |ks| && ks[j] == u;
    assert CoveredAt(w, cs, ks[j]);
    var c :| c in cs && PairOf(c.a, c.b) == PairOf(u, v);
    assert c in multiset(done);
    PairEquality(c.a, c.b, u, v);
    if c.a != u || c.b != v {
      ConnectedSym(links, c.a, c.b);
    }
  }

  /**
   * Kruskal's construction over `g`: a new graph with the same vertices
   * whose edges are edges of `g` with their (positive) weights; the edges
   * kept, in the order they were added, form a forest, and every
   * positive-weight edge of `g` has its ends connected by them, so the new
   * graph spans every component that the positive-weight edges form.
   */
  method MinSpanTree<K(==,0,!new)>(g: WUGraph<K>) returns (t: WUGraph<K>, ghost links: seq<(K, K)>)
    requires g.Valid()
    ensures t.Valid() && fresh(t.Repr) && t.Keys() == g.Keys()
    ensures Acyclic(links) && LinkEnds(links, g.Keys()) && t.Weights().Keys == PairsOf(links)
    ensures forall p :: p in t.Weights() ==> p in g.Weights() && t.Weights()[p] == g.Weights()[p] && g.Weights()[p] > 0
    ensures forall u, v :: PairOf(u, v) in g.Weights() && g.Weights()[PairOf(u, v)] > 0 ==> Connected(links, u, v)
    ensures |t.Weights()| == |links| && (g.Keys() != [] ==> |links| < |g.Keys()|)
  {
    ghost var ks, w, adj := g.Keys(), g.Weights(), g.Adj;
    forall u, v | PairOf(u, v) in w ensures u in ks {
      g.WeightOf(u, v);
    }
    g.KeysDistinct();
    var vertexList := g.GetVertices();
    var sorted, cs := SortedCandidates(g, vertexList);
    SortedByPermutes(cs);
    forall c | c in sorted[..] ensures FromGraph(ks, w, c) {
      assert c in multiset(cs);
    }
    ghost var lab;
    t, lab, links := Tree(vertexList, sorted, w);
    forall u, v | PairOf(u, v) in w && w[PairOf(u, v)] > 0 ensures Connected(links, u, v) {
      CoveredConnected(ks, w, adj, cs, sorted[..], links, u, v);
    }
    PairsOfAcyclic(links);
    if ks != [] {
      RootsNonEmpty(lab);
    }
  }
}
