/**
 * The edge-end handles of an edge record exactly as the graph code builds
 * them, kept apart from the rest of the model. The model proper follows the
 * documented behaviour, in which the node an edge handle names stands for a
 * vertex; the code instead redirects the handles to the list nodes whose item
 * is the edge record itself. This module follows the handles as the code
 * leaves them and shows what the two readers of those handles then see: the
 * incident-edge cascade of the vertex removal, and the neighbour walk.
 */
module AsWritten {
  import opened Seqs

  /** What a list node holds: the vertex record of a key, or the edge record with an id. */
  datatype Item<K> = VertexItem(key: K) | EdgeItem(id: nat)

  /** An edge record, seen through the items of the two nodes its handles name, and its weight. */
  datatype EdgeNodes<K> = EdgeNodes(itemA: Item<K>, itemB: Item<K>, weight: int)

  /**
   * The edge record that adding the new edge (u, v) leaves behind: both handles
   * first name fresh nodes holding the vertex records of u and v; then nodeA is
   * redirected to the node appended to the list of u, which holds the edge
   * record, and, unless u and v are one vertex, nodeB likewise to the node
   * appended to the list of v.
   */
  function AddEdgeNodes<K(==)>(id: nat, u: K, v: K, weight: int): (e: EdgeNodes<K>)
    ensures e.weight == weight
  {
    var built := EdgeNodes(VertexItem(u), VertexItem(v), weight);
    var linkedA := built.(itemA := EdgeItem(id));
    if u != v then linkedA.(itemB := EdgeItem(id)) else linkedA
  }

  /** Whether the cascade of the removal of vertex `x` marks the edge: one of its handles holds the vertex record of `x`. */
  predicate Marked<K(==)>(e: EdgeNodes<K>, x: K) {
    e.itemA == VertexItem(x) || e.itemB == VertexItem(x)
  }

  /**
   * The pair that the cascade asks the edge removal to delete for a marked
   * edge, read from the items of its two handles. A vertex record is never a
   * key of the edge index, so the items name no indexed pair at all; this
   * model is more generous and reads two vertex records as the pair of their
   * keys, and the cascade still removes nothing.
   */
  function CascadePair<K>(e: EdgeNodes<K>): (r: Option<Pair<K>>)
    ensures r.Some? <==> e.itemA.VertexItem? && e.itemB.VertexItem?
  {
    if e.itemA.VertexItem? && e.itemB.VertexItem? then Some(PairOf(e.itemA.key, e.itemB.key)) else None
  }

  /** The pairs of the edge index that the cascade of the removal of vertex `x` deletes. */
  function CascadeRemoved<K(==)>(index: map<Pair<K>, EdgeNodes<K>>, x: K): set<Pair<K>> {
    set p | p in index && x in p && Marked(index[p], x) && CascadePair(index[p]).Some? :: CascadePair(index[p]).value
  }

  /** Every record of the edge index as adding its edge left it. */
  ghost predicate AsAdded<K(!new)>(index: map<Pair<K>, EdgeNodes<K>>) {
    forall p :: p in index ==> exists id: nat, u, v :: p == PairOf(u, v) && index[p] == AddEdgeNodes(id, u, v, index[p].weight)
  }

  /**
   * The handle nodeA of every record names a node holding an edge record, so
   * the cascade never names an indexed pair: removing a vertex deletes no
   * edge at all, and every edge incident on it stays in the edge index.
   */
  lemma CascadeRemovesNothing<K(!new)>(index: map<Pair<K>, EdgeNodes<K>>, x: K)
    requires AsAdded(index)
    ensures CascadeRemoved(index, x) == {}
  {
    forall p | p in index ensures CascadePair(index[p]).None? {
      var id: nat, u, v :| p == PairOf(u, v) && index[p] == AddEdgeNodes(id, u, v, index[p].weight);
    }
  }

  /**
   * The smallest case: one edge between two distinct vertices u and v. The
   * cascade of the removal of u does not even mark it, and the pair {u, v}
   * survives the removal of u.
   */
  lemma CascadeMissesEdge<K(!new)>(u: K, v: K, weight: int)
    requires u != v
    ensures !Marked(AddEdgeNodes(0, u, v, weight), u)
    ensures CascadeRemoved(map[PairOf(u, v) := AddEdgeNodes(0, u, v, weight)], u) == {}
  {
    var index := map[PairOf(u, v) := AddEdgeNodes(0, u, v, weight)];
    assert AsAdded(index) by {
      assert index[PairOf(u, v)] == AddEdgeNodes(0, u, v, index[PairOf(u, v)].weight);
    }
    CascadeRemovesNothing(index, u);
  }

  /**
   * The neighbour the walk of an adjacency list reports for an edge: the item
   * of the node named by the other handle. `atA` says whether the list walked
   * holds the node named by nodeA.
   */
  function NeighborItem<K>(e: EdgeNodes<K>, atA: bool): Item<K> {
    if atA then e.itemB else e.itemA
  }

  /**
   * For an edge between two distinct vertices the walk reports, from either
   * end, the edge record instead of the key of the other end; for a self-edge
   * it reports the vertex record rather than its key.
   */
  lemma NeighborIsRecord<K>(id: nat, u: K, v: K, weight: int, atA: bool)
    ensures u != v ==> NeighborItem(AddEdgeNodes(id, u, v, weight), atA) == EdgeItem(id)
    ensures u == v && atA ==> NeighborItem(AddEdgeNodes(id, u, v, weight), atA) == VertexItem(v)
  {
  }
}
