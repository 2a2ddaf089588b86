// The JVector GraphIndexBuilder seen from the index lifecycle: the graph
// algorithms (neighbour selection, beam search, cleanup with bridging edges)
// live in the library and are not modelled. What is recorded, in ghost
// state, is which calls the lifecycle made on one builder instance.
module Graph {

  /** The ordinal-to-vector map 0 .. |vs|-1 that rebuilding a graph from `vs` registers. */
  function Ordinals<V>(vs: seq<V>): map<int, V>
  {
    map i | 0 <= i < |vs| :: vs[i]
  }

  class GraphBuilder<V> {
    /** The vector registered under each ordinal by addGraphNode; an ordinal in
        `removed` stays registered here although cleanup took its node out of the graph. */
    ghost var nodes: map<int, V>
    /** Every ordinal passed to markNodeDeleted. */
    ghost var marked: set<int>
    /** The marked ordinals that no cleanup call has processed yet. */
    ghost var pending: set<int>
    /** The ordinals whose tombstoned node a cleanup call has removed from the graph. */
    ghost var removed: set<int>
    /** Whether close has been called. */
    ghost var closed: bool

    /** A new builder owns an empty graph. */
    constructor ()
      ensures nodes == map[] && marked == {} && pending == {} && removed == {} && !closed
    {
      nodes, marked, pending, removed, closed := map[], {}, {}, {}, false;
    }

    /** addGraphNode: inserts the vector into the graph under `ordinal`. */
    method AddGraphNode(ordinal: int, v: V)
      requires !closed
      modifies this
      ensures nodes == old(nodes)[ordinal := v]
      ensures marked == old(marked) && pending == old(pending) && removed == old(removed)
      ensures closed == old(closed)
    {
      nodes := nodes[ordinal := v];
    }

    /** markNodeDeleted: tombstones `ordinal`; the node stays in the graph until cleanup. */
    method MarkNodeDeleted(ordinal: int)
      requires !closed
      modifies this
      ensures marked == old(marked) + {ordinal} && pending == old(pending) + {ordinal}
      ensures nodes == old(nodes) && removed == old(removed) && closed == old(closed)
    {
      marked := marked + {ordinal};
      pending := pending + {ordinal};
    }

    /** cleanup: removes every tombstoned node still in the graph from the graph structure. */
    method Cleanup()
      requires !closed
      modifies this
      ensures pending == {} && removed == old(removed) + old(pending)
      ensures nodes == old(nodes) && marked == old(marked) && closed == old(closed)
    {
      removed := removed + pending;
      pending := {};
    }

    /** close: releases the builder and its graph. */
    method Close()
      modifies this
      ensures closed
      ensures nodes == old(nodes) && marked == old(marked) && pending == old(pending)
      ensures removed == old(removed)
    {
      closed := true;
    }
  }

  /** Creates a builder and adds every vector of `vs` under its list index, in list order. */
  method BuildGraph<V>(vs: seq<V>) returns (b: GraphBuilder<V>)
    ensures fresh(b)
    ensures b.nodes == Ordinals(vs)
    ensures forall i :: i in b.nodes <==> 0 <= i < |vs|
    ensures b.marked == {} && b.pending == {} && b.removed == {} && !b.closed
  {
    b := new GraphBuilder();
    for i := 0 to |vs|
      invariant b.nodes == Ordinals(vs[..i])
      invariant b.marked == {} && b.pending == {} && b.removed == {} && !b.closed
    {
      b.AddGraphNode(i, vs[i]);
      assert Ordinals(vs[..i + 1]) == Ordinals(vs[..i])[i := vs[i]];
    }
    assert vs[..|vs|] == vs;
  }
}
