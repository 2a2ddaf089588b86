// The index lifecycle of the incremental vector-search program: the list of
// vectors, the next ordinal to hand out, the soft-deleted ordinals and the
// pending-cleanup flag, changed by add, mark-deleted, cleanup and compaction.
// Vectors are opaque (type parameter V); ordinal i always names vectorList[i].
module Incremental {
  import opened Wrappers
  import opened Compaction
  import opened Graph

  class VectorIndex<V> {
    /** The vectors in memory; the graph reads vector `i` at list index `i`. */
    var vectorList: seq<V>
    /** The ordinal the next added vector receives. */
    var nextOrdinal: int
    /** Ordinals marked deleted since the last compaction. */
    var deletedNodes: set<int>
    /** Whether a mark has happened since the last graph cleanup. */
    var needsGraphCleanup: bool
    /** The JVector builder that owns the current graph. */
    var builder: GraphBuilder<V>

    /** The lifecycle invariants, plus the agreement between this bookkeeping
        and the calls recorded on the builder. */
    ghost predicate Valid()
      reads this, builder
    {
      && nextOrdinal == |vectorList|
      && (forall id :: id in deletedNodes ==> 0 <= id < nextOrdinal)
      && (needsGraphCleanup ==> deletedNodes != {})
      && builder.nodes == Ordinals(vectorList)
      && builder.marked == deletedNodes
      && builder.pending <= builder.marked
      && builder.marked == builder.removed + builder.pending
      && (needsGraphCleanup <==> builder.pending != {})
      && !builder.closed
    }

    /** buildInitialIndex, from the point where the stored vectors have been
        read in id order: every vector is added to a fresh graph under its list
        index and nextOrdinal becomes the list size. */
    constructor BuildInitialIndex(loaded: seq<V>)
      ensures Valid() && fresh(builder)
      ensures vectorList == loaded && nextOrdinal == |loaded|
      ensures deletedNodes == {} && !needsGraphCleanup
    {
      vectorList := loaded;
      nextOrdinal := |loaded|;
      deletedNodes := {};
      needsGraphCleanup := false;
      var b := BuildGraph(loaded);
      builder := b;
    }

    /** addNewVector: appends `v`, registers it in the graph under the current
        nextOrdinal, and advances nextOrdinal by one. Writing the encoded vector
        to the table happens before and is not part of this model. */
    method AddNewVector(v: V) returns (id: int)
      requires Valid()
      modifies this, builder
      ensures Valid() && builder == old(builder)
      ensures id == old(nextOrdinal) && id == old(|vectorList|)
      ensures vectorList == old(vectorList) + [v] && vectorList[id] == v
      ensures nextOrdinal == old(nextOrdinal) + 1
      ensures builder.nodes == old(builder.nodes)[id := v]
      ensures deletedNodes == old(deletedNodes) && needsGraphCleanup == old(needsGraphCleanup)
      ensures builder.marked == old(builder.marked) && builder.pending == old(builder.pending)
      ensures builder.removed == old(builder.removed)
    {
      vectorList := vectorList + [v];
      builder.AddGraphNode(nextOrdinal, v);
      id := nextOrdinal;
      nextOrdinal := nextOrdinal + 1;
      assert Ordinals(vectorList) == Ordinals(old(vectorList))[id := v];
    }

    /** performSearch's id check: an id in [0, nextOrdinal) yields the query
        vector handed to the graph searcher (a soft-deleted id is still a valid
        query); any other id is refused and nothing happens. */
    method PerformSearch(queryId: int) returns (query: Option<V>)
      requires Valid()
      ensures query.Some? <==> 0 <= queryId < nextOrdinal
      ensures query.Some? ==> query.value == vectorList[queryId]
    {
      if queryId < 0 || queryId >= nextOrdinal {
        return None;
      }
      query := Some(vectorList[queryId]);
    }

    /** markVectorDeleted: an id outside [0, nextOrdinal) changes nothing;
        otherwise the id is tombstoned in the graph, recorded in deletedNodes
        and a graph cleanup becomes due. */
    method MarkVectorDeleted(deleteId: int)
      requires Valid()
      modifies this, builder
      ensures Valid() && builder == old(builder)
      ensures vectorList == old(vectorList) && nextOrdinal == old(nextOrdinal)
      ensures builder.nodes == old(builder.nodes)
      ensures !(0 <= deleteId < old(nextOrdinal)) ==> unchanged(this) && unchanged(builder)
      ensures 0 <= deleteId < old(nextOrdinal) ==>
                deletedNodes == old(deletedNodes) + {deleteId} && needsGraphCleanup &&
                builder.pending == old(builder.pending) + {deleteId} &&
                builder.removed == old(builder.removed)
      ensures deleteId in old(deletedNodes) ==> deletedNodes == old(deletedNodes)
    {
      if deleteId < 0 || deleteId >= nextOrdinal {
        return;
      }
      builder.MarkNodeDeleted(deleteId);
      deletedNodes := deletedNodes + {deleteId};
      needsGraphCleanup := true;
    }

    /** performCleanup: without a pending mark it does nothing; otherwise the
        nodes of the pending marks are removed from the graph and the flag is
        cleared, while deletedNodes is kept for a later compaction and the
        vector list is left as it is. */
    method PerformCleanup()
      requires Valid()
      modifies this, builder
      ensures Valid() && builder == old(builder)
      ensures !old(needsGraphCleanup) ==> unchanged(this) && unchanged(builder)
      ensures !needsGraphCleanup && builder.pending == {}
      ensures builder.removed == old(builder.removed) + old(builder.pending)
      ensures builder.removed == deletedNodes
      ensures vectorList == old(vectorList) && nextOrdinal == old(nextOrdinal)
      ensures deletedNodes == old(deletedNodes) && builder.nodes == old(builder.nodes)
    {
      if !needsGraphCleanup {
        return;
      }
      builder.Cleanup();
      needsGraphCleanup := false;
    }

    /** Step 1 of compaction: the vectors whose index is not deleted, in list order. */
    method CompactedVectors() returns (compacted: seq<V>)
      ensures compacted == KeepLive(vectorList, deletedNodes)
    {
      compacted := [];
      for i := 0 to |vectorList|
        invariant compacted == KeepLive(vectorList[..i], deletedNodes)
      {
        assert vectorList[..i + 1][..i] == vectorList[..i];
        if i !in deletedNodes {
          compacted := compacted + [vectorList[i]];
        }
      }
      assert vectorList[..|vectorList|] == vectorList;
    }

    /** performCleanupWithCompaction: with no deleted ordinal it does nothing.
        Otherwise a pending cleanup runs first, the live vectors are kept in
        order, the old builder is closed, a new graph is built with ordinals
        0 .. n-1 in list order, nextOrdinal is reset and the deletions are
        forgotten. */
    method PerformCleanupWithCompaction()
      requires Valid()
      modifies this, builder
      ensures Valid()
      ensures old(deletedNodes) == {} ==> unchanged(this) && unchanged(builder)
      ensures old(deletedNodes) != {} ==>
                && vectorList == KeepLive(old(vectorList), old(deletedNodes))
                && |vectorList| == old(|vectorList|) - old(|deletedNodes|)
                && nextOrdinal == |vectorList|
                && deletedNodes == {} && !needsGraphCleanup
                && fresh(builder) && builder.nodes == Ordinals(vectorList)
                && (forall i :: i in builder.nodes <==> 0 <= i < |vectorList|)
                && old(builder).pending == {} && old(builder).removed == old(deletedNodes)
                && old(builder).closed
    {
      if deletedNodes == {} {
        return;
      }
      if needsGraphCleanup {
        builder.Cleanup();
        needsGraphCleanup := false;
      }
      var compacted := CompactedVectors();
      KeepLiveLength(vectorList, deletedNodes);
      builder.Close();
      var b := BuildGraph(compacted);
      builder := b;
      vectorList := compacted;
      nextOrdinal := |vectorList|;
      deletedNodes := {};
    }
  }
}
