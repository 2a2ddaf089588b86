// What compaction keeps: the vectors whose list index (ordinal) is not
// soft-deleted, in their original relative order.
module Compaction {

  /** The vectors of `list` whose index is not in `deleted`, in order. It is
      built front to back, one index at a time, as the compaction loop does. */
  function KeepLive<V>(list: seq<V>, deleted: set<int>): seq<V>
    decreases |list|
  {
    if list == [] then []
    else
      var last := |list| - 1;
      KeepLive(list[..last], deleted) + (if last in deleted then [] else [list[last]])
  }

  /** The indices below `n` that are not in `deleted`, in increasing order:
      old ordinal LiveIndices(n, deleted)[j] becomes new ordinal j. */
  function LiveIndices(n: nat, deleted: set<int>): seq<int>
  {
    if n == 0 then []
    else LiveIndices(n - 1, deleted) + (if n - 1 in deleted then [] else [n - 1])
  }

  /** LiveIndices lists exactly the indices below `n` outside `deleted`, each once, ascending. */
  lemma {:induction false} LiveIndicesExactly(n: nat, deleted: set<int>)
    ensures forall i :: i in LiveIndices(n, deleted) <==> 0 <= i < n && i !in deleted
    ensures forall j, k :: 0 <= j < k < |LiveIndices(n, deleted)| ==>
              LiveIndices(n, deleted)[j] < LiveIndices(n, deleted)[k]
  {
    if n > 0 {
      LiveIndicesExactly(n - 1, deleted);
      var before := LiveIndices(n - 1, deleted);
      assert forall j :: 0 <= j < |before| ==> before[j] in before && before[j] < n - 1;
    }
  }

  /** Element j of the compacted list is the vector at old index LiveIndices(|list|, deleted)[j]. */
  lemma {:induction false} KeepLiveSelects<V>(list: seq<V>, deleted: set<int>)
    ensures |KeepLive(list, deleted)| == |LiveIndices(|list|, deleted)|
    ensures forall j :: 0 <= j < |KeepLive(list, deleted)| ==>
              0 <= LiveIndices(|list|, deleted)[j] < |list| &&
              KeepLive(list, deleted)[j] == list[LiveIndices(|list|, deleted)[j]]
    decreases |list|
  {
    if list != [] {
      var last := |list| - 1;
      KeepLiveSelects(list[..last], deleted);
      assert |list[..last]| == last;
    }
  }

  /** Only the indices below `n` matter to LiveIndices. */
  lemma {:induction false} LiveIndicesBelow(n: nat, d: set<int>, e: set<int>)
    requires forall i :: 0 <= i < n ==> (i in d <==> i in e)
    ensures LiveIndices(n, d) == LiveIndices(n, e)
  {
    if n > 0 {
      LiveIndicesBelow(n - 1, d, e);
    }
  }

  /** When every deleted index is below `n`, exactly n - |deleted| indices stay live. */
  lemma {:induction false} LiveCount(n: nat, deleted: set<int>)
    requires forall i :: i in deleted ==> 0 <= i < n
    ensures |LiveIndices(n, deleted)| == n - |deleted|
  {
    if n == 0 {
      assert deleted == {};
    } else {
      var below := deleted - {n - 1};
      LiveIndicesBelow(n - 1, deleted, below);
      LiveCount(n - 1, below);
      if n - 1 in deleted {
        assert deleted == below + {n - 1};
      } else {
        assert below == deleted;
      }
    }
  }

  /** Given that every deleted index is an index of the list, compaction shrinks
      the list by exactly the number of deleted indices. */
  lemma KeepLiveLength<V>(list: seq<V>, deleted: set<int>)
    requires forall i :: i in deleted ==> 0 <= i < |list|
    ensures |KeepLive(list, deleted)| == |list| - |deleted|
  {
    KeepLiveSelects(list, deleted);
    LiveCount(|list|, deleted);
  }

  /** With nothing deleted, compaction keeps the list as it is. */
  lemma {:induction false} KeepLiveNothingDeleted<V>(list: seq<V>)
    ensures KeepLive(list, {}) == list
    decreases |list|
  {
    if list != [] {
      var last := |list| - 1;
      KeepLiveNothingDeleted(list[..last]);
      assert list == list[..last] + [list[last]];
    }
  }

  /** Renumbering: a live old ordinal `i` becomes new ordinal |LiveIndices(i, deleted)|,
      the number of live ordinals below it. */
  lemma {:induction false} RenumberedOrdinal<V>(list: seq<V>, deleted: set<int>, i: int)
    requires 0 <= i < |list| && i !in deleted
    ensures |LiveIndices(i, deleted)| < |KeepLive(list, deleted)|
    ensures KeepLive(list, deleted)[|LiveIndices(i, deleted)|] == list[i]
    decreases |list|
  {
    var last := |list| - 1;
    KeepLiveSelects(list[..last], deleted);
    assert |list[..last]| == last;
    if i < last {
      RenumberedOrdinal(list[..last], deleted, i);
    }
  }

  /** 1000 vectors with ordinals 3, 500 and 999 deleted compact to 997 vectors,
      the survivors of 0 .. 2 keeping their ordinals and the vector at 4 moving to 3. */
  lemma CompactThreeOfThousand<V>(list: seq<V>)
    requires |list| == 1000
    ensures |KeepLive(list, {3, 500, 999})| == 997
    ensures KeepLive(list, {3, 500, 999})[2] == list[2]
    ensures KeepLive(list, {3, 500, 999})[3] == list[4]
  {
    var deleted := {3, 500, 999};
    assert |deleted| == 3;
    KeepLiveLength(list, deleted);
    RenumberedOrdinal(list, deleted, 2);
    RenumberedOrdinal(list, deleted, 4);
    assert LiveIndices(4, deleted) == [0, 1, 2];
  }
}
