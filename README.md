# Incremental vector index lifecycle and vector codec, in Dafny

This project models two parts of a proof-of-concept that
keeps an in-memory JVector HNSW graph over vectors stored in a GridGain
table.

1. **Index lifecycle bookkeeping** (`MinimalPOC_Incremental.java`). The program
   keeps four pieces of static state:
   - `vectorList`, the vectors in memory, where ordinal `i` is list index `i`;
   - `nextOrdinal`;
   - `deletedNodes`, the soft-deleted ordinals;
   - `needsGraphCleanup`, the pending-cleanup flag.

   The operations that change it are: build the initial index, add a vector,
   mark a vector deleted, clean the graph, and compact. Search by id is
   guarded by a range check. All of this is the class
   `Incremental.VectorIndex<V>`, whose fields are these four plus the
   builder. The vectors are an opaque type `V`. `Valid()` holds the
   lifecycle invariants:
   - `nextOrdinal` equals the length of `vectorList`;
   - every deleted ordinal lies in `[0, nextOrdinal)`;
   - `needsGraphCleanup` implies `deletedNodes` is non-empty.

   `Valid()` also ties the bookkeeping to the calls made on the JVector
   builder:
   - `addGraphNode` registered vector `i` under ordinal `i`, for every list index;
   - the ordinals marked in the builder are `deletedNodes`;
   - each marked ordinal is either removed from the graph by a cleanup or
     still awaiting one;
   - a cleanup is pending in the builder exactly when `needsGraphCleanup` is set.

   The builder is `Graph.GraphBuilder`: ghost state that records the calls
   `addGraphNode`, `markNodeDeleted`, `cleanup` and `close`, and which
   tombstoned nodes a cleanup has removed from the graph, but not the graph
   algorithms behind them. Compaction is specified by `Compaction.KeepLive`
   (the live vectors in order). `Compaction.LiveIndices` gives an independent
   description of the same result: the old ordinals that survive, in
   increasing order.

2. **Little-endian vector codec** (`floatArrayToBytes` / `bytesToFloatArray`).
   The code is identical in `MinimalPOC.java` (lines 227-244) and
   `MinimalPOC_Incremental.java` (lines 1199-1224). One module,
   `LittleEndianCodec`, models both copies. Each float is its raw 32-bit
   pattern (`bv32`) and each byte is a `bv8`. `Encode`/`Decode` specify the
   two array methods, and the lemmas prove length, byte order and both round
   trips.

In the source, `nextOrdinal` is first set to the number of inserted rows
(`insertInitialVectors`, line 355) and then overwritten with the size of the
list read back (line 410). The model keeps the second assignment, because it
is the one in effect when the interactive operations run.

The ids typed at the console (`getIntInput`, which gives -1 on bad input) become
plain `int` parameters. The vector that `addNewVector` generates at random
becomes a parameter as well.

## Model

| member | source | states |
|---|---|---|
| `Incremental.VectorIndex.BuildInitialIndex` | src/main/java/com/poc/MinimalPOC_Incremental.java:387-448 | After loading, `vectorList` is the loaded list, `nextOrdinal` equal to the list's length, nothing is deleted, no cleanup is due, and every vector was added to a fresh graph under ordinal `i` equal to its list index; `Valid()` is established |
| `Incremental.VectorIndex.AddNewVector` | src/main/java/com/poc/MinimalPOC_Incremental.java:623-669 | The vector is appended, registered in the graph under the old `nextOrdinal` (which is its list index), `nextOrdinal` grows by exactly one, deletions and the flag are untouched; `Valid()` is preserved |
| `Incremental.VectorIndex.PerformSearch` | src/main/java/com/poc/MinimalPOC_Incremental.java:701-715 | A query id is accepted if and only if `0 <= id < nextOrdinal` (deleted ids included), and then the query vector is `vectorList[id]`; otherwise nothing happens |
| `Incremental.VectorIndex.MarkVectorDeleted` | src/main/java/com/poc/MinimalPOC_Incremental.java:920-937 | An id outside `[0, nextOrdinal)` leaves all state unchanged; a valid id is added to `deletedNodes`, joins the builder's pending marks (earlier pending marks stay pending), and sets `needsGraphCleanup`; re-marking leaves `deletedNodes` unchanged; `vectorList` and `nextOrdinal` never change; `Valid()` is preserved, so `deletedNodes` stays within `[0, nextOrdinal)` |
| `Incremental.VectorIndex.PerformCleanup` | src/main/java/com/poc/MinimalPOC_Incremental.java:977-999 | With the flag clear nothing changes; otherwise the builder's cleanup removes the nodes of all pending marks from the graph (after it, every ordinal in `deletedNodes` has been removed) and the flag ends false, while `deletedNodes`, `vectorList`, `nextOrdinal` and the `addGraphNode` registrations are kept |
| `Incremental.VectorIndex.CompactedVectors` | src/main/java/com/poc/MinimalPOC_Incremental.java:1067-1073 | The loop collects exactly `KeepLive(vectorList, deletedNodes)`, the vectors at non-deleted indices in list order |
| `Incremental.VectorIndex.PerformCleanupWithCompaction` | src/main/java/com/poc/MinimalPOC_Incremental.java:1048-1128 | With no deletions nothing changes; otherwise a pending cleanup runs first on the old builder, so every deleted node has been removed from the old graph before it is closed; `vectorList` becomes `KeepLive` of the old list, shorter by exactly the number of deleted ordinals; a fresh graph holds ordinals exactly `0..n-1` in list order; `nextOrdinal` equal to the new length; deletions and the flag are cleared; `Valid()` is preserved |
| `Graph.GraphBuilder.constructor` | src/main/java/com/poc/MinimalPOC_Incremental.java:425-438 | A new builder's graph has no nodes, no marks, no pending cleanup, and is open |
| `Graph.GraphBuilder.AddGraphNode` | src/main/java/com/poc/MinimalPOC_Incremental.java:653 | Registers the vector under the given ordinal and changes nothing else that is recorded |
| `Graph.GraphBuilder.MarkNodeDeleted` | src/main/java/com/poc/MinimalPOC_Incremental.java:930 | Records the ordinal as marked and as awaiting cleanup; registrations and removals are kept |
| `Graph.GraphBuilder.Cleanup` | src/main/java/com/poc/MinimalPOC_Incremental.java:989 | Every mark awaiting cleanup becomes a node removed from the graph and none is left pending; registrations and marks are kept |
| `Graph.GraphBuilder.Close` | src/main/java/com/poc/MinimalPOC_Incremental.java:1078 | The builder is closed |
| `Graph.BuildGraph` | src/main/java/com/poc/MinimalPOC_Incremental.java:1091-1109 | A fresh builder to which every vector was added under its list index: its ordinals are exactly 0 up to the list length minus one, with no marks |
| `Compaction.LiveIndicesExactly` | src/main/java/com/poc/MinimalPOC_Incremental.java:1069-1070 | The surviving old ordinals are exactly the indices below `n` outside the deleted set, strictly increasing (both directions of membership) |
| `Compaction.KeepLiveSelects` | src/main/java/com/poc/MinimalPOC_Incremental.java:1068-1073 | Element `j` of the compacted list is the old vector at the `j`-th surviving ordinal, so relative order is preserved and nothing else is kept |
| `Compaction.RenumberedOrdinal` | src/main/java/com/poc/MinimalPOC_Incremental.java:1103-1104 | A live old ordinal `i` is renumbered to the count of live ordinals below it, and the vector found there is the old `vectorList[i]` |
| `Compaction.LiveCount` | src/main/java/com/poc/MinimalPOC_Incremental.java:1068-1073 | When all deleted ordinals are below `n`, exactly `n` minus the number of deleted ordinals survive |
| `Compaction.KeepLiveLength` | src/main/java/com/poc/MinimalPOC_Incremental.java:1068-1073 | Under the subset invariant, the compacted list has the old length minus the number of deleted ordinals |
| `Compaction.KeepLiveNothingDeleted` | src/main/java/com/poc/MinimalPOC_Incremental.java:1049-1052 | With nothing deleted, compaction would keep the list as it is, which is why the source skips it |
| `Compaction.CompactThreeOfThousand` | src/main/java/com/poc/MinimalPOC_Incremental.java:1068-1073 | 1000 vectors with 3, 500 and 999 deleted compact to 997; ordinal 2 keeps its vector; the vector at 4 moves to 3 |
| `LittleEndianCodec.FloatArrayToBytes` | src/main/java/com/poc/MinimalPOC.java:227-234 | Returns exactly `4 * floats.Length` bytes, equal to `Encode(floats)` |
| `LittleEndianCodec.BytesToFloatArray` | src/main/java/com/poc/MinimalPOC.java:236-244 | Returns exactly `bytes.Length / 4` patterns, equal to `Decode(bytes)` |
| `LittleEndianCodec.EncodeLength` | src/main/java/com/poc/MinimalPOC.java:228 | The encoding has four bytes per component |
| `LittleEndianCodec.EncodeAt` | src/main/java/com/poc/MinimalPOC.java:229-232 | Component `i` occupies bytes `4i..4i+3`, byte `4i+k` being the `k`-th least significant byte (little-endian) |
| `LittleEndianCodec.EncodeOne` | src/main/java/com/poc/MinimalPOC.java:229-232 | The pattern `0x3F800000` (1.0f) is stored as `00 00 80 3F` |
| `LittleEndianCodec.DecodeLength` | src/main/java/com/poc/MinimalPOC.java:239 | Decoding gives the byte count divided by 4 components (integer division) |
| `LittleEndianCodec.DecodeAt` | src/main/java/com/poc/MinimalPOC.java:238-242 | Component `i` is read little-endian from bytes `4i..4i+3` |
| `LittleEndianCodec.DecodeIgnoresTrailing` | src/main/java/com/poc/MinimalPOC.java:239-242 | One to three trailing bytes do not affect the result |
| `LittleEndianCodec.GetPutFloat` | src/main/java/com/poc/MinimalPOC.java:231 | Reading back the four bytes written for a pattern gives the pattern |
| `LittleEndianCodec.PutGetFloat` | src/main/java/com/poc/MinimalPOC.java:241 | Writing the pattern read from four bytes gives those bytes |
| `LittleEndianCodec.DecodeEncode` | src/main/java/com/poc/MinimalPOC.java:227-244 | `bytesToFloatArray(floatArrayToBytes(x)) == x` over raw 32-bit patterns |
| `LittleEndianCodec.EncodeDecode` | src/main/java/com/poc/MinimalPOC.java:227-244 | A byte string whose length is a multiple of four re-encodes to itself |

## Left out

- GridGain I/O is not modelled: the connection, the table creation, the initial inserts, the SQL read in `buildInitialIndex`, the table upsert in `addNewVector` and `testVectorSearch`. `BuildInitialIndex` takes the loaded list as a parameter, and `AddNewVector` takes the vector.
- The JVector library's algorithms are not modelled: neighbour selection, beam search, cleanup with bridging edges, and the graph parameters (M = 16, efConstruction = 100, overflow 1.2, alpha 1.2, single layer, refinement). The builder is ghost state that records the calls and which tombstoned nodes a cleanup removed.
- PerformSearch: does not model the `GraphSearcher.search` call, its top-10 results or their printing. It returns the query vector the search would use.
- `ravv` is not a separate field. It wraps `vectorList` (and, after compaction, the compacted list) and carries no state of its own.
- Floating point is not modelled: random vector generation, `verifyVectors`, similarity scores. Floats are raw 32-bit patterns, so NaN canonicalisation by the JVM, if any, is not modelled.
- Console and UI are not modelled: `runInteractiveLoop`, `printMenu`, `getIntInput`, `showDetailedStats` and the `analyzeGraphConnectivity` print loop.
- Concurrency is not modelled, and neither are the thread-safety claims in comments. The operations run one at a time, as in the interactive loop.
- Shutdown (`cleanupApplication`) only closes resources, so it is not modelled.
- `AddNewVector`: does not model 32-bit wrap-around of `nextOrdinal++`, because a Java list cannot grow to 2^31 elements before memory runs out.
- `FloatArrayToBytes`: does not model the 32-bit overflow of `floats.length * 4` for arrays of 2^29 or more elements, where Java throws instead of returning.
