# Vector-Vault in Dafny

A verified model of the storage core of Vector-Vault, a small vector database. The model follows the C++ sources
branch by branch. Classes there are classes here, loops there are loops here, and each method is proved against a
specification function or predicate about which the main results are stated.

| files | component |
|---|---|
| `Arena`, `Allocator` | the 64-byte-aligned arena: first fit, two-sided coalescing, accounting per tag |
| `HnswGraph`, `HnswSelect`, `HnswModel`, `HnswSteps`, `HnswInsert`, `Hnsw`, `HnswSmall` | the HNSW index: layer search, neighbour selection, linking, tombstones, runs of adds and removes, which neighbours an insertion links, exactness on small graphs |
| `HnswCanonical`, `HnswFormat`, `HnswReload`, `HnswPersist`, `HnswLegal`, `HnswResave` | its canonical region: writer, parser, what a reload builds, which accepted regions are well-formed, which are written again byte for byte |
| `Kernels`, `Lloyd`, `Settled`, `IvfModel`, `Ivf`, `IvfReload`, `IvfExact` | the distance kernels over exact arithmetic, k-means, the IVF index, its reload and exactly when that preserves the partition |
| `Crc64` | the table-driven CRC-64 against long division by the generator polynomial |
| `SnapshotFormat`, `SnapshotLayout`, `SnapshotImage`, `SnapshotRoundTrip`, `SnapshotBytes` | the snapshot format: primitive encodings, metadata, directory, image, decoding, and the bytes written out |
| `SnapshotChanges`, `SnapshotSize`, `SnapshotResave` | which changes of a saved image are detected and what the others mean; whether what was loaded fits the format again; which accepted images are saved again byte for byte |
| `SnapshotWriter`, `SnapshotReader`, `Persistence`, `SaveLoad` | the encoder, the parsers, loading into a collection, save-load-save |
| `RecordStore`, `Ranking`, `Indexing`, `Collections`, `IndexOrder` | the collection: record store over allocator blocks or a file mapping, queries, batches, index coherence, what a built index holds where |
| `Engine` | the engine: collections under unique tags of one shared allocator |
| `Ordering`, `Identifiers`, `Vectors`, `Errors` | orders and sorting, identifiers, float bit patterns and distance ranks, error categories |

How values are modelled:

- A float32 is its bit pattern. Its exact real value (`Vectors.Value`) is used where arithmetic is the subject: the
  kernels and k-means.
- A distance is the rank of a non-NaN float in the numeric order, with +infinity on top. The metric is an arbitrary
  function from two vectors to a distance or "undefined"; undefined ranks as +infinity, as in the sources. All results
  about searches and queries hold for every such function.
- An identifier is a byte string under lexicographic order.
- The level of a new HNSW node, `std::shuffle` under a seed, and the address of a file mapping are parameters, so the
  results hold for every outcome.
- Heaps are sets of (distance, id) pairs with minimum and maximum selection: the code never holds a pair twice.
- Every operation runs under one lock in the sources and is one sequential step here.

The main invariants are `Allocator.MemoryAllocator.Valid` (free spans and live blocks tile the arena, fully coalesced,
totals are sums), `HnswModel.WellFormed` (the layered graph), `Ivf.IvfIndex.Valid` (a clean partition is the one a
rebuild would produce), `Collections.Collection.Valid` (store, allocator and index agree) and `Engines.Engine.Valid`
(every registered collection's store is in order, no two share a block, a tag or an index, and every live block belongs
to one of them). Every operation that changes an object requires its invariant and ensures it; capturing, serializing
and saving only ask that what they write fits the format. For collections on the shared allocator this includes the
other collections: an operation on one collection changes no block, cell, record or index of another
(`RecordStore.HouseSurvives`, and every method of `Engines.Engine`).

Whether the index of a registered collection agrees with its records is a property of that collection
(`Engines.Engine.Coherent`). Only a load can enter one for which it fails: an HNSW region which the loader accepts
although it is not legal over the records (`HnswLegal.LegalRegion`). Every other operation keeps the coherence of every
collection as it was, `Engines.Engine.BuildIndex` restores it, and deletion, creation, loads and operations on the other
collections go on as specified beside an incoherent one.

Where the code does less than its comments or its callers promise, the model follows the code:

- `src/core/ivf_index.cpp:271-277` says that a load rebuilds the identical partition. Entries come back in id order,
  which changes the input of the shuffle. For any vectors, centroids and cell members survive every requested cell count
  if and only if the live vectors in slot order are the live vectors in id order (`IvfExact.ReloadExact`); for distinct
  vectors that means ascending live ids (`IvfExact.ReloadExactDistinct`), and so it does for the order of the lists
  (`IvfExact.ReloadExactInOrder`). Two records added out of order lose the partition (`IvfExact.ReloadSwapsCells`,
  `IvfExact.ReloadLosesPartition`).
- `src/core/memory_allocator.cpp:9-13` rounds a request up in 64 bits. From 2^64 - 63 bytes on that wraps, and the block
  granted does not hold the request (`Arena.FootprintCovers`, `Arena.WrappedRequest`).
- `src/core/persistence.cpp:434` says that the checksum proves the bytes intact. It covers the bytes behind the header
  only. `SnapshotChanges.HeaderChanges`, `SnapshotChanges.CountChanges`, `SnapshotChanges.DimensionChanges`,
  `SnapshotChanges.OffsetChanges` and `SnapshotChanges.IndexPlaceChanges` say which changed header fields are accepted
  and as what: flags and reserved bytes always, another metric or a fitting index type as that, a vector region moved
  inside the file with other components, an index region moved to bytes that can be read as one.
- `src/core/persistence.cpp:560-561` says that saving again after a load is byte-identical. For any collection loaded from
  an accepted image, coherent or not, it is if and only if the image is laid out as the encoder lays it out and an HNSW
  region is one the serializer writes: parameters not below their minimum, ids and neighbour lists strictly ascending,
  the first highest node as entry point under its own level (`SnapshotResave.ResaveExact`, `HnswResave.RegionResaved`).
  `SnapshotResave.FlagsDropped` and `SnapshotResave.ParametersClamped` are accepted images for which it is not.
- `src/core/hnsw_index.cpp:433-520` checks ids, neighbour range and entry point, and takes the stored level, the
  neighbour lists and the completeness of the region on trust. `HnswLegal.LegalIsWellFormed` says which accepted regions
  give a well-formed index over exactly the records; `HnswLegal.BadLevelAccepted` and `HnswLegal.OmissionAccepted` are
  accepted regions that do not.

## Model

| member | source | states |
|---|---|---|
| `Identifiers.IdLessDecides` | src/core/collection.cpp:406-412 | the order of identifiers: at the first differing byte the smaller one decides, and a proper prefix comes first |
| `Vectors.FiniteExactly` | src/core/collection.cpp:25-34 | a component is finite if and only if the bits below its sign are less than 0x7F800000 |
| `Vectors.NextValue` | include/vectorvault/snapshot_format.hpp:134-139 | the next larger magnitude is one unit in the last place larger: 2^(e - 150) under exponent field e, 2^-149 under exponent field 0 |
| `Vectors.ValueOrder` | include/vectorvault/snapshot_format.hpp:134-139 | larger bits of a positive finite float mean a larger value |
| `Vectors.ValueNotNegative` | include/vectorvault/snapshot_format.hpp:134-139 | the sign bit negates the value and nothing else |
| `Vectors.ValueOfOne` | include/vectorvault/snapshot_format.hpp:134-139 | bit pattern 0 is zero and 0x3F800000 is one; with the rows above this fixes the value of every finite pattern |
| `Vectors.TopKNearest` | src/core/collection.cpp:403-418 | the exact answer: min(k, count) stored records under their distances, nearer ones first and equally near ones by identifier, and every record left out farther than each of them, or as far under a larger identifier |
| `Vectors.NearestUnique` | src/core/collection.cpp:403-418 | no other list is that answer |
| `Arena.FootprintCovers` | src/core/memory_allocator.cpp:9-13 | a footprint is a positive multiple of 64, less than 64 bytes larger than the request, and it holds the request if and only if rounding up does not wrap, that is, exactly up to 2^64 - 64 bytes |
| `Arena.WrappedRequest` | src/core/memory_allocator.cpp:9-13 | the failing input: the largest size_t is given a 64-byte footprint |
| `Arena.FreeListUnique` | src/core/memory_allocator.cpp:92-117 | two fully coalesced free lists that cover the same bytes are the same list |
| `Arena.FreeListDetermined` | src/core/memory_allocator.cpp:92-117 | the free list is a function of the live blocks, so undoing allocations restores it exactly |
| `Arena.FitsIffInSpan` | src/core/memory_allocator.cpp:49-57 | a run of bytes is free if and only if it lies inside one span of the free list: scanning single spans is complete |
| `Allocator.FitChosen` | src/core/memory_allocator.cpp:49-66 | what first fit decides about the whole arena: no span large enough means no free run anywhere, otherwise the lowest address that fits |
| `Allocator.TakeKeepsTiling` | src/core/memory_allocator.cpp:68-76 | taking the front of a span keeps free spans and live blocks an exact, aligned tiling of the arena |
| `Allocator.FreeKeepsTiling` | src/core/memory_allocator.cpp:92-117 | returning a block with two-sided merging keeps the tiling, with no two free spans touching |
| `Allocator.AddAccounts` | src/core/memory_allocator.cpp:78-84 | every grand and per-tag total stays the sum over the live blocks after an allocation |
| `Allocator.RemoveAccounts` | src/core/memory_allocator.cpp:139-160 | the same after a release, including the erasure of counters that reach zero |
| `Allocator.EraseTag` | src/core/memory_allocator.cpp:164-182 | erasing one tag leaves every other tag's totals the sums over the blocks that remain |
| `Allocator.TotalsBounded` | src/core/memory_allocator.cpp:78-84 | requested bytes never exceed what is not free, and no tag exceeds the grand total |
| `Allocator.TotalIsSumOfTags` | src/core/memory_allocator.cpp:78-84 | the grand total is the sum of the per-tag totals |
| `Allocator.MemoryAllocator.constructor` | src/core/memory_allocator.cpp:15-30 | the arena is trimmed to whole 64-byte chunks and starts as one free span |
| `Allocator.MemoryAllocator.Allocate` | src/core/memory_allocator.cpp:38-90 | for every size: fails, changing nothing, exactly when no free run of the footprint exists; otherwise takes the lowest one, adds one live block and counts it in 64-bit arithmetic; the arena stays tiled in every case, and the whole invariant, with exact totals, is kept if and only if the request fails or does not exceed 2^64 - 64 bytes |
| `Allocator.ExactCounts` | src/core/memory_allocator.cpp:78-84 | counting a block that holds its request wraps no 64-bit counter |
| `Allocator.MemoryAllocator.FreeSpan` | src/core/memory_allocator.cpp:92-117 | the free list covers the returned bytes besides what it covered, fully coalesced |
| `Allocator.MemoryAllocator.Release` | src/core/memory_allocator.cpp:119-162 | removes exactly one live block; null, foreign and already released pointers change nothing |
| `Allocator.MemoryAllocator.ReleaseAll` | src/core/memory_allocator.cpp:164-182 | the live blocks left are those of the other tags, the tag's counters are gone, and the invariant holds, whatever the hash-map order |
| `Allocator.MemoryAllocator.Stats` | src/core/memory_allocator.cpp:184-187 | reports the sum of requested sizes and the number of live blocks |
| `Allocator.MemoryAllocator.StatsOf` | src/core/memory_allocator.cpp:189-202 | reports a tag's sum and count over its live blocks, zero for an unknown tag |
| `HnswGraph.ExitAnswers` | src/core/hnsw_index.cpp:142-168 | both exits of the layer search, including the early one, deliver a sorted duplicate-free list with true distances: everything reachable when it is not full, nothing visited and closer left out when it is |
| `HnswGraph.SublevelComplete` | src/core/hnsw_index.cpp:146-166 | a full answer contains every node that is reachable through nodes nearer than its farthest member |
| `HnswGraph.VisitAccepted` | src/core/hnsw_index.cpp:153-166 | inserting a neighbour into both heaps and trimming keeps the search invariant |
| `HnswGraph.VisitRejected` | src/core/hnsw_index.cpp:153-160 | a neighbour that a full heap rejects loses nothing |
| `HnswSelect.SelectionUnique` | src/core/hnsw_index.cpp:63-85 | the selection rule (strictly closer to the base than to every earlier pick, each skipped candidate redundant) has one solution |
| `HnswSelect.SelectIsSelection` | src/core/hnsw_index.cpp:49-86 | the heuristic computes that solution, always including the nearest candidate |
| `HnswSelect.SelectWithin` | src/core/hnsw_index.cpp:49-86 | it picks at most m distinct nodes, all of them candidates |
| `HnswModel.LimitDoubles` | src/core/hnsw_index.cpp:29-30 | layer 0 keeps up to 2m neighbours if and only if m < 2^31, because m * 2 is formed in 32 bits and is 2m - 2^32 otherwise; every layer above keeps up to m |
| `HnswModel.WellFormedMeans` | src/core/hnsw_index.cpp:22-36 | the graph invariant spelled out: one list per layer, at most 2m neighbours on layer 0 and m above it, none twice, none the node itself, all of them nodes of that layer, no node above the entry point |
| `HnswModel.LinkOneMore` | src/core/hnsw_index.cpp:192-212 | the in-place edge loop, with its overflow pruning, is one simultaneous update of the lists involved |
| `HnswModel.LinkKeeps` | src/core/hnsw_index.cpp:181-213 | linking a fresh node keeps every list legal: degree limit, no duplicates, no self edges, only nodes that reach the layer |
| `HnswModel.LayerKeeps` | src/core/hnsw_index.cpp:272-279 | one layer of an insertion keeps the graph legal and leaves the node unlinked on the other layers |
| `HnswSteps.InsertedKeeps` | src/core/hnsw_index.cpp:242-287 | inserting a record keeps the whole graph invariant, including the entry point at the highest level and the id bijection |
| `HnswSteps.InsertedContents` | src/core/hnsw_index.cpp:242-252 | an insertion stores the new record and changes no other |
| `HnswSteps.ReviveKeeps` | src/core/hnsw_index.cpp:228-240 | re-adding an id keeps the invariant, replaces its vector and revives a tombstone |
| `HnswSteps.TombstoneKeeps` | src/core/hnsw_index.cpp:289-304 | a removal keeps the invariant and drops exactly one record |
| `HnswSteps.RunKeeps` | src/core/hnsw_index.cpp:215-304 | every run of adds and removes from the empty index, for every choice of levels, keeps the invariant and stores what replaying the calls on a map stores |
| `HnswInsert.DescentStops` | src/core/hnsw_index.cpp:263-268 | a descent is a walk through the layers: each stop is reached from the one before on its layer, is no farther from the query, and has no nearer neighbour there |
| `HnswInsert.InsertedWires` | src/core/hnsw_index.cpp:254-280 | the lists before and after an insertion, layer by layer: the new node's list is the diverse selection, within the layer's limit, of at most ef_construction nodes in order of distance, namely all that the layer reaches from where it was entered, or when there are more all that it reaches through nodes nearer than the farthest one offered; a chosen neighbour's list gets the new node, or when that is too long becomes the diverse selection of it by distance from its owner; every other list stays; each layer is entered at the nearest node the layer above offered, the highest one where the descent ended |
| `HnswInsert.InsertedGrows` | src/core/hnsw_index.cpp:242-287 | besides the lists an insertion adds one live node of the drawn level and changes the entry point exactly when the node is the first or higher than all others |
| `HnswInsert.ReviveRoutes` | src/core/hnsw_index.cpp:228-240 | re-adding an id changes no list, no level, no place and no entry point |
| `HnswInsert.TombstoneRoutes` | src/core/hnsw_index.cpp:289-304 | neither does a removal, and the vectors stay for routing |
| `Hnsw.HnswIndex.constructor` | src/core/hnsw_index.cpp:22-36 | an empty index with m at least 2 and ef_construction at least 1 |
| `Hnsw.HnswIndex.GreedyDescend` | src/core/hnsw_index.cpp:99-118 | terminates at a node reached from the entry, no farther than it, with no strictly closer neighbour |
| `Hnsw.HnswIndex.SearchLayer` | src/core/hnsw_index.cpp:120-179 | terminates and returns what the layer-search specification promises, for any distinct entry points and ef >= 1 |
| `Hnsw.HnswIndex.SelectNeighborsHeuristic` | src/core/hnsw_index.cpp:49-86 | the loop with its early break computes the selection function |
| `Hnsw.HnswIndex.ConnectNode` | src/core/hnsw_index.cpp:181-213 | the in-place linking equals the specification of connecting a node to its diverse candidates |
| `Hnsw.HnswIndex.Add` | src/core/hnsw_index.cpp:215-287 | the error cases leave the graph alone; otherwise the graph takes an add step, keeps its invariant and stores the record; a known id keeps every list and level, a new one gets one node of the drawn level, which becomes the entry point when it is first or highest, and on every layer up to that level and the highest one the neighbours that `HnswInsert.InsertedWires` describes |
| `Hnsw.HnswIndex.Remove` | src/core/hnsw_index.cpp:289-304 | fails exactly when no live record has the id; otherwise tombstones it and nothing else: every list, level and vector stays |
| `Hnsw.HnswIndex.Search` | src/core/hnsw_index.cpp:306-344 | with breadth the largest of efSearch, k and 1, from the end of the descent: the k nearest, in order, of the live nodes that the layer-0 search found; those are all that layer 0 reaches when fewer than efSearch or fewer than k nodes were found, and the answer is the k nearest of all it reaches when the graph has fewer nodes than efSearch or than k |
| `Hnsw.HnswIndex.NearIsFound` | src/core/hnsw_index.cpp:146-166 | when the breadth was exhausted, every live record that layer 0 reaches through nodes nearer than the farthest one kept is among the found, so only the cut at k can displace it; otherwise every reachable one is |
| `HnswSmall.SmallRunJoined` | src/core/hnsw_index.cpp:192-212 | after every run of adds and removes that ends with at most one node more than layer 0 keeps neighbours, edges of layer 0 go both ways and every node reaches every other: nothing was ever pruned |
| `HnswSmall.SmallNeighbours` | src/core/hnsw_index.cpp:270-280 | on a joined graph of fewer than ef_construction nodes a new record's layer-0 list is the diverse selection from all nodes by distance |
| `HnswSmall.SmallIsExhaustive` | src/core/hnsw_index.cpp:306-344 | on such an index a search with efSearch or k above the number of nodes is exhaustive, so with `Indexing.SearchIn` it returns the exact top k |
| `HnswReload.ReloadInduced` | src/core/hnsw_index.cpp:346-422 | loading a serialized graph gives the subgraph induced on the live nodes, renamed by ascending id |
| `HnswReload.ReloadWellFormed` | src/core/hnsw_index.cpp:371-384 | the loaded graph satisfies the full invariant, with an entry point of the highest live level, and stores the same records |
| `HnswReload.ReloadFixed` | src/core/hnsw_index.cpp:394-419 | the canonical form of the loaded graph is the canonical form of the original |
| `HnswFormat.RegionRoundTrip` | src/core/hnsw_index.cpp:433-505 | parsing the region bytes of any graph that fits gives back its parameters and its canonical form |
| `HnswFormat.RegionSound` | src/core/hnsw_index.cpp:433-505 | every region that parses, legal or not, is the layout of what is read from it, and everything in it fits its field |
| `HnswFormat.LevelRoundTrip` | src/core/hnsw_index.cpp:391 | level -1 is stored as 0xFFFFFFFF and read back as -1 |
| `HnswPersist.SerializedReloads` | src/core/hnsw_index.cpp:346-520 | the whole round trip: the region of a well-formed index is accepted, the rebuilt index is well-formed, stores the same records and serializes to the same bytes, also when the entry point or every node was tombstoned |
| `HnswPersist.CanonicalFits` | src/core/hnsw_index.cpp:386-392 | a well-formed index whose parameters, node count, identifiers and levels are in range fits the 32-bit fields of its region, canonical lists and entry point included |
| `HnswPersist.Serialize` | src/core/hnsw_index.cpp:346-422 | the writer loops produce exactly the canonical region, for a well-formed graph or any other that fits the fields |
| `HnswPersist.Deserialize` | src/core/hnsw_index.cpp:424-520 | fails exactly on a malformed region, an unknown or repeated id or a bad entry point; otherwise builds exactly the parsed graph |
| `HnswLegal.AcceptedRegion` | src/core/hnsw_index.cpp:433-517 | what the loader has checked of a region it accepts: the bytes are those of the header and graph read from them, every neighbour is a node, every id is known and none is repeated, the entry point is a node |
| `HnswLegal.BadLevelAccepted` | src/core/hnsw_index.cpp:507-517 | an accepted region whose stored level is not that of its entry point: the graph is not well-formed, and the first layer a search visits is one the entry point does not have |
| `HnswLegal.OmissionAccepted` | src/core/hnsw_index.cpp:453-517 | a region without nodes is accepted over any records and indexes none of them |
| `HnswLegal.LegalIsWellFormed` | src/core/hnsw_index.cpp:424-520 | the exact condition: an accepted region gives a well-formed graph that stores exactly the records if and only if it names one node per record, its lists are distinct, bounded, without self edges and only to nodes that reach the layer, and its entry point has the stored, highest level |
| `HnswLegal.SerializedIsLegal` | src/core/hnsw_index.cpp:346-422 | every region a well-formed index is serialized to is legal |
| `HnswResave.RebuiltStorable` | src/core/hnsw_index.cpp:346-520 | the graph rebuilt from any accepted region, legal or not, fits the format again, in no more bytes than the region it came from |
| `HnswResave.WrittenIsCanonical` | src/core/hnsw_index.cpp:346-422 | what is serialized from a rebuilt graph has clamped parameters, strictly ascending ids and lists, and the first highest node as entry point under its own level |
| `HnswResave.RegionResaved` | src/core/hnsw_index.cpp:346-520 | the exact condition: rebuilding an index from an accepted region and serializing it gives the same bytes if and only if the region is of that form |
| `Kernels.ScalarL2Squared` | src/core/distance.cpp:30-37 | the scalar loop computes the sum of squared differences |
| `Kernels.ScalarDot` | src/core/distance.cpp:39-45 | the scalar loop computes the dot product |
| `Kernels.WideL2Squared` | src/core/distance.cpp:82-109 | the 16-lane form with two accumulators, horizontal add and scalar tail computes the same sum for every length |
| `Kernels.WideDot` | src/core/distance.cpp:118-142 | the same for the dot product |
| `Kernels.L2FromDots` | src/core/distance.cpp:30-45 | the squared distance is the combination of the three dot products |
| `Kernels.CauchySchwarz` | src/core/distance.cpp:219-246 | the cosine similarity of exact vectors lies in [-1, 1], so the clamp only absorbs rounding |
| `Lloyd.ReassignDescends` | src/core/ivf_index.cpp:158-173 | moving every vector to its nearest centroid does not raise the total squared distance |
| `Lloyd.MeanMinimises` | src/core/ivf_index.cpp:187-194 | no centroid serves the members of a cell better than their mean |
| `Lloyd.AccumulateMembers` | src/core/ivf_index.cpp:175-186 | the running sums and counts of a cell are the sum and number of its members |
| `Lloyd.RecomputeDescends` | src/core/ivf_index.cpp:175-195 | replacing the centroids by the means does not raise the total; an empty cell keeps its centroid |
| `Lloyd.CostDescends` | src/core/ivf_index.cpp:155-200 | over any number of iterations the total squared distance never rises |
| `Lloyd.ConvergedIsFixed` | src/core/ivf_index.cpp:197-199 | a stop by the convergence test means the last recomputation changed nothing |
| `Lloyd.ConvergedStays` | src/core/ivf_index.cpp:197-199 | further iterations would change nothing either |
| `Lloyd.ConvergedIsFixedPoint` | src/core/ivf_index.cpp:155-200 | a converged state has every vector in the cell of its nearest centroid, the lowest index on ties, and every non-empty cell's centroid at its members' mean |
| `Lloyd.FindNearest` | src/core/ivf_index.cpp:160-168 | the strict comparison picks the nearest centroid with the lowest index |
| `Lloyd.AssignAll` | src/core/ivf_index.cpp:156-173 | the assignment pass, with its flag raised exactly when some assignment changed |
| `Lloyd.AccumulateAll` | src/core/ivf_index.cpp:175-186 | the accumulation pass |
| `Lloyd.RecomputeAll` | src/core/ivf_index.cpp:187-195 | the recomputation pass |
| `Lloyd.TwelveRounds` | src/core/ivf_index.cpp:155-200 | however early a run stops, its state is the one after twelve iterations |
| `Lloyd.Cluster` | src/core/ivf_index.cpp:151-200 | the loop stops at the first stable iteration after the first, or after 12, with the state that 12 iterations would give |
| `Lloyd.StopsAtFirst` | src/core/ivf_index.cpp:197-199 | no iteration before the one the loop stops at was stable |
| `IvfModel.DefaultCount` | src/core/ivf_index.cpp:125-129 | the automatic cell count is the integer square root of the live count |
| `IvfModel.FinalStateFacts` | src/core/ivf_index.cpp:139-200 | a rebuild never ends dearer than after an earlier iteration, and is a fixed point when it ended stable |
| `IvfModel.RebuiltPartitions` | src/core/ivf_index.cpp:202-206 | every live slot is in exactly one inverted list, once, and nothing else is |
| `IvfModel.RebuiltFrom` | src/core/ivf_index.cpp:98-209 | what a rebuild does: twelve iterations of k-means over the live vectors in slot order, from the vectors of the first shuffled live slots, as many as cells; every live slot is filed, in order, under the cell it was assigned to |
| `IvfModel.ProbedAreNearest` | src/core/ivf_index.cpp:224-240 | the probed cells are distinct and as many as asked for, at least one and at most all of them; every other cell's centroid is farther, or as far under a larger index |
| `IvfModel.FullProbeCovers` | src/core/ivf_index.cpp:224-254 | probing as many cells as there are covers every live record |
| `IvfModel.ScoredIsFiled` | src/core/ivf_index.cpp:242-254 | scanning the probed lists scores exactly the records filed there, each once |
| `Ivf.IvfIndex.Add` | src/core/ivf_index.cpp:41-77 | errors change nothing; otherwise a new record is appended as a live entry, a known one overwritten in place and revived, and the partition is marked stale |
| `Ivf.IvfIndex.Remove` | src/core/ivf_index.cpp:79-96 | fails exactly when no live record has the id; otherwise makes its entry a tombstone in place and marks the partition stale |
| `Ivf.IvfIndex.EnsurePartitionsBuilt` | src/core/ivf_index.cpp:98-209 | leaves a clean index whose centroids and lists are those a rebuild of the current entries produces |
| `Ivf.IvfIndex.Search` | src/core/ivf_index.cpp:211-268 | the k nearest, in order, of the records filed under the nprobe nearest cells, at least one and at most all, and of all records when every cell is probed |
| `Ivf.IvfIndex.Serialize` | src/core/ivf_index.cpp:270-282 | the region is the two construction parameters |
| `IvfReload.ReloadKeepsEntries` | src/core/persistence.cpp:594-605 | the entry table after save and load is the one before if and only if it was live throughout and in id order |
| `IvfReload.SameLiveExactly` | src/core/persistence.cpp:594-605 | a reload brings back the same live records in the same order if and only if the live ids ascend in slot order, wherever the tombstones are |
| `IvfReload.ReloadKeepsPartition` | src/core/ivf_index.cpp:271-277 | in that case the centroids and the lists of every cell, in order, are rebuilt identically, for every cell count and every shuffle that moves places regardless of what they hold |
| `IvfExact.ReloadExact` | src/core/ivf_index.cpp:98-209 | the exact condition, for any vectors and any such shuffle: the centroids and the members of every cell survive every requested cell count if and only if the live vectors in slot order are the live vectors in id order |
| `IvfExact.ReloadExactDistinct` | src/core/ivf_index.cpp:98-209 | for pairwise distinct vectors that is so if and only if the live ids ascend |
| `IvfExact.ReloadExactInOrder` | src/core/ivf_index.cpp:202-206 | for any vectors, the lists survive in order for every cell count if and only if the live ids ascend; a single cell already decides it |
| `IvfExact.OwnCells` | src/core/ivf_index.cpp:139-206 | with as many cells as live records every record's vector ends as its own centroid, in shuffled order, equal vectors or not |
| `IvfExact.SameMembership` | src/core/ivf_index.cpp:151-206 | records that list the same vectors in the same order are rebuilt with the same centroids and the same members of each cell, whatever their ids |
| `IvfExact.ReloadSwapsCells` | src/core/ivf_index.cpp:271-277 | the failing input: two records added out of order come back with their cells exchanged, under both shuffles of two |
| `IvfExact.ReloadLosesPartition` | src/core/ivf_index.cpp:271-277 | the same input, closed: there is a shuffle of this kind, and under it the partition is lost |
| `Settled.CentroidsStay` | src/core/ivf_index.cpp:175-195 | points clustered around themselves leave every centroid in place; of equal centroids all but the first stay empty |
| `Crc64.CrcIsSerial` | src/core/crc64.cpp:39-49 | the table-driven checksum is the bit-serial one from any initial state |
| `Crc64.PolyTerms` | src/core/crc64.cpp:7-8 | the constant is that generator: x^64 and the terms 62, 57, 55, 54, 53, 52, 47, 46, 45, 40, 39, 38, 37, 35, 33, 32, 31, 29, 27, 24, 23, 22, 21, 19, 17, 13, 12, 10, 9, 7, 4, 1 and 0 |
| `Crc64.BitAt` | src/core/crc64.cpp:19-26 | bit i from the right of a number is the one that counts 2^i |
| `Crc64.MessageBit` | src/core/crc64.cpp:43-47 | a message is taken byte by byte, the highest bit of each byte first |
| `Crc64.CrcIsRemainder` | src/core/crc64.cpp:7-49 | from state 0 it is the remainder of long division of the message, times x^64, by the generator polynomial of ECMA-182, Annex B, given by the exponents of its terms |
| `Crc64.CrcConcat` | src/core/crc64.cpp:39-49 | checksumming a concatenation is continuing from the checksum of its first part |
| `Crc64.CrcInjectiveInState` | src/core/crc64.cpp:43-47 | different states stay different through the same bytes |
| `Crc64.DetectsBurst` | src/core/crc64.cpp:39-49 | two contents whose bits differ only within 64 consecutive places, wherever these start, have the same checksum if and only if they are the same |
| `Crc64.BuildTable` | src/core/crc64.cpp:14-30 | every table entry is its byte shifted through eight polynomial steps |
| `Crc64.Crc64Ecma` | src/core/crc64.cpp:39-49 | the loop over the table computes the checksum from any state, and from state 0 the remainder by the generator of ECMA-182 |
| `SnapshotFormat.DigitAt` | include/vectorvault/snapshot_format.hpp:118-128 | byte i of an encoded number is its digit that counts 256^i |
| `SnapshotFormat.FromLELE` | include/vectorvault/snapshot_format.hpp:118-128 | a number that fits its width is recovered from its little-endian bytes |
| `SnapshotFormat.LEFromLE` | include/vectorvault/snapshot_format.hpp:196-218 | any bytes are the little-endian encoding of the number read from them |
| `SnapshotFormat.ReadStringBack` | include/vectorvault/snapshot_format.hpp:154-158 | a length-prefixed string reads back in front of anything |
| `SnapshotFormat.ByteWriter.PutInt` | include/vectorvault/snapshot_format.hpp:118-128 | appends exactly the little-endian bytes |
| `SnapshotFormat.ByteWriter.PutString` | include/vectorvault/snapshot_format.hpp:154-158 | appends length and bytes |
| `SnapshotFormat.ByteReader.Ensure` | include/vectorvault/snapshot_format.hpp:273-283 | a read past the end trips a flag that stays tripped |
| `SnapshotFormat.ByteReader.GetInt` | include/vectorvault/snapshot_format.hpp:196-218 | reads and consumes the number in front, or yields zero and fails |
| `SnapshotFormat.ByteReader.GetString` | include/vectorvault/snapshot_format.hpp:245-253 | reads and consumes the string in front, or yields nothing and fails |
| `SnapshotFormat.ByteReader.Sub` | include/vectorvault/snapshot_format.hpp:262-270 | the child sees exactly the next bytes, or nothing when the parent fails |
| `SnapshotLayout.Int64RoundTrip` | include/vectorvault/snapshot_format.hpp:130-132 | a signed value survives its unsigned encoding |
| `SnapshotLayout.ReadMetaBack` | src/core/persistence.cpp:47-135 | metadata reads back exactly, absent apart from present but empty |
| `SnapshotImage.ReadDirectoryBack` | src/core/persistence.cpp:248-260 | the record directory reads back as the slots of the records |
| `SnapshotImage.VectorsBack` | src/core/persistence.cpp:268-275 | every vector is found bit-exact at its index times the stride |
| `SnapshotRoundTrip.HeaderBack` | src/core/persistence.cpp:291-308 | the 76-byte header reads back field by field |
| `SnapshotRoundTrip.DecodeImage` | src/core/persistence.cpp:345-626 | decoding the image of any view that fits the format succeeds if and only if its index region fits its records, and then gives exactly the view |
| `SnapshotRoundTrip.ListOfMap` | src/core/collection.cpp:430-443 | capturing the loaded records lists them as they were |
| `SnapshotRoundTrip.ResaveIdentical` | src/core/persistence.cpp:233-314 | about the byte layout only: encoding what was decoded from a saved image, with the index region carried over as bytes, gives the same image; `SaveLoad.SaveLoadSave` is the statement in which the rebuilt index is serialized |
| `SnapshotRoundTrip.VectorRegionAligned` | src/core/persistence.cpp:262-270 | the vector region starts at a multiple of 64 bytes, behind the directory |
| `SnapshotBytes.HeaderPlaces` | src/core/persistence.cpp:291-308 | every header field at its byte range, the magic and the version 1 as literal bytes, flags and reserved bytes zero |
| `SnapshotBytes.ChecksumIsRemainder` | src/core/persistence.cpp:287-289 | the stored number is, bit for bit, the remainder of the content by the generator of ECMA-182 |
| `SnapshotBytes.BodyPlaces` | src/core/persistence.cpp:233-284 | behind the header the name, the directory, zeros up to the next multiple of 64, the vectors, the index region, and nothing else |
| `SnapshotBytes.AcceptedPlaces` | src/core/persistence.cpp:364-498 | what the loader has checked of an image it accepts, byte range by byte range |
| `SnapshotBytes.OddBytes` | src/core/persistence.cpp:47-99 | any presence byte but zero means present, any flag byte but zero means true, and a tag above 3 is malformed |
| `SnapshotBytes.BlobFilled` | src/core/persistence.cpp:47-99 | a metadata blob is taken only when it is read to its end |
| `SnapshotBytes.FirstKept` | src/core/persistence.cpp:47-99 | of several entries with one key the first is kept |
| `SnapshotBytes.ValueExamples` | src/core/persistence.cpp:108-135 | the literal bytes of one value of each kind |
| `SnapshotBytes.MetaExamples` | src/core/persistence.cpp:108-135 | the literal bytes of absent metadata and of one entry |
| `SnapshotBytes.RecordExample` | src/core/persistence.cpp:248-275 | the literal bytes of a directory entry and of one component |
| `SnapshotBytes.RegionExamples` | src/core/hnsw_index.cpp:386-392 | the literal bytes of the region of an empty graph and of an inverted file |
| `SnapshotBytes.NodeExample` | src/core/hnsw_index.cpp:394-419 | the literal bytes of a node of two layers |
| `SnapshotChanges.ContentChangeDetected` | src/core/persistence.cpp:424-432 | any change within 64 consecutive content bits of a saved image is reported as corruption |
| `SnapshotChanges.TruncationDetected` | src/core/persistence.cpp:364-498 | a saved image cut short anywhere is rejected: inside the header as no snapshot, behind it as corruption, whatever the checksum of the rest happens to be |
| `SnapshotChanges.GateChanges` | src/core/persistence.cpp:383-422 | a saved image with other magic and version bytes is no snapshot if and only if the magic is wrong, of an unsupported version if and only if the magic is right and the version is not, and the same image when both are right |
| `SnapshotChanges.ErrorsExact` | src/core/persistence.cpp:365-436 | each error category has exactly one cause: too short or a wrong magic, then the version, then the checksum and the structure |
| `SnapshotChanges.HeaderChanges` | src/core/persistence.cpp:396-487 | a saved image with other flags, reserved bytes, metric, index type, vector length and checksum, in any combination, is accepted if and only if checksum and length are the saved ones, the metric exists and the index region can be read as the type; it is then the view under that metric and type, else corruption |
| `SnapshotChanges.CountChanges` | src/core/persistence.cpp:462-478 | a saved image under any other record count is reported as corruption |
| `SnapshotChanges.DimensionChanges` | src/core/persistence.cpp:444-478 | a saved image under another dimensionality is reported as corruption unless it holds no record; then it is the empty view of that dimensionality |
| `SnapshotChanges.OffsetChanges` | src/core/persistence.cpp:471-558 | a saved image under another vector offset is accepted exactly when the region stays behind the directory and inside the file, with the same ids and metadata and the components found there |
| `SnapshotChanges.IndexPlaceChanges` | src/core/persistence.cpp:478-607 | a saved image whose header gives the index region another offset and another length is accepted if and only if the place is inside the file, empty only without an index, and the bytes there can be read as an index over the records; it is then the view with those bytes as its region, else corruption |
| `SnapshotChanges.IndexOffsetChanges` | src/core/persistence.cpp:478-487 | without an index every offset up to the file size is accepted and means the same view |
| `SnapshotSize.MetaLength` | src/core/persistence.cpp:47-135 | metadata is encoded in no more bytes than it was read from, repeated keys and presence bytes above 1 included |
| `SnapshotSize.DirectorySize` | src/core/persistence.cpp:503-552 | the directory of what was read is no longer than the one it was read from, in whatever order that lists the records |
| `SnapshotSize.DecodedStorable` | src/core/persistence.cpp:233-314 | whatever is decoded from a file below 2^62 bytes fits the format again |
| `SnapshotResave.LayoutExact` | src/core/persistence.cpp:233-314 | about the byte layout only: encoding what was decoded, with the index region carried over, gives the same bytes if and only if flags and reserved bytes are zero, the regions follow each other with the directory's end aligned and zero padding, and the directory lists ascending ids in vector order with canonical metadata |
| `SnapshotResave.IndexAgain` | src/core/collection.cpp:445-449 | the index rebuilt from an accepted region can be serialized, in no more bytes, and gives back that region if and only if it is no graph or a canonical one |
| `SnapshotResave.ResaveExact` | src/core/persistence.cpp:560-625 | the exact condition: any collection loaded from an accepted image below 2^62 bytes, coherent or not, can be saved, and is saved to the same bytes if and only if the layout is the encoder's and an HNSW region the serializer's |
| `SnapshotResave.Resave` | src/core/persistence.cpp:316-626 | loading an image and saving the collection reports the decoding error or writes an image, the same one if and only if that condition holds |
| `SnapshotResave.FlagsDropped` | src/core/persistence.cpp:383-401 | a failing input: the image of an empty collection with a flag set is accepted, and every collection loaded from it is saved to other bytes |
| `SnapshotResave.ParametersClamped` | src/core/hnsw_index.cpp:22-36 | a failing input laid out as the encoder does: an empty graph stored with m = 0 and ef_construction = 0 is accepted, and every collection loaded from it is saved to other bytes |
| `SnapshotWriter.WriteMetadata` | src/core/persistence.cpp:108-135 | the metadata writer produces the canonical encoding |
| `SnapshotWriter.WriteDirectory` | src/core/persistence.cpp:251-260 | the directory loop produces the directory bytes |
| `SnapshotWriter.WritePadding` | src/core/persistence.cpp:262-266 | the padding loop stops at the first aligned offset |
| `SnapshotWriter.WriteVectors` | src/core/persistence.cpp:271-275 | the vector loops produce the vector region |
| `SnapshotWriter.Encode` | src/core/persistence.cpp:233-314 | the encoder produces exactly the image whose decoding is proved |
| `SnapshotReader.ParseMetadata` | src/core/persistence.cpp:47-99 | accepts exactly the well-formed blobs, with the map the specification reads |
| `SnapshotReader.ParseDirectory` | src/core/persistence.cpp:503-552 | accepts exactly the well-formed directories: bounded blobs, non-empty unique ids, vector indices in range |
| `SnapshotReader.DirectoryEntries` | src/core/persistence.cpp:526-531 | every parsed entry has a non-empty id and a vector index in range |
| `SnapshotReader.ParseHeader` | src/core/persistence.cpp:383-408 | the header parse fails exactly on a wrong magic |
| `Persistence.MappedHouse` | src/core/persistence.cpp:533-552 | slots in range point at whole vectors inside the mapping and outside the arena, and read back the decoded records |
| `Persistence.RebuildIndex` | src/core/persistence.cpp:560-607 | the index is rebuilt exactly when the region is accepted, with the parsed graph, or with every record re-added to a file of the stored parameters that shuffles by the stored seed |
| `Persistence.Refill` | src/core/persistence.cpp:594-605 | re-adding the records in id order stores all of them, in that slot order |
| `Persistence.LoadedValid` | src/core/persistence.cpp:560-625 | a loaded collection satisfies the collection invariant if and only if its graph region is legal; without an index or with an inverted file it always does |
| `Persistence.Load` | src/core/persistence.cpp:345-626 | loading mirrors decoding for every byte string: the same error category, or a collection that holds what was decoded and satisfies the collection invariant if and only if its graph region, if any, is legal |
| `SaveLoad.SavedDecodes` | src/core/persistence.cpp:316-343 | the image of a coherent collection decodes to exactly what the collection holds |
| `SaveLoad.IndexReloaded` | src/core/persistence.cpp:560-607 | the index rebuilt from the region of a coherent one is coherent with the loaded records and serializes to the same region |
| `SaveLoad.LoadedIsCoherent` | src/core/persistence.cpp:609-625 | the loaded collection satisfies the collection invariant and would be saved from the same state |
| `SaveLoad.SaveLoadSave` | src/core/persistence.cpp:233-626 | save, load, save writes the same bytes, for every coherent collection with no index, a graph or an inverted file |
| `RecordStore.WriteKeepsContents` | src/core/collection.cpp:36-38 | copying components into a staged block changes no stored record |
| `RecordStore.RemoveRecord` | src/core/collection.cpp:228-230 | releasing a record's block leaves exactly the other records' blocks under the tag; a mapped record has none |
| `RecordStore.CommitBlock` | src/core/collection.cpp:182-187 | a staged block becomes the block of its record, and of no other |
| `RecordStore.LastWriterWins` | src/core/collection.cpp:173-193 | of several batch entries with one id the last is stored |
| `RecordStore.UnwrittenKeeps` | src/core/collection.cpp:173-193 | an id the batch does not mention keeps its record or its absence |
| `RecordStore.RoomStep` | src/core/collection.cpp:159-171 | whether a batch fits is decided one lowest fit at a time |
| `RecordStore.RecordsDisjoint` | src/core/collection.cpp:83-91 | the vector blocks of two records never overlap |
| `RecordStore.HouseSurvives` | src/core/memory_allocator.cpp:38-182 | a store under one tag keeps its blocks and the vectors in them whatever is done to the arena under another tag |
| `Ranking.RerankedTopK` | src/core/collection.cpp:370-380 | re-ranking candidates whose ids are those of the exact answer gives the exact answer |
| `Ranking.SortedAnswers` | src/core/collection.cpp:403-418 | sorting and cutting any exact list that is long enough gives min(k, count) distinct records, nearer ones first and equally near ones by identifier, exactly scored |
| `Ranking.SortedComplete` | src/core/collection.cpp:394-418 | the brute-force scan gives the exact top k |
| `Ranking.Rerank` | src/core/collection.cpp:370-380 | keeps the candidates that are stored, once each, with exact distances, whatever the list holds |
| `Ranking.AnswerFrom` | src/core/collection.cpp:367-420 | any candidate list, stale, duplicate or short, leads to the k nearest of the stored records it names when it names enough of them, and of all records otherwise |
| `Ranking.AnswerAll` | src/core/collection.cpp:394-420 | without an index the answer is the k nearest records, in order |
| `Indexing.AddTo` | src/core/collection.cpp:94-107 | a graph takes one add step with a node of the drawn level, an inverted file appends or overwrites one entry and goes stale; coherence is kept |
| `Indexing.RemoveFrom` | src/core/collection.cpp:231-233 | the record's node or entry becomes a tombstone; coherence is kept |
| `Indexing.SearchIn` | src/core/collection.cpp:368 | the candidates are the k nearest of what a graph search of breadth max(efSearch, k, 1) found from the end of the descent, or of what is filed in the nprobe nearest cells of a rebuilt inverted file; a graph is left alone, of a file at most the partition changes; an exhaustive search returns the exact top k |
| `Collections.BatchStatus` | src/core/collection.cpp:122-148 | a batch is valid exactly when every record is; otherwise the first invalid record determines the error |
| `Collections.Collection.Insert` | src/core/collection.cpp:61-112 | the status is decided by validation and by whether the arena has room; an error changes nothing, success stores the record, adds it to the index under the drawn level, keeps store, allocator and index coherent, and other tags keep every block and cell |
| `Collections.Collection.InsertBatch` | src/core/collection.cpp:114-195 | all or nothing: the exact status, rollback to the same records, index, live blocks, free list and totals, or the result of repeated single inserts, in the store and, in order and each under its drawn level, in the index; other tags keep every block and cell |
| `Collections.Collection.StageAll` | src/core/collection.cpp:152-171 | stages a block per record if and only if all of them fit one after another, else restores the allocator |
| `Collections.Collection.Rollback` | src/core/collection.cpp:161-165 | releasing the staged blocks gives back the live set from before |
| `Collections.Collection.CommitAll` | src/core/collection.cpp:173-194 | committing the staged blocks equals repeated single inserts into store and index, keeps the index coherent and other tags' blocks and cells as they were |
| `Collections.SameLedger` | src/core/collection.cpp:161-165 | equal live blocks mean an equal free list and equal totals |
| `Collections.Collection.Remove` | src/core/collection.cpp:217-235 | fails exactly on an unknown id, changing nothing; otherwise drops the record from store and allocator and makes it a tombstone of the index; other tags keep every block and cell |
| `Collections.Collection.BuildIndex` | src/core/collection.cpp:237-307 | a rejected request changes nothing; otherwise the index is a new one of the requested kind, parameters and seeded shuffle to which the stored records were added one by one in id order, each under its drawn level, and the collection is coherent even if the old index was not |
| `IndexOrder.ListedInOrder` | src/core/collection.cpp:275-287 | the records are visited each once, by ascending identifier |
| `IndexOrder.BuiltInOrder` | src/core/collection.cpp:275-287 | an index built this way has the i-th record, live, in node i with the i-th level drawn, or in entry i, and nothing else; the graph is well-formed |
| `Collections.Collection.Query` | src/core/collection.cpp:309-421 | the exact error cases; for any index min(k, count) distinct records under exact distances, nearer ones first and equally near ones by identifier; without index, when k covers the collection, or when the index is searched exhaustively, the k nearest of all; otherwise the k nearest of the stored records among the candidates that the search of the index under efSearch and nprobe offers, or of all when those are too few; the index keeps its records |
| `Collections.Collection.MemoryHeld` | src/core/collection.cpp:83-111 | an in-memory collection's tag holds exactly count * dimensionality * 4 bytes, in disjoint blocks |
| `Collections.Collection.Capture` | src/core/collection.cpp:423-452 | the captured view lists the records in id order with the index as its canonical region, for a coherent collection or any other whose index fits the format |
| `Engines.StillStanding` | include/vectorvault/collection.hpp:167-171 | a collection keeps its store in order, its records, and its coherence or lack of it, whatever is done to the shared arena under another tag |
| `Engines.Engine.CreateCollection` | src/core/engine.cpp:38-87 | the exact status; a rejected request changes nothing, otherwise there is one more coherent, empty collection under a tag nobody has used, and the others are undisturbed |
| `Engines.Engine.DeleteCollection` | src/core/engine.cpp:89-115 | takes exactly one collection out, coherent or not, and leaves exactly the other tags' blocks live; the others keep records, indexes and coherence; a failed deletion changes nothing |
| `Engines.Engine.LoadCollection` | src/core/engine.cpp:158-193 | reports the error of decoding or a taken name, changing no record; otherwise registers the decoded collection with the index its region describes, which is coherent if and only if its graph region, if any, is legal; the engine stays in order and the others are undisturbed in every case |
| `Engines.Engine.Register` | src/core/engine.cpp:78-86 | entering a collection whose store is in order keeps the engine in order and every other collection as it was |
| `Engines.Engine.Insert` | src/core/engine.cpp:129-139 | an insert through a handle to a coherent collection acts on it as specified, leaves it coherent and disturbs no other, coherent or not |
| `Engines.Engine.InsertBatch` | src/core/engine.cpp:129-139 | the same for a batch, whether it is stored or rolled back |
| `Engines.Engine.Remove` | src/core/engine.cpp:129-139 | the same for a removal |
| `Engines.Engine.BuildIndex` | src/core/engine.cpp:129-139 | building an index of the requested kind and parameters, over a coherent collection or not, leaves it coherent, shares no object with another collection's index and disturbs no other; a rejected request changes nothing |
| `Engines.Engine.Query` | src/core/engine.cpp:129-139 | a query to a coherent collection, which may refresh a partition: exact errors, exactly scored ordered answers, the k nearest of all without index, when k covers the collection or under an exhaustive search, and otherwise of the candidates its index offers; no record and no block changed anywhere |
| `Engines.Engine.Accounted` | src/core/memory_allocator.cpp:184-202 | the allocator's total is the sum over the registered collections: no block is left to nobody |
| `Engines.Engine.EmptyAgain` | src/core/engine.cpp:108-112 | once every collection is deleted nothing is live, the totals are zero and the arena is one free span |

## Left out

- Allocator.MemoryAllocator.Release: what a release does after a request above 2^64 - 64 bytes was granted, when the invariant no longer holds (`Allocator.MemoryAllocator.Allocate` says exactly when), is left out; the collection never asks for more than 256 KiB.
- SnapshotWriter.Encode: views are excluded whose offsets do not fit the 64-bit fields, or whose identifiers, keys, strings, metadata blobs or entry counts do not fit their 32-bit ones.
- Persistence.ParseBody: offsets are unbounded integers; record_count * stride cannot wrap in a file below 2^46 bytes, because record_count is bounded by the file size, and larger files are not modelled.
- HnswPersist.Serialize: graphs of 2^32 live nodes or more and levels of 2^31 or more are excluded, because ids and levels are stored in 32 bits.
- HnswPersist.SerializedReloads: says nothing about query results before and after a reload; neighbour order and entry point are re-derived, so they may differ.
- Hnsw.HnswIndex.Search: which nodes layer 0 reaches is bounded from below only while no list can overflow (`HnswSmall.SmallRunJoined`); beyond that pruning drops edges one way, and a reload drops tombstones, so no claim that layer 0 stays connected.
- HnswPersist.Deserialize: memory is unbounded; the loader reserves for the stored node count, level and degree before it has read that much (`src/core/hnsw_index.cpp:456`, `476`, `483`) and could run out of memory on a malformed region instead of rejecting it. An entry point of 2^31 or more, which the source casts to a signed int, is kept as the number it is; serializing does not look at it.
- Persistence.Load: the loader does not check that components are finite, as inserts do; distances to a loaded NaN component are outside the model.
- SnapshotChanges.IndexPlaceChanges: a changed name length moves the start of the directory; what is then accepted is what the parsers make of the bytes found there.
- SnapshotResave.ResaveExact: files of 2^62 bytes or more are excluded, because re-encoded offsets might not fit their fields.
- Ivf.IvfIndex.EnsurePartitionsBuilt: centroids are exact reals, not floats rounded after each recomputation, and squared distances do not overflow; slots are not truncated to 32 bits.
- Kernels.WideL2Squared: lanes are exact reals; the float32 subtraction, the rounding of each step and the choice of kernel by CPU feature are not modelled.
- Collections.Collection.Query: the distance function is arbitrary; square root and the cosine formula are not modelled. A distance is assumed not to be NaN, as `src/core/collection.cpp:404` says; cosine over vectors whose squared norms overflow to infinity would be infinity over infinity and is outside the model.
- Engines.Engine.Insert: inserts, removals and queries on a collection whose illegal graph was loaded are excluded, because the source then reads adjacency lists that need not exist.
- Engines.Engine.CreateCollection: the 64-bit tag counter is unbounded; saving through the engine, lookups and listings only read and are left to `SaveLoad` and to map lookups.
- `Collection::get`, `Engine::list_collections`, `Engine::get_collection`, the Python binding: map lookups and conversions.
- Files, durability, rename, temporary names and the mapping itself: foreign calls; a snapshot is a byte string, a mapped vector a slice of it.
- Message texts of errors: only the categories are kept.
- Random level sampling and the Mersenne twister: replaced by arbitrary levels and an arbitrary permutation.
- Recall and graph quality: statistical, not a property of the code.
