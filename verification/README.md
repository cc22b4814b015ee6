# Verified models of axom's containers, index mappings and Klee operators

A Dafny model of the parts of axom whose correctness depends on state, arithmetic or interleaving, with proofs of what
those parts promise.

- **The chained map** (`experimental::Map`). `Chains` gives the meaning of a bucket operation on a chain of entries.
  `NodeStore` and `Buckets` are the node block with its live and free list, updated in place. `ChainedMapSpec` is the
  map as a function of its state, `ChainedMaps` the map as a class over buckets, `ChainedMapTheorems` the theorems over
  whole runs and over rehashing.
- **The same map under OpenMP** (`LockedMap`, `LockedMapProofs`, `LockedMapTheorems`, `LockedMapOrder`). Any number of
  threads, one assignment per step, one lock per bucket, an atomic counter. Every interleaving has a serial explanation
  that keeps program order and real time, and no lock is held for more than a bounded number of steps.
- **Multidimensional indexing**. `Layouts` and `IndexTheorems` hold the arithmetic, `MDMappings` the class with its
  exchange sort, `LayoutChecks` the check of a shape against its strides, `ArrayViews` slices and subspans. Any number of
  dimensions, any direction order.
- **Growable arrays** (`GrowArrays`, `AppendTheorems`). Overlapping moves, reallocation, and what appending a view means
  for multi-indices.
- **The flat map** (`ProbeSequence`, `FlatTables`, `FlatMaps`). Groups of fifteen cells with overflow bits, quadratic
  probing, growth. Storage is a `Slot` that is either unconstructed or holds a pair, so the proofs also show that no
  unconstructed pair is read.
- **Klee operators** (`KleeUnits`, `KleeOperators`, `KleeIO`, `KleeTheorems`, `KleeMeaning`, `KleeReader`). A small typed
  language of transformations with units, nesting and named references. `KleeMeaning` says what the text of a list means,
  without the operators made from it: which lists are accepted, and what each does to a point. Reading a file gives
  exactly that.
- **The naive mesh intersection search** (`PairCollection`). A counting pass and a filling pass, each step of each task
  interleaved freely.

`Arithmetic`, `Counting` and `Wrappers` hold the facts about division, pigeonholes and folds, and the optional values,
that several of these share.

Hash functions, the triangle test, rotation and slice matrices are parameters. Integers are unbounded and lengths are
real numbers. Run the verifier on the whole project with `dafny verify dfyconfig.toml`.

## Findings

Where the code and its documentation disagree, the model follows the code.

- src/axom/core/Map.hpp:159-168. `insert_no_update` never compares the key in the last node of a chain, so an insert can
  duplicate that key, although its documentation says that the insertion fails when the key exists. It keeps keys unique
  exactly when the key is not in the last node of a bucket with room (`Chains.InsertNoUpdateUniqueIff`, counterexample
  `Chains.InsertTwiceDuplicates`).
- src/axom/core/Map.hpp:462-509. `Map::rehash` cuts every new chain at the bucket length. It is lossless exactly when no
  new bucket is asked to hold more (`ChainedMapTheorems.RehashLosslessIff`, counterexample `RehashCanLose`). Every lossy
  rehash makes `m_size` exceed the number of entries by more (`RehashSizeIff`), so at the end of a run `m_size` is right
  exactly when no rehash in it lost an entry (`RunKeepsInvIff`). Whole factors never lose one (`FactorsFit`).
- src/axom/core/Map.hpp:454. `Map::rehash` is documented to return true when the map is in a safe state. It returns
  `check_rehash`, which is true when the map should be rehashed (`ChainedMaps.Map.Rehash`).
- src/axom/core/Map.hpp:540. `Map::m_load_factor` starts at zero, not at the documented 1.0, so `check_rehash` always
  asks for a rehash. With 1.0 it would ask exactly when a bucket is full or there are as many entries as buckets
  (`ChainedMapTheorems.DefaultAlwaysAsks`).
- src/axom/core/Map.hpp:937. `Map::m_bucket_fill` is documented to be true if some bucket is full and false otherwise. No
  erasure clears it: between two rehashes it says that some bucket has been full (`ChainedMapTheorems.RunFlagIff`). One
  call makes it wrong exactly when it erases a key from the only full bucket (`ChainedMapTheorems.FlagRightIff`,
  counterexample `FlagStays`).
- src/axom/core/MDMapping.hpp:273-282. The exchange sort of `initializeStrides` does not always honour the documented
  preference for equal strides (`MDMappings.TiesCanSwap`). It does when no direction after the tie has a larger stride
  (`MDMappings.PreferenceKept`). That condition is not necessary (`MDMappings.TiesCanStay`): otherwise the outcome of a tie
  depends on every swap that passes it.
- src/axom/core/ArrayBase.hpp:466-470. Offsets are documented to lie below `memorySize`. A layout that the check accepts
  can break this and the round trip of an index, for instance 1 by 5 with strides 1 and 1 (`LayoutChecks.OneByFive`).
  Offsets fit exactly when no direction tied with the slowest is longer than one (`LayoutChecks.OffsetsFitIff`). Indices
  come back exactly when no tie along `slowestDirs` puts an extent other than one behind (`LayoutChecks.RoomyIff`,
  `LayoutChecks.RecoveredIff`). Distinct indices have distinct offsets in any case (`LayoutChecks.AcceptedDistinct`).
- src/axom/core/ArrayBase.hpp:521-527. `validateShapeAndStride` refuses some dense row-major layouts, for instance 5 by 1
  (`LayoutChecks.FiveByOneRefused`). It accepts one exactly when the extents of one come first
  (`LayoutChecks.RowMajorPassesIff`).
- src/axom/core/ArrayBase.hpp:1774-1780. Every slice of two or more directions goes through that check, so one index into
  a dense 2 by 5 by 1 array aborts (`ArrayViews.SliceOfTwoFiveOne`). Indexing in stages reaches the element exactly when
  extents of one come first in every such slice (`ArrayViews.DenseStagedIff`).
- src/axom/core/ArrayBase.hpp:660-664 and 741-744. A one-direction slice compares an index with its extent times its
  stride, and only then multiplies the index by the stride. The check keeps every access inside the slice exactly when the
  stride is one (`ArrayViews.LineCheckIff`). Otherwise it passes, for instance, index 5 in a row of a 2 by 3 array with
  strides 6 and 2, and reads place 16 of 12 (`ArrayViews.RowOfStrideTwo`). `flatIndex` (lines 335-339) makes the same
  comparison with `memorySize` and the smallest stride (`ArrayViews.FlatIndexCheckIff`).
- src/axom/core/ArrayView.hpp:396-427. The multidimensional `subspan` aborts when strides repeat (`ArrayViews.Subspan`,
  counterexample `SubspanOfFiveByOne`). It accepts an offset plus count equal to the extent although its documentation
  (line 210) says smaller.
- src/axom/core/ArrayBase.hpp:434-446. `append` grows the leading direction and lays the shape out again in the same
  direction order, while the old elements stay where they are. They keep their multi-indices exactly when nothing is added
  or every direction slower than the leading one has extent one (`AppendTheorems.AppendKeepsIff`). In a column-major 2 by 2
  array the element at (0, 1) moves (`AppendTheorems.ColumnMajorMoves`).
- src/axom/core/FlatMap.hpp:669-678. The `FlatMap` constructor rounds the number of groups down, although its comment asks
  for the smallest power of two that is large enough. The requested buckets are delivered exactly when the needed number
  of groups is a power of two (`FlatTables.ConstructorDeliversIff`, counterexamples `FlatTables.RoundingFallsShort`).
- src/axom/core/FlatMap.hpp:565. For the same reason `reserve` can break its promise. `FlatMaps.ReserveHoldsIff` says
  exactly when it holds, also for a map that already has elements, and `FlatMaps.FlatMap.ReserveAndInsert` says it of the
  object.
- src/axom/core/FlatMap.hpp:805-817. `FlatMap::erase` does not decrement `m_size`, so `size()` exceeds the number of
  stored keys by the erasures since the last clear or rebuild (`FlatMaps.AlwaysRoom`, counterexample
  `FlatMaps.FlatMap.SizeDrifts`).
- src/axom/klee/GeometryOperatorsIO.cpp:620-622. A named operator with an empty value is dereferenced as a null operator.
  `KleeTheorems.NullOperatorIff` says exactly when, `KleeTheorems.EmptyNamedOperator` gives a file.
- src/axom/klee/GeometryOperatorsIO.cpp:627. Of two operators with one name the first wins
  (`KleeTheorems.FirstDefinitionWins`).
- src/axom/klee/IO.cpp:214-242. The documentation (src/axom/klee/docs/sphinx/specifying_shapes.rst:192) makes it an error
  when `end_units` do not match the units after the last operator. They are never compared
  (`KleeTheorems.EndUnitsIgnored`). They match exactly when they are the units of the last conversion in the list, or the
  start units when there is none (`KleeTheorems.EndUnitsMetIff`).

## Model

| member | source | states |
|---|---|---|
| Chains.InsertNoUpdateUniqueIff | src/axom/core/Map.hpp:142-181 | insert_no_update keeps keys unique if and only if it does not meet its key in the last node of a bucket with room |
| Chains.InsertTwiceDuplicates | src/axom/core/Map.hpp:142-181 | two inserts of one key into an empty bucket of length two leave the key twice |
| Chains.InsertNoUpdateNearlyUnique | src/axom/core/Map.hpp:142-181 | what insert_no_update always keeps: equal keys are neighbours and come at most twice |
| Chains.InsertNoUpdateLookup | src/axom/core/Map.hpp:142-181 | after insert_no_update only a new key answers with the new value |
| Chains.InsertUpdateKeeps | src/axom/core/Map.hpp:196-246 | insert_update keeps keys unique, and nearly unique |
| Chains.InsertUpdateLookup | src/axom/core/Map.hpp:196-246 | after insert_update the key answers with the new value unless the bucket refused it, and every other key as before |
| Chains.RemoveKeeps | src/axom/core/Map.hpp:256-285 | remove keeps keys unique, and nearly unique |
| Chains.RemoveLookup | src/axom/core/Map.hpp:256-285 | after remove a unique key is gone and every other key answers as before |
| Chains.RemoveForgetsIff | src/axom/core/Map.hpp:256-285 | remove makes a key unfindable if and only if the key is not duplicated behind it |
| NodeStore.AppendKeeps | src/axom/core/Map.hpp:142-181 | taking a node from the free chain keeps the two chains a partition of all nodes and appends one entry |
| NodeStore.AssignKeeps | src/axom/core/Map.hpp:196-246 | assigning a value keeps both chains and changes one entry |
| NodeStore.UnlinkKeeps | src/axom/core/Map.hpp:256-285 | returning a node to the free chain keeps the partition and removes exactly one entry |
| NodeStore.FullIff | src/axom/core/Map.hpp:142-181 | the free chain is empty if and only if the bucket holds as many entries as nodes |
| Buckets.Bucket.constructor | src/axom/core/Map.hpp:110-125 | a new bucket is well formed, empty and has the requested length |
| Buckets.Bucket.AppendNode | src/axom/core/Map.hpp:142-181 | the in-place linking of a free node appends its entry to the chain |
| Buckets.Bucket.AssignNode | src/axom/core/Map.hpp:196-246 | the in-place assignment changes the value of one entry |
| Buckets.Bucket.UnlinkNode | src/axom/core/Map.hpp:256-285 | the in-place unlinking removes one entry |
| Buckets.Bucket.InsertNoUpdate | src/axom/core/Map.hpp:142-181 | the method computes the chain, the node and the flag that the chain function gives; the node is the end node if and only if the bucket is full, and otherwise a live node with the key, holding the new value if it was added and the old one if not |
| Buckets.Bucket.InsertUpdate | src/axom/core/Map.hpp:196-246 | likewise for insert_update; the node is the end node if and only if a new key finds no room, and otherwise a live node that holds the key and the value |
| Buckets.Bucket.Remove | src/axom/core/Map.hpp:256-285 | likewise for remove |
| Buckets.Bucket.Find | src/axom/core/Map.hpp:295-312 | the first node with the key, or the end node if and only if there is none |
| ChainedMaps.Map.Allocate | src/axom/core/Map.hpp:807-817 | the requested number of separate empty buckets |
| ChainedMaps.Map.constructor | src/axom/core/Map.hpp:374-380 | an empty map with load factor zero |
| ChainedMaps.Map.Insert | src/axom/core/Map.hpp:561-589 | the new state and flag are those of the insert step of the specification, other buckets are untouched, and the node holds the key as for insert_no_update |
| ChainedMaps.Map.InsertOrAssign | src/axom/core/Map.hpp:608-637 | likewise for insert_or_assign; unless a new key finds no room the node holds the key and the value |
| ChainedMaps.Map.Erase | src/axom/core/Map.hpp:671-688 | likewise for erase |
| ChainedMaps.Map.Find | src/axom/core/Map.hpp:697-705 | the value of the first entry with the key in its bucket |
| ChainedMaps.Map.MoveEntries | src/axom/core/Map.hpp:462-509 | the inner loop of rehash re-inserts one chain in order |
| ChainedMaps.Map.Rebuild | src/axom/core/Map.hpp:462-509 | the outer loop re-inserts every entry, bucket after bucket, into fresh buckets |
| ChainedMaps.Map.FindFull | src/axom/core/Map.hpp:462-509 | the final loop answers whether some new bucket is full |
| ChainedMaps.Map.Rehash | src/axom/core/Map.hpp:462-509 | the bucket count becomes the larger count, or the factor times the old one, or its double; the contents are those of the rehash step, and the answer says whether the map should be rehashed again |
| ChainedMapTheorems.SpreadIs | src/axom/core/Map.hpp:462-509 | re-inserting gives every new bucket its entries in order, cut at the bucket length |
| ChainedMapTheorems.RehashIs | src/axom/core/Map.hpp:462-509 | the exact result of a rehash to any number of buckets, from any reachable state, earlier losses included |
| ChainedMapTheorems.RehashLosslessIff | src/axom/core/Map.hpp:462-509 | a rehash loses nothing if and only if every new bucket's entries fit |
| ChainedMapTheorems.RehashCanLose | src/axom/core/Map.hpp:462-509 | a concrete rehash from two to three buckets loses an entry |
| ChainedMapTheorems.RehashSizeIff | src/axom/core/Map.hpp:462-509 | a rehash never brings m_size nearer to the number of entries, and leaves the difference as it is if and only if nothing is lost |
| ChainedMapTheorems.RehashFlagIff | src/axom/core/Map.hpp:481-506 | after a rehash the flag is set if and only if some new bucket was asked to hold as many entries as it can, or more |
| ChainedMapTheorems.DefaultAlwaysAsks | src/axom/core/Map.hpp:784-791 | with the initial load factor check_rehash is always true; with 1.0 it would be true if and only if a bucket is full or there are as many entries as buckets |
| ChainedMapTheorems.AsksIff | src/axom/core/Map.hpp:784-791 | with any whole load factor check_rehash is true if and only if a bucket is full or there are that many entries per bucket |
| ChainedMapTheorems.HomeHolds | src/axom/core/Map.hpp:717-717 | the length of a bucket is the number of stored entries whose hashes are congruent to its index |
| ChainedMapTheorems.RefusedIff | src/axom/core/Map.hpp:561-637 | insert is refused if and only if as many stored keys as a bucket holds are congruent to its key, and insert_or_assign if and only if in addition its key is not stored |
| ChainedMapTheorems.RehashByFactor | src/axom/core/Map.hpp:462-509 | for any whole factor each new chain is the order-preserving sub-chain of the one old bucket with the congruent index |
| ChainedMapTheorems.AllLookup | src/axom/core/Map.hpp:462-509 | a key is found among all entries, read bucket after bucket, exactly as in its own bucket |
| ChainedMapTheorems.RehashKeepsLookups | src/axom/core/Map.hpp:462-509 | every find answers as before a rehash that loses nothing |
| ChainedMapTheorems.RehashKept | src/axom/core/Map.hpp:462-509 | any rehash, lossy or not, keeps placement by hash, the bucket length, the flag and unique keys |
| ChainedMapTheorems.EmptyInv | src/axom/core/Map.hpp:374-380 | a new map satisfies the invariant |
| ChainedMapTheorems.StepKeeps | src/axom/core/Map.hpp:462-717 | every call keeps placement by hash, the bucket length and the flag for full buckets, and m_size drifts from the sum of chain lengths if and only if the call is a rehash that loses entries |
| ChainedMapTheorems.RunKeepsInvIff | src/axom/core/Map.hpp:462-717 | every run keeps these, and ends with m_size the number of entries if and only if no rehash in it lost any |
| ChainedMapTheorems.FactorsFit | src/axom/core/Map.hpp:462-509 | a run that rehashes by whole factors only loses nothing |
| ChainedMapTheorems.StepFlagIff | src/axom/core/Map.hpp:462-688 | a rehash sets the flag if and only if a bucket is full; any other call leaves it set, or sets it if and only if a bucket is full now |
| ChainedMapTheorems.RunFlagIff | src/axom/core/Map.hpp:561-688 | after a run without rehash the flag is set if and only if it was set before or some bucket has been full |
| ChainedMapTheorems.FlagRightIff | src/axom/core/Map.hpp:937-937 | a flag that tells whether a bucket is full goes wrong if and only if the call erases a key from the only full bucket |
| ChainedMapTheorems.FlagStays | src/axom/core/Map.hpp:937-937 | filling the only bucket and erasing its key leaves the flag set |
| ChainedMapTheorems.InsertRefines | src/axom/core/Map.hpp:561-589 | insert answers as a finite map, unless it meets its key in a last node |
| ChainedMapTheorems.AssignRefines | src/axom/core/Map.hpp:608-637 | insert_or_assign answers as a finite map and refuses an absent key only for want of room |
| ChainedMapTheorems.EraseRefines | src/axom/core/Map.hpp:671-688 | erase answers as a finite map |
| ChainedMapTheorems.RehashRefines | src/axom/core/Map.hpp:462-509 | a rehash that loses nothing does not change the represented map |
| ChainedMapTheorems.StepRefines | src/axom/core/Map.hpp:462-717 | each call that inserts no last key and loses nothing does to the represented map what the same call does to a finite map |
| ChainedMapTheorems.RunRefines | src/axom/core/Map.hpp:462-717 | every run of such calls, rehashes to any count included, answers call by call as the finite map and ends representing it |
| LockedMap.AfterOpIsCalled | src/axom/core/Map.hpp:561-705 | the bucket after all assignments of an operation is well formed and holds the chain of the sequential call |
| LockedMap.StepIsCalled | src/axom/core/Map.hpp:561-705 | a sequential step changes one chain, the counter and the flag as one bucket call does |
| LockedMapProofs.AppendStages | src/axom/core/Map.hpp:142-246 | the single assignments of an insertion add up to the whole insertion |
| LockedMapProofs.UnlinkStages | src/axom/core/Map.hpp:256-285 | the single assignments of a removal add up to the whole removal |
| LockedMapProofs.WalkInsert | src/axom/core/Map.hpp:142-181 | one look at a node during insert keeps the local invariant, unchecked tail included |
| LockedMapProofs.WalkAssign | src/axom/core/Map.hpp:196-246 | one look at a node during insert_or_assign keeps it |
| LockedMapProofs.WalkErase | src/axom/core/Map.hpp:256-285 | one look at a node during erase keeps it |
| LockedMapProofs.WalkFind | src/axom/core/Map.hpp:295-312 | one look at a node during find keeps it |
| LockedMapProofs.BucketStep | src/axom/core/Map.hpp:142-312 | every single assignment inside a critical section keeps the local invariant |
| LockedMapTheorems.AcquireKeeps | src/axom/core/Map.hpp:883-898 | taking a bucket lock keeps the global invariant |
| LockedMapTheorems.AdvanceReady | src/axom/core/Map.hpp:561-705 | a thread in its critical section holds the lock and its next access stays inside the bucket |
| LockedMapTheorems.BucketStepKeeps | src/axom/core/Map.hpp:561-705 | a bucket assignment keeps the global invariant |
| LockedMapTheorems.CountKeeps | src/axom/core/Map.hpp:561-705 | the atomic update of m_size keeps it |
| LockedMapTheorems.FlagKeeps | src/axom/core/Map.hpp:561-637 | setting m_bucket_fill keeps it |
| LockedMapTheorems.ReleaseKeeps | src/axom/core/Map.hpp:883-898 | releasing the lock keeps it, and the answer is that of the serial call |
| LockedMapTheorems.SerialRun | src/axom/core/Map.hpp:561-705 | at every moment the finished calls, in release order, explain all answers |
| LockedMapTheorems.FreshInv | src/axom/core/Map.hpp:535-544 | a new map with idle threads satisfies the invariant |
| LockedMapTheorems.QuietSizes | src/axom/core/Map.hpp:561-705 | with no call inside, each bucket's own count is the length of its chain in the serial run |
| LockedMapTheorems.Serializable | src/axom/core/Map.hpp:561-705 | in every interleaving: serial explanation, unlocked buckets well formed and holding its chains, exclusive access, and when no call is inside, m_size is the sum of the bucket sizes and the flag is set if and only if some bucket was full in the serial run |
| LockedMapTheorems.ConcurrentRefinesMap | src/axom/core/Map.hpp:561-705 | a concurrent run answers as a finite map when its serial order never inserts a last key |
| LockedMapOrder.ProgramOrder | src/axom/core/Map.hpp:561-705 | in every interleaving the serial explanation lists each thread's calls in the order in which the thread makes them |
| LockedMapOrder.RealTime | src/axom/core/Map.hpp:561-705 | a call that ends before another one starts precedes it in the serial explanation |
| LockedMapOrder.NeverBlocked | src/axom/core/Map.hpp:883-898 | a thread that holds a lock can always make its next step |
| LockedMapOrder.FuelDrops | src/axom/core/Map.hpp:561-705 | every step of a thread that holds a lock brings it nearer to the release, whatever the others have done |
| LockedMapOrder.BoundedHold | src/axom/core/Map.hpp:561-705 | under any schedule, bucket length plus eleven steps of the holder are enough to release the lock and finish the call |
| Arithmetic.TruncatesTowardZero | src/axom/core/MDMapping.hpp:377-387 | integer division as the source has it: the remainder is smaller than the divisor and never has the opposite sign of the dividend |
| Layouts.OffsetInSpan | src/axom/core/ArrayBase.hpp:461-476 | every in-bounds offset lies below the extent times the stride of the slowest direction |
| Layouts.Recovered | src/axom/core/MDMapping.hpp:377-387 | peeling quotients recovers every in-bounds index of a padded layout |
| Layouts.Reflattened | src/axom/core/MDMapping.hpp:370-387 | flattening a recovered index returns the offset less its remainder by the fastest stride |
| Layouts.LexIsOffsetOrder | src/axom/core/StackArray.hpp:121-136 | lexicographic order of indices is the order of offsets |
| MDMappings.MultiIndexPermuted | src/axom/core/MDMapping.hpp:377-387 | toMultiIndex is quotient peeling along the direction order |
| MDMappings.ExchangedSorts | src/axom/core/MDMapping.hpp:260-283 | the exchange sort always yields a permutation with non-increasing strides |
| MDMappings.ExchangedKeeps | src/axom/core/MDMapping.hpp:260-283 | it leaves a sorted order alone, ties included |
| MDMappings.TiesCanSwap | src/axom/core/MDMapping.hpp:260-283 | it does not honour the preference: strides 1, 1, 5 with ROW preferred reverse a tie |
| MDMappings.TieKept | src/axom/core/MDMapping.hpp:260-283 | at any point of the sort a tie with no larger stride behind it keeps its order to the end |
| MDMappings.PreferenceKept | src/axom/core/MDMapping.hpp:250-283 | two directions with equal strides end in their preferred order when no direction after them has a larger stride |
| MDMappings.TiesCanStay | src/axom/core/MDMapping.hpp:260-283 | the condition is not necessary: strides 1, 1, 5, 3 keep their tie in order |
| MDMappings.MonotoneOrders | src/axom/core/MDMapping.hpp:353-367 | a permutation is increasing if and only if it is the identity, and decreasing if and only if it is the reverse |
| MDMappings.MDMapping.ColumnStrides | src/axom/core/MDMapping.hpp:139-172 | the column-major loop makes a layout without padding |
| MDMappings.MDMapping.RowStrides | src/axom/core/MDMapping.hpp:139-172 | the row-major loop makes a layout without padding |
| MDMappings.MDMapping.InitializeShape | src/axom/core/MDMapping.hpp:139-172 | the preferred order and dense strides |
| MDMappings.MDMapping.InitializeShapeDirs | src/axom/core/MDMapping.hpp:184-201 | dense strides along any permutation |
| MDMappings.MDMapping.InitializeStrides | src/axom/core/MDMapping.hpp:260-283 | the in-place exchange sort gives a permutation with non-increasing strides |
| MDMappings.MDMapping.StridesAreUnique | src/axom/core/MDMapping.hpp:285-296 | true if and only if no two strides are equal |
| MDMappings.MDMapping.InitializeUniqueStrides | src/axom/core/MDMapping.hpp:225-248 | aborts if and only if strides repeat, and otherwise sorts |
| MDMappings.MDMapping.IsPermutationOf | src/axom/core/MDMapping.hpp:323-345 | true if and only if the vector is a permutation of its positions |
| MDMappings.MDMapping.GetStrideOrder | src/axom/core/MDMapping.hpp:353-367 | ROW if and only if the direction order is the identity, COLUMN if and only if it is the reverse, both only in one dimension |
| MDMappings.MDMapping.ToMultiIndex | src/axom/core/MDMapping.hpp:377-387 | the loop computes the quotient peeling |
| IndexTheorems.DotPermuted | src/axom/core/MDMapping.hpp:370-374 | an offset does not depend on the order in which directions are summed |
| IndexTheorems.RoundTrip | src/axom/core/MDMapping.hpp:370-387 | for any padded layout and direction order an in-bounds index comes back, and its offset is below memorySize |
| IndexTheorems.ThereAndBack | src/axom/core/MDMapping.hpp:370-387 | on a mapping object toFlatIndex followed by toMultiIndex returns the index, with the offset inside the memory |
| IndexTheorems.OffsetsDistinct | src/axom/core/ArrayBase.hpp:504-531 | distinct in-bounds indices have distinct offsets |
| IndexTheorems.DenseRoomy | src/axom/core/ArrayBase.hpp:472-476 | strides made by initializeShape leave room, and memorySize is the fastest stride times the number of elements |
| IndexTheorems.FlatRoundTrip | src/axom/core/MDMapping.hpp:370-387 | an offset comes back if and only if the fastest stride divides it |
| IndexTheorems.Bijection | src/axom/core/MDMapping.hpp:184-201 | with fastest stride 1 the two conversions are inverse bijections between the index box and the offsets below the product of extents |
| IndexTheorems.SortedUnique | src/axom/core/MDMapping.hpp:260-283 | only one permutation sorts distinct strides |
| IndexTheorems.OrderRecovered | src/axom/core/MDMapping.hpp:184-201 | any sort of strides made from extents of at least two gives back the direction order |
| IndexTheorems.PreferredSorted | src/axom/core/MDMapping.hpp:139-172 | row- and column-major strides of any positive extents are already sorted |
| IndexTheorems.Recover | src/axom/core/MDMapping.hpp:260-283 | initializeStrides recovers any permutation when all extents are at least two |
| IndexTheorems.RecoverPreferred | src/axom/core/MDMapping.hpp:260-283 | it recovers ROW or COLUMN with the matching preference for any positive extents |
| IndexTheorems.RowMajorLexicographic | src/axom/core/StackArray.hpp:121-136 | for row-major mappings the comparison of indices is the comparison of offsets |
| LayoutChecks.SortByStride | src/axom/core/utilities/Utilities.hpp:359-373 | the insertion sort is the stable sort by stride |
| LayoutChecks.PassesIff | src/axom/core/ArrayBase.hpp:504-531 | every pair of neighbours in the sorted order passes if and only if every two directions with none between them pass |
| LayoutChecks.StackedIff | src/axom/core/ArrayBase.hpp:504-531 | for any non-zero strides the layout passes if and only if along the sorted order each stride covers the block before it and is a multiple of the stride before it |
| LayoutChecks.AllStackedIff | src/axom/core/ArrayBase.hpp:504-531 | for positive extents and strides it passes if and only if of any two directions the larger stride is a multiple of the smaller and covers its block |
| LayoutChecks.SevenOverTwoRefused | src/axom/core/ArrayBase.hpp:525-526 | 2 by 3 with strides 7 and 2 is refused |
| LayoutChecks.ValidateShapeAndStride | src/axom/core/ArrayBase.hpp:504-531 | the check passes exactly under these conditions |
| LayoutChecks.TieShort | src/axom/core/ArrayBase.hpp:504-531 | of two directions with equal strides in an accepted layout the one with the smaller number has extent one |
| LayoutChecks.RoomyIff | src/axom/core/ArrayBase.hpp:207-214 | an accepted layout has room along any slowest-first order if and only if no tie in it puts an extent other than one behind |
| LayoutChecks.AcceptedDistinct | src/axom/core/ArrayBase.hpp:504-531 | distinct indices of an accepted layout have distinct offsets, whatever the ties |
| LayoutChecks.OffsetsFitIff | src/axom/core/ArrayBase.hpp:466-476 | all offsets of an accepted layout are below memorySize if and only if no direction tied with the slowest is longer than one |
| LayoutChecks.RecoveredIff | src/axom/core/MDMapping.hpp:370-387 | toMultiIndex undoes toFlatIndex on an accepted layout if and only if no tie puts an extent other than one behind |
| LayoutChecks.FromStrides | src/axom/core/ArrayBase.hpp:207-214 | the constructor from a shape and strides: its direction order, when it aborts in terms of all pairs of directions, and the three conditions above at that order |
| LayoutChecks.OneByFive | src/axom/core/ArrayBase.hpp:207-214 | 1 by 5 with strides 1 and 1 is accepted, its last element lies beyond memorySize and its offset leads to another index |
| LayoutChecks.RowMajorPassesIff | src/axom/core/ArrayBase.hpp:504-531 | dense row-major strides pass if and only if the extents of one come first |
| LayoutChecks.FiveByOneRefused | src/axom/core/ArrayBase.hpp:521-527 | the dense 5 by 1 layout is refused |
| ArrayViews.StagedIs | src/axom/core/ArrayBase.hpp:540-568 | for any view and any split of the indices over nested slices, indexing succeeds if and only if every slice on the way exists and the last stage passes its check, and then reaches the element of the full multi-index |
| ArrayViews.WholeCheckIff | src/axom/core/ArrayBase.hpp:498-568 | on a dense layout in any direction order a full set of indices reaches its element if and only if the offset lies in the memory of the array |
| ArrayViews.LineCheckIff | src/axom/core/ArrayBase.hpp:660-672 | the check of a one-direction slice keeps every access inside the slice, and passes exactly the indices of the slice, if and only if the stride is one |
| ArrayViews.FlatIndexCheckIff | src/axom/core/ArrayBase.hpp:335-339 | the check of flatIndex keeps every access below memorySize if and only if the smallest stride is one |
| ArrayViews.RowOfStrideTwo | src/axom/core/ArrayBase.hpp:660-744 | index 5 in the second row of a 2 by 3 array with strides 6 and 2 passes and reads place 16 of 12 |
| ArrayViews.OneByFiveInStages | src/axom/core/ArrayBase.hpp:540-744 | in the 1 by 5 array with strides 1 and 1 the last element is reached in two stages and refused in one |
| ArrayViews.DenseStagedIff | src/axom/core/ArrayBase.hpp:1774-1834 | on a dense row-major array an in-bounds index, however split, reaches its element if and only if extents of one come first in every slice of two or more directions |
| ArrayViews.SliceOfTwoFiveOne | src/axom/core/ArrayBase.hpp:1774-1780 | one index into a dense 2 by 5 by 1 array aborts |
| ArrayViews.SliceData | src/axom/core/ArrayBase.hpp:1800-1806 | the element of a full multi-index is found from the data of any slice on the way with the slice's own strides |
| ArrayViews.Subspan | src/axom/core/ArrayView.hpp:392-429 | element x of a subspan is element offsets + x of its parent, and its indices are exactly those asked for; it exists if and only if strides are distinct and, with debug checks on, the layout passes |
| ArrayViews.SubspanPasses | src/axom/core/ArrayBase.hpp:395-404 | the debug check never refuses a subspan of a layout that passes |
| ArrayViews.SubspanOfFiveByOne | src/axom/core/ArrayView.hpp:392-429 | the whole of a dense 5 by 1 array is refused as a subspan of itself |
| ArrayViews.SubspanInside | src/axom/core/ArrayView.hpp:392-429 | a subspan stays inside its parent's memory and distinct indices reach distinct elements |
| GrowArrays.GrownCapacityFits | src/axom/core/Array.hpp:1734-1748 | the new capacity holds the new elements, never shrinks and is a whole number of blocks, the least one that is not below the needed number or the rounded grown capacity |
| GrowArrays.NonEmptyBlock | src/axom/core/Array.hpp:1366-1373 | a non-empty view has a non-zero block size |
| GrowArrays.Array.constructor | src/axom/core/Array.hpp:983-985 | a default array is empty, allocates nothing and doubles |
| GrowArrays.Array.Shaped | src/axom/core/Array.hpp:1033-1045 | an array of any shape, filled with one value, with room for at least 32 elements |
| GrowArrays.Array.Move | src/axom/core/ArrayBase.hpp:1038-1060 | an overlapping range arrives whole in both directions and nothing else changes |
| GrowArrays.Array.SetCapacity | src/axom/core/Array.hpp:1705-1730 | the elements that fit are kept and counted as relocated |
| GrowArrays.Array.DynamicRealloc | src/axom/core/Array.hpp:1734-1762 | the elements are kept at the grown capacity |
| GrowArrays.Array.ReserveForInsert | src/axom/core/Array.hpp:1636-1660 | a gap opens at the position and both sides are kept, with the exact capacity and relocation |
| GrowArrays.Array.FillRange | src/axom/core/ArrayBase.hpp:964-1010 | the values arrive and nothing else changes |
| GrowArrays.Array.Fill | src/axom/core/ArrayBase.hpp:950-953 | likewise for copies of one value |
| GrowArrays.Array.Insert | src/axom/core/Array.hpp:1295-1301 | the contents are those of the sequence with the value inserted |
| GrowArrays.Array.InsertRange | src/axom/core/Array.hpp:1317-1326 | likewise for a range; storage that suffices is left alone and other storage is grown once |
| GrowArrays.Array.InsertN | src/axom/core/Array.hpp:1343-1348 | likewise for copies of one value |
| GrowArrays.Array.PushBack | src/axom/core/Array.hpp:1486-1490 | the value is appended, with the exact growth |
| GrowArrays.Array.EraseRange | src/axom/core/Array.hpp:1397-1425 | the range is gone and the rest keeps its order |
| GrowArrays.Array.Erase | src/axom/core/Array.hpp:1377-1393 | one element is gone |
| GrowArrays.Array.Resize | src/axom/core/Array.hpp:1509-1556 | the array is cut, or extended with copies of the value, growing the storage at most once |
| GrowArrays.Array.Reserve | src/axom/core/Array.hpp:706-712 | the capacity is the larger of the two and the contents stay |
| GrowArrays.Array.Shrink | src/axom/core/Array.hpp:770-770 | the capacity becomes the size and the contents stay |
| GrowArrays.Array.Clear | src/axom/core/Array.hpp:1283-1291 | the contents are gone and the capacity stays |
| GrowArrays.Array.Run | src/axom/core/Array.hpp:1283-1448 | every run of operations does to the array what it does to a sequence |
| GrowArrays.Array.PushAll | src/axom/core/Array.hpp:1486-1490 | n appends to a default array relocate fewer than 2n elements in all |
| GrowArrays.Array.Append | src/axom/core/Array.hpp:1366-1373 | the contents are concatenated, the leading extent grows by that of the view, and the storage grows at most once |
| AppendTheorems.RowMajorDense | src/axom/core/MDMapping.hpp:139-172 | the reference strides are those initializeShape makes |
| AppendTheorems.AppendConcatenates | src/axom/core/ArrayBase.hpp:434-446 | old elements keep their multi-index and new ones are shifted by the old leading extent |
| AppendTheorems.AppendView | src/axom/core/Array.hpp:1366-1373 | append on a row-major object: every multi-index below the old leading extent keeps its element, and every other one has the element of the view at the index shifted back |
| AppendTheorems.StridesAfterAppend | src/axom/core/ArrayBase.hpp:422-446 | for any direction order, strides up to that of the leading direction stay and those of slower directions grow unless nothing was added |
| AppendTheorems.AppendKeepsIff | src/axom/core/ArrayBase.hpp:422-446 | for any direction order, old elements keep their multi-indices if and only if nothing is added or every direction slower than the leading one has extent one |
| AppendTheorems.ColumnMajorMoves | src/axom/core/ArrayBase.hpp:422-446 | one row appended to a column-major 2 by 2 array moves the element at (0, 1) |
| ProbeSequence.ProbeIs | src/axom/core/detail/FlatTable.hpp:21-33 | the walk has moved by a triangular number, up to whole rounds |
| ProbeSequence.ProbeInjective | src/axom/core/detail/FlatTable.hpp:21-33 | no group of a power-of-two table is probed twice in one round |
| ProbeSequence.ProbeOnto | src/axom/core/detail/FlatTable.hpp:21-33 | every group is probed in one round |
| FlatTables.HomeIs | src/axom/core/detail/FlatTable.hpp:183-190 | the 64-bit hashes that start probing at one group form the interval that its number gives their top bits |
| FlatTables.LowByte | src/axom/core/detail/FlatTable.hpp:127-148 | the stored byte is the low byte unless that is reserved, and the overflow bit is given by the low three bits of either |
| FlatTables.Mark | src/axom/core/detail/FlatTable.hpp:143-148 | the stored byte lies between 2 and 255, so it is neither the empty nor the sentinel value |
| FlatTables.RaiseKeeps | src/axom/core/detail/FlatTable.hpp:127-131 | setting overflow bits keeps every key reachable |
| FlatTables.StoreKeeps | src/axom/core/FlatMap.hpp:770-781 | constructing a pair in a reached empty slot adds its key and changes nothing else |
| FlatTables.AssignKeeps | src/axom/core/FlatMap.hpp:783-802 | assigning changes one value |
| FlatTables.EraseKeeps | src/axom/core/detail/FlatTable.hpp:283-293 | clearing a cell removes one key and leaves every other key reachable |
| FlatTables.RoomLeft | src/axom/core/FlatMap.hpp:751-781 | fewer keys than slots leave an unconstructed slot |
| FlatTables.MetBeforeStop | src/axom/core/detail/FlatTable.hpp:238-271 | probing for a stored key meets its group before it stops at one without the overflow bit |
| FlatTables.GroupsFor | src/axom/core/FlatMap.hpp:664-686 | the least number of groups for the requested buckets and the sentinel, and at least two |
| FlatTables.ConstructorDeliversIff | src/axom/core/FlatMap.hpp:664-686 | the constructor delivers the requested buckets if and only if the needed groups are a power of two, and never fewer than 29 |
| FlatTables.EnoughGroupsIff | src/axom/core/FlatMap.hpp:764-768 | the last of a number of insertions finds room if and only if there are enough groups for the buckets that reserve asks for |
| FlatTables.RoundingFallsShort | src/axom/core/FlatMap.hpp:664-686 | thirty buckets give twenty-nine, and reserving for 52 elements grows at the 52nd |
| FlatTables.GrowthLeavesRoom | src/axom/core/FlatMap.hpp:764-768 | after doubling, everything stored and one more fits below the load limit |
| FlatMaps.GetEmptyBucket | src/axom/core/detail/FlatTable.hpp:78-89 | the first empty cell, or none if and only if there is none |
| FlatMaps.NextFilledBucket | src/axom/core/detail/FlatTable.hpp:91-104 | the first filled cell after the start, the sentinel included |
| FlatMaps.AllFull | src/axom/core/detail/FlatTable.hpp:183-225 | a whole round of full groups means there is no empty cell anywhere |
| FlatMaps.NextValidIndex | src/axom/core/detail/FlatTable.hpp:295-318 | the first filled bucket after the last one, or the end |
| FlatMaps.ProbingSucceeds | src/axom/core/FlatMap.hpp:770-771 | in every valid map the search for an empty bucket succeeds and never takes the sentinel |
| FlatMaps.RoomFor | src/axom/core/FlatMap.hpp:751-781 | a map being rebuilt with doubled groups never reaches its load limit, so no growth starts inside a growth |
| FlatMaps.AlwaysRoom | src/axom/core/FlatMap.hpp:751-817 | bucket count fifteen times a power of two less one, keys at most the load, load below seven eighths, an empty slot, and size off by the erasures |
| FlatMaps.ReserveHoldsIff | src/axom/core/FlatMap.hpp:558-565 | after reserving, the map reaches the number of elements without growing if and only if it already has them, or its pairs outgrow the new table, or the rounded group count is enough |
| FlatMaps.FlatMap.constructor | src/axom/core/FlatMap.hpp:664-686 | an empty valid map with the rounded power of two |
| FlatMaps.FlatMap.Next | src/axom/core/FlatMap.hpp:639-643 | iteration visits exactly the constructed slots, in order |
| FlatMaps.FlatMap.VisitGroup | src/axom/core/detail/FlatTable.hpp:107-118 | visiting a group finds the key if and only if its slot is there; a later mismatch only resumes probing |
| FlatMaps.FlatMap.Find | src/axom/core/FlatMap.hpp:698-716 | the slot of a stored key, the end for any other key, without reading unconstructed storage |
| FlatMaps.ProbeEmptyIndex | src/axom/core/detail/FlatTable.hpp:183-225 | the first empty bucket that probing reaches, or none only if no cell is empty; only full groups change, and only by the overflow bit of the hash |
| FlatMaps.FlatMap.Place | src/axom/core/FlatMap.hpp:770-781 | below the load limit a new key is added to the represented map |
| FlatMaps.DoublesOnce | src/axom/core/FlatMap.hpp:764-768 | growth doubles the groups exactly, unless the reported size has drifted beyond the doubled table |
| FlatMaps.FlatMap.Emplace | src/axom/core/FlatMap.hpp:750-802 | insertion into the represented map, with or without assignment, the exact load, exact doubling, and termination of the growth recursion |
| FlatMaps.FlatMap.Copied | src/axom/core/FlatMap.hpp:688-696 | the range constructor fills a new map with exactly the stored pairs |
| FlatMaps.FlatMap.Rebuild | src/axom/core/FlatMap.hpp:550-557 | rehash keeps the represented map, makes load and size exact, grows beyond the requested power if and only if the pairs do not fit it, and after doubling leaves room |
| FlatMaps.FlatMap.Swap | src/axom/core/FlatMap.hpp:197-204 | the two maps exchange their states |
| FlatMaps.FlatMap.EraseAt | src/axom/core/FlatMap.hpp:804-817 | one key is gone, the load shrinks only outside a probing sequence, the size does not change, and the next slot is returned |
| FlatMaps.FlatMap.EraseKey | src/axom/core/FlatMap.hpp:516-525 | erasing by key removes it from the represented map and counts it |
| FlatMaps.Destroyed | src/axom/core/FlatMap.hpp:341-350 | every constructed pair is destroyed |
| FlatMaps.FlatMap.Clear | src/axom/core/FlatMap.hpp:341-359 | the map is empty, valid and as large as before |
| FlatMaps.FlatMap.ReserveFor | src/axom/core/FlatMap.hpp:565-565 | the represented map is kept, and the promise holds if and only if the condition of ReserveHoldsIff does |
| FlatMaps.FlatMap.ReserveAndInsert | src/axom/core/FlatMap.hpp:558-565 | reserving and then inserting up to the reserved number grows the table if and only if the condition fails |
| FlatMaps.FlatMap.SizeDrifts | src/axom/core/FlatMap.hpp:804-817 | after one insertion and one erasure the map is empty and reports one element |
| FlatMaps.FlatMap.Lookup | src/axom/core/FlatMap.hpp:698-716 | find answers with the value of the represented map |
| FlatMaps.FlatMap.Run | src/axom/core/FlatMap.hpp:341-817 | every run of insert, insert_or_assign, erase, find, clear, rehash and reserve answers call by call as a mathematical map and ends with its contents; without erasures the size stays exact |
| KleeUnits.TableIsSizes | src/axom/klee/Units.cpp:70-85 | the conversion table has a positive size for every unit, in the ratios that define the units |
| KleeUnits.ParsedIff | src/axom/klee/Units.cpp:34-63 | a name is read as a unit if and only if it is one of its spellings, so no name has two readings |
| KleeUnits.FactorIsRatio | src/axom/klee/Units.cpp:70-104 | every branch gives the ratio of the two sizes |
| KleeOperators.WellTypedMeans | src/axom/klee/GeometryOperators.cpp:149-176 | no matrix of a well-typed operator fails to be built, and it ends in specified units |
| KleeOperators.FlattenLinked | src/axom/klee/GeometryOperators.cpp:29-45 | a well-typed operator of any nesting flattens to a chain with matching properties |
| KleeOperators.SlicesDropDimensions | src/axom/klee/GeometryOperators.cpp:253-258 | the slices of a chain are exactly the dimensions it loses |
| KleeOperators.FlattenMeaning | src/axom/klee/GeometryOperators.cpp:24-45 | flattening preserves the action on every point |
| KleeOperators.ChainPhysical | src/axom/klee/GeometryOperators.cpp:29-45 | along a chain the units in between cancel |
| KleeOperators.ConvertIsIdentity | src/axom/klee/GeometryOperators.cpp:149-176 | a unit conversion does not move any place |
| KleeOperators.ConvertersVanish | src/axom/klee/GeometryOperators.cpp:149-176 | dropping all unit conversions from a chain does not change where it moves a place |
| KleeOperators.PhysicalMeaning | src/axom/klee/GeometryOperators.cpp:24-258 | an operator moves every place as its transforms and slices do one after the other, whatever its nesting and units |
| KleeReader.CompositeOperator.AddOperator | src/axom/klee/GeometryOperators.cpp:29-36 | an operator is appended if and only if it starts where the composite ends, and the parts stay a linked chain |
| KleeReader.CompositeOperator.EndProperties | src/axom/klee/GeometryOperators.cpp:38-45 | the only properties that the linked parts lead to from the start |
| KleeReader.ParseRef | src/axom/klee/GeometryOperatorsIO.cpp:432-473 | building the composite step by step gives the reference of the specification; it is refused if and only if the name is unknown, or conversions are needed and dimensions differ; an accepted one is well typed and ends in the caller's units |
| KleeReader.ConvertOperator | src/axom/klee/GeometryOperatorsIO.cpp:484-510 | an entry gives an operator that starts here if and only if it fits; an accepted one is well typed, ends in the units it asks for and does to every point what the entry says |
| KleeReader.MakeOperator | src/axom/klee/GeometryOperatorsIO.cpp:554-574 | no operator for an empty list; any other is accepted if and only if its units are known and its entries fit one after the other, and then the operator leads where they lead and does to every point what they say, in their order |
| KleeReader.MakeNamedOperatorMap | src/axom/klee/GeometryOperatorsIO.cpp:603-630 | the map has exactly the names of the file, each with an operator that starts, ends and acts as the first entry of that name says, given the operators before it |
| KleeReader.ConvertGeometry | src/axom/klee/IO.cpp:214-242 | an accepted geometry starts as asked, ends in the file's dimensions and the units of its last conversion, has one slice per lost dimension, and does to every point what its list says |
| KleeReader.ReadGeometries | src/axom/klee/IO.cpp:273-303 | a file is accepted if and only if its named operators and all geometries are, and then every geometry does to every point what the text says, references replaced by their definitions |
| KleeTheorems.RefWellTyped | src/axom/klee/GeometryOperatorsIO.cpp:432-473 | an accepted reference is well typed, ends in the caller's units, and starts at the caller's properties if and only if dimensions agree |
| KleeTheorems.RefSameAction | src/axom/klee/GeometryOperatorsIO.cpp:432-473 | an accepted reference moves every place exactly as the operator it names |
| KleeTheorems.ConvertedWellTyped | src/axom/klee/GeometryOperatorsIO.cpp:484-510 | every accepted entry gives a well-typed operator; only slices and references change dimensions and only conversions change units |
| KleeMeaning.ConvertedIff | src/axom/klee/GeometryOperatorsIO.cpp:484-510 | an entry gives an operator that starts here if and only if its fields suit the dimensions, its unit or name is known, and a named operator starts in the same dimensions |
| KleeMeaning.RefActs | src/axom/klee/GeometryOperatorsIO.cpp:432-473 | a reference acts as the operator it names, in that operator's units |
| KleeMeaning.ConvertedActs | src/axom/klee/GeometryOperatorsIO.cpp:156-430 | an accepted entry does to every point what it says: translation, scaling and matrix written out per coordinate, a conversion by the ratio of the sizes |
| KleeTheorems.MadeWellTyped | src/axom/klee/GeometryOperatorsIO.cpp:554-574 | every operator that is made is well typed, starts where asked and ends in the units of its last conversion |
| KleeMeaning.AssembledIff | src/axom/klee/GeometryOperatorsIO.cpp:554-574 | a list is assembled if and only if its entries fit one after the other, and ends in the dimensions they lead to |
| KleeMeaning.AssembledActs | src/axom/klee/GeometryOperatorsIO.cpp:554-574 | the assembled parts do to every point what the entries say, in their order |
| KleeMeaning.MadeIff | src/axom/klee/GeometryOperatorsIO.cpp:554-574 | makeOperator accepts a list if and only if it is empty, or its units are known and its entries fit |
| KleeMeaning.MadeActs | src/axom/klee/GeometryOperatorsIO.cpp:554-574 | the operator made leads from the start to where its entries lead and does to every point what they say |
| KleeTheorems.DefinedAllWellTyped | src/axom/klee/GeometryOperatorsIO.cpp:603-630 | every named operator is well typed |
| KleeTheorems.FirstDefinitionWins | src/axom/klee/GeometryOperatorsIO.cpp:603-630 | a defined name keeps its first definition |
| KleeMeaning.DefinedIff | src/axom/klee/GeometryOperatorsIO.cpp:603-630 | a named entry is accepted if and only if it is a non-empty list that fits, with known units, and ends in its end units |
| KleeMeaning.DefinedAllIff | src/axom/klee/GeometryOperatorsIO.cpp:603-630 | all named operators are accepted if and only if each is accepted with the ones before it |
| KleeMeaning.NamesAre | src/axom/klee/GeometryOperatorsIO.cpp:603-630 | the map has exactly the names of the entries, each with what the first entry of that name defines under the names before it |
| KleeMeaning.NamedMeaning | src/axom/klee/GeometryOperatorsIO.cpp:603-630 | a named operator starts and ends as its first entry says and does to every point what that entry says |
| KleeMeaning.RefFitsIff | src/axom/klee/GeometryOperatorsIO.cpp:432-473 | a reference is accepted if and only if its name is defined in the file with the dimensions of the caller |
| KleeMeaning.TextMeaning | src/axom/klee/GeometryOperatorsIO.cpp:432-630 | references can be replaced by their definitions: what the operators read from a file do to a point is what its text says |
| KleeTheorems.NullOperatorIff | src/axom/klee/GeometryOperatorsIO.cpp:603-630 | a null operator is dereferenced if and only if some entry is empty and everything before it is accepted |
| KleeTheorems.EmptyNamedOperator | src/axom/klee/GeometryOperatorsIO.cpp:603-630 | a file whose only named operator is empty dereferences a null operator |
| KleeTheorems.AcceptedChain | src/axom/klee/IO.cpp:214-242 | an accepted geometry flattens to a linked chain with exactly start dimensions minus file dimensions slices, and a 2D start in a 3D file is never accepted |
| KleeMeaning.GeometryIff | src/axom/klee/IO.cpp:214-242 | a geometry is accepted if and only if its list is and leads to the dimensions of the file |
| KleeMeaning.AcceptedMeaning | src/axom/klee/IO.cpp:214-242 | with operators read from the file an accepted geometry does to every point what the text says and moves every place as its transforms and slices do, and no conversion in it fails |
| KleeTheorems.EndUnitsMetIff | src/axom/klee/IO.cpp:214-242 | an accepted geometry ends in the units its data asks for if and only if these are those of its last conversion, or its start units when it has none |
| KleeTheorems.EndUnitsIgnored | src/axom/klee/IO.cpp:214-242 | a geometry in inches that asks for feet and has no conversion is accepted and ends in inches |
| PairCollection.CountIsExact | src/tools/mesh_tester.cpp:450-461 | in any order the reduction is the number of pairs to report |
| PairCollection.StepKeeps | src/tools/mesh_tester.cpp:476-489 | every single step keeps slots disjoint, in bounds and filled as far as their task has come |
| PairCollection.RunKeeps | src/tools/mesh_tester.cpp:463-489 | in every interleaving no write leaves the array and no two tasks share a slot |
| PairCollection.TurnsAdvance | src/tools/mesh_tester.cpp:476-489 | every turn brings a task one stage further, so three turns finish it |
| PairCollection.Collect | src/tools/mesh_tester.cpp:496-502 | the copy loop reads the pairs in slot order |
| PairCollection.PairsAreExact | src/tools/mesh_tester.cpp:433-502 | the reported list has no repetition and is exactly the set of pairs with row above column that pass the test |
| PairCollection.UnorderedOnce | src/tools/mesh_tester.cpp:476-489 | under a symmetric test every two different triangles that pass are reported in exactly one of the two orders, and no triangle with itself |

## Left out

- Device, Umpire and memory-space branches of every container: foreign runtimes, only the host path is modelled.
- 32- and 64-bit overflow of counters, sizes and indices, and floating-point rounding of ratios, loads and conversions.
- Hash mixing: any hash function is allowed, so the proofs do not depend on it.
- `Map` move construction and assignment, `clear` and use after `clear`: bucket count and bucket length are positive.
- The reference that `Map::find` returns is read after the lock is released; the model reads the value under the lock.
- GrowArrays.Array.Append: a view is its shape and its values, so the assertion that its data is not null
  (src/axom/core/Array.hpp:1319), which an empty view can fail, is not modelled. The same holds for `InsertRange`.
- Aliasing of an inserted value with an element of the same array, and construction and destruction of elements.
- `FlatMap` copying, moving, `at` and `operator[]`: they add only easy members.
- Inlet schemas and the reading of fields: an entry arrives with its fields, and fields that do not form an operator are one error.
- The matrices of rotations and slices: they are parameters, since the properties hold for any matrix.
- `CompositeOperator` objects shared by reference: they are built in place and then shared as values.
- The rest of the repository (sidre, quest, primal, slam, mint and others): outside this model.
