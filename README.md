# Pooled buffer allocator: chunk, slab and geometry checks

This project models netty's pooled buffer allocator core in Dafny and proves
what it promises. Dafny 4 verifies the model.

- **`PoolChunk`** is a binary-buddy allocator over one contiguous block of
  `2^maxOrder` pages.
  - The block is a complete binary tree stored flat in an `int[]` memory map.
  - Index 1 is the whole chunk; `2i` and `2i + 1` are the halves of node `i`.
  - Each entry packs the run's offset in pages (`<< 17`), its length in pages
    (`<< 2`) and a two-bit state: unused, branch, allocated, or allocated
    subpage.
  - `allocate` searches depth-first. A request of a page or more carves a
    run of exactly that size. A smaller request reaches a page and hands it to
    a slab.
  - `free` marks a node unused and, while the freed node's buddy is unused,
    its parent too.
  - `freeBytes` counts the bytes not handed out, and `usage()` turns that
    into a percentage.
  - `initBuf` turns a handle into the buffer's offset and its lengths.
- **`PoolSubpage`** is a slab inside one page. It splits the page into equal
  elements whose occupancy is a `long[]` bitmap. It keeps a count of free
  elements, a cached free index and a liveness flag. Its handles carry a
  sentinel bit.
- **The geometry checks of `BufferTest`:**
  - the page-size check: a power of two of at least 4096;
  - the chunk-size check: depth at most 14, chunk at most 2^30 bytes;
  - the trailing-zero count;
  - the scenario that fills one memory map.

Modules, one per concern:

| file | module | what |
|---|---|---|
| `bits.dfy` | `Bits` | powers of two, shifts as division, single-bit set/clear on unsigned words |
| `handle.dfy` | `Handles` | the 64-bit handle, its `(int)` casts and the slab encoding |
| `memory_map.dfy` | `MemoryMap` | entry packing, tree geometry, well-formedness, byte accounting, the carve and release transformations, the map-building loops |
| `pool_subpage.dfy` | `Subpage` | class `PoolSubpage` over its bitmap array |
| `pool_chunk.dfy` | `Chunk` | class `PoolChunk` over its memory map and slab array |
| `buffer_config.dfy` | `BufferConfig` | the validators and `test()` |
| `scenario.dfy` | `Scenario` | one run allocated from a fresh chunk and freed |

## How the model is built

- **Integers, not bit-vectors.** Java ints and longs are Dafny integers.
  - Shifts are multiplication by, or division by, powers of two.
  - `& mask` is a remainder.
  - `|` of disjoint bit fields is `+`; `^` of one known bit is `+` or `-`.
  - The casts `(int) handle` and `(int) (handle >>> 32)` are written out in
    two's complement (`Handles.LowInt`, `Handles.HighInt`).
  - The only doubling that can overflow an int is `chunkSize <<= 1`. It is
    written out as `BufferConfig.Shl1`.
- **Classes with mutable fields.**
  - `PoolChunk` has `memoryMap: array<int>` and `subpages: array<PoolSubpage?>`
    and updates `freeBytes` in place.
  - `PoolSubpage` has `bitmap: array<Word>` and updates its counters in place.
  - Every `for(;;)` loop of the source is a `while` loop with invariants, or
    a recursion with the same steps where the source recurses.
- **Specification functions.**
  - `MemoryMap.Carve` gives the map after a search carves node `r` out of the
    subtree it entered at `c`.
  - `MemoryMap.Release` gives the map after `free` gives a node back.
  - `MemoryMap.UsedBytes` sums the bytes handed out below a node.
  - `Subpage.Occupancy` is the set of elements a bitmap marks as handed out.
  - The methods are proved against these. The invariants they keep —
    `PoolChunk.Valid()` and `PoolSubpage.Valid()` — include
    `freeBytes == chunkSize - UsedBytes(map, 1)` and
    `|Occupied()| == maxNumElems - numAvail`.
- **`nextRandom()`.** The source uses a 48-bit LCG as a left/right
  tie-break. The model's `NextRandom` returns an arbitrary bit, so every
  proof holds whichever child the search tries first.
- **Slab pool membership.** The arena's list of slabs with free elements is
  the ghost flag `inPool`.
  - `AddToPool` requires "not linked"; `RemoveFromPool` requires "linked".
  - `PoolSubpage.Valid()` includes: for a non-zero element size the slab is
    linked exactly when it is live and has a free element.
- **`PooledByteBuf.init(chunk, handle, offset, length, maxLength)`** is
  modelled by `InitBuf` and `InitBufWithSubpage` returning the triple as a
  `BufRange`.
- **The source's `assert` statements** (`PoolChunk.java` 316, 318, 326,
  327, 336, 360, 372, 376, 379, 380; `PoolSubpage.java` 106, 130, 151, 159)
  become preconditions, or postconditions the model proves:
  - "the bit was clear" and "`freeBytes == chunkSize` at the root" are
    postconditions;
  - "the bit is set", "the handle is live" (its state, its element, a live
    slab) and the pool-link checks are preconditions.
- **When a slab keeps its page.** `free` keeps the page in the subpage
  state when the slab's size is 0, when the slab was full before the call,
  or when it still holds an element (`PoolSubpage.java` 123–146). The
  contracts of `PoolSubpage.Free`, `SlabFree`, `FreeInSlab`, `FreeElement`
  and `Free` state this condition on the counters before the call. One quirk
  follows from the order of the tests: a slab with a single element that is
  freed while full reports itself in use although it is empty, relinks
  itself and keeps its page.
- **What else stays.** The slab-allocation paths compare every other page's
  slab with `SlabStates()`, a map from page index to a `SlabState` value
  taken before the call. A `SlabState` holds all of a slab's mutable fields and
  its bitmap's contents, so equal values mean the slab is in the same state.
  Run allocation and `free` state the rest of `Repr` `unchanged` directly.
- **Requests reach the chunk normalised by the arena**, which is not part of
  this model. The model states this as preconditions:
  - `RunSize`: a power of two of at least a page;
  - `SlabSize`: below a page, and either 0 or a size the
    `pageSize >>> 10`-word bitmap can hold;
  - `Subpage.FitsExactly` proves those slab sizes are exactly the sizes of
    16 bytes and up.

## Model

| member | source | states |
|---|---|---|
| Handles.Wrap32 | buffer/src/main/java/io/netty/buffer/PoolChunk.java:310 | Java's `(int)` cast of a 32-bit pattern: the result is an int congruent to the pattern modulo 2^32 |
| Handles.ToHandle | buffer/src/main/java/io/netty/buffer/PoolSubpage.java:190-193 | `0x4000000000000000L \| (long) bitmapIdx << 32 \| memoryMapIdx` is a positive long, below 2^63 |
| Handles.ToHandleDecodes | buffer/src/main/java/io/netty/buffer/PoolSubpage.java:190-193 | the handle's low int is `memoryMapIdx`; its high int is `2^30 + bitmapIdx`, never 0, and `& 0x3FFFFFFF` recovers `bitmapIdx` |
| Handles.ToHandleInjective | buffer/src/main/java/io/netty/buffer/PoolSubpage.java:190-193 | distinct (page, element) pairs get distinct handles |
| Handles.RunHandleDecodes | buffer/src/main/java/io/netty/buffer/PoolChunk.java:309-311 | a run handle (a tree index) decodes to that index with high int 0, the value `free` and `initBuf` test |
| MemoryMap.PackFields | buffer/src/main/java/io/netty/buffer/PoolChunk.java:132 | `j << 17 \| len << 2 \| st` for offsets below 2^14 and lengths up to 2^14 is a non-negative int whose three fields read back `j`, `len` and `st` |
| MemoryMap.WithStateFields | buffer/src/main/java/io/netty/buffer/PoolChunk.java:219-231 | `val & ~3 \| s` has state `s`, keeps the offset and the length, stays a non-negative int, and rewriting the state a node already has changes nothing |
| MemoryMap.DepthBounds | buffer/src/main/java/io/netty/buffer/PoolChunk.java:125-133 | the depth of index `i` is the `d` with `2^d <= i < 2^(d+1)`, the level the construction loop writes `i` at |
| MemoryMap.NodeDepth | buffer/src/main/java/io/netty/buffer/PoolChunk.java:120-124 | every index of the `2^(maxOrder+1)` array has depth at most `maxOrder`, and depth `maxOrder` exactly from index `maxSubpageAllocs` |
| MemoryMap.NodeOffsetClosed | buffer/src/main/java/io/netty/buffer/PoolChunk.java:125-135 | node `i` at depth `d` begins at page `(i - 2^d) * 2^(maxOrder-d)` |
| MemoryMap.ChildGeometry | buffer/src/main/java/io/netty/buffer/PoolChunk.java:224-233 | the two children of a node are its halves: same length, half the parent's, the left at the parent's offset, the right just after it |
| MemoryMap.LeafOffset | buffer/src/main/java/io/netty/buffer/PoolChunk.java:439-441 | a leaf is one page long and begins at page `i - maxSubpageAllocs` |
| MemoryMap.NodeWithinChunk | buffer/src/main/java/io/netty/buffer/PoolChunk.java:125-135 | every node's run lies inside the chunk |
| MemoryMap.SubtreeWithin | buffer/src/main/java/io/netty/buffer/PoolChunk.java:224-235 | a node's run lies inside the run of each of its ancestors |
| MemoryMap.SameDepthDisjoint | buffer/src/main/java/io/netty/buffer/PoolChunk.java:125-135 | runs of distinct nodes at one depth have equal length and do not overlap |
| MemoryMap.RunsDisjoint | buffer/src/main/java/io/netty/buffer/PoolChunk.java:125-135 | runs of two nodes neither of which is below the other do not overlap |
| MemoryMap.LiveRunsDisjoint | buffer/src/main/java/io/netty/buffer/PoolChunk.java:182-237 | in a consistent map, two distinct nodes that are both allocated (as runs or as slab pages) have non-overlapping runs |
| MemoryMap.DescendantsUnused | buffer/src/main/java/io/netty/buffer/PoolChunk.java:184-186 | below a node that is not split every node is unused, which is why the search never looks below an allocated node |
| MemoryMap.AncestorsSplit | buffer/src/main/java/io/netty/buffer/PoolChunk.java:228 | every ancestor of a node in use is split |
| MemoryMap.UnusedSubtreeEmpty | buffer/src/main/java/io/netty/buffer/PoolChunk.java:332-346 | an unused node's subtree hands out no bytes |
| MemoryMap.UsedBound | buffer/src/main/java/io/netty/buffer/PoolChunk.java:112 | the bytes handed out below a node lie between 0 and the node's size, so `0 <= freeBytes <= chunkSize` |
| MemoryMap.UsedUpdate | buffer/src/main/java/io/netty/buffer/PoolChunk.java:219-220 | rewriting one node changes the bytes in use by the difference of its old and new weight, the `freeBytes -= runLength` / `+= runLength` bookkeeping |
| MemoryMap.ConsistentUpdate | buffer/src/main/java/io/netty/buffer/PoolChunk.java:219-235 | the conditions under which one write keeps the tree consistent: leaves never split, inner nodes never slab pages, a node not split has unused children, a node in use has a split parent |
| MemoryMap.PlaceAt | buffer/src/main/java/io/netty/buffer/PoolChunk.java:219-228 | marking an open unused node split, allocated or slab page keeps the map well formed and adds the node's size (0 for split) to the bytes in use |
| MemoryMap.CarveFacts | buffer/src/main/java/io/netty/buffer/PoolChunk.java:214-236 | carving a node out of the subtree of an open node keeps the map well formed and hands out exactly the carved node's size |
| MemoryMap.CarveExtend | buffer/src/main/java/io/netty/buffer/PoolChunk.java:224-235 | one more step of the descent is one more write: the parent split, then the node |
| MemoryMap.CarveAboveStep | buffer/src/main/java/io/netty/buffer/PoolChunk.java:224-235 | a step of the descent marks the current node split and leaves its untaken child unused |
| MemoryMap.CarveThroughBranch | buffer/src/main/java/io/netty/buffer/PoolChunk.java:189-200 | entering a split node's child carves the same map as entering the split node |
| MemoryMap.ParentIdx | buffer/src/main/java/io/netty/buffer/PoolChunk.java:391-393 | `i >>> 1` is the parent: `i` is `2p` or `2p + 1`, and for `i >= 2` the parent is a tree index whose subtree holds `i` |
| MemoryMap.SiblingIdx | buffer/src/main/java/io/netty/buffer/PoolChunk.java:395-397 | `i ^ 1` is the other child of the same parent |
| MemoryMap.SiblingBounds | buffer/src/main/java/io/netty/buffer/PoolChunk.java:340 | the sibling of an index from 2 up is an index of the same array |
| MemoryMap.ReleaseFacts | buffer/src/main/java/io/netty/buffer/PoolChunk.java:330-346 | giving back a node in use with unused children keeps the map well formed, frees exactly the node's bytes and leaves the node unused |
| MemoryMap.ReleaseOne | buffer/src/main/java/io/netty/buffer/PoolChunk.java:334 | the first write of `free`, marking the node unused, keeps the map well formed and takes the node's weight off the bytes in use |
| MemoryMap.ReleaseKeeps | buffer/src/main/java/io/netty/buffer/PoolChunk.java:332-346 | `free` writes only the node and its ancestors |
| MemoryMap.InitialEntryFields | buffer/src/main/java/io/netty/buffer/PoolChunk.java:132-133 | the entry written for node `i` is a non-negative int encoding the node's offset, its length and state unused |
| MemoryMap.NodeFieldBounds | buffer/src/main/java/io/netty/buffer/PoolChunk.java:130-133 | for `maxOrder <= 14` every offset fits below 2^14 and every length is at most 2^14, so the fields never collide |
| MemoryMap.InitialMapValid | buffer/src/main/java/io/netty/buffer/PoolChunk.java:112-135 | the constructed map is well formed and consistent, every node is unused and nothing is handed out, so `freeBytes = chunkSize` starts the accounting invariant |
| MemoryMap.Build | buffer/src/main/java/io/netty/buffer/PoolChunk.java:120-135 | the nested loop allocates `2^(maxOrder+1)` entries, fills every index from 1 with its node's initial entry and performs exactly `2^(maxOrder+1) - 1` writes |
| MemoryMap.BuildLevel | buffer/src/main/java/io/netty/buffer/PoolChunk.java:126-134 | the inner loop for level `i` writes the `2^i` entries from index `2^i`, stepping `j` by the run size |
| MemoryMap.NextRun | buffer/src/main/java/io/netty/buffer/PoolChunk.java:127-133 | while `j < chunkSizeInPages`, the `k`-th run of level `i` is a node of the tree, its packed value is that node's initial entry, and `j += runSizeInPages` reaches the start of the next run |
| MemoryMap.LevelEnd | buffer/src/main/java/io/netty/buffer/PoolChunk.java:127 | the inner loop's test `j < chunkSizeInPages` first fails after exactly the `2^i` runs of level `i`, so the level ends at index `2^(i+1)` |
| MemoryMap.RunsStartIs | buffer/src/main/java/io/netty/buffer/PoolChunk.java:127 | after `k` steps of `j += runSizeInPages` from 0, `j == k · runSizeInPages` |
| MemoryMap.WriteRun | buffer/src/main/java/io/netty/buffer/PoolChunk.java:132-133 | one write of the loop stores the node's initial entry at `memoryMapIndex` and nothing else |
| Chunk.HighBits | buffer/src/main/java/io/netty/buffer/PoolChunk.java:175 | `normCapacity & subpageOverflowMask` is non-zero exactly for requests of at least a page |
| Chunk.PoolChunk.constructor | buffer/src/main/java/io/netty/buffer/PoolChunk.java:104-139 | `freeBytes == chunkSize`; the map has `2^(maxOrder+1)` entries; node `i` at depth `d` encodes offset `(i-2^d)·2^(maxOrder-d)` pages, length `2^(maxOrder-d)` pages, state unused; no slab exists; the chunk invariant holds |
| Chunk.PoolChunk.ChunkPages | buffer/src/main/java/io/netty/buffer/PoolChunk.java:114-115 | `chunkSize >>> pageShifts` is `1 << maxOrder` |
| Chunk.PoolChunk.RunLength | buffer/src/main/java/io/netty/buffer/PoolChunk.java:404-407 | `runLength(val)` is a non-negative whole number of pages |
| Chunk.PoolChunk.RunOffset | buffer/src/main/java/io/netty/buffer/PoolChunk.java:420-422 | `runOffset(val)` is a non-negative whole number of pages |
| Chunk.PoolChunk.NodeRun | buffer/src/main/java/io/netty/buffer/PoolChunk.java:404-422 | in a valid chunk every entry decodes to exactly its node's run: `runLength` is the node's size and `runOffset` its offset in bytes, whatever states were written |
| Chunk.PoolChunk.SubpageIdx | buffer/src/main/java/io/netty/buffer/PoolChunk.java:439-441 | a leaf's slot is a valid index of `subpages` and is the page's number in the chunk |
| Chunk.PoolChunk.NextRandom | buffer/src/main/java/io/netty/buffer/PoolChunk.java:447-450 | the tie-break is 0 or 1 |
| Chunk.PoolChunk.Usage | buffer/src/main/java/io/netty/buffer/PoolChunk.java:160-171 | usage lies in [0,100]; it is 100 iff `freeBytes == 0` and 0 iff `freeBytes == chunkSize`; it is 99 when `0 < freeBytes·100 < chunkSize` and otherwise `100 - floor(freeBytes·100/chunkSize)` |
| Chunk.PoolChunk.UsagePercent | buffer/src/main/java/io/netty/buffer/PoolChunk.java:166-170 | the free percentage lies in [0,100], is 100 only for a free chunk and is 0 exactly when less than 1% is free |
| Chunk.PoolChunk.NodeBytes | buffer/src/main/java/io/netty/buffer/PoolChunk.java:273 | a node's size is a power of two of at least a page, and exactly a page at the leaves, where the slab descent stops |
| Chunk.PoolChunk.HalveRun | buffer/src/main/java/io/netty/buffer/PoolChunk.java:233 | above a request's size the node has children, each half as big (`runLength >>>= 1`) and still big enough |
| Chunk.PoolChunk.ChildRun | buffer/src/main/java/io/netty/buffer/PoolChunk.java:224-235 | whichever child the tie-break picks is in the map, half the parent's size and still big enough |
| Chunk.PoolChunk.SplitDown | buffer/src/main/java/io/netty/buffer/PoolChunk.java:214-236 | the descent loop ends at the node below the start whose size is the request, having marked the nodes above it split and their untaken children unused |
| Chunk.PoolChunk.AllocateRunSimple | buffer/src/main/java/io/netty/buffer/PoolChunk.java:208-237 | fails with -1 and no change exactly when the unused node is too small; otherwise returns a node of its subtree, now allocated, of exactly the request's size, with the map the carve of that node and `freeBytes` lower by the request |
| Chunk.PoolChunk.AllocateRun | buffer/src/main/java/io/netty/buffer/PoolChunk.java:182-206 | returns -1, changing nothing, exactly when no node of the subtree reachable through split nodes is unused and big enough; otherwise carves such a node as in `AllocateRunSimple` |
| Chunk.PoolChunk.RunBelow | buffer/src/main/java/io/netty/buffer/PoolChunk.java:189-200 | the try of one child of a split node: on failure nothing changed and any room below the node is below the sibling |
| Chunk.PoolChunk.NoRoomInUse | buffer/src/main/java/io/netty/buffer/PoolChunk.java:184-186 | below an allocated or slab node there is no room, so returning -1 there loses nothing |
| Chunk.PoolChunk.RoomUnused | buffer/src/main/java/io/netty/buffer/PoolChunk.java:203-212 | below an open unused node there is room exactly when the node itself is big enough |
| Chunk.PoolChunk.RoomInChildren | buffer/src/main/java/io/netty/buffer/PoolChunk.java:189-200 | room below a split node is room below one of its children, both directions |
| Chunk.PoolChunk.TakeNode | buffer/src/main/java/io/netty/buffer/PoolChunk.java:219-220 | carving a node takes exactly its size off `freeBytes`, keeps the map valid and changes no other leaf |
| Chunk.PoolChunk.VacantAt | buffer/src/main/java/io/netty/buffer/PoolChunk.java:257-264 | a slab page can serve a request exactly when its slab is for that size and has a free element (or has zero-size elements) |
| Chunk.PoolChunk.SlabRoomInChildren | buffer/src/main/java/io/netty/buffer/PoolChunk.java:241-248 | a split node can serve a slab request exactly when one of its children can |
| Chunk.PoolChunk.OtherChildRoom | buffer/src/main/java/io/netty/buffer/PoolChunk.java:248 | after the first child failed, the split node can serve the request exactly when `nextIdx ^ 1` can |
| Chunk.PoolChunk.NoSlabRoomInUse | buffer/src/main/java/io/netty/buffer/PoolChunk.java:301-306 | an allocated run serves no slab request, so `branchSubpage` skipping it loses nothing |
| Chunk.PoolChunk.SlabRoomAtPage | buffer/src/main/java/io/netty/buffer/PoolChunk.java:257-265 | a slab page can serve a request exactly when its slab is vacant for the size |
| Chunk.PoolChunk.SlabRoomOpen | buffer/src/main/java/io/netty/buffer/PoolChunk.java:251-253 | an open unused node can always serve a slab request |
| Chunk.PoolChunk.AllocateSubpage | buffer/src/main/java/io/netty/buffer/PoolChunk.java:239-268 | returns -1, with the map, the free bytes and every slab's vacancy unchanged, exactly when no page reachable below the node can serve the size; otherwise returns a positive slab handle for a page in the subtree, the page either already serving the size (tree unchanged) or carved out of an unused node (a page off `freeBytes`, element 0); for a non-zero size the element `b` of the handle was not held by that page's slab before and is now held besides the ones it held; every other page keeps its slab in the same state (all fields and the bitmap's contents), and `Repr` gains at most this page's slab |
| Chunk.PoolChunk.SplitSearch | buffer/src/main/java/io/netty/buffer/PoolChunk.java:241-249 | the split case: the same result as `AllocateSubpage`, including what changes in the slabs, trying the randomly chosen child then its sibling |
| Chunk.PoolChunk.SlabBelow | buffer/src/main/java/io/netty/buffer/PoolChunk.java:243-246 | one `branchSubpage` try: on -1 nothing changed (map, slab array, `Repr` and every slab's state) and the child cannot serve the size; otherwise the handle is as for the split node; for a non-zero size the element `b` of the handle was not held by that page's slab before and is now held besides the ones it held; every other page keeps its slab in the same state (all fields and the bitmap's contents), and `Repr` gains at most this page's slab |
| Chunk.PoolChunk.BranchSubpage | buffer/src/main/java/io/netty/buffer/PoolChunk.java:301-307 | an allocated child yields -1 unchanged; any other child is searched as `allocateSubpage`, with the same result contract, including what changes in the slabs |
| Chunk.PoolChunk.AllocateAtPage | buffer/src/main/java/io/netty/buffer/PoolChunk.java:257-265 | a slab page of another size, or a slab with no free element, yields -1 and nothing changes; otherwise its slab hands out an element and the tree is unchanged; for a non-zero size the element `b` of the handle was not held by that page's slab before and is now held besides the ones it held; every other page keeps its slab in the same state (all fields and the bitmap's contents), and `Repr` gains at most this page's slab |
| Chunk.PoolChunk.AllocateFromSlab | buffer/src/main/java/io/netty/buffer/PoolChunk.java:258-264 | the page's slab hands out an element exactly when it is vacant for the size; for a non-zero size the element `b` of the handle was not held by that page's slab before and is now held besides the ones it held; every other page keeps its slab in the same state (all fields and the bitmap's contents), and `Repr` gains at most this page's slab |
| Chunk.PoolChunk.SlabHitAlloc | buffer/src/main/java/io/netty/buffer/PoolChunk.java:264 | the page's slab of the requested size hands out an element: -1 exactly when the size is not 0 and it has no free element, and then the slab is unchanged; otherwise the handle is that page's; for a non-zero size the element `b` of the handle was not held by that page's slab before and is now held besides the ones it held; every other page keeps its slab in the same state (all fields and the bitmap's contents), and `Repr` gains at most this page's slab |
| Chunk.PoolChunk.AllocateSubpageSimple | buffer/src/main/java/io/netty/buffer/PoolChunk.java:270-299 | from an open unused node it always succeeds: a page of the subtree is carved out for a slab, `freeBytes` drops by `pageSize` and the slab of that size hands out element 0; for a non-zero size the element `b` of the handle was not held by that page's slab before and is now held besides the ones it held; every other page keeps its slab in the same state (all fields and the bitmap's contents), and `Repr` gains at most this page's slab |
| Chunk.PoolChunk.TakePage | buffer/src/main/java/io/netty/buffer/PoolChunk.java:272-298 | the descent to a page: the page of the subtree is carved out in the subpage state and `freeBytes` drops by exactly `pageSize` |
| Chunk.PoolChunk.PageTaken | buffer/src/main/java/io/netty/buffer/PoolChunk.java:274-275 | carving page `r` of an open node's subtree in the subpage state is a carve of a page no slab held, takes `pageSize` off the free bytes, and leaves the map valid once `r` is marked as a slab page |
| Chunk.PoolChunk.NewSlab | buffer/src/main/java/io/netty/buffer/PoolChunk.java:277-285 | the page's slab is created or re-`init`ed for the size and hands out element 0 of that page, the only occupied element; the map is untouched, every other page keeps its slab in the same state and `Repr` gains only this page's slab |
| Chunk.PoolChunk.PrepareSlab | buffer/src/main/java/io/netty/buffer/PoolChunk.java:277-284 | after it, the page's slot holds a live slab for the size, empty with `nextAvail == 0`, either the old one re-initialised or a fresh one |
| Chunk.PoolChunk.FirstSlab | buffer/src/main/java/io/netty/buffer/PoolChunk.java:279-281 | an empty slot gets a fresh slab for the page, registered in the slot |
| Chunk.PoolChunk.ReuseSlab | buffer/src/main/java/io/netty/buffer/PoolChunk.java:282-284 | a slot holding a retired slab re-`init`s it for the size |
| Chunk.PoolChunk.Register | buffer/src/main/java/io/netty/buffer/PoolChunk.java:281 | `subpages[subpageIdx] = subpage` changes that slot only |
| Chunk.PoolChunk.SlabAllocate | buffer/src/main/java/io/netty/buffer/PoolChunk.java:264 | `subpage.allocate()` on the page's slab: -1 exactly when it has no free element; otherwise a handle for the page whose element is the slab's `nextAvail`, newly occupied; every object of `Repr` other than this slab and its bitmap is unchanged, so every other slab is in the state it was given |
| Chunk.PoolChunk.Allocate | buffer/src/main/java/io/netty/buffer/PoolChunk.java:173-180 | requests of a page or more are run allocations from the root, with `AllocateRun`'s contract, leaving the slab array, `slabUse`, `Repr` and every object in it unchanged; smaller ones are slab allocations from the root, with `AllocateSubpage`'s contract: for a non-zero size the handed-out element was free and is now held, and every other page's slab is in the same state; the chunk invariant is kept |
| Chunk.PoolChunk.RootFree | buffer/src/main/java/io/netty/buffer/PoolChunk.java:335-336 | in a valid chunk whose root is unused, `freeBytes == chunkSize` |
| Chunk.PoolChunk.ReleaseWrite | buffer/src/main/java/io/netty/buffer/PoolChunk.java:334-342 | the write in the coalescing loop keeps the accounting, and when the loop stops there (root reached or sibling in use) the map is the release of the node |
| Chunk.PoolChunk.ReleaseClimb | buffer/src/main/java/io/netty/buffer/PoolChunk.java:340-345 | with an unused sibling the loop moves to the parent, which is then in use with unused children, and the release is unchanged |
| Chunk.PoolChunk.Coalesce | buffer/src/main/java/io/netty/buffer/PoolChunk.java:332-346 | the loop leaves the map the release of the freed node and keeps the accounting |
| Chunk.PoolChunk.FreeStart | buffer/src/main/java/io/netty/buffer/PoolChunk.java:330 | `freeBytes += runLength(val)` puts the node's bytes back as the loop expects |
| Chunk.PoolChunk.ReleaseNode | buffer/src/main/java/io/netty/buffer/PoolChunk.java:330-346 | the node's bytes go back and the map becomes its release; the chunk invariant is kept |
| Chunk.PoolChunk.SlabFree | buffer/src/main/java/io/netty/buffer/PoolChunk.java:322 | `subpage.free(bitmapIdx)` gives back exactly that element, one more element is free, and no other slab changes; it reports in use exactly when the slab's size is 0, it was full, or it still holds an element, the answer is the slab's liveness, and the page stops counting as a slab page exactly when it is not in use |
| Chunk.PoolChunk.FreeInSlab | buffer/src/main/java/io/netty/buffer/PoolChunk.java:315-324 | the element of the handle is given back to the page's slab; the page stays in the subpage state exactly when the slab's size is 0, the slab was full before the call, or it still holds an element; a slab of a non-zero size has one more free element, and otherwise the page leaves it; `Repr` is the same and nothing in it but this page's slab and bitmap changes |
| Chunk.PoolChunk.Free | buffer/src/main/java/io/netty/buffer/PoolChunk.java:309-347 | for a live handle of a slab page: the element is given back, and the page stays in the subpage state exactly when the slab's size is 0, the slab was full before the call, or it still holds an element; a slab of a non-zero size has one more free element (the slab stays live exactly then), in which case the tree and `freeBytes` are left alone; otherwise, and for a run handle, the node goes back, its run length returns to `freeBytes` and the map becomes its release (the node and each ancestor with an unused sibling marked unused); the slab array and `Repr` are the same, freeing a run changes no slab, and freeing a slab element changes no slab but that page's |
| Chunk.PoolChunk.FreeRun | buffer/src/main/java/io/netty/buffer/PoolChunk.java:325-346 | freeing a run handle returns exactly its run length and releases the node |
| Chunk.PoolChunk.FreeElement | buffer/src/main/java/io/netty/buffer/PoolChunk.java:315-346 | freeing a slab handle clears its element; the page stays in the subpage state exactly when the slab's size is 0, the slab was full before the call, or it still holds an element; a slab of a non-zero size has one more free element, and then the tree and `freeBytes` are unchanged; otherwise the page is released into the tree as by `Free`; no slab but that page's changes |
| Chunk.PoolChunk.InitBufWithSubpage | buffer/src/main/java/io/netty/buffer/PoolChunk.java:371-389 | offset `runOffset + (bitmapIdx & 0x3FFFFFFF)·elemSize`, length the request, maximum `elemSize` at least the request; an element of the slab lies inside its page |
| Chunk.PoolChunk.ElementInPage | buffer/src/main/java/io/netty/buffer/PoolChunk.java:387-388 | element `e` below `maxNumElems` of a page's slab lies inside the page |
| Chunk.PoolChunk.InitBuf | buffer/src/main/java/io/netty/buffer/PoolChunk.java:355-365 | a run handle gives `(runOffset, reqCapacity, runLength)` inside the chunk; a slab handle gives the element's range, as `initBufWithSubpage` |
| Chunk.PoolChunk.RunInChunk | buffer/src/main/java/io/netty/buffer/PoolChunk.java:361 | a node's byte range lies inside the chunk |
| Chunk.PoolChunk.BufInNode | buffer/src/main/java/io/netty/buffer/PoolChunk.java:355-389 | the buffer of a live handle lies inside its node's run |
| Chunk.PoolChunk.LiveBufsApart | buffer/src/main/java/io/netty/buffer/PoolChunk.java:355-389 | two distinct live handles give buffers that do not overlap, even grown to their maximum length |
| Chunk.PoolChunk.NodesApart | buffer/src/main/java/io/netty/buffer/PoolChunk.java:355-365 | live handles on different nodes give non-overlapping buffers |
| Chunk.PoolChunk.ElementsApart | buffer/src/main/java/io/netty/buffer/PoolChunk.java:387-388 | distinct live elements of one page give non-overlapping buffers |
| Subpage.BitmapWords | buffer/src/main/java/io/netty/buffer/PoolSubpage.java:76-79 | `bitmapLength` is `ceil(maxNumElems / 64)`, the fewest words holding `maxNumElems` bits |
| Subpage.FitsExactly | buffer/src/main/java/io/netty/buffer/PoolSubpage.java:60 | the `pageSize >>> 10` words allocated hold the bitmap of a positive element size exactly when that size is at least 16 |
| Subpage.ElementsBound | buffer/src/main/java/io/netty/buffer/PoolSubpage.java:68 | a slab that fits has at most `pageSize / 16` elements |
| Subpage.OccupancyZero | buffer/src/main/java/io/netty/buffer/PoolSubpage.java:81-83 | zeroed words mark no element as handed out |
| Subpage.OccupancySet | buffer/src/main/java/io/netty/buffer/PoolSubpage.java:101-107 | `bitmap[q] \|= 1L << r` on a clear bit adds exactly element `bitmapIdx` to the handed-out set |
| Subpage.OccupancyClear | buffer/src/main/java/io/netty/buffer/PoolSubpage.java:128-131 | `bitmap[q] ^= 1L << r` on a set bit removes exactly element `bitmapIdx` from the handed-out set |
| Subpage.OccupancyFull | buffer/src/main/java/io/netty/buffer/PoolSubpage.java:166-187 | when every element's bit is set, all `n` elements are handed out |
| Subpage.CountTaken | buffer/src/main/java/io/netty/buffer/PoolSubpage.java:107-109 | handing out the free element keeps `|handed out| == maxNumElems - numAvail` through the decrement |
| Subpage.CountReturned | buffer/src/main/java/io/netty/buffer/PoolSubpage.java:131-134 | giving an element back keeps the count through the increment |
| Subpage.PoolSubpage.constructor | buffer/src/main/java/io/netty/buffer/PoolSubpage.java:55-62 | a fresh bitmap of `pageSize >>> 10` words, then `init`: live, linked, and for a non-zero size `maxNumElems == numAvail == pageSize / elemSize`, `nextAvail == 0`, nothing handed out |
| Subpage.PoolSubpage.AddToPool | buffer/src/main/java/io/netty/buffer/PoolSubpage.java:149-156 | requires the slab unlinked and links it |
| Subpage.PoolSubpage.RemoveFromPool | buffer/src/main/java/io/netty/buffer/PoolSubpage.java:158-164 | requires the slab linked and unlinks it |
| Subpage.PoolSubpage.Init | buffer/src/main/java/io/netty/buffer/PoolSubpage.java:64-87 | live and linked with the new size; for a non-zero size `maxNumElems == numAvail == pageSize / elemSize`, `nextAvail == 0`, `bitmapLength == ceil(maxNumElems/64)`, words below `bitmapLength` zeroed and the rest untouched, nothing handed out; for size 0 the counters and bitmap are untouched |
| Subpage.PoolSubpage.ClearWords | buffer/src/main/java/io/netty/buffer/PoolSubpage.java:81-83 | words `[0, n)` become 0 and the rest keep their values |
| Subpage.PoolSubpage.Allocate | buffer/src/main/java/io/netty/buffer/PoolSubpage.java:92-117 | size 0 returns `toHandle(0)` and changes nothing; no free element or a dead slab returns -1 and changes nothing; otherwise returns `toHandle(nextAvail)`, that element was free and is now the only newly handed-out one, `numAvail` drops by 1, `nextAvail == -1` iff `numAvail == 0`, while elements remain `nextAvail` is the lowest free element, and the slab stays linked iff `numAvail > 0` |
| Subpage.PoolSubpage.MarkTaken | buffer/src/main/java/io/netty/buffer/PoolSubpage.java:101-107 | the bit of `nextAvail` was clear and setting it hands out exactly that element |
| Subpage.PoolSubpage.Advance | buffer/src/main/java/io/netty/buffer/PoolSubpage.java:109-114 | `numAvail` drops by 1; at 0 the slab is unlinked and `nextAvail == -1`, otherwise `nextAvail` is the lowest free element (every element below it is held) and the slab stays linked |
| Subpage.PoolSubpage.Free | buffer/src/main/java/io/netty/buffer/PoolSubpage.java:123-147 | for the handed-out element `b`: only `b` is given back and `numAvail` rises by 1; from a full slab `nextAvail = b`, linked, returns true; reaching `maxNumElems` makes the slab dead and unlinked and returns false; otherwise returns true; size 0 returns true and changes nothing |
| Subpage.PoolSubpage.MarkFree | buffer/src/main/java/io/netty/buffer/PoolSubpage.java:128-131 | clearing the bit gives back exactly that element |
| Subpage.PoolSubpage.FindNextAvailable | buffer/src/main/java/io/netty/buffer/PoolSubpage.java:166-187 | returns the smallest free element below `maxNumElems`, or -1 when every element below `maxNumElems` is handed out |
| Subpage.PoolSubpage.ToHandle | buffer/src/main/java/io/netty/buffer/PoolSubpage.java:190-193 | the handle's low int is the page's tree index and its high int is non-zero with `& 0x3FFFFFFF` equal to `bitmapIdx` |
| BufferConfig.Shl1 | buffer/src/test/java/com/taobao/tianxiao/BufferTest.java:141 | `chunkSize <<= 1` stays a Java int, and is doubling while no overflow occurs |
| BufferConfig.CalculateShifts | buffer/src/test/java/com/taobao/tianxiao/BufferTest.java:87-94 | 0 for 0; otherwise the number of trailing zero bits of `val`, which for a power of two is its log2 |
| BufferConfig.TrailingZerosUnique | buffer/src/test/java/com/taobao/tianxiao/BufferTest.java:87-94 | the trailing-zero count is unique |
| BufferConfig.TrailingZerosPow2 | buffer/src/test/java/com/taobao/tianxiao/BufferTest.java:87-94 | `2^k` has exactly `k` trailing zeros |
| BufferConfig.ValidateAndCalculatePageShifts | buffer/src/test/java/com/taobao/tianxiao/BufferTest.java:96-122 | succeeds iff `pageSize >= 4096` and is a power of two (a page size below 4096 or with a second set bit throws), and then returns `pageShifts` with `1 << pageShifts == pageSize` |
| BufferConfig.ValidateAndCalculateChunkSize | buffer/src/test/java/com/taobao/tianxiao/BufferTest.java:127-146 | `maxOrder > 14` throws; otherwise, for a positive page size, it succeeds iff `pageSize << maxOrder <= 2^30` (always for `maxOrder <= 0`), returns `pageSize · 2^maxOrder`, and with at least one doubling never more than `MAX_CHUNK_SIZE` |
| BufferConfig.Doubled | buffer/src/test/java/com/taobao/tianxiao/BufferTest.java:137-140 | once the size exceeds `MAX_CHUNK_SIZE / 2` with doublings to go, the full `pageSize << maxOrder` exceeds `MAX_CHUNK_SIZE`, so the throw rejects only what is too big |
| BufferConfig.ValidatedGeometry | buffer/src/test/java/com/taobao/tianxiao/BufferTest.java:21-25 | values both validators accept give `pageShifts >= 10` and `pageShifts + maxOrder <= 30`, what the chunk constructor requires |
| BufferConfig.Test | buffer/src/test/java/com/taobao/tianxiao/BufferTest.java:19-50 | for `pageSize = 8192`, `maxOrder = 11`: `pageShifts == 13`, `chunkSizeInPages == maxSubpageAllocs == 2048` (the asserted equality), a map of `maxSubpageAllocs << 1` entries whose indices from 1 hold their initial entries, and `totalLoop == 2^12 - 1` |
| Scenario.RunCycle | buffer/src/main/java/io/netty/buffer/PoolChunk.java:160-347 | a fresh chunk reads 0% used; any power-of-two run between a page and the chunk is handed out as a run handle; usage is then above 0 and is 100 exactly when the run is the whole chunk; freeing the handle makes `freeBytes == chunkSize` and usage 0 again |

## Left out

- `nextRandom`'s 48-bit LCG seeded by `System.nanoTime()`
  (`PoolChunk.java` 82, 447–450; `BufferTest.java` 77–85). It only breaks
  ties, so the model takes an arbitrary bit.
- The unpooled chunk constructor (`PoolChunk.java` 142–153). It builds no
  tree; the arena uses it for huge buffers.
- The head constructor of `PoolSubpage` (`PoolSubpage.java` 46–53). It
  builds only the arena's list heads.
- `toString` (both classes) and `PoolChunk.main`. `main` uses
  `pageSize = 4`, which the validators reject, and it gives a zero-length
  bitmap.
- The `prev`/`next` links and `arena.findSubpagePoolHead`. They belong to
  the arena, which is not part of this model; pool membership is the ghost
  flag `inPool`.
- `PooledByteBuf.init`. Its receiver is not part of this model; the values
  passed to it are the returned `BufRange`.
- The public two-argument `initBufWithSubpage(buf, handle, reqCapacity)`
  (`PoolChunk.java` 367–369). It is `InitBufWithSubpage(handle,
  HighInt(handle), reqCapacity)`, as `InitBuf` calls it; it has no member of
  its own.
- The `System.out.println` output and the `loopCount` counters of
  `BufferTest`, plus the other test methods (`test2`, `test3`,
  `testPooledByteBufAllocator`). They only print; `totalLoop` is modelled.
- Concurrency. The chunk and the slab are unsynchronised, and the arena
  serialises calls to them; every call is modelled as single-threaded.
- `java.lang` `assert` statements. They become preconditions or proved
  postconditions, so the model does not describe running with assertions
  disabled on a caller that breaks them.
- Chunk.PoolChunk.Allocate: requires a normalised request (a power of two of
  at least a page, or a slab size the bitmap can hold). The arena guarantees
  this, and the model does not say what the chunk does with other sizes.
- Chunk.PoolChunk.Free: requires a live handle, one handed out and not yet
  freed. A double free or a stale handle trips the source's assertions.
- Chunk.PoolChunk.InitBuf: requires a handle whose node is in the matching
  state, as the source asserts. It does not require the slab to be live,
  which `initBufWithSubpage` also asserts.
- BufferConfig.ValidateAndCalculateChunkSize: states the result only for a
  positive page size. For `pageSize <= 0`, which `validateAndCalculatePageShifts`
  rejects first, it states only what `maxOrder > 14` gives.
- Scenario.RunCycle: states the accounting after the cycle, not that the map
  returns to its initial entries. Coalescing stops at a sibling in use, and
  here every other node is unused, but the full map equality is not proved.
- Internal steps of the source's methods are separate members so that each
  proof stays small:
  - `MemoryMap.WriteRun` and `MemoryMap.BuildLevel`;
  - `PoolSubpage.MarkTaken`, `Advance`, `MarkFree` and `ClearWords`;
  - `PoolChunk.SplitDown`, `RunBelow`, `SplitSearch`, `SlabBelow`,
    `TakePage`, `PrepareSlab`, `FirstSlab`, `ReuseSlab`, `Register`,
    `SlabAllocate`, `AllocateAtPage`, `AllocateFromSlab`, `SlabHitAlloc`, `NewSlab`,
    `ReleaseNode`, `Coalesce`, `SlabFree`, `FreeInSlab`, `FreeRun` and
    `FreeElement`.

  Together they perform the source's statements in its order.
