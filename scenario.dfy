/** Whole-chunk behaviour: a fresh chunk, one run handed out and taken
    back. */
module Scenario {
  import opened Bits
  import opened Handles
  import opened MemoryMap
  import opened Chunk

  /** A freshly built chunk is empty; any normalised run that fits the chunk
      is then handed out, the chunk reads fully used exactly when the run is
      the whole chunk, and freeing the handle makes the chunk empty again. */
  method RunCycle(pageSize: int, maxOrder: nat, pageShifts: nat, chunkSize: int, normCapacity: int)
      returns (c: PoolChunk, fresh0: int, handle: int, busy: int, after: int)
    requires 10 <= pageShifts && pageSize == Pow2(pageShifts) && maxOrder <= MaxOrderLimit
    requires pageShifts + maxOrder <= 30 && chunkSize == pageSize * Pow2(maxOrder)
    requires IsPow2(normCapacity) && pageSize <= normCapacity <= chunkSize
    ensures c.Valid() && c.freeBytes == c.chunkSize == chunkSize
    ensures fresh0 == 0 && after == 0
    ensures 1 <= handle < Pow2(maxOrder + 1) && LowInt(handle) == handle && HighInt(handle) == 0
    ensures busy == 100 <==> normCapacity == chunkSize
    ensures 0 < busy <= 100
  {
    c := new PoolChunk(pageSize, maxOrder, pageShifts, chunkSize);
    c.ConfigSizes();
    fresh0 := c.Usage();
    RootPages(maxOrder);
    ghost var m0 := c.memoryMap[..];
    assert Open(m0, 1);
    PoolChunk.ChunkPages(pageSize, maxOrder, pageShifts, chunkSize);
    c.SizeAtDepth(1, 0, maxOrder + pageShifts);
    c.RoomUnused(m0, 1, normCapacity);
    assert c.HasRoom(m0, 1, normCapacity);
    handle := c.Allocate(normCapacity);
    assert handle != -1;
    RunHandleDecodes(handle);
    assert c.Live(handle);
    busy := c.Usage();
    c.Free(handle);
    after := c.Usage();
  }
}
