/** A pooled chunk: one contiguous block of `2^maxOrder` pages handed out as
    power-of-two runs through the memory-map tree, with pages that hold
    small elements delegated to a slab (`PoolSubpage`) each.

    A run handle is the tree index of the allocated node; a slab handle is
    the slab's encoding of page and element (see `Handles`). `freeBytes` is
    the chunk size less the bytes the tree hands out. */
module Chunk {
  import opened Bits
  import opened Handles
  import opened MemoryMap
  import opened Subpage

  /** What `PooledByteBuf.init` receives: the buffer's offset in the chunk,
      its requested length and the most it can grow to in place. */
  datatype BufRange = BufRange(offset: int, length: int, maxLength: int)

  /** `normCapacity & subpageOverflowMask`, the mask being `~(pageSize - 1)`
      for a power-of-two page size: the capacity with its bits below the page
      size cleared. It is non-zero exactly for requests of a page or more. */
  function HighBits(normCapacity: int, pageSize: int): (h: int)
    requires pageSize > 0
    ensures 0 <= normCapacity ==> (h != 0 <==> normCapacity >= pageSize)
  {
    normCapacity - normCapacity % pageSize
  }

  class PoolChunk {
    const pageSize: int
    const pageShifts: nat
    /** Depth of the tree; the constructor's argument, not a Java field. */
    ghost const maxOrder: nat
    const chunkSize: int
    /** `1 << maxOrder`: the number of pages, and the index of the first
        leaf. */
    const maxSubpageAllocs: int
    const memoryMap: array<int>
    /** One slot per page, filled on the page's first slab use. */
    const subpages: array<PoolSubpage?>
    var freeBytes: int

    /** The slabs in `subpages` and their bitmaps. */
    ghost var Repr: set<object>
    /** The page index of each slab's bitmap: no two slabs share one. */
    ghost var owner: map<object, int>
    /** Which pages are handed to a slab: `slabUse[i]` mirrors whether page
        `i` is in the subpage state. */
    ghost var slabUse: seq<bool>

    /** The sizes fit together as the validated configuration makes them. */
    ghost predicate Config()
    {
      10 <= pageShifts && pageSize == Pow2(pageShifts) && maxOrder <= MaxOrderLimit
      && pageShifts + maxOrder <= 30 && chunkSize == Pow2(pageShifts + maxOrder)
      && maxSubpageAllocs == Pow2(maxOrder)
      && memoryMap.Length == 2 * maxSubpageAllocs && subpages.Length == maxSubpageAllocs
    }

    /** The tree is well formed, `freeBytes` is what it does not hand out
        and `slabUse` marks its pages in the subpage state. */
    ghost predicate MapValid()
      reads this`freeBytes, this`slabUse, memoryMap
    {
      MapOk(memoryMap[..], freeBytes) && SlabPages(memoryMap[..], slabUse)
    }

    /** `m` is a well-formed tree for this chunk and `free` is what it does
        not hand out. */
    ghost predicate MapOk(m: seq<int>, free: int)
    {
      Config() && |m| == memoryMap.Length && Shaped(m, maxOrder) && Consistent(m)
      && free == chunkSize - UsedBytes(m, pageSize, 1)
    }

    /** Every slab and its bitmap belong to `Repr`, apart from the chunk's
        own arrays, and each bitmap belongs to one page only. */
    ghost predicate Owned()
      reads this`Repr, this`owner, subpages
    {
      this !in Repr && memoryMap !in Repr && subpages !in Repr
      && forall i | 0 <= i < subpages.Length && subpages[i] != null ::
           subpages[i] in Repr && subpages[i].bitmap in Repr
           && subpages[i].bitmap in owner && owner[subpages[i].bitmap] == i
    }

    /** The slab `s` of page `i` agrees with the page's state: a page handed
        to a slab has a live one for a size below the page; any other slab is
        a retired one, no longer live nor linked. */
    ghost predicate SlabFits(sub: bool, s: PoolSubpage?, i: int)
      reads if s == null then {} else {s, s.bitmap}
    {
      (sub ==> s != null && s.doNotDestroy && s.elemSize < pageSize)
      && (s != null ==>
            s.Valid() && s.memoryMapIdx == i + maxSubpageAllocs
            && s.runOffset == i * pageSize && s.pageSize == pageSize
            && (!sub ==> !s.doNotDestroy && !s.inPool))
    }

    /** Each page's slab agrees with the page's use in `slabUse`. */
    ghost predicate SlabsValid()
      reads this`Repr, this`owner, this`slabUse, subpages, Repr
      requires Owned()
    {
      |slabUse| == subpages.Length
      && forall i | 0 <= i < subpages.Length :: SlabFits(slabUse[i], subpages[i], i)
    }

    /** The slab of page `i` and its bitmap, if the page has one. */
    ghost function SlabOf(i: int): set<object>
      reads subpages
      requires 0 <= i < subpages.Length
    {
      if subpages[i] == null then {} else {subpages[i], subpages[i].bitmap}
    }

    /** The slabs of every page but `i` are valid. Page `i`'s slab is not
        read, so changing it alone keeps this. */
    ghost predicate SlabsBut(i: int)
      requires 0 <= i < subpages.Length
      reads this`Repr, this`owner, this`slabUse, subpages, Repr - SlabOf(i)
    {
      Owned() && |slabUse| == subpages.Length
      && forall j | 0 <= j < subpages.Length && j != i :: SlabFits(slabUse[j], subpages[j], j)
    }

    lemma {:induction false} SlabsSplit(i: int)
      requires 0 <= i < subpages.Length
      ensures Slabs() <==> SlabsBut(i) && SlabFits(slabUse[i], subpages[i], i)
    {
    }

    /** `use` records which pages of the map `m` are handed to a slab. */
    static ghost predicate SlabPages(m: seq<int>, use: seq<bool>)
    {
      |m| == 2 * |use|
      && forall i | 0 <= i < |use| :: use[i] == (State(m[i + |use|]) == AllocatedSubpage)
    }

    /** The slabs are owned and agree with `slabUse`. */
    ghost predicate Slabs()
      reads this`Repr, this`owner, this`slabUse, subpages, Repr
    {
      Owned() && SlabsValid()
    }

    /** Changing neither the slab bookkeeping nor any slab keeps the slabs
        valid. */
    twostate lemma SlabsKept()
      requires old(Slabs()) && unchanged(this`Repr, this`owner, this`slabUse, subpages)
      requires forall o | o in old(Repr) :: unchanged(o)
      ensures Slabs() && SlabStates() == old(SlabStates())
    {
    }

    ghost predicate Valid()
      reads this, memoryMap, subpages, Repr
    {
      MapValid() && Slabs()
    }

    /** The page size is one a slab accepts, and the chunk is `2^maxOrder`
        pages of at most 1 GiB in all. */
    lemma {:induction false} ConfigSizes()
      requires Config()
      ensures PageSizeOk(pageSize) && 1024 <= pageSize <= chunkSize <= 0x4000_0000
      ensures chunkSize == pageSize * maxSubpageAllocs
      ensures NodePages(maxOrder, 1) == maxSubpageAllocs
      ensures memoryMap.Length < 0x8000_0000
    {
      SizesOf(pageShifts, maxOrder);
      RootPages(maxOrder);
      MulLeftMonotone(maxSubpageAllocs, 1024, pageSize);
    }

    static lemma {:induction false} SizesOf(ps: nat, mo: nat)
      requires 10 <= ps && ps + mo <= 30
      ensures PageSizeOk(Pow2(ps)) && 1024 <= Pow2(ps) <= Pow2(ps + mo) <= 0x4000_0000
      ensures Pow2(ps + mo) == Pow2(ps) * Pow2(mo)
    {
      Pow2Ten();
      Pow2Thirty();
      Pow2Split(ps, 10);
      DivMul(Pow2(ps - 10), 1024);
      Pow2Monotone(10, ps);
      Pow2Monotone(ps, ps + mo);
      Pow2Monotone(ps + mo, 30);
      Pow2Add(ps, mo);
    }

    /** `PoolChunk(arena, memory, pageSize, maxOrder, pageShifts,
        chunkSize)`: the whole chunk free, every node unused with its own
        offset and length, and no slab yet. */
    constructor (pageSize: int, maxOrder: nat, pageShifts: nat, chunkSize: int)
      requires 10 <= pageShifts && pageSize == Pow2(pageShifts) && maxOrder <= MaxOrderLimit
      requires pageShifts + maxOrder <= 30 && chunkSize == pageSize * Pow2(maxOrder)
      ensures Valid() && fresh(memoryMap) && fresh(subpages)
      ensures this.pageSize == pageSize && this.pageShifts == pageShifts
      ensures this.maxOrder == maxOrder && this.chunkSize == chunkSize
      ensures freeBytes == chunkSize && memoryMap.Length == Pow2(maxOrder + 1)
      ensures forall i | 1 <= i < memoryMap.Length ::
                OffsetPages(memoryMap[i]) == NodeOffsetPages(maxOrder, i)
                && RunPages(memoryMap[i]) == NodePages(maxOrder, i)
                && State(memoryMap[i]) == Unused
      ensures forall i | 0 <= i < subpages.Length :: subpages[i] == null
      ensures Repr == {}
    {
      this.pageSize := pageSize;
      this.pageShifts := pageShifts;
      this.maxOrder := maxOrder;
      this.chunkSize := chunkSize;
      freeBytes := chunkSize;
      ChunkPages(pageSize, maxOrder, pageShifts, chunkSize);
      var chunkSizeInPages := chunkSize / Pow2(pageShifts);
      maxSubpageAllocs := Pow2(maxOrder);
      var built, _ := Build(maxOrder, chunkSizeInPages);
      memoryMap := built;
      subpages := new PoolSubpage?[Pow2(maxOrder)](_ => null);
      Repr := {};
      owner := map[];
      slabUse := seq(Pow2(maxOrder), _ => false);
      new;
      InitialMapValid(memoryMap[..], maxOrder, pageSize);
      forall i | 1 <= i < memoryMap.Length
        ensures OffsetPages(memoryMap[i]) == NodeOffsetPages(maxOrder, i)
        ensures RunPages(memoryMap[i]) == NodePages(maxOrder, i)
      {
        assert EntryOk(memoryMap[..], maxOrder, i);
      }
    }

    static lemma {:induction false} ChunkPages(pageSize: int, maxOrder: nat, pageShifts: nat, chunkSize: int)
      requires pageSize == Pow2(pageShifts) && chunkSize == pageSize * Pow2(maxOrder)
      ensures chunkSize / Pow2(pageShifts) == Pow2(maxOrder)
      ensures chunkSize == Pow2(pageShifts + maxOrder)
    {
      assert chunkSize == Pow2(maxOrder) * pageSize;
      DivMul(Pow2(maxOrder), pageSize);
      Pow2Add(pageShifts, maxOrder);
    }

    // -------------------------------------------------------------------
    // Helpers.

    /** `runLength(val)`, `(val >>> 2 & 0x7FFF) << pageShifts`: the length
        field in bytes, a whole number of pages. */
    function RunLength(val: int): (len: int)
      ensures 0 <= len && len % Pow2(pageShifts) == 0
    {
      DivMul(RunPages(val), Pow2(pageShifts));
      RunPages(val) * Pow2(pageShifts)
    }

    /** `runOffset(val)`, `val >>> 17 << pageShifts`: the offset field in
        bytes, a whole number of pages. */
    function RunOffset(val: int): (off: int)
      requires 0 <= val
      ensures 0 <= off && off % Pow2(pageShifts) == 0
    {
      DivMul(OffsetPages(val), Pow2(pageShifts));
      OffsetPages(val) * Pow2(pageShifts)
    }

    /** In a valid chunk every entry decodes to its node's run in bytes. */
    lemma {:induction false} NodeRun(i: int)
      requires MapValid() && 1 <= i < memoryMap.Length
      ensures 0 <= memoryMap[i]
      ensures RunLength(memoryMap[i]) == NodeSize(i)
      ensures RunOffset(memoryMap[i]) == NodeOffsetPages(maxOrder, i) * pageSize
    {
      assert EntryOk(memoryMap[..], maxOrder, i);
      NodeSizeIs(i);
    }

    /** The bytes of node `i`'s run: `2^(maxOrder - depth + pageShifts)`. */
    ghost function NodeSize(i: int): nat
      requires i >= 1
    {
      if Depth(i) <= maxOrder then Pow2(maxOrder - Depth(i) + pageShifts) else 0
    }

    /** A node's bytes are its pages times the page size. */
    lemma {:induction false} NodeSizeIs(i: int)
      requires Config() && i >= 1
      ensures NodeSize(i) == NodePages(maxOrder, i) * pageSize
    {
      if Depth(i) <= maxOrder {
        Pow2Add(maxOrder - Depth(i), pageShifts);
      }
    }

    /** `subpageIdx(memoryMapIdx)`: a leaf's slot in `subpages`, which is
        the page's number in the chunk. */
    function SubpageIdx(memoryMapIdx: int): (i: int)
      requires Config() && maxSubpageAllocs <= memoryMapIdx < memoryMap.Length
      ensures 0 <= i < subpages.Length && i == NodeOffsetPages(maxOrder, memoryMapIdx)
    {
      LeafOffset(maxOrder, memoryMapIdx);
      memoryMapIdx - maxSubpageAllocs
    }

    /** `nextRandom()`: the left/right tie-break of the search, any bit. */
    method NextRandom() returns (bit: int)
      ensures bit == 0 || bit == 1
    {
      bit :| 0 <= bit <= 1;
    }

    /** `usage()`: the percentage of the chunk in use, rounded so that only
        a full chunk reads 100 and only an empty one reads 0. */
    function Usage(): (u: int)
      reads this`freeBytes
      requires 0 < chunkSize && 0 <= freeBytes <= chunkSize
      ensures 0 <= u <= 100
      ensures u == 100 <==> freeBytes == 0
      ensures u == 0 <==> freeBytes == chunkSize
      ensures 0 < freeBytes && freeBytes * 100 < chunkSize ==> u == 99
      ensures freeBytes * 100 >= chunkSize ==> u == 100 - freeBytes * 100 / chunkSize
    {
      if freeBytes == 0 then 100
      else
        var freePercentage := freeBytes * 100 / chunkSize;
        UsagePercent(freeBytes, chunkSize);
        if freePercentage == 0 then 99 else 100 - freePercentage
    }

    lemma {:induction false} UsagePercent(free: int, size: int)
      requires 0 < size && 0 < free <= size
      ensures 0 <= free * 100 / size <= 100
      ensures free * 100 / size == 100 <==> free == size
      ensures free * 100 < size <==> free * 100 / size == 0
    {
      DivUpperBound(free * 100, size, 101);
      if free < size {
        DivUpperBound(free * 100, size, 100);
      } else {
        DivMul(100, size);
      }
      if free * 100 < size {
        DivUpperBound(free * 100, size, 1);
      } else {
        DivLowerBound(free * 100, size, 1);
      }
    }

    // -------------------------------------------------------------------
    // Runs.

    /** A normalised run request: a power of two of at least a page. */
    ghost predicate RunSize(normCapacity: int)
    {
      IsPow2(normCapacity) && normCapacity >= pageSize
    }

    /** Node `k` of map `m` is a free run the search reaches that holds
        `normCapacity` bytes. */
    ghost predicate RunFits(m: seq<int>, k: int, normCapacity: int)
      requires k >= 1
    {
      Open(m, k) && normCapacity <= NodeSize(k)
    }

    /** `m1` is `m0` with node `r` of `c`'s subtree, unused in `m0`, carved
        out: split above, given state `st` itself, keeping its run. */
    ghost predicate Carved(m0: seq<int>, m1: seq<int>, c: int, r: int, st: int)
    {
      |m0| == memoryMap.Length && InSubtree(r, c) && r < |m0| && State(m0[r]) == Unused
      && m1 == Carve(m0, c, r, st)
      && State(m1[r]) == st && RunLength(m1[r]) == NodeSize(r)
    }

    /** The map became `m0` with a node of exactly `normCapacity` bytes of
        `c`'s subtree allocated as a run. */
    ghost predicate RunCarved(m0: seq<int>, c: int, r: int, normCapacity: int)
      reads memoryMap
    {
      Carved(m0, memoryMap[..], c, r, Allocated) && NodeSize(r) == normCapacity
    }

    /** The bytes of a node are a power of two, at least a page, and a
        single page exactly at the leaves. */
    lemma {:induction false} NodeBytes(i: int)
      requires Config() && 1 <= i < memoryMap.Length
      ensures Depth(i) <= maxOrder && IsPow2(NodeSize(i)) && pageSize <= NodeSize(i)
      ensures NodeSize(i) == pageSize <==> i >= maxSubpageAllocs
    {
      NodeDepth(maxOrder, i);
      var d := Depth(i);
      var e: nat := maxOrder - d + pageShifts;
      SizeAtDepth(i, d, e);
      Pow2IsPow2(e);
      if i >= maxSubpageAllocs {
        SizeAtDepth(i, maxOrder, pageShifts);
      } else {
        Pow2Monotone(pageShifts, e);
      }
    }

    /** A page's run is one page. */
    lemma {:induction false} LeafSize(i: int)
      requires Config() && maxSubpageAllocs <= i < memoryMap.Length
      ensures NodeSize(i) == pageSize
    {
      NodeBytes(i);
    }

    /** Below a run longer than the request the search halves into a child
        that still holds it. */
    lemma {:induction false} HalveRun(normCapacity: int, i: int)
      requires Config() && RunSize(normCapacity) && 1 <= i < memoryMap.Length
      requires normCapacity < NodeSize(i)
      ensures 2 * i + 1 < memoryMap.Length
      ensures NodeSize(i) / 2 == NodeSize(2 * i) == NodeSize(2 * i + 1)
      ensures IsPow2(NodeSize(2 * i)) && normCapacity <= NodeSize(2 * i)
    {
      InnerNode(i);
      var d := Depth(i);
      assert Depth(2 * i) == d + 1 && Depth(2 * i + 1) == d + 1 by {
        assert (2 * i) / 2 == i && (2 * i + 1) / 2 == i;
      }
      var e: nat := maxOrder - d - 1 + pageShifts;
      SizeAtDepth(i, d, e + 1);
      SizeAtDepth(2 * i, d + 1, e);
      SizeAtDepth(2 * i + 1, d + 1, e);
      HalvePow2(normCapacity, e);
    }

    /** A node longer than a page is an inner node, whose children exist. */
    lemma {:induction false} InnerNode(i: int)
      requires Config() && 1 <= i < memoryMap.Length && pageSize < NodeSize(i)
      ensures i < maxSubpageAllocs && Depth(i) < maxOrder && 2 * i + 1 < memoryMap.Length
    {
      NodeBytes(i);
      NodeDepth(maxOrder, i);
      Pow2Monotone(maxOrder, maxOrder + 1);
    }

    /** The child `x` the search halves into holds half of node `i`. */
    lemma {:induction false} ChildRun(normCapacity: int, i: int, x: int)
      requires Config() && RunSize(normCapacity) && 1 <= i < memoryMap.Length
      requires normCapacity < NodeSize(i) && (x == 2 * i || x == 2 * i + 1)
      ensures 2 * i + 1 < memoryMap.Length && NodeSize(x) == NodeSize(i) / 2
      ensures IsPow2(NodeSize(x)) && normCapacity <= NodeSize(x)
    {
      HalveRun(normCapacity, i);
    }

    lemma {:induction false} SizeAtDepth(i: int, d: nat, e: nat)
      requires i >= 1 && Depth(i) == d <= maxOrder && e == maxOrder - d + pageShifts
      ensures NodeSize(i) == Pow2(e)
    {
    }

    /** Below a larger power of two, another one fits in its half. */
    static lemma {:induction false} HalvePow2(n: int, e: nat)
      requires IsPow2(n) && n < Pow2(e + 1)
      ensures Pow2(e + 1) / 2 == Pow2(e) && IsPow2(Pow2(e)) && n <= Pow2(e)
    {
      Pow2IsPow2(e + 1);
      Pow2Below(n, Pow2(e + 1));
      Pow2IsPow2(e);
    }

    /** Carving node `r` out below the open node `c`: the map stays valid,
        `r`'s bytes are added to those in use, `r` gets the new state and
        keeps its run, and the slab pages change only at `r`. */
    lemma {:induction false} TakeNode(m0: seq<int>, free: int, use: seq<bool>, c: int, r: int, st: int)
      requires MapOk(m0, free) && SlabPages(m0, use) && Open(m0, c) && InSubtree(r, c) && r < |m0|
      requires st == Allocated || (st == AllocatedSubpage && r >= |m0| / 2)
      ensures Carved(m0, Carve(m0, c, r, st), c, r, st)
      ensures MapOk(Carve(m0, c, r, st), free - NodeSize(r))
      ensures forall k | |m0| / 2 <= k < |m0| && k != r :: Carve(m0, c, r, st)[k] == m0[k]
      ensures st == Allocated ==> SlabPages(Carve(m0, c, r, st), use)
      ensures st == AllocatedSubpage ==> SlabPages(Carve(m0, c, r, st), use[r - |use| := true])
    {
      TakeNodeMap(m0, free, c, r, st);
      TakeNodeLeaves(m0, use, c, r, st);
    }

    lemma {:induction false} TakeNodeMap(m0: seq<int>, free: int, c: int, r: int, st: int)
      requires MapOk(m0, free) && Open(m0, c) && InSubtree(r, c) && r < |m0|
      requires st == Allocated || (st == AllocatedSubpage && r >= |m0| / 2)
      ensures Carved(m0, Carve(m0, c, r, st), c, r, st)
      ensures MapOk(Carve(m0, c, r, st), free - NodeSize(r))
    {
      var m1 := Carve(m0, c, r, st);
      CarveFacts(m0, maxOrder, pageSize, c, r, st);
      NodeSizeIs(r);
      if r != c {
        DescendantsUnused(m0, c, r);
      }
      assert EntryOk(m0, maxOrder, r);
      WithStateFields(m0[r], st);
    }

    /** Carving `r` leaves every other page alone, so only `r` can change
        its slab use. */
    static lemma {:induction false} TakeNodeLeaves(m0: seq<int>, use: seq<bool>, c: int, r: int, st: int)
      requires SlabPages(m0, use) && 1 <= r < |m0| && State(m0[r]) == Unused
      requires st == Allocated || (st == AllocatedSubpage && r >= |m0| / 2)
      requires State(Carve(m0, c, r, st)[r]) == st
      ensures forall k | |m0| / 2 <= k < |m0| && k != r :: Carve(m0, c, r, st)[k] == m0[k]
      ensures st == Allocated ==> SlabPages(Carve(m0, c, r, st), use)
      ensures st == AllocatedSubpage ==> SlabPages(Carve(m0, c, r, st), use[r - |use| := true])
    {
      var m1 := Carve(m0, c, r, st);
      forall k | |m0| / 2 <= k < |m0| && k != r
        ensures m1[k] == m0[k]
      {
        CarveLeaf(m0, c, r, st, k);
      }
      if st == AllocatedSubpage {
        var use1 := use[r - |use| := true];
        forall i | 0 <= i < |use|
          ensures use1[i] == (State(m1[i + |use|]) == AllocatedSubpage)
        {
          if i + |use| != r {
            assert m1[i + |use|] == m0[i + |use|];
          }
        }
        assert SlabPages(m1, use1);
      } else {
        forall i | 0 <= i < |use|
          ensures use[i] == (State(m1[i + |use|]) == AllocatedSubpage)
        {
          if i + |use| != r {
            assert m1[i + |use|] == m0[i + |use|];
          } else {
            assert use[i] == (State(m0[r]) == AllocatedSubpage);
          }
        }
      }
    }

    /** One step down the search from node `r` of `c`'s subtree to its child
        `x`: splitting `r` and rewriting the untaken child as unused extends
        the split path to `x`. */
    static lemma {:induction false} SplitStep(m0: seq<int>, c: int, r: int, x: int)
      requires Consistent(m0) && 1 <= c < |m0| && State(m0[c]) == Unused
      requires InSubtree(r, c) && (x == 2 * r || x == 2 * r + 1) && x < |m0|
      ensures InSubtree(x, c) && x / 2 == r && SiblingIdx(x) == 4 * r + 1 - x
      ensures x != c && m0[x] == CarveAbove(m0, c, x)[x]
      ensures var m1 := CarveAbove(m0, c, r)[r := WithState(m0[r], Branch)];
              m1[SiblingIdx(x) := WithState(m1[SiblingIdx(x)], Unused)] == CarveAbove(m0, c, x)
    {
      var u := 4 * r + 1 - x;
      CarveAboveStep(m0, c, r, x);
      ChildInSubtree(x, r, c);
      ChildInSubtree(u, r, c);
      DescendantsUnused(m0, c, u);
      var m1 := CarveAbove(m0, c, r)[r := WithState(m0[r], Branch)];
      assert SiblingIdx(x) == u;
      assert m1[u] == m0[u];
      assert WithState(m1[u], Unused) == m1[u];
      assert m1[u := m1[u]] == m1;
    }

    /** Carving from a node below a chain of split nodes is carving from
        the top of the chain. */
    lemma {:induction false} CarveThroughBranches(m: seq<int>, a: int, c: int, r: int, st: int)
      requires Consistent(m) && |m| == memoryMap.Length
      requires InSubtree(c, a) && c < |m| && (c == a || State(m[c / 2]) == Branch)
      requires InSubtree(r, c) && r < |m|
      ensures InSubtree(r, a) && Carve(m, a, r, st) == Carve(m, c, r, st)
      decreases c
    {
      if c != a {
        var p := c / 2;
        assert InSubtree(p, a);
        CarveThroughBranch(m, p, c, r, st);
        if p != a {
          AncestorsSplit(m, p, p / 2);
        }
        CarveThroughBranches(m, a, p, r, st);
      }
    }

    /** The descent of `allocateRunSimple` and `allocateSubpageSimple`:
        from the open node `curIdx`, halve down a random path to the node of
        exactly `target` bytes, splitting every node passed and leaving each
        untaken child unused. */
    method SplitDown(target: int, curIdx: int, val: int) returns (cur: int, v: int)
      requires MapValid() && RunSize(target)
      requires Open(memoryMap[..], curIdx) && val == memoryMap[curIdx] && target <= NodeSize(curIdx)
      modifies memoryMap
      ensures 1 <= cur < memoryMap.Length && InSubtree(cur, curIdx) && NodeSize(cur) == target
      ensures v == old(memoryMap[cur]) && RunLength(v) == target
      ensures memoryMap[..] == CarveAbove(old(memoryMap[..]), curIdx, cur)
    {
      var runLength := RunLength(val);
      NodeRun(curIdx);
      ghost var m0 := memoryMap[..];
      CarveAboveNone(m0, curIdx);
      NodeBytes(curIdx);
      cur := curIdx;
      v := val;
      while target != runLength
        invariant 1 <= cur < memoryMap.Length && InSubtree(cur, curIdx)
        invariant runLength == NodeSize(cur) && IsPow2(runLength)
        invariant target <= runLength
        invariant v == m0[cur] == memoryMap[cur]
        invariant memoryMap[..] == CarveAbove(m0, curIdx, cur)
        decreases memoryMap.Length - cur
      {
        var bit := NextRandom();
        var nextIdx := 2 * cur + bit;
        ChildRun(target, cur, nextIdx);
        var unusedIdx := SiblingIdx(nextIdx);
        SplitStep(m0, curIdx, cur, nextIdx);
        ghost var s0 := memoryMap[..];
        memoryMap[cur] := WithState(v, Branch);
        ghost var s1 := memoryMap[..];
        assert s1 == s0[cur := WithState(v, Branch)];
        memoryMap[unusedIdx] := WithState(memoryMap[unusedIdx], Unused);
        assert memoryMap[..] == s1[unusedIdx := WithState(s1[unusedIdx], Unused)];
        runLength := runLength / 2;
        cur := nextIdx;
        v := memoryMap[cur];
      }
      assert EntryOk(m0, maxOrder, cur);
      NodeSizeIs(cur);
    }

    /** `allocateRunSimple(normCapacity, curIdx, val)`: from the open node
        `curIdx`, carve out a run of exactly `normCapacity` bytes; fail when
        `curIdx` is too small. */
    method AllocateRunSimple(normCapacity: int, curIdx: int, val: int) returns (handle: int)
      requires MapValid() && RunSize(normCapacity)
      requires Open(memoryMap[..], curIdx) && val == memoryMap[curIdx]
      modifies this`freeBytes, memoryMap
      ensures MapValid()
      ensures handle == -1 <==> normCapacity > NodeSize(curIdx)
      ensures handle == -1 ==> memoryMap[..] == old(memoryMap[..]) && freeBytes == old(freeBytes)
      ensures handle != -1 ==>
                RunCarved(old(memoryMap[..]), curIdx, handle, normCapacity)
                && freeBytes == old(freeBytes) - normCapacity
    {
      var runLength := RunLength(val);
      NodeRun(curIdx);
      if normCapacity > runLength {
        return -1;
      }
      ghost var m0 := memoryMap[..];
      var cur, v := SplitDown(normCapacity, curIdx, val);
      ghost var s0 := memoryMap[..];
      memoryMap[cur] := WithState(v, Allocated);
      assert memoryMap[..] == s0[cur := WithState(m0[cur], Allocated)];
      freeBytes := freeBytes - normCapacity;
      assert memoryMap[..] == Carve(m0, curIdx, cur, Allocated);
      RunTaken(m0, old(freeBytes), curIdx, cur);
      return cur;
    }

    /** Once the map is `m0` with run `r` carved out and `r`'s bytes taken
        off `free`, the chunk is valid again. */
    lemma {:induction false} RunTaken(m0: seq<int>, free: int, c: int, r: int)
      requires MapOk(m0, free) && SlabPages(m0, slabUse) && Open(m0, c) && InSubtree(r, c) && r < |m0|
      requires memoryMap[..] == Carve(m0, c, r, Allocated) && freeBytes == free - NodeSize(r)
      ensures MapValid() && RunCarved(m0, c, r, NodeSize(r))
    {
      TakeNode(m0, free, slabUse, c, r, Allocated);
    }

    /** Somewhere below `c` the search can reach a free run that holds
        `normCapacity` bytes. */
    ghost predicate HasRoom(m: seq<int>, c: int, normCapacity: int)
      requires c >= 1
    {
      exists k | c <= k < |m| :: InSubtree(k, c) && RunFits(m, k, normCapacity)
    }

    /** Room below a descendant is room below its ancestor. */
    lemma {:induction false} RoomAbove(m: seq<int>, c: int, x: int, normCapacity: int)
      requires InSubtree(x, c) && HasRoom(m, x, normCapacity)
      ensures HasRoom(m, c, normCapacity)
    {
      var k :| x <= k < |m| && InSubtree(k, x) && RunFits(m, k, normCapacity);
      SubtreeTrans(k, x, c);
    }

    /** Below a node in use there is no room. */
    lemma {:induction false} NoRoomInUse(m: seq<int>, c: int, normCapacity: int)
      requires Consistent(m) && 1 <= c < |m| && State(m[c]) >= Allocated
      ensures !HasRoom(m, c, normCapacity)
    {
      forall k | c <= k < |m| && InSubtree(k, c)
        ensures !RunFits(m, k, normCapacity)
      {
        if k != c { NoOpenBelow(m, c, k); }
      }
    }

    /** Below an unused node the only free run the search reaches is the node
        itself. */
    lemma {:induction false} RoomUnused(m: seq<int>, c: int, normCapacity: int)
      requires Consistent(m) && Open(m, c)
      ensures HasRoom(m, c, normCapacity) <==> normCapacity <= NodeSize(c)
    {
      forall k | c <= k < |m| && InSubtree(k, c) && k != c
        ensures !RunFits(m, k, normCapacity)
      {
        NoOpenBelow(m, c, k);
      }
      if normCapacity <= NodeSize(c) {
        assert InSubtree(c, c) && RunFits(m, c, normCapacity);
      }
    }

    /** Room below a split node lies below one of its children. */
    lemma {:induction false} RoomInChildren(m: seq<int>, c: int, normCapacity: int)
      requires 1 <= c && 2 * c + 1 < |m| && State(m[c]) == Branch
      ensures HasRoom(m, c, normCapacity)
              <==> HasRoom(m, 2 * c, normCapacity) || HasRoom(m, 2 * c + 1, normCapacity)
    {
      if HasRoom(m, c, normCapacity) {
        var k :| c <= k < |m| && InSubtree(k, c) && RunFits(m, k, normCapacity);
        SubtreeStep(k, c);
      }
      if HasRoom(m, 2 * c, normCapacity) {
        ChildInSubtree(2 * c, c, c);
        RoomAbove(m, c, 2 * c, normCapacity);
      }
      if HasRoom(m, 2 * c + 1, normCapacity) {
        ChildInSubtree(2 * c + 1, c, c);
        RoomAbove(m, c, 2 * c + 1, normCapacity);
      }
    }

    /** `allocateRun(normCapacity, curIdx, val)`: the depth-first search for
        a free run from node `curIdx`, entered through split nodes. A node in
        use fails; a split node tries a random child, then the other; an
        unused node carves the run out with `allocateRunSimple`. The search
        fails exactly when there is no room below `curIdx`, and then changes
        nothing. */
    method AllocateRun(normCapacity: int, curIdx: int, val: int) returns (handle: int)
      requires MapValid() && RunSize(normCapacity)
      requires 1 <= curIdx < memoryMap.Length && val == memoryMap[curIdx]
      requires curIdx == 1 || State(memoryMap[curIdx / 2]) == Branch
      modifies this`freeBytes, memoryMap
      ensures MapValid()
      ensures handle == -1 <==> !HasRoom(old(memoryMap[..]), curIdx, normCapacity)
      ensures handle == -1 ==> memoryMap[..] == old(memoryMap[..]) && freeBytes == old(freeBytes)
      ensures handle != -1 ==>
                handle >= curIdx && RunCarved(old(memoryMap[..]), curIdx, handle, normCapacity)
                && freeBytes == old(freeBytes) - normCapacity
      decreases memoryMap.Length - curIdx, 1
    {
      ghost var m0 := memoryMap[..];
      var cur := curIdx;
      var v := val;
      while true
        invariant 1 <= cur < memoryMap.Length && InSubtree(cur, curIdx) && v == memoryMap[cur]
        invariant cur == 1 || State(m0[cur / 2]) == Branch
        invariant memoryMap[..] == m0 && freeBytes == old(freeBytes)
        invariant HasRoom(m0, curIdx, normCapacity) ==> HasRoom(m0, cur, normCapacity)
        decreases memoryMap.Length - cur
      {
        if State(v) >= Allocated {
          // `(val & ST_ALLOCATED) != 0`
          NoRoomInUse(m0, cur, normCapacity);
          return -1;
        }
        if State(v) == Branch {
          var bit := NextRandom();
          var nextIdx := 2 * cur + bit;
          var res := RunBelow(normCapacity, curIdx, cur, nextIdx);
          if res > 0 {
            return res;
          }
          cur := SiblingIdx(nextIdx);
          v := memoryMap[cur];
        } else {
          handle := AllocateRunSimple(normCapacity, cur, v);
          RoomUnused(m0, cur, normCapacity);
          if handle != -1 {
            CarveThroughBranches(m0, curIdx, cur, handle, Allocated);
            SubtreeTrans(handle, cur, curIdx);
            RoomAbove(m0, curIdx, cur, normCapacity);
          }
          return;
        }
      }
    }

    /** The recursive `allocateRun(normCapacity, nextIdx, memoryMap[nextIdx])`
        from the search below `curIdx`, `nextIdx` a child of the branch
        `cur`: a run found there is carved through the branches from
        `curIdx`; otherwise any room below `cur` is below the sibling. */
    method RunBelow(normCapacity: int, curIdx: int, cur: int, nextIdx: int) returns (res: int)
      requires MapValid() && RunSize(normCapacity)
      requires 1 <= curIdx && InSubtree(cur, curIdx) && cur < memoryMap.Length
      requires State(memoryMap[cur]) == Branch && (nextIdx == 2 * cur || nextIdx == 2 * cur + 1)
      modifies this`freeBytes, memoryMap
      ensures MapValid()
      ensures res == -1 ==>
                memoryMap[..] == old(memoryMap[..]) && freeBytes == old(freeBytes)
                && InSubtree(SiblingIdx(nextIdx), curIdx) && SiblingIdx(nextIdx) < memoryMap.Length
                && SiblingIdx(nextIdx) / 2 == cur
                && (HasRoom(old(memoryMap[..]), cur, normCapacity) ==>
                      HasRoom(old(memoryMap[..]), SiblingIdx(nextIdx), normCapacity))
      ensures res != -1 ==>
                res >= curIdx && RunCarved(old(memoryMap[..]), curIdx, res, normCapacity)
                && freeBytes == old(freeBytes) - normCapacity
                && HasRoom(old(memoryMap[..]), curIdx, normCapacity)
      decreases memoryMap.Length - cur, 0
    {
      ghost var m0 := memoryMap[..];
      assert LeafOk(m0, cur) || cur < memoryMap.Length / 2;
      ChildInSubtree(nextIdx, cur, curIdx);
      res := AllocateRun(normCapacity, nextIdx, memoryMap[nextIdx]);
      if res != -1 {
        CarveThroughBranches(m0, curIdx, nextIdx, res, Allocated);
        RoomAbove(m0, curIdx, nextIdx, normCapacity);
      } else {
        RoomInChildren(m0, cur, normCapacity);
        ChildInSubtree(SiblingIdx(nextIdx), cur, curIdx);
      }
    }

    // -------------------------------------------------------------------
    // Slabs.

    /** A normalised request below a page, one a slab's bitmap has room for
        (every size from 16 bytes up, and the zero size). */
    ghost predicate SlabSize(normCapacity: int)
    {
      0 <= normCapacity < pageSize && Fits(pageSize, normCapacity)
    }

    /** The pages (by slot) whose live slab is for `normCapacity`-byte
        elements and can hand one out. */
    ghost function Vacant(normCapacity: int): set<int>
      reads this, subpages, subpages[..]
      requires Config()
    {
      set j | 0 <= j < subpages.Length && j < |slabUse| && slabUse[j] && subpages[j] != null
                && subpages[j].elemSize == normCapacity
                && (normCapacity == 0 || subpages[j].numAvail > 0)
    }

    /** Every page slot in `vac` holds a slab in the map `m`. */
    static ghost predicate SlabPagesIn(m: seq<int>, vac: set<int>)
    {
      forall j | j in vac :: 0 <= j < |m| / 2 && State(m[j + |m| / 2]) == AllocatedSubpage
    }

    /** A page handed to a slab is vacant exactly when its slab is for the
        size and has an element to spare. */
    lemma {:induction false} VacantAt(normCapacity: int, i: int)
      requires Config() && Slabs() && 0 <= i < subpages.Length && slabUse[i]
      ensures subpages[i] != null
      ensures i in Vacant(normCapacity) <==>
                subpages[i].elemSize == normCapacity
                && (normCapacity == 0 || subpages[i].numAvail > 0)
    {
      assert SlabFits(slabUse[i], subpages[i], i);
    }

    lemma {:induction false} VacantPages(normCapacity: int)
      requires MapValid() && Slabs()
      ensures SlabPagesIn(memoryMap[..], Vacant(normCapacity))
    {
      forall j | j in Vacant(normCapacity)
        ensures State(memoryMap[j + maxSubpageAllocs]) == AllocatedSubpage
      {
        assert slabUse[j];
      }
    }

    /** The search of `allocateSubpage` from `c` can succeed: below `c` it
        reaches an unused node (which always holds a page), or a page in
        `vac`. */
    ghost predicate SlabRoom(m: seq<int>, vac: set<int>, c: int)
      requires c >= 1
    {
      HasRoom(m, c, pageSize) || exists j | j in vac :: InSubtree(j + |m| / 2, c)
    }

    lemma {:induction false} SlabRoomAbove(m: seq<int>, vac: set<int>, c: int, x: int)
      requires InSubtree(x, c) && SlabRoom(m, vac, x)
      ensures SlabRoom(m, vac, c)
    {
      if HasRoom(m, x, pageSize) {
        RoomAbove(m, c, x, pageSize);
      } else {
        var j :| j in vac && InSubtree(j + |m| / 2, x);
        SubtreeTrans(j + |m| / 2, x, c);
      }
    }

    /** Room below a split node lies below one of its children. */
    lemma {:induction false} SlabRoomInChildren(m: seq<int>, vac: set<int>, c: int)
      requires Consistent(m) && SlabPagesIn(m, vac)
      requires 1 <= c && 2 * c + 1 < |m| && State(m[c]) == Branch
      ensures SlabRoom(m, vac, c) <==> SlabRoom(m, vac, 2 * c) || SlabRoom(m, vac, 2 * c + 1)
    {
      RoomInChildren(m, c, pageSize);
      if j :| j in vac && InSubtree(j + |m| / 2, c) {
        assert j + |m| / 2 != c;
        SubtreeStep(j + |m| / 2, c);
      }
      ChildInSubtree(2 * c, c, c);
      ChildInSubtree(2 * c + 1, c, c);
      if SlabRoom(m, vac, 2 * c) { SlabRoomAbove(m, vac, c, 2 * c); }
      if SlabRoom(m, vac, 2 * c + 1) { SlabRoomAbove(m, vac, c, 2 * c + 1); }
    }

    /** When one child of a split node has no room, the node has room
        exactly when the other child has. */
    lemma {:induction false} OtherChildRoom(m: seq<int>, vac: set<int>, c: int, x: int)
      requires Consistent(m) && SlabPagesIn(m, vac)
      requires 1 <= c && 2 * c + 1 < |m| && State(m[c]) == Branch
      requires (x == 2 * c || x == 2 * c + 1) && !SlabRoom(m, vac, x)
      ensures SlabRoom(m, vac, c) <==> SlabRoom(m, vac, SiblingIdx(x))
      ensures SiblingIdx(x) == 4 * c + 1 - x
    {
      SlabRoomInChildren(m, vac, c);
    }

    /** Below a run in use there is no room. */
    lemma {:induction false} NoSlabRoomInUse(m: seq<int>, vac: set<int>, c: int)
      requires Consistent(m) && SlabPagesIn(m, vac) && 1 <= c < |m| && State(m[c]) == Allocated
      ensures !SlabRoom(m, vac, c)
    {
      NoRoomInUse(m, c, pageSize);
      forall j | j in vac && InSubtree(j + |m| / 2, c)
        ensures false
      {
        if j + |m| / 2 != c { DescendantsUnused(m, c, j + |m| / 2); }
      }
    }

    /** At a page holding a slab, only that slab can answer. */
    lemma {:induction false} SlabRoomAtPage(m: seq<int>, vac: set<int>, c: int)
      requires Consistent(m) && SlabPagesIn(m, vac)
      requires |m| / 2 <= c < |m| && State(m[c]) == AllocatedSubpage
      ensures SlabRoom(m, vac, c) <==> c - |m| / 2 in vac
    {
      NoRoomInUse(m, c, pageSize);
      forall j | j in vac && InSubtree(j + |m| / 2, c)
        ensures j == c - |m| / 2
      {
        if j + |m| / 2 != c { SubtreeBelow(j + |m| / 2, c); }
      }
      if c - |m| / 2 in vac { assert InSubtree(c, c); }
    }

    /** An open node always has room for a page. */
    lemma {:induction false} SlabRoomOpen(m: seq<int>, vac: set<int>, c: int)
      requires Config() && Consistent(m) && |m| == memoryMap.Length && Open(m, c)
      ensures SlabRoom(m, vac, c)
    {
      NodeBytes(c);
      RoomUnused(m, c, pageSize);
    }

    /** Nothing the chunk owns has changed. */
    twostate predicate Kept()
      reads this, memoryMap, subpages, Repr
    {
      unchanged(this) && memoryMap[..] == old(memoryMap[..]) && unchanged(subpages)
      && forall o | o in Repr :: unchanged(o)
    }

    /** Where nothing the chunk owns has changed, neither have its vacant
        slabs. */
    twostate lemma KeptVacant(normCapacity: int)
      requires Config() && old(Slabs()) && Kept()
      ensures Config() && Vacant(normCapacity) == old(Vacant(normCapacity))
      ensures Owned() && SlabStates() == old(SlabStates())
    {
      forall j | 0 <= j < subpages.Length && subpages[j] != null
        ensures subpages[j] == old(subpages[j]) && unchanged(subpages[j])
      {
        assert old(subpages[j]) in old(Repr);
        assert Repr == old(Repr);
        assert subpages[j] in Repr;
      }
      assert forall j :: j in Vacant(normCapacity) <==> j in old(Vacant(normCapacity));
    }

    /** `handle` is element `b` of page `r`, newly handed out by the page's
        slab for `normCapacity`-byte elements, and the page is now marked as
        handed to a slab. */
    ghost predicate SlabGiven(use0: seq<bool>, normCapacity: int, handle: int)
      reads this, subpages, subpages[..]
      requires Config()
    {
      var r := LowInt(handle);
      var b := HighInt(handle) % ElementMask;
      var i := r - maxSubpageAllocs;
      maxSubpageAllocs <= r < memoryMap.Length && b < ElementMask
      && handle == Handles.ToHandle(r, b)
      && subpages.Length == |slabUse| == |use0| && slabUse == use0[i := true]
      && subpages[i] != null && subpages[i].elemSize == normCapacity
    }

    /** Where a slab's element was found and what finding it did to the
        tree: page `r` lies in `c`'s subtree; a page that already held its
        slab (`had`) leaves the map `m0` and the free bytes `f0` alone, while
        an unused one is carved out of the map for the slab, takes a page off
        the free bytes and hands out element 0. */
    ghost predicate Placed(m0: seq<int>, m1: seq<int>, f0: int, f1: int, c: int, r: int, b: int, had: bool)
    {
      InSubtree(r, c) && r < |m0|
      && (had ==> m1 == m0 && f1 == f0)
      && (!had ==> m1 == Carve(m0, c, r, AllocatedSubpage) && f1 == f0 - pageSize && b == 0)
    }

    /** `handle` is an element of a page of `c`'s subtree, newly handed out
        by the page's slab for `normCapacity`-byte elements. Either the page
        already held the slab and the tree is as it was, or the page was
        unused and has been carved out of the tree for the slab, which took a
        page off `freeBytes` and handed out its first element. */
    ghost predicate SlabTaken(m0: seq<int>, f0: int, use0: seq<bool>, c: int, normCapacity: int, handle: int)
      reads this, memoryMap, subpages, subpages[..]
      requires Config()
    {
      SlabGiven(use0, normCapacity, handle)
      && Placed(m0, memoryMap[..], f0, freeBytes, c, LowInt(handle), HighInt(handle) % ElementMask,
                use0[LowInt(handle) - maxSubpageAllocs])
    }

    /** The state of the slab of each page that has one. */
    ghost function SlabStates(): map<int, SlabState>
      reads this`Repr, this`owner, subpages, Repr
      requires Owned()
    {
      map j | 0 <= j < subpages.Length && subpages[j] != null :: subpages[j].Snapshot()
    }

    /** Every slab but page `i`'s is in its state in `st`. */
    ghost predicate OthersAre(st: map<int, SlabState>, i: int)
      reads this`Repr, this`owner, subpages, Repr
      requires Owned()
    {
      forall j | 0 <= j < subpages.Length && j != i && subpages[j] != null ::
        j in st && subpages[j].Snapshot() == st[j]
    }

    /** Changing no slab but `s`, the one of page `p.1`, keeps every other
        slab in its state in `p.0`. The snapshot map and the page index are
        one pair because Dafny 4.11's verifier fails on calls to a twostate
        lemma with more than one parameter that is not `new`. */
    twostate lemma OthersKept(p: (map<int, SlabState>, int), new s: PoolSubpage)
      requires old(Owned()) && Owned() && 0 <= p.1 < subpages.Length && subpages[p.1] == s
      requires unchanged(subpages) && old(OthersAre(p.0, p.1))
      requires unchanged(old(Repr) - {s, s.bitmap})
      ensures OthersAre(p.0, p.1)
    {
      forall j | 0 <= j < subpages.Length && j != p.1 && subpages[j] != null
        ensures j in p.0 && subpages[j].Snapshot() == p.0[j]
      {
        assert owner[subpages[j].bitmap] == j && owner[s.bitmap] == p.1;
        assert subpages[j] in old(Repr) && subpages[j].bitmap in old(Repr);
      }
    }

    /** Every slab is in the state `SlabStates()` records for it. */
    lemma {:induction false} StatesNow(i: int)
      requires Owned()
      ensures OthersAre(SlabStates(), i)
    {
    }

    /** Handing out `handle` changed the slab of the handle's page `i` and
        no other, given the slots `sub0`, `Repr` `R0`, page uses `use0` and
        slab states `states0` before. Unless its elements are zero-sized,
        that slab now holds the element `b` it did not hold before (a page
        newly handed to its slab held none). Every other page keeps its slab
        in the state it had, and `Repr` gained at most page `i`'s slab. */
    ghost predicate SlabOnly(R0: set<object>, sub0: seq<PoolSubpage?>, use0: seq<bool>,
                             states0: map<int, SlabState>, normCapacity: int, handle: int)
      reads this, subpages, Repr
      requires Owned()
    {
      var i := LowInt(handle) - maxSubpageAllocs;
      var b := HighInt(handle) % ElementMask;
      0 <= i < subpages.Length == |sub0| == |use0| && subpages[i] != null
      && subpages[..] == sub0[i := subpages[i]]
      && Repr == R0 + {subpages[i], subpages[i].bitmap}
      && OthersAre(states0, i)
      && (normCapacity != 0 ==>
            var was := if use0[i] && i in states0
                       then Occupancy(states0[i].bits, states0[i].bitmapLength, states0[i].maxNumElems)
                       else {};
            b !in was && subpages[i].Occupied() == was + {b})
    }

    /** Changing page `i`'s slot to `s` and no slab but `s` keeps every
        other slab's state. */
    twostate lemma StatesBut(i: int, new s: PoolSubpage)
      requires old(Owned()) && Owned() && 0 <= i < subpages.Length && subpages[i] == s
      requires forall j | 0 <= j < subpages.Length && j != i :: subpages[j] == old(subpages[j])
      requires unchanged(old(Repr) - {s, s.bitmap})
      ensures OthersAre(old(SlabStates()), i)
    {
      forall j | 0 <= j < subpages.Length && j != i && subpages[j] != null
        ensures j in old(SlabStates()) && subpages[j].Snapshot() == old(SlabStates())[j]
      {
        assert owner[subpages[j].bitmap] == j && owner[s.bitmap] == i;
        assert subpages[j] in old(Repr) && subpages[j].bitmap in old(Repr);
      }
    }

    /** The slab `s` of the handle's page, which it already held or has just
        been given, handed out element `b` and no other slab changed. */
    twostate lemma OnlyAt(handle: int, new s: PoolSubpage)
      requires old(Owned()) && Owned() && |old(slabUse)| == subpages.Length
      requires 0 <= LowInt(handle) - maxSubpageAllocs < subpages.Length
      requires subpages[LowInt(handle) - maxSubpageAllocs] == s
      requires forall j | 0 <= j < subpages.Length && j != LowInt(handle) - maxSubpageAllocs ::
                 subpages[j] == old(subpages[j])
      requires Repr == old(Repr) + {s, s.bitmap} && OthersAre(old(SlabStates()), LowInt(handle) - maxSubpageAllocs)
      requires old(slabUse[LowInt(handle) - maxSubpageAllocs]) ==> old(subpages[LowInt(handle) - maxSubpageAllocs]) == s
      requires s.elemSize != 0 ==>
                 var b := HighInt(handle) % ElementMask;
                 if old(slabUse[LowInt(handle) - maxSubpageAllocs])
                 then b !in old(s.Occupied()) && s.Occupied() == old(s.Occupied()) + {b}
                 else s.Occupied() == {b}
      ensures SlabOnly(old(Repr), old(subpages[..]), old(slabUse), old(SlabStates()), s.elemSize, handle)
    {
      var i := LowInt(handle) - maxSubpageAllocs;
      assert subpages[..] == old(subpages[..])[i := s];
      if old(slabUse[i]) {
        assert i in old(SlabStates()) && old(SlabStates())[i] == old(s.Snapshot());
      }
    }

    /** A page newly handed to its slab, which has handed out only the
        element `b`, with every other slab as it was: the slab changed alone. */
    lemma {:induction false} OnlyFresh(R0: set<object>, sub0: seq<PoolSubpage?>, use0: seq<bool>,
                                       st0: map<int, SlabState>, handle: int)
      requires Owned() && 0 <= LowInt(handle) - maxSubpageAllocs < subpages.Length == |sub0| == |use0|
      requires !use0[LowInt(handle) - maxSubpageAllocs]
      requires var s := subpages[LowInt(handle) - maxSubpageAllocs];
               s != null && subpages[..] == sub0[LowInt(handle) - maxSubpageAllocs := s]
               && Repr == R0 + {s, s.bitmap} && OthersAre(st0, LowInt(handle) - maxSubpageAllocs)
               && (s.elemSize != 0 ==> s.Occupied() == {HighInt(handle) % ElementMask})
      ensures SlabOnly(R0, sub0, use0, st0, subpages[LowInt(handle) - maxSubpageAllocs].elemSize, handle)
    {
    }

    /** A search that found its element below the child `c` of a split node
        found it below the split node too, entered through split nodes. */
    lemma {:induction false} TakenAbove(m0: seq<int>, f0: int, use0: seq<bool>, a: int, c: int, normCapacity: int, handle: int)
      requires Config() && Consistent(m0) && |m0| == memoryMap.Length
      requires InSubtree(c, a) && c < |m0| && (c == a || State(m0[c / 2]) == Branch)
      requires SlabTaken(m0, f0, use0, c, normCapacity, handle)
      ensures SlabTaken(m0, f0, use0, a, normCapacity, handle)
    {
      CarveThroughBranches(m0, a, c, LowInt(handle), AllocatedSubpage);
    }

    /** Changing only page `i`'s slab and the page's use keeps the slabs
        valid when the slab fits its new use: the other slabs own other
        bitmaps, so they are untouched. */
    twostate lemma SlabUpdated(i: int)
      requires old(Config() && Slabs()) && 0 <= i < subpages.Length
      requires unchanged(this`Repr, this`owner, subpages)
      requires |slabUse| == |old(slabUse)|
      requires forall j | 0 <= j < |slabUse| && j != i :: slabUse[j] == old(slabUse[j])
      requires forall j | 0 <= j < subpages.Length && j != i && subpages[j] != null ::
                 unchanged(subpages[j], subpages[j].bitmap)
      requires SlabFits(slabUse[i], subpages[i], i)
      ensures Slabs()
    {
      forall j | 0 <= j < subpages.Length && j != i
        ensures SlabFits(slabUse[j], subpages[j], j)
      {
        assert old(SlabFits(slabUse[j], subpages[j], j));
      }
    }

    /** Giving the empty page slot `i` the new slab `s` keeps the slabs
        valid when `s` fits its use. */
    twostate lemma SlabAdded(i: int, new s: PoolSubpage)
      requires old(Config() && Slabs()) && 0 <= i < subpages.Length && old(subpages[i]) == null
      requires s !in old(Repr) && s.bitmap !in old(Repr)
      requires Repr == old(Repr) + {s, s.bitmap} && owner == old(owner)[s.bitmap := i]
      requires subpages[i] == s
      requires forall j | 0 <= j < subpages.Length && j != i ::
                 subpages[j] == old(subpages[j])
                 && (subpages[j] != null ==> unchanged(subpages[j], subpages[j].bitmap))
      requires |slabUse| == |old(slabUse)|
      requires forall j | 0 <= j < |slabUse| && j != i :: slabUse[j] == old(slabUse[j])
      requires SlabFits(slabUse[i], s, i)
      ensures Slabs()
    {
      forall j | 0 <= j < subpages.Length && j != i && subpages[j] != null
        ensures subpages[j] in Repr && subpages[j].bitmap in Repr
        ensures subpages[j].bitmap in owner && owner[subpages[j].bitmap] == j
        ensures SlabFits(slabUse[j], subpages[j], j)
      {
        assert old(SlabFits(slabUse[j], subpages[j], j));
        assert subpages[j].bitmap in old(Repr);
      }
    }

    /** The tail of `allocateSubpageSimple` at the page `r` just carved
        out: give the page a slab for `normCapacity`-byte elements (a new one,
        or the page's retired one restarted with `init`) and hand out its
        first element. */
    method NewSlab(normCapacity: int, r: int, val: int) returns (handle: int)
      requires Config() && Slabs() && SlabSize(normCapacity)
      requires maxSubpageAllocs <= r < memoryMap.Length && !slabUse[r - maxSubpageAllocs]
      requires 0 <= val && OffsetPages(val) == NodeOffsetPages(maxOrder, r)
      modifies this`Repr, this`owner, this`slabUse, subpages, Repr
      ensures Slabs() && SlabGiven(old(slabUse), normCapacity, handle)
      ensures handle > 0 && LowInt(handle) == r && HighInt(handle) % ElementMask == 0
      ensures normCapacity != 0 ==> subpages[r - maxSubpageAllocs].Occupied() == {0}
      ensures SlabOnly(old(Repr), old(subpages[..]), old(slabUse), old(SlabStates()), normCapacity, handle)
      ensures memoryMap[..] == old(memoryMap[..])
    {
      ghost var use0, m0, st0, R0, sub0 := slabUse, memoryMap[..], SlabStates(), Repr, subpages[..];
      var subpage := PrepareSlab(normCapacity, r, val);
      assert memoryMap[..] == m0;
      handle := SlabAllocate(SubpageIdx(r), subpage, st0);
      assert subpages[..] == sub0[SubpageIdx(r) := subpage] && Repr == R0 + {subpage, subpage.bitmap};
      assert normCapacity != 0 ==> subpage.Occupied() == {HighInt(handle) % ElementMask};
      OnlyFresh(R0, sub0, use0, st0, handle);
      SlabFresh(use0, normCapacity, r, handle);
    }

    /** The slab of the page `r` just carved out, made ready for
        `normCapacity`-byte elements: a new one in an empty slot, otherwise
        the page's retired slab restarted with `init`. */
    method PrepareSlab(normCapacity: int, r: int, val: int) returns (s: PoolSubpage)
      requires Config() && Slabs() && SlabSize(normCapacity)
      requires maxSubpageAllocs <= r < memoryMap.Length && !slabUse[r - maxSubpageAllocs]
      requires 0 <= val && OffsetPages(val) == NodeOffsetPages(maxOrder, r)
      modifies this`Repr, this`owner, this`slabUse, subpages, Repr
      ensures Slabs() && slabUse == old(slabUse)[r - maxSubpageAllocs := true]
      ensures subpages[r - maxSubpageAllocs] == s && s.elemSize == normCapacity
      ensures normCapacity != 0 ==> s.numAvail > 0 && s.nextAvail == 0 && s.Occupied() == {}
      ensures (s in old(Repr) && s.bitmap in old(Repr)) || (fresh(s) && fresh(s.bitmap))
      ensures subpages[..] == old(subpages[..])[r - maxSubpageAllocs := s]
      ensures Repr == old(Repr) + {s, s.bitmap} && OthersAre(old(SlabStates()), r - maxSubpageAllocs)
      ensures unchanged(memoryMap)
    {
      var subpage := subpages[SubpageIdx(r)];
      if subpage == null {
        s := FirstSlab(normCapacity, r, val);
      } else {
        assert subpage in Repr && subpage.bitmap in Repr;
        s := ReuseSlab(normCapacity, r);
      }
      StatesBut(SubpageIdx(r), s);
    }

    /** The first element of the fresh slab of page `r`, handed out. */
    lemma {:induction false} SlabFresh(use0: seq<bool>, normCapacity: int, r: int, handle: int)
      requires Config() && maxSubpageAllocs <= r < memoryMap.Length && |use0| == maxSubpageAllocs
      requires slabUse == use0[r - maxSubpageAllocs := true]
      requires subpages[r - maxSubpageAllocs] != null
      requires subpages[r - maxSubpageAllocs].elemSize == normCapacity
      requires LowInt(handle) == r && HighInt(handle) % ElementMask == 0
      requires handle == Handles.ToHandle(r, HighInt(handle) % ElementMask)
      ensures SlabGiven(use0, normCapacity, handle) && handle > 0
    {
    }

    /** `subpage.allocate()` on the live slab of page `i`: the slab's own
        answer, with every other slab as it was, in the states `st`. */
    method SlabAllocate(i: int, s: PoolSubpage, ghost st: map<int, SlabState>) returns (handle: int)
      requires Config() && Slabs() && 0 <= i < subpages.Length && slabUse[i] && subpages[i] == s
      requires OthersAre(st, i)
      modifies s`numAvail, s`nextAvail, s`inPool, s.bitmap
      ensures Slabs() && OthersAre(st, i)
      ensures unchanged(old(Repr) - {s, s.bitmap})
      ensures handle == -1 <==> old(s.elemSize) != 0 && old(s.numAvail) == 0
      ensures handle == -1 || old(s.elemSize) == 0 ==> unchanged(s, s.bitmap)
      ensures handle != -1 ==>
                LowInt(handle) == i + maxSubpageAllocs
                && handle == Handles.ToHandle(LowInt(handle), HighInt(handle) % ElementMask)
      ensures handle != -1 && old(s.elemSize) == 0 ==> HighInt(handle) % ElementMask == 0
      ensures handle != -1 && old(s.elemSize) != 0 ==>
                var b := HighInt(handle) % ElementMask;
                b == old(s.nextAvail) && b !in old(s.Occupied())
                && s.Occupied() == old(s.Occupied()) + {b}
    {
      ConfigSizes();
      SlabsSplit(i);
      handle := s.Allocate();
      SlabsSplit(i);
      OthersKept((st, i), s);
      if handle != -1 {
        ToHandleDecodes(i + maxSubpageAllocs, if old(s.elemSize) == 0 then 0 else old(s.nextAvail));
      }
    }

    /** `subpages[i] = subpage` for a new slab of the empty slot `i`, with the
        page marked in use. */
    method Register(i: int, s: PoolSubpage)
      requires Config() && Slabs() && 0 <= i < subpages.Length && subpages[i] == null
      requires s !in Repr && s.bitmap !in Repr && SlabFits(true, s, i)
      modifies this`Repr, this`owner, this`slabUse, subpages
      ensures Slabs()
      ensures subpages[..] == old(subpages[..])[i := s]
      ensures Repr == old(Repr) + {s, s.bitmap}
      ensures slabUse == old(slabUse)[i := true]
    {
      subpages[i] := s;
      Repr := Repr + {s, s.bitmap};
      owner := owner[s.bitmap := i];
      slabUse := slabUse[i := true];
      SlabAdded(i, s);
    }

    /** A page's first slab, stored in the page's empty slot. */
    method FirstSlab(normCapacity: int, r: int, val: int) returns (s: PoolSubpage)
      requires Config() && Slabs() && SlabSize(normCapacity)
      requires maxSubpageAllocs <= r < memoryMap.Length && !slabUse[r - maxSubpageAllocs]
      requires subpages[r - maxSubpageAllocs] == null
      requires 0 <= val && OffsetPages(val) == NodeOffsetPages(maxOrder, r)
      modifies this`Repr, this`owner, this`slabUse, subpages
      ensures Slabs() && slabUse == old(slabUse)[r - maxSubpageAllocs := true]
      ensures subpages[r - maxSubpageAllocs] == s && s.elemSize == normCapacity
      ensures fresh(s) && fresh(s.bitmap)
      ensures subpages[..] == old(subpages[..])[r - maxSubpageAllocs := s]
      ensures Repr == old(Repr) + {s, s.bitmap}
      ensures normCapacity != 0 ==> s.numAvail > 0 && s.nextAvail == 0 && s.Occupied() == {}
    {
      ConfigSizes();
      var i := SubpageIdx(r);
      s := new PoolSubpage(r, RunOffset(val), pageSize, normCapacity);
      Register(i, s);
      if normCapacity != 0 {
        DivLowerBound(pageSize, normCapacity, 1);
      }
    }

    /** A page's retired slab, restarted with `init` for the new size. */
    method ReuseSlab(normCapacity: int, r: int) returns (s: PoolSubpage)
      requires Config() && Slabs() && SlabSize(normCapacity)
      requires maxSubpageAllocs <= r < memoryMap.Length && !slabUse[r - maxSubpageAllocs]
      requires subpages[r - maxSubpageAllocs] != null
      modifies this`slabUse, subpages[r - maxSubpageAllocs], subpages[r - maxSubpageAllocs].bitmap
      ensures Slabs() && slabUse == old(slabUse)[r - maxSubpageAllocs := true]
      ensures subpages[r - maxSubpageAllocs] == s && s.elemSize == normCapacity
      ensures normCapacity != 0 ==> s.numAvail > 0 && s.nextAvail == 0 && s.Occupied() == {}
    {
      ConfigSizes();
      var i := SubpageIdx(r);
      s := subpages[i];
      assert SlabFits(false, s, i);
      s.Init(normCapacity);
      slabUse := slabUse[i := true];
      SlabUpdated(i);
      if normCapacity != 0 {
        DivLowerBound(pageSize, normCapacity, 1);
      }
    }

    /** A node in the subpage state is a page, and the page is marked as
        handed to a slab. */
    lemma {:induction false} SubpageNode(curIdx: int)
      requires MapValid() && 1 <= curIdx < memoryMap.Length
      requires State(memoryMap[curIdx]) == AllocatedSubpage
      ensures maxSubpageAllocs <= curIdx && slabUse[curIdx - maxSubpageAllocs]
    {
      assert curIdx < maxSubpageAllocs ==> InnerOk(memoryMap[..], curIdx);
    }

    /** The slab of page `c`, already handed to it, gave out `handle`: the
        element is placed with the tree as it was. */
    lemma {:induction false} SlabHit(m0: seq<int>, f0: int, use0: seq<bool>, c: int, normCapacity: int, handle: int)
      requires Config() && maxSubpageAllocs <= c < memoryMap.Length
      requires memoryMap[..] == m0 && freeBytes == f0 && slabUse == use0
      requires |use0| == subpages.Length && use0[c - maxSubpageAllocs]
      requires LowInt(handle) == c && handle == Handles.ToHandle(c, HighInt(handle) % ElementMask)
      requires subpages[c - maxSubpageAllocs] != null && subpages[c - maxSubpageAllocs].elemSize == normCapacity
      ensures SlabTaken(m0, f0, use0, c, normCapacity, handle)
    {
      assert use0[c - maxSubpageAllocs := true] == use0;
    }

    /** The subpage-state case of `allocateSubpage`: the search below the
        page `curIdx` succeeds exactly when its slab is vacant for the size. */
    method AllocateAtPage(normCapacity: int, curIdx: int) returns (handle: int)
      requires MapValid() && Slabs() && SlabSize(normCapacity)
      requires 1 <= curIdx < memoryMap.Length && State(memoryMap[curIdx]) == AllocatedSubpage
      modifies Repr
      ensures MapValid() && Slabs()
      ensures handle == -1 <==> !SlabRoom(old(memoryMap[..]), old(Vacant(normCapacity)), curIdx)
      ensures handle == -1 ==> Kept()
      ensures handle != -1 ==>
                handle > 0
                && SlabTaken(old(memoryMap[..]), old(freeBytes), old(slabUse), curIdx, normCapacity, handle)
                && SlabOnly(old(Repr), old(subpages[..]), old(slabUse), old(SlabStates()), normCapacity, handle)
    {
      VacantPages(normCapacity);
      SubpageNode(curIdx);
      SlabRoomAtPage(memoryMap[..], Vacant(normCapacity), curIdx);
      handle := AllocateFromSlab(normCapacity, curIdx);
    }

    /** `allocateSubpage` at a page that already holds a slab: only a slab
        for `normCapacity`-byte elements can answer, with its `allocate()`. */
    method AllocateFromSlab(normCapacity: int, curIdx: int) returns (handle: int)
      requires Config() && Slabs() && SlabSize(normCapacity)
      requires maxSubpageAllocs <= curIdx < memoryMap.Length && slabUse[curIdx - maxSubpageAllocs]
      modifies Repr
      ensures Slabs()
      ensures handle == -1 <==> curIdx - maxSubpageAllocs !in old(Vacant(normCapacity))
      ensures handle == -1 ==> Kept()
      ensures handle != -1 ==>
                SlabTaken(old(memoryMap[..]), old(freeBytes), old(slabUse), curIdx, normCapacity, handle)
                && SlabOnly(old(Repr), old(subpages[..]), old(slabUse), old(SlabStates()), normCapacity, handle)
    {
      var i := SubpageIdx(curIdx);
      var subpage := subpages[i];
      VacantAt(normCapacity, i);
      var elemSize := subpage.elemSize;
      if normCapacity != elemSize {
        return -1;
      }
      handle := SlabHitAlloc(normCapacity, curIdx, subpage);
    }

    /** `subpage.allocate()` in `allocateSubpage` once the sizes agree: the
        page's slab hands out the element, if it has one free, and no other
        slab changes. */
    method SlabHitAlloc(normCapacity: int, curIdx: int, s: PoolSubpage) returns (handle: int)
      requires Config() && Slabs()
      requires maxSubpageAllocs <= curIdx < memoryMap.Length && slabUse[curIdx - maxSubpageAllocs]
      requires subpages[curIdx - maxSubpageAllocs] == s && s.elemSize == normCapacity
      modifies s`numAvail, s`nextAvail, s`inPool, s.bitmap
      ensures Slabs()
      ensures handle == -1 <==> normCapacity != 0 && old(s.numAvail) == 0
      ensures handle == -1 ==> unchanged(s, s.bitmap)
      ensures handle != -1 ==>
                SlabTaken(old(memoryMap[..]), old(freeBytes), old(slabUse), curIdx, normCapacity, handle)
                && SlabOnly(old(Repr), old(subpages[..]), old(slabUse), old(SlabStates()), normCapacity, handle)
    {
      var i := SubpageIdx(curIdx);
      StatesNow(i);
      handle := SlabAllocate(i, s, SlabStates());
      if handle != -1 {
        OnlyAt(handle, s);
        SlabHit(old(memoryMap[..]), old(freeBytes), old(slabUse), curIdx, normCapacity, handle);
      }
    }


    /** The descent of `allocateSubpageSimple` down to a page: from the open
        node `curIdx`, split down to a page and mark it as handed to a slab,
        taking the page off `freeBytes`. */
    method TakePage(curIdx: int, val: int) returns (r: int, v: int)
      requires MapValid() && Slabs() && Open(memoryMap[..], curIdx) && val == memoryMap[curIdx]
      modifies this`freeBytes, memoryMap
      ensures Slabs() && SlabStates() == old(SlabStates())
      ensures maxSubpageAllocs <= r < memoryMap.Length && InSubtree(r, curIdx)
      ensures 0 <= v && OffsetPages(v) == NodeOffsetPages(maxOrder, r)
      ensures PageCarved(old(memoryMap[..]), memoryMap[..], old(freeBytes), freeBytes, slabUse, curIdx, r)
    {
      NodeBytes(curIdx);
      Pow2IsPow2(pageShifts);
      ghost var m0 := memoryMap[..];
      r, v := SplitDown(pageSize, curIdx, val);
      NodeBytes(r);
      ghost var s0 := memoryMap[..];
      memoryMap[r] := WithState(v, AllocatedSubpage);
      assert memoryMap[..] == s0[r := WithState(m0[r], AllocatedSubpage)];
      freeBytes := freeBytes - pageSize;
      assert memoryMap[..] == Carve(m0, curIdx, r, AllocatedSubpage);
      PageTaken(m0, memoryMap[..], old(freeBytes), freeBytes, slabUse, curIdx, r);
      assert EntryOk(m0, maxOrder, r);
      SlabsKept();
    }

    /** The map became `m1` from `m0` with page `r` of `c`'s subtree carved
        out for a slab and the page taken off the free bytes `f0`; the map
        is valid once the page is marked in `use` as handed to a slab. */
    ghost predicate PageCarved(m0: seq<int>, m1: seq<int>, f0: int, f1: int, use: seq<bool>, c: int, r: int)
      requires Config()
    {
      |m0| == memoryMap.Length && maxSubpageAllocs <= r < |m0| && |use| == maxSubpageAllocs
      && !use[r - maxSubpageAllocs]
      && Carved(m0, m1, c, r, AllocatedSubpage) && f1 == f0 - pageSize
      && MapOk(m1, f1) && SlabPages(m1, use[r - maxSubpageAllocs := true])
    }

    /** A page carved out for a slab is placed as a fresh page, and the map
        is valid once the page is marked in use. */
    lemma {:induction false} FreshPlaced(m0: seq<int>, m1: seq<int>, f0: int, f1: int, use: seq<bool>, c: int, r: int)
      requires Config() && PageCarved(m0, m1, f0, f1, use, c, r)
      ensures Placed(m0, m1, f0, f1, c, r, 0, false)
      ensures MapOk(m1, f1) && SlabPages(m1, use[r - maxSubpageAllocs := true])
      ensures !use[r - maxSubpageAllocs]
    {
    }

    lemma {:induction false} PageTaken(m0: seq<int>, m1: seq<int>, f0: int, f1: int, use: seq<bool>, c: int, r: int)
      requires MapOk(m0, f0) && SlabPages(m0, use) && Open(m0, c) && InSubtree(r, c)
      requires maxSubpageAllocs <= r < |m0|
      requires m1 == Carve(m0, c, r, AllocatedSubpage) && f1 == f0 - pageSize
      ensures PageCarved(m0, m1, f0, f1, use, c, r)
    {
      LeafSize(r);
      TakeNodeMap(m0, f0, c, r, AllocatedSubpage);
      TakeNodeLeaves(m0, use, c, r, AllocatedSubpage);
      assert use[r - maxSubpageAllocs] == (State(m0[r]) == AllocatedSubpage);
    }

    /** A page `r` carved out of the map `m0` and given a fresh slab whose
        first element is `handle`: the map is valid and the element placed as
        a fresh page's. */
    lemma {:induction false} SimpleTaken(m0: seq<int>, f0: int, use0: seq<bool>, m1: seq<int>, f1: int, c: int, r: int, normCapacity: int, handle: int)
      requires Config() && SlabGiven(use0, normCapacity, handle)
      requires PageCarved(m0, m1, f0, f1, use0, c, r)
      requires memoryMap[..] == m1 && freeBytes == f1
      requires handle > 0 && LowInt(handle) == r && HighInt(handle) % ElementMask == 0
      ensures MapValid()
      ensures SlabTaken(m0, f0, use0, c, normCapacity, handle)
      ensures !use0[LowInt(handle) - maxSubpageAllocs]
    {
      FreshPlaced(m0, m1, f0, f1, use0, c, r);
      assert slabUse == use0[r - maxSubpageAllocs := true];
    }

    /** `allocateSubpageSimple(normCapacity, curIdx, val)`: from the open
        node `curIdx`, carve out a page for a slab of `normCapacity`-byte
        elements and hand out its first element. It cannot fail: every node
        holds at least a page. */
    method AllocateSubpageSimple(normCapacity: int, curIdx: int, val: int) returns (handle: int)
      requires MapValid() && Slabs() && SlabSize(normCapacity)
      requires Open(memoryMap[..], curIdx) && val == memoryMap[curIdx]
      modifies this, memoryMap, subpages, Repr
      ensures MapValid() && Slabs()
      ensures handle > 0
      ensures SlabTaken(old(memoryMap[..]), old(freeBytes), old(slabUse), curIdx, normCapacity, handle)
      ensures SlabOnly(old(Repr), old(subpages[..]), old(slabUse), old(SlabStates()), normCapacity, handle)
      ensures !old(slabUse[LowInt(handle) - maxSubpageAllocs])
    {
      ghost var m0, f0, use0 := memoryMap[..], freeBytes, slabUse;
      ghost var R0, sub0, states0 := Repr, subpages[..], SlabStates();
      var r, v := TakePage(curIdx, val);
      assert Repr == R0 && subpages[..] == sub0 && SlabStates() == states0;
      ghost var m1, f1 := memoryMap[..], freeBytes;
      handle := NewSlab(normCapacity, r, v);
      SimpleTaken(m0, f0, use0, m1, f1, curIdx, r, normCapacity, handle);
    }

    /** `allocateSubpage(normCapacity, curIdx, val)`: the depth-first search
        for an element of `normCapacity` bytes from node `curIdx`, entered
        through split nodes. A split node tries a random child, then the
        other; an unused node carves out a page for a new slab with
        `allocateSubpageSimple`; a page holding a slab asks the slab when the
        sizes agree; a run in use fails. The search fails exactly when below
        `curIdx` there is neither an unused node nor a page whose slab is
        vacant for the size, and then changes nothing. */
    method AllocateSubpage(normCapacity: int, curIdx: int, val: int) returns (handle: int)
      requires MapValid() && Slabs() && SlabSize(normCapacity)
      requires 1 <= curIdx < memoryMap.Length && val == memoryMap[curIdx]
      requires curIdx == 1 || State(memoryMap[curIdx / 2]) == Branch
      modifies this, memoryMap, subpages, Repr
      ensures MapValid() && Slabs()
      ensures handle == -1 <==> !SlabRoom(old(memoryMap[..]), old(Vacant(normCapacity)), curIdx)
      ensures handle == -1 ==> Kept()
      ensures handle != -1 ==>
                handle > 0
                && SlabTaken(old(memoryMap[..]), old(freeBytes), old(slabUse), curIdx, normCapacity, handle)
                && SlabOnly(old(Repr), old(subpages[..]), old(slabUse), old(SlabStates()), normCapacity, handle)
      decreases memoryMap.Length - curIdx, 2
    {
      ghost var m0, f0, use0, vac := memoryMap[..], freeBytes, slabUse, Vacant(normCapacity);
      VacantPages(normCapacity);
      var state := State(val);
      if state == Branch {
        handle := SplitSearch(normCapacity, curIdx);
      } else if state == Unused {
        SlabRoomOpen(m0, vac, curIdx);
        handle := AllocateSubpageSimple(normCapacity, curIdx, val);
      } else if state == AllocatedSubpage {
        handle := AllocateAtPage(normCapacity, curIdx);
      } else {
        NoSlabRoomInUse(m0, vac, curIdx);
        handle := -1;
      }
    }

    /** The split-node case of `allocateSubpage`: try a random child of
        `curIdx` with `branchSubpage`, then the other one. */
    method SplitSearch(normCapacity: int, curIdx: int) returns (handle: int)
      requires MapValid() && Slabs() && SlabSize(normCapacity)
      requires 1 <= curIdx < memoryMap.Length && State(memoryMap[curIdx]) == Branch
      modifies this, memoryMap, subpages, Repr
      ensures MapValid() && Slabs()
      ensures handle == -1 <==> !SlabRoom(old(memoryMap[..]), old(Vacant(normCapacity)), curIdx)
      ensures handle == -1 ==> Kept()
      ensures handle != -1 ==>
                handle > 0
                && SlabTaken(old(memoryMap[..]), old(freeBytes), old(slabUse), curIdx, normCapacity, handle)
                && SlabOnly(old(Repr), old(subpages[..]), old(slabUse), old(SlabStates()), normCapacity, handle)
      decreases memoryMap.Length - curIdx, 1
    {
      ghost var m0, f0, use0, vac := memoryMap[..], freeBytes, slabUse, Vacant(normCapacity);
      ghost var R0, sub0, states0 := Repr, subpages[..], SlabStates();
      VacantPages(normCapacity);
      assert LeafOk(m0, curIdx) || curIdx < memoryMap.Length / 2;
      var bit := NextRandom();
      var nextIdx := 2 * curIdx + bit;
      var res := SlabBelow(normCapacity, curIdx, nextIdx, m0, f0, use0, vac, R0, sub0, states0);
      if res > 0 {
        return res;
      }
      OtherChildRoom(m0, vac, curIdx, nextIdx);
      handle := SlabBelow(normCapacity, curIdx, SiblingIdx(nextIdx), m0, f0, use0, vac, R0, sub0, states0);
    }

    /** `branchSubpage(normCapacity, x)` for the child `x` of the split node
        `curIdx`, the tree being `m0` with `f0` bytes free, page use `use0`
        and vacant slabs `vac`, the slabs being `R0` in the slots `sub0`
        in the states `states0`: an element found there is placed through `curIdx`. */
    method SlabBelow(normCapacity: int, curIdx: int, x: int,
                     ghost m0: seq<int>, ghost f0: int, ghost use0: seq<bool>, ghost vac: set<int>,
                     ghost R0: set<object>, ghost sub0: seq<PoolSubpage?>, ghost states0: map<int, SlabState>)
        returns (handle: int)
      requires MapValid() && Slabs() && SlabSize(normCapacity)
      requires 1 <= curIdx && 2 * curIdx + 1 < memoryMap.Length && State(memoryMap[curIdx]) == Branch
      requires x == 2 * curIdx || x == 2 * curIdx + 1
      requires memoryMap[..] == m0 && freeBytes == f0 && slabUse == use0 && Vacant(normCapacity) == vac
      requires Repr == R0 && subpages[..] == sub0 && SlabStates() == states0
      modifies this, memoryMap, subpages, Repr
      ensures MapValid() && Slabs()
      ensures handle == -1 ==>
                Kept() && !SlabRoom(m0, vac, x)
                && memoryMap[..] == m0 && freeBytes == f0 && slabUse == use0 && Vacant(normCapacity) == vac
                && Repr == R0 && subpages[..] == sub0 && SlabStates() == states0
      ensures handle != -1 ==>
                handle > 0 && SlabRoom(m0, vac, curIdx) && SlabTaken(m0, f0, use0, curIdx, normCapacity, handle)
                && SlabOnly(R0, sub0, use0, states0, normCapacity, handle)
      decreases memoryMap.Length - curIdx, 0
    {
      ChildInSubtree(x, curIdx, curIdx);
      handle := BranchSubpage(normCapacity, x);
      if handle != -1 {
        TakenAbove(m0, f0, use0, curIdx, x, normCapacity, handle);
        SlabRoomAbove(m0, vac, curIdx, x);
      } else {
        KeptVacant(normCapacity);
      }
    }

    /** `branchSubpage(normCapacity, nextIdx)`: continue the search at the
        child `nextIdx` of a split node unless it is handed out whole. */
    method BranchSubpage(normCapacity: int, nextIdx: int) returns (handle: int)
      requires MapValid() && Slabs() && SlabSize(normCapacity)
      requires 2 <= nextIdx < memoryMap.Length && State(memoryMap[nextIdx / 2]) == Branch
      modifies this, memoryMap, subpages, Repr
      ensures MapValid() && Slabs()
      ensures handle == -1 <==> !SlabRoom(old(memoryMap[..]), old(Vacant(normCapacity)), nextIdx)
      ensures handle == -1 ==> Kept()
      ensures handle != -1 ==>
                handle > 0
                && SlabTaken(old(memoryMap[..]), old(freeBytes), old(slabUse), nextIdx, normCapacity, handle)
                && SlabOnly(old(Repr), old(subpages[..]), old(slabUse), old(SlabStates()), normCapacity, handle)
      decreases memoryMap.Length - nextIdx, 3
    {
      var nextVal := memoryMap[nextIdx];
      if State(nextVal) != Allocated {
        handle := AllocateSubpage(normCapacity, nextIdx, nextVal);
      } else {
        VacantPages(normCapacity);
        NoSlabRoomInUse(memoryMap[..], Vacant(normCapacity), nextIdx);
        handle := -1;
      }
    }

    // -------------------------------------------------------------------
    // Entry points.

    /** `allocate(normCapacity)`: a run for a request of a page or more, an
        element of a slab for a smaller one, searched from the root. Either
        way the search fails exactly when the tree has no room for it, and
        then nothing changes. */
    method Allocate(normCapacity: int) returns (handle: int)
      requires Valid() && 0 <= normCapacity
      requires normCapacity >= pageSize ==> RunSize(normCapacity)
      requires normCapacity < pageSize ==> SlabSize(normCapacity)
      modifies this, memoryMap, subpages, Repr
      ensures Valid()
      ensures handle == -1 ==> Kept()
      ensures normCapacity >= pageSize ==>
                (handle == -1 <==> !HasRoom(old(memoryMap[..]), 1, normCapacity))
                && (handle != -1 ==>
                      RunCarved(old(memoryMap[..]), 1, handle, normCapacity)
                      && freeBytes == old(freeBytes) - normCapacity)
                && Repr == old(Repr) && slabUse == old(slabUse) && unchanged(subpages)
                && forall o | o in Repr :: unchanged(o)
      ensures normCapacity < pageSize ==>
                (handle == -1 <==> !SlabRoom(old(memoryMap[..]), old(Vacant(normCapacity)), 1))
                && (handle != -1 ==>
                      handle > 0
                      && SlabTaken(old(memoryMap[..]), old(freeBytes), old(slabUse), 1, normCapacity, handle)
                      && SlabOnly(old(Repr), old(subpages[..]), old(slabUse), old(SlabStates()), normCapacity, handle))
    {
      var firstVal := memoryMap[1];
      if HighBits(normCapacity, pageSize) != 0 {
        handle := AllocateRun(normCapacity, 1, firstVal);
        SlabsKept();
      } else {
        handle := AllocateSubpage(normCapacity, 1, firstVal);
      }
    }

    // -------------------------------------------------------------------
    // Freeing.

    /** `handle` is one the chunk handed out and has not taken back: a run
        handle names an allocated node and has a zero high word; a slab
        handle names a page in the subpage state and, unless the slab's
        elements are zero-sized, one of the elements its slab has out. */
    ghost predicate Live(handle: int)
      reads this, memoryMap, subpages, Repr
      requires Config() && Slabs()
    {
      var r := LowInt(handle);
      var b := HighInt(handle);
      1 <= r < memoryMap.Length
      && ((State(memoryMap[r]) == Allocated && b == 0)
          || (State(memoryMap[r]) == AllocatedSubpage && b != 0 && maxSubpageAllocs <= r
              && subpages[r - maxSubpageAllocs] != null
              && (subpages[r - maxSubpageAllocs].elemSize != 0 ==>
                    b % ElementMask in subpages[r - maxSubpageAllocs].Occupied())))
    }

    /** What `free(handle)` did, given the map `m0`, the free bytes `f0`
        and the page uses `use0` before it: a slab that still holds
        elements keeps its page and nothing in the tree changes; otherwise
        the node (the run, or the emptied slab's page) is released with its
        bytes, and an emptied slab's page leaves the subpage state. */
    ghost predicate Freed(m0: seq<int>, f0: int, use0: seq<bool>, handle: int)
      reads this, memoryMap, subpages, subpages[..]
      requires Config()
    {
      var r := LowInt(handle);
      1 <= r < |m0| == memoryMap.Length && |use0| == subpages.Length
      && if State(m0[r]) == AllocatedSubpage && maxSubpageAllocs <= r
            && subpages[r - maxSubpageAllocs] != null && subpages[r - maxSubpageAllocs].doNotDestroy
         then memoryMap[..] == m0 && freeBytes == f0 && slabUse == use0
         else memoryMap[..] == Release(m0, r) && freeBytes == f0 + RunLength(m0[r])
              && slabUse == (if State(m0[r]) == AllocatedSubpage && maxSubpageAllocs <= r
                             then use0[r - maxSubpageAllocs := false] else use0)
    }

    /** The state inside the coalescing loop of `free`, before node `k` is
        written: the tree is well formed, `k` is in use with unused
        children, `f` already counts `k`'s bytes as free, and `use` already
        has `k`'s page (if it is one) out of the subpage state. */
    ghost predicate Pending(m: seq<int>, f: int, use: seq<bool>, k: int)
    {
      Config() && |m| == memoryMap.Length && Shaped(m, maxOrder) && Consistent(m)
      && 1 <= k < |m| && State(m[k]) != Unused
      && (k < |m| / 2 ==> State(m[2 * k]) == Unused && State(m[2 * k + 1]) == Unused)
      && f == chunkSize - UsedBytes(m, pageSize, 1) + Weight(m[k], pageSize)
      && SlabPages(m[k := WithState(m[k], Unused)], use)
    }

    /** A tree whose root is unused hands out nothing: the whole chunk is
        free. */
    lemma {:induction false} RootFree(m: seq<int>, f: int)
      requires MapOk(m, f) && State(m[1]) == Unused
      ensures f == chunkSize
    {
      UnusedSubtreeEmpty(m, pageSize, 1);
    }

    /** One turn of the coalescing loop writes `k` unused: the tree is
        valid again, and the loop ends there (at the root, or when `k`'s
        sibling is in use) with the release complete. */
    lemma {:induction false} ReleaseWrite(m: seq<int>, f: int, use: seq<bool>, k: int)
      requires Pending(m, f, use, k)
      ensures MapOk(m[k := WithState(m[k], Unused)], f)
      ensures SlabPages(m[k := WithState(m[k], Unused)], use)
      ensures State(m[k := WithState(m[k], Unused)][k]) == Unused
      ensures k == 1 || State(m[k := WithState(m[k], Unused)][SiblingIdx(k)]) != Unused ==>
                Release(m, k) == m[k := WithState(m[k], Unused)]
    {
      var v := WithState(m[k], Unused);
      assert EntryOk(m, maxOrder, k);
      WithStateFields(m[k], Unused);
      ShapedUpdate(m, maxOrder, k, Unused);
      ConsistentUpdate(m, k, v);
      InRootSubtree(k);
      UsedUpdate(m, pageSize, 1, k, v);
    }

    /** When the node `k` just written unused has an unused sibling, the
        loop goes on pending at the parent, which is split. */
    lemma {:induction false} ReleaseClimb(m: seq<int>, f: int, use: seq<bool>, k: int)
      requires Pending(m, f, use, k) && k != 1
      requires MapOk(m[k := WithState(m[k], Unused)], f)
      requires SlabPages(m[k := WithState(m[k], Unused)], use)
      requires State(m[k := WithState(m[k], Unused)][SiblingIdx(k)]) == Unused
      ensures Pending(m[k := WithState(m[k], Unused)], f, use, k / 2)
      ensures Release(m[k := WithState(m[k], Unused)], k / 2) == Release(m, k)
    {
      ClimbRelease(m, k);
      ClimbStates(m, k);
      ParentPending(m[k := WithState(m[k], Unused)], f, use, k / 2);
    }

    /** Once node `k` is written unused next to an unused sibling, its parent
        is a split node both of whose children are unused. */
    static lemma {:induction false} ClimbStates(m: seq<int>, k: int)
      requires Consistent(m) && 2 <= k < |m| && State(m[k]) != Unused
      requires State(m[k := WithState(m[k], Unused)][SiblingIdx(k)]) == Unused
      ensures var m1, p := m[k := WithState(m[k], Unused)], k / 2;
              1 <= p < |m1| / 2 && State(m1[p]) == Branch
              && State(m1[2 * p]) == Unused && State(m1[2 * p + 1]) == Unused
    {
      var m1 := m[k := WithState(m[k], Unused)];
      var p := k / 2;
      AncestorsSplit(m, k, p);
      assert m1[p] == m[p];
      var sib := SiblingIdx(k);
      assert State(m1[k]) == Unused && State(m1[sib]) == Unused;
      if k % 2 == 0 {
        assert 2 * p == k && 2 * p + 1 == sib;
      } else {
        assert 2 * p == sib && 2 * p + 1 == k;
      }
    }

    /** A split node of a valid map whose children are both unused is where
        the coalescing loop goes on. */
    lemma {:induction false} ParentPending(m: seq<int>, f: int, use: seq<bool>, p: int)
      requires MapOk(m, f) && SlabPages(m, use) && 1 <= p < |m| / 2
      requires State(m[p]) == Branch && State(m[2 * p]) == Unused && State(m[2 * p + 1]) == Unused
      ensures Pending(m, f, use, p)
    {
      assert Weight(m[p], pageSize) == 0;
      InnerSlabPages(m, use, p, WithState(m[p], Unused));
    }

    /** Releasing a non-root node whose sibling is unused goes on at the
        parent of the map with the node written unused. */
    static lemma {:induction false} ClimbRelease(m: seq<int>, k: int)
      requires 2 <= k < |m| && |m| % 2 == 0
      requires State(m[k := WithState(m[k], Unused)][SiblingIdx(k)]) == Unused
      ensures Release(m[k := WithState(m[k], Unused)], k / 2) == Release(m, k)
    {
      assert ParentIdx(k) == k / 2;
    }

    /** Writing an inner node leaves the slab pages as they are. */
    static lemma {:induction false} InnerSlabPages(m: seq<int>, use: seq<bool>, p: int, v: int)
      requires SlabPages(m, use) && 1 <= p < |m| / 2
      ensures SlabPages(m[p := v], use)
    {
      forall i | 0 <= i < |use|
        ensures use[i] == (State(m[p := v][i + |use|]) == AllocatedSubpage)
      {
        assert m[p := v][i + |use|] == m[i + |use|];
      }
    }

    /** The coalescing loop of `free` from node `memoryMapIdx`: mark it
        unused, and while its sibling is unused too climb to the parent and
        mark that unused, up to the root. */
    method Coalesce(memoryMapIdx: int, val: int)
      requires Pending(memoryMap[..], freeBytes, slabUse, memoryMapIdx)
      requires val == memoryMap[memoryMapIdx]
      modifies memoryMap
      ensures MapValid() && memoryMap[..] == Release(old(memoryMap[..]), memoryMapIdx)
    {
      ghost var m0 := memoryMap[..];
      var idx := memoryMapIdx;
      var v := val;
      while true
        invariant Pending(memoryMap[..], freeBytes, slabUse, idx) && v == memoryMap[idx]
        invariant Release(memoryMap[..], idx) == Release(m0, memoryMapIdx)
        decreases idx
      {
        ghost var m := memoryMap[..];
        ReleaseWrite(m, freeBytes, slabUse, idx);
        memoryMap[idx] := WithState(v, Unused);
        assert memoryMap[..] == m[idx := WithState(m[idx], Unused)];
        if idx == 1 {
          RootFree(memoryMap[..], freeBytes);
          assert freeBytes == chunkSize;
          return;
        }
        if State(memoryMap[SiblingIdx(idx)]) != Unused {
          return;
        }
        ReleaseClimb(m, freeBytes, slabUse, idx);
        idx := ParentIdx(idx);
        v := memoryMap[idx];
      }
    }

    /** Entering the coalescing loop at the node `r` being freed: with its
        bytes counted free, the loop is pending at `r`. */
    lemma {:induction false} FreeStart(m: seq<int>, f: int, use: seq<bool>, r: int)
      requires MapOk(m, f) && 1 <= r < |m|
      requires State(m[r]) == Allocated || State(m[r]) == AllocatedSubpage
      requires SlabPages(m[r := WithState(m[r], Unused)], use)
      ensures Pending(m, f + RunLength(m[r]), use, r)
    {
      assert EntryOk(m, maxOrder, r);
      if r < |m| / 2 {
        assert InnerOk(m, r);
      }
    }

    /** Taking the node `r` in use out of the subpage state (when it is a
        slab's page) matches the map with `r` unused. */
    lemma {:induction false} PageOut(m: seq<int>, use: seq<bool>, use1: seq<bool>, r: int)
      requires SlabPages(m, use) && 1 <= r < |m|
      requires State(m[r]) == Allocated || State(m[r]) == AllocatedSubpage
      requires State(m[r]) == Allocated ==> use1 == use
      requires State(m[r]) == AllocatedSubpage ==> |use| <= r && use1 == use[r - |use| := false]
      ensures SlabPages(m[r := WithState(m[r], Unused)], use1)
    {
      var m1 := m[r := WithState(m[r], Unused)];
      forall i | 0 <= i < |use1|
        ensures use1[i] == (State(m1[i + |use1|]) == AllocatedSubpage)
      {
        if i + |use| != r {
          assert m1[i + |use|] == m[i + |use|];
        }
      }
    }

    /** The tail of `free` for the node `r` in use, `val` its entry: its
        bytes back in `freeBytes`, then the coalescing loop. */
    method ReleaseNode(r: int, val: int)
      requires MapOk(memoryMap[..], freeBytes) && 1 <= r < memoryMap.Length && val == memoryMap[r]
      requires State(val) == Allocated || State(val) == AllocatedSubpage
      requires SlabPages(memoryMap[..][r := WithState(val, Unused)], slabUse) && Slabs()
      modifies this`freeBytes, memoryMap
      ensures Valid() && unchanged(Repr)
      ensures memoryMap[..] == Release(old(memoryMap[..]), r) && freeBytes == old(freeBytes) + RunLength(val)
    {
      FreeStart(memoryMap[..], freeBytes, slabUse, r);
      freeBytes := freeBytes + RunLength(val);
      Coalesce(r, val);
    }

    /** `free` left a slab that still holds elements with its page: the
        tree is as it was. */
    lemma {:induction false} SlabKeptFreed(m0: seq<int>, f0: int, use0: seq<bool>, handle: int)
      requires Config() && 1 <= LowInt(handle) < |m0| == memoryMap.Length && |use0| == subpages.Length
      requires memoryMap[..] == m0 && freeBytes == f0 && slabUse == use0
      requires State(m0[LowInt(handle)]) == AllocatedSubpage && maxSubpageAllocs <= LowInt(handle)
      requires subpages[LowInt(handle) - maxSubpageAllocs] != null
      requires subpages[LowInt(handle) - maxSubpageAllocs].doNotDestroy
      ensures Freed(m0, f0, use0, handle)
    {
    }

    /** `free` gave the node back to the tree. */
    lemma {:induction false} NodeFreed(m0: seq<int>, f0: int, use0: seq<bool>, handle: int)
      requires Config() && 1 <= LowInt(handle) < |m0| == memoryMap.Length && |use0| == subpages.Length
      requires memoryMap[..] == Release(m0, LowInt(handle)) && freeBytes == f0 + RunLength(m0[LowInt(handle)])
      requires State(m0[LowInt(handle)]) == Allocated ==> slabUse == use0
      requires State(m0[LowInt(handle)]) == AllocatedSubpage ==>
                 maxSubpageAllocs <= LowInt(handle)
                 && subpages[LowInt(handle) - maxSubpageAllocs] != null
                 && !subpages[LowInt(handle) - maxSubpageAllocs].doNotDestroy
                 && slabUse == use0[LowInt(handle) - maxSubpageAllocs := false]
      requires State(m0[LowInt(handle)]) == Allocated || State(m0[LowInt(handle)]) == AllocatedSubpage
      ensures Freed(m0, f0, use0, handle)
    {
    }

    /** After `free` gave an element back to slab `s`, which had element
        size `elemSize0` and `numAvail0` free elements before: the slab keeps
        its page (`keep`) exactly when its size is 0, it was full, or it
        still holds elements; a slab of a non-zero size has one more free
        element. */
    static ghost predicate KeepsPage(s: PoolSubpage, elemSize0: int, numAvail0: int, keep: bool)
      reads s
    {
      (keep <==> elemSize0 == 0 || numAvail0 == 0 || s.numAvail < s.maxNumElems)
      && (elemSize0 != 0 ==> s.numAvail == numAvail0 + 1)
    }

    /** `subpage.free(bitmapIdx)` on the live slab of page `i`: the slab's
        own answer, and when it answers that it holds nothing any more the
        page leaves the subpage state in `slabUse`. */
    method SlabFree(i: int, s: PoolSubpage, bitmapIdx: int) returns (inUse: bool)
      requires Config() && Slabs() && 0 <= i < subpages.Length && slabUse[i] && subpages[i] == s
      requires s.elemSize != 0 ==> bitmapIdx in s.Occupied()
      modifies this`slabUse, s`numAvail, s`nextAvail, s`doNotDestroy, s`inPool, s.bitmap
      ensures Slabs()
      ensures unchanged(old(Repr) - {s, s.bitmap})
      ensures slabUse == if inUse then old(slabUse) else old(slabUse)[i := false]
      ensures inUse == s.doNotDestroy
      ensures old(s.elemSize) == 0 ==> inUse && unchanged(s, s.bitmap)
      ensures old(s.elemSize) != 0 ==>
                s.Occupied() == old(s.Occupied()) - {bitmapIdx}
                && s.numAvail == old(s.numAvail) + 1
                && inUse == (old(s.numAvail) == 0 || s.numAvail < s.maxNumElems)
    {
      SlabsSplit(i);
      inUse := s.Free(bitmapIdx);
      if !inUse {
        slabUse := slabUse[i := false];
      }
      SlabUpdated(i);
    }

    /** The slab part of `free` for the page `r` in the subpage state:
        the page's slab frees element `bitmapIdx & 0x3FFFFFFF`; when it
        answers that it is empty, the page leaves the subpage state and the
        map is ready to release it. */
    method FreeInSlab(r: int, bitmapIdx: int) returns (inUse: bool)
      requires Valid() && 1 <= r < memoryMap.Length && State(memoryMap[r]) == AllocatedSubpage
      requires maxSubpageAllocs <= r ==>
                 subpages[r - maxSubpageAllocs] != null
                 && (subpages[r - maxSubpageAllocs].elemSize != 0 ==>
                       bitmapIdx % ElementMask in subpages[r - maxSubpageAllocs].Occupied())
      modifies this`slabUse, Repr
      ensures Slabs() && maxSubpageAllocs <= r && subpages[r - maxSubpageAllocs] != null
      ensures inUse == subpages[r - maxSubpageAllocs].doNotDestroy
      ensures inUse ==> slabUse == old(slabUse)
      ensures !inUse ==>
                slabUse == old(slabUse)[r - maxSubpageAllocs := false]
                && SlabPages(memoryMap[..][r := WithState(memoryMap[r], Unused)], slabUse)
      ensures var s := subpages[r - maxSubpageAllocs];
              s.elemSize != 0 ==> s.Occupied() == old(s.Occupied()) - {bitmapIdx % ElementMask}
      ensures var s := subpages[r - maxSubpageAllocs];
              KeepsPage(s, old(s.elemSize), old(s.numAvail), inUse)
      ensures Repr == old(Repr) && unchanged(Repr - SlabOf(r - maxSubpageAllocs))
    {
      SubpageNode(r);
      var i := SubpageIdx(r);
      inUse := SlabFree(i, subpages[i], bitmapIdx % ElementMask);
      if !inUse {
        PageOut(memoryMap[..], old(slabUse), slabUse, r);
      }
    }

    /** `free(handle)`: a slab handle goes to its slab, which keeps the page
        while it still holds elements; a run, or a page whose slab is now
        empty, then goes back to the tree, coalescing with free siblings. */
    method Free(handle: int)
      requires Valid() && Live(handle)
      modifies this`freeBytes, this`slabUse, memoryMap, Repr
      ensures Valid()
      ensures Freed(old(memoryMap[..]), old(freeBytes), old(slabUse), handle)
      ensures old(State(memoryMap[LowInt(handle)])) == AllocatedSubpage
              && maxSubpageAllocs <= LowInt(handle) ==>
                var s := subpages[LowInt(handle) - maxSubpageAllocs];
                s.elemSize != 0 ==> s.Occupied() == old(s.Occupied()) - {HighInt(handle) % ElementMask}
      ensures old(State(memoryMap[LowInt(handle)])) == AllocatedSubpage
              && maxSubpageAllocs <= LowInt(handle) ==>
                var s := subpages[LowInt(handle) - maxSubpageAllocs];
                s != null && KeepsPage(s, old(s.elemSize), old(s.numAvail), s.doNotDestroy)
      ensures Repr == old(Repr) && unchanged(subpages)
      ensures old(State(memoryMap[LowInt(handle)])) == AllocatedSubpage ==>
                maxSubpageAllocs <= LowInt(handle) && unchanged(Repr - SlabOf(LowInt(handle) - maxSubpageAllocs))
      ensures old(State(memoryMap[LowInt(handle)])) != AllocatedSubpage ==> unchanged(Repr)
    {
      var memoryMapIdx := LowInt(handle);
      if State(memoryMap[memoryMapIdx]) == AllocatedSubpage {
        FreeElement(handle);
      } else {
        FreeRun(handle);
      }
    }

    /** `free` of a run handle: the run goes back to the tree. */
    method FreeRun(handle: int)
      requires Valid() && Live(handle) && State(memoryMap[LowInt(handle)]) == Allocated
      modifies this`freeBytes, memoryMap
      ensures Valid() && unchanged(Repr)
      ensures Freed(old(memoryMap[..]), old(freeBytes), old(slabUse), handle)
    {
      var memoryMapIdx := LowInt(handle);
      var val := memoryMap[memoryMapIdx];
      ghost var m0, f0, use0 := memoryMap[..], freeBytes, slabUse;
      PageOut(m0, use0, slabUse, memoryMapIdx);
      ReleaseNode(memoryMapIdx, val);
      NodeFreed(m0, f0, use0, handle);
    }

    /** `free` of a slab handle: the element goes back to its slab, and the
        page goes back to the tree when the slab answers that it is empty. */
    method FreeElement(handle: int)
      requires Valid() && Live(handle) && State(memoryMap[LowInt(handle)]) == AllocatedSubpage
      modifies this`freeBytes, this`slabUse, memoryMap, Repr
      ensures Valid()
      ensures Freed(old(memoryMap[..]), old(freeBytes), old(slabUse), handle)
      ensures maxSubpageAllocs <= LowInt(handle) &&
                var s := subpages[LowInt(handle) - maxSubpageAllocs];
                s.elemSize != 0 ==> s.Occupied() == old(s.Occupied()) - {HighInt(handle) % ElementMask}
      ensures var s := subpages[LowInt(handle) - maxSubpageAllocs];
              s != null && KeepsPage(s, old(s.elemSize), old(s.numAvail), s.doNotDestroy)
      ensures Repr == old(Repr) && unchanged(Repr - SlabOf(LowInt(handle) - maxSubpageAllocs))
    {
      var memoryMapIdx := LowInt(handle);
      var bitmapIdx := HighInt(handle);
      var val := memoryMap[memoryMapIdx];
      ghost var m0, f0, use0 := memoryMap[..], freeBytes, slabUse;
      var inUse := FreeInSlab(memoryMapIdx, bitmapIdx);
      if inUse {
        SlabKeptFreed(m0, f0, use0, handle);
        return;
      }
      ReleaseNode(memoryMapIdx, val);
      NodeFreed(m0, f0, use0, handle);
    }

    // -------------------------------------------------------------------
    // Buffers.

    /** Two ranges share no byte of the most they may grow to. */
    static predicate Apart(x: BufRange, y: BufRange)
    {
      x.offset + x.maxLength <= y.offset || y.offset + y.maxLength <= x.offset
    }

    /** The range lies inside the `p` pages of `d` bytes from page `o`. */
    static predicate Within(x: BufRange, o: int, p: int, d: int)
    {
      o * d <= x.offset && x.offset + x.maxLength <= (o + p) * d
    }

    /** What `initBufWithSubpage` asserts of a slab handle: a non-zero high
        word, a page in the subpage state, and a request its slab's
        elements can hold. */
    ghost predicate SlabBuf(handle: int, bitmapIdx: int, reqCapacity: int)
      reads subpages, subpages[..], memoryMap
    {
      bitmapIdx != 0 && Config() && maxSubpageAllocs <= LowInt(handle) < memoryMap.Length
      && State(memoryMap[LowInt(handle)]) == AllocatedSubpage
      && subpages[LowInt(handle) - maxSubpageAllocs] != null
      && reqCapacity <= subpages[LowInt(handle) - maxSubpageAllocs].elemSize
    }

    /** `initBufWithSubpage(buf, handle, bitmapIdx, reqCapacity)`: the
        element `bitmapIdx & 0x3FFFFFFF` of the handle's page, as long as
        one element, which holds the request. An element the slab has lies
        inside the page. */
    function InitBufWithSubpage(handle: int, bitmapIdx: int, reqCapacity: int): (b: BufRange)
      reads this, memoryMap, subpages, Repr
      requires Valid() && SlabBuf(handle, bitmapIdx, reqCapacity)
      ensures var i := LowInt(handle) - maxSubpageAllocs;
              var s := subpages[i];
              b.length == reqCapacity <= b.maxLength == s.elemSize
              && b.offset == i * pageSize + (bitmapIdx % ElementMask) * s.elemSize
              && (s.elemSize != 0 && bitmapIdx % ElementMask < s.maxNumElems ==>
                    i * pageSize <= b.offset && b.offset + b.maxLength <= (i + 1) * pageSize)
    {
      var memoryMapIdx := LowInt(handle);
      var val := memoryMap[memoryMapIdx];
      var i := SubpageIdx(memoryMapIdx);
      NodeRun(memoryMapIdx);
      var subpage := subpages[i];
      ElementInPage(i, bitmapIdx % ElementMask, subpage);
      BufRange(RunOffset(val) + (bitmapIdx % ElementMask) * subpage.elemSize, reqCapacity, subpage.elemSize)
    }

    /** Element `e` of a valid slab of page `i` lies inside the page. */
    lemma {:induction false} ElementInPage(i: int, e: int, s: PoolSubpage)
      requires Config() && Slabs() && 0 <= i < subpages.Length && subpages[i] == s && 0 <= e
      ensures s.elemSize != 0 && e < s.maxNumElems ==>
                i * pageSize <= i * pageSize + e * s.elemSize
                && i * pageSize + e * s.elemSize + s.elemSize <= (i + 1) * pageSize
    {
      MulSucc(i, pageSize);
      if s.elemSize != 0 && e < s.maxNumElems {
        assert SlabFits(slabUse[i], s, i);
        var d := s.elemSize;
        var n := s.maxNumElems;
        DivFloor(pageSize, d);
        MulMonotone(e + 1, n, d);
        MulSucc(e, d);
        MulMonotone(0, e, d);
      }
    }

    /** `initBuf(buf, handle, reqCapacity)`: a run handle, with a zero high
        word, gives its node's run; a slab handle goes to
        `initBufWithSubpage`. */
    function InitBuf(handle: int, reqCapacity: int): (b: BufRange)
      reads this, memoryMap, subpages, Repr
      requires Valid() && 1 <= LowInt(handle) < memoryMap.Length
      requires HighInt(handle) == 0 ==> State(memoryMap[LowInt(handle)]) == Allocated
      requires HighInt(handle) != 0 ==> SlabBuf(handle, HighInt(handle), reqCapacity)
      ensures b.length == reqCapacity
      ensures HighInt(handle) == 0 ==>
                b.offset == NodeOffsetPages(maxOrder, LowInt(handle)) * pageSize
                && b.maxLength == NodeSize(LowInt(handle))
                && 0 <= b.offset && b.offset + b.maxLength <= chunkSize
      ensures HighInt(handle) != 0 ==>
                var i := LowInt(handle) - maxSubpageAllocs;
                b.maxLength == subpages[i].elemSize
                && b.offset == i * pageSize + (HighInt(handle) % ElementMask) * subpages[i].elemSize
    {
      var memoryMapIdx := LowInt(handle);
      var bitmapIdx := HighInt(handle);
      if bitmapIdx == 0 then
        var val := memoryMap[memoryMapIdx];
        NodeRun(memoryMapIdx);
        RunInChunk(memoryMapIdx);
        BufRange(RunOffset(val), reqCapacity, RunLength(val))
      else
        InitBufWithSubpage(handle, bitmapIdx, reqCapacity)
    }

    /** Node `i`'s run lies inside the chunk. */
    lemma {:induction false} RunInChunk(i: int)
      requires Config() && 1 <= i < memoryMap.Length
      ensures 0 <= NodeOffsetPages(maxOrder, i) * pageSize
      ensures NodeOffsetPages(maxOrder, i) * pageSize + NodeSize(i) <= chunkSize
    {
      ConfigSizes();
      NodeDepth(maxOrder, i);
      NodeWithinChunk(maxOrder, i);
      NodeSizeIs(i);
      MulWithin(NodeOffsetPages(maxOrder, i), NodePages(maxOrder, i), maxSubpageAllocs, pageSize);
    }

    /** The buffer of a live handle lies inside its node's run: a run is
        the run itself, an element lies inside its page. */
    lemma {:induction false} BufInNode(handle: int, reqCapacity: int)
      requires Valid() && Live(handle)
      requires HighInt(handle) != 0 ==>
                 reqCapacity <= subpages[LowInt(handle) - maxSubpageAllocs].elemSize
      ensures Within(InitBuf(handle, reqCapacity), NodeOffsetPages(maxOrder, LowInt(handle)),
                     NodePages(maxOrder, LowInt(handle)), pageSize)
    {
      var r := LowInt(handle);
      var b := InitBuf(handle, reqCapacity);
      var o, p := NodeOffsetPages(maxOrder, r), NodePages(maxOrder, r);
      if HighInt(handle) == 0 {
        NodeSizeIs(r);
        MulAdd(o, p, pageSize);
      } else {
        var i := r - maxSubpageAllocs;
        var s := subpages[i];
        var e := HighInt(handle) % ElementMask;
        LeafOffset(maxOrder, r);
        assert o == i && p == 1;
        if s.elemSize != 0 {
          assert e in s.Occupied();
          ElementInPage(i, e, s);
        } else {
          assert e * s.elemSize == 0;
          MulSucc(i, pageSize);
        }
      }
    }

    /** The buffers of two live handles for different allocations never
        overlap: a run in use shares no page with another node in use, and
        two elements of one page are different slices of it. */
    lemma {:induction false} LiveBufsApart(h1: int, c1: int, h2: int, c2: int)
      requires Valid() && Live(h1) && Live(h2)
      requires LowInt(h1) != LowInt(h2) || HighInt(h1) % ElementMask != HighInt(h2) % ElementMask
      requires HighInt(h1) != 0 ==> c1 <= subpages[LowInt(h1) - maxSubpageAllocs].elemSize
      requires HighInt(h2) != 0 ==> c2 <= subpages[LowInt(h2) - maxSubpageAllocs].elemSize
      ensures Apart(InitBuf(h1, c1), InitBuf(h2, c2))
    {
      if LowInt(h1) != LowInt(h2) {
        NodesApart(h1, c1, h2, c2);
      } else {
        ElementsApart(h1, c1, h2, c2);
      }
    }

    /** Buffers in two different nodes in use are apart. */
    lemma {:induction false} NodesApart(h1: int, c1: int, h2: int, c2: int)
      requires Valid() && Live(h1) && Live(h2) && LowInt(h1) != LowInt(h2)
      requires HighInt(h1) != 0 ==> c1 <= subpages[LowInt(h1) - maxSubpageAllocs].elemSize
      requires HighInt(h2) != 0 ==> c2 <= subpages[LowInt(h2) - maxSubpageAllocs].elemSize
      ensures Apart(InitBuf(h1, c1), InitBuf(h2, c2))
    {
      var r1, r2 := LowInt(h1), LowInt(h2);
      BufInNode(h1, c1);
      BufInNode(h2, c2);
      LiveRunsDisjoint(memoryMap[..], maxOrder, r1, r2);
      ScaledApart(NodeOffsetPages(maxOrder, r1), NodePages(maxOrder, r1),
                  NodeOffsetPages(maxOrder, r2), NodePages(maxOrder, r2),
                  pageSize, InitBuf(h1, c1), InitBuf(h2, c2));
    }

    /** Ranges inside disjoint page runs are apart. */
    static lemma {:induction false} ScaledApart(o1: int, p1: int, o2: int, p2: int, d: int, x: BufRange, y: BufRange)
      requires 0 <= d && (o1 + p1 <= o2 || o2 + p2 <= o1)
      requires Within(x, o1, p1, d) && Within(y, o2, p2, d)
      ensures Apart(x, y)
    {
      if o1 + p1 <= o2 {
        MulMonotone(o1 + p1, o2, d);
      } else {
        MulMonotone(o2 + p2, o1, d);
      }
    }

    /** Two different elements of one page are apart. */
    lemma {:induction false} ElementsApart(h1: int, c1: int, h2: int, c2: int)
      requires Valid() && Live(h1) && Live(h2) && LowInt(h1) == LowInt(h2)
      requires HighInt(h1) % ElementMask != HighInt(h2) % ElementMask
      requires HighInt(h1) != 0 ==> c1 <= subpages[LowInt(h1) - maxSubpageAllocs].elemSize
      requires HighInt(h2) != 0 ==> c2 <= subpages[LowInt(h2) - maxSubpageAllocs].elemSize
      ensures Apart(InitBuf(h1, c1), InitBuf(h2, c2))
    {
      var i := LowInt(h1) - maxSubpageAllocs;
      var d := subpages[i].elemSize;
      var e1, e2 := HighInt(h1) % ElementMask, HighInt(h2) % ElementMask;
      if e1 < e2 {
        MulMonotone(e1 + 1, e2, d);
        MulSucc(e1, d);
      } else {
        MulMonotone(e2 + 1, e1, d);
        MulSucc(e2, d);
      }
    }
  }
}
