/** The chunk's memory map: a complete binary tree of runs stored flat in an
    `int[]`, index 1 being the whole chunk and `2i`, `2i + 1` the two halves of
    node `i`.

    Each entry packs the run's offset in pages (bits 17 and up), its length in
    pages (bits 2 to 16) and a two-bit state. Entries are non-negative Java
    ints, so `>>>` is a division and `& mask` a remainder. */
module MemoryMap {
  import opened Bits

  /** `ST_UNUSED`: the run is free and so is everything below it. */
  const Unused: int := 0
  /** `ST_BRANCH`: the run has been split; its children decide. */
  const Branch: int := 1
  /** `ST_ALLOCATED`: the run is handed out whole. */
  const Allocated: int := 2
  /** `ST_ALLOCATED_SUBPAGE`: the page is handed to a slab. */
  const AllocatedSubpage: int := 3

  /** The largest `maxOrder` whose offsets and lengths fit the packing. */
  const MaxOrderLimit: int := 14

  // ---------------------------------------------------------------------
  // Packing of one entry.

  /** `offsetPages << 17 | runPages << 2 | state`. */
  function Pack(offsetPages: int, runPages: int, state: int): int
    requires 0 <= offsetPages < 0x4000 && 0 <= runPages <= 0x4000 && 0 <= state < 4
  {
    offsetPages * 0x20000 + runPages * 4 + state
  }

  /** `val >>> 17`, the offset field in pages. */
  function OffsetPages(v: int): int
  {
    v / 0x20000
  }

  /** `val >>> 2 & 0x7FFF`, the length field in pages. */
  function RunPages(v: int): int
  {
    (v / 4) % 0x8000
  }

  /** `val & 3`. */
  function State(v: int): int
  {
    v % 4
  }

  /** `val & ~3 | s`. */
  function WithState(v: int, s: int): int
  {
    v - v % 4 + s
  }

  /** Packing round-trips: the three fields read back what was packed, and
      the entry is a non-negative int. */
  lemma {:induction false} PackFields(offsetPages: int, runPages: int, state: int)
    requires 0 <= offsetPages < 0x4000 && 0 <= runPages <= 0x4000 && 0 <= state < 4
    ensures 0 <= Pack(offsetPages, runPages, state) < 0x8000_0000
    ensures OffsetPages(Pack(offsetPages, runPages, state)) == offsetPages
    ensures RunPages(Pack(offsetPages, runPages, state)) == runPages
    ensures State(Pack(offsetPages, runPages, state)) == state
  {
    var v := Pack(offsetPages, runPages, state);
    var low := runPages * 4 + state;
    assert 0 <= low < 0x20000;
    assert v / 0x20000 == offsetPages;
    assert v / 4 == offsetPages * 0x8000 + runPages;
    assert v % 4 == state;
  }

  /** Rewriting the state keeps the offset and the length, and setting the
      state an entry already has changes nothing. */
  lemma {:induction false} WithStateFields(v: int, s: int)
    requires 0 <= v < 0x8000_0000 && 0 <= s < 4
    ensures 0 <= WithState(v, s) < 0x8000_0000
    ensures State(WithState(v, s)) == s
    ensures OffsetPages(WithState(v, s)) == OffsetPages(v)
    ensures RunPages(WithState(v, s)) == RunPages(v)
    ensures WithState(v, State(v)) == v
  {
    var base := v - v % 4;
    assert base == (v / 4) * 4;
    assert (base + s) / 4 == v / 4;
    assert (base + s) / 0x20000 == v / 0x20000 by {
      assert v / 0x20000 == (v / 4) / 0x8000;
      assert (base + s) / 0x20000 == ((base + s) / 4) / 0x8000;
    }
  }

  // ---------------------------------------------------------------------
  // Tree geometry. Node `i` sits at depth `Depth(i)`; a chunk of
  // `2^maxOrder` pages gives a node at depth `d` a run of `2^(maxOrder - d)`
  // pages starting at page `(i - 2^d) * 2^(maxOrder - d)`.

  ghost function Depth(i: int): nat
    requires i >= 1
  {
    if i == 1 then 0 else 1 + Depth(i / 2)
  }

  lemma {:induction false} DepthBounds(i: int)
    requires i >= 1
    ensures Pow2(Depth(i)) <= i < 2 * Pow2(Depth(i))
  {
    if i > 1 {
      DepthBounds(i / 2);
    }
  }

  /** The nodes at depth `d` are `2^d .. 2^(d+1) - 1`. */
  lemma {:induction false} DepthOf(d: nat, k: int)
    requires 0 <= k < Pow2(d)
    ensures Depth(Pow2(d) + k) == d
  {
    if d > 0 {
      assert (Pow2(d) + k) / 2 == Pow2(d - 1) + k / 2;
      DepthOf(d - 1, k / 2);
    }
  }

  /** The indices of a tree of depth `maxOrder` are `1 .. 2^(maxOrder+1) - 1`;
      its leaves are the upper half. */
  lemma {:induction false} NodeDepth(maxOrder: nat, i: int)
    requires 1 <= i < Pow2(maxOrder + 1)
    ensures Depth(i) <= maxOrder
    ensures Depth(i) == maxOrder <==> i >= Pow2(maxOrder)
  {
    DepthBounds(i);
    if Depth(i) > maxOrder {
      Pow2Monotone(maxOrder + 1, Depth(i));
      assert false;
    }
    if Depth(i) < maxOrder {
      Pow2Monotone(Depth(i) + 1, maxOrder);
    }
  }

  /** Length of node `i`'s run, in pages. */
  ghost function NodePages(maxOrder: int, i: int): nat
    requires i >= 1
  {
    if Depth(i) <= maxOrder then Pow2(maxOrder - Depth(i)) else 0
  }

  /** The root's run is the whole chunk. */
  lemma {:induction false} RootPages(maxOrder: nat)
    ensures Depth(1) == 0 && NodePages(maxOrder, 1) == Pow2(maxOrder)
  {
  }

  /** Offset of node `i`'s run from the start of the chunk, in pages: a
      left child starts where its parent does, a right child one child's run
      further on. */
  ghost function NodeOffsetPages(maxOrder: int, i: int): int
    requires i >= 1
  {
    if i == 1 then 0
    else NodeOffsetPages(maxOrder, i / 2) + (if i % 2 == 1 then NodePages(maxOrder, i) else 0)
  }

  /** Node `i` is the `(i - 2^depth)`-th run of its level. */
  lemma {:induction false} NodeOffsetClosed(maxOrder: int, i: int)
    requires 1 <= i && Depth(i) <= maxOrder
    ensures NodeOffsetPages(maxOrder, i) == (i - Pow2(Depth(i))) * NodePages(maxOrder, i)
  {
    if i > 1 {
      var p := i / 2;
      var d := Depth(p);
      var q := NodePages(maxOrder, i);
      NodeOffsetClosed(maxOrder, p);
      ParentPages(maxOrder, i);
      Pow2Succ(d);
      OffsetStep(p, Pow2(d), q, i % 2);
    }
  }

  /** The parent of node `i` is one level up with twice its run. */
  lemma {:induction false} ParentPages(maxOrder: int, i: int)
    requires 2 <= i && Depth(i) <= maxOrder
    ensures Depth(i) == Depth(i / 2) + 1 && i == 2 * (i / 2) + i % 2
    ensures NodePages(maxOrder, i / 2) == 2 * NodePages(maxOrder, i)
  {
    var e: nat := maxOrder - Depth(i);
    PagesAt(maxOrder, i, e);
    PagesAt(maxOrder, i / 2, e + 1);
    Pow2Succ(e);
  }

  lemma {:induction false} PagesAt(maxOrder: int, i: int, e: nat)
    requires 1 <= i && Depth(i) <= maxOrder && e == maxOrder - Depth(i)
    ensures NodePages(maxOrder, i) == Pow2(e)
  {
  }

  /** The `k`-th run of one level is the `2k`-th or `2k+1`-th run of the
      next, a run being half as long there. */
  lemma {:induction false} OffsetStep(k: int, base: int, q: int, b: int)
    requires b == 0 || b == 1
    ensures (k - base) * (2 * q) + (if b == 1 then q else 0) == (2 * k + b - 2 * base) * q
  {
    assert (2 * k + b - 2 * base) * q == (k - base) * (2 * q) + b * q;
  }

  /** The two children of an inner node halve its run: the left one starts
      where the parent does, the right one where the left one ends. */
  lemma {:induction false} ChildGeometry(maxOrder: int, i: int)
    requires 1 <= i && Depth(i) < maxOrder
    ensures Depth(2 * i) == Depth(i) + 1 && Depth(2 * i + 1) == Depth(i) + 1
    ensures NodePages(maxOrder, 2 * i) == NodePages(maxOrder, 2 * i + 1)
    ensures 2 * NodePages(maxOrder, 2 * i) == NodePages(maxOrder, i)
    ensures NodeOffsetPages(maxOrder, 2 * i) == NodeOffsetPages(maxOrder, i)
    ensures NodeOffsetPages(maxOrder, 2 * i + 1) == NodeOffsetPages(maxOrder, i) + NodePages(maxOrder, 2 * i)
  {
    var d := Depth(i);
    assert Depth(2 * i) == d + 1 && Depth(2 * i + 1) == d + 1;
    var p := NodePages(maxOrder, 2 * i);
    assert p == Pow2(maxOrder - d - 1);
    assert NodePages(maxOrder, i) == 2 * p;
    assert (2 * i) / 2 == i && (2 * i + 1) / 2 == i;
  }

  /** A leaf is one page long, and its offset is its place among the
      leaves. */
  lemma {:induction false} LeafOffset(maxOrder: nat, i: int)
    requires Pow2(maxOrder) <= i < Pow2(maxOrder + 1)
    ensures Depth(i) == maxOrder && NodePages(maxOrder, i) == 1
    ensures NodeOffsetPages(maxOrder, i) == i - Pow2(maxOrder)
  {
    NodeDepth(maxOrder, i);
    NodeOffsetClosed(maxOrder, i);
    var x := i - Pow2(maxOrder);
    assert NodePages(maxOrder, i) == 1;
    assert x * 1 == x;
  }

  /** Every node lies within the chunk: its run ends at or before page
      `2^maxOrder`. */
  lemma {:induction false} NodeWithinChunk(maxOrder: nat, i: int)
    requires 1 <= i && Depth(i) <= maxOrder
    ensures 0 <= NodeOffsetPages(maxOrder, i)
    ensures NodeOffsetPages(maxOrder, i) + NodePages(maxOrder, i) <= Pow2(maxOrder)
  {
    var d := Depth(i);
    DepthBounds(i);
    NodeOffsetClosed(maxOrder, i);
    var p := NodePages(maxOrder, i);
    assert p == Pow2(maxOrder - d);
    Pow2Add(d, maxOrder - d);
    MulBounds(i - Pow2(d), p, Pow2(d));
  }

  // ---------------------------------------------------------------------
  // Subtrees.

  /** `k` is `i` or one of its descendants. */
  ghost predicate InSubtree(k: int, i: int)
    decreases if k < 0 then 0 else k
  {
    1 <= i <= k && (k == i || InSubtree(k / 2, i))
  }

  lemma {:induction false} InRootSubtree(k: int)
    requires k >= 1
    ensures InSubtree(k, 1)
  {
    if k > 1 {
      InRootSubtree(k / 2);
    }
  }

  /** A descendant of a child is a descendant of the parent. */
  lemma {:induction false} SubtreeOfChild(k: int, c: int)
    requires InSubtree(k, c) && c >= 2
    ensures InSubtree(k, c / 2)
  {
    if k != c {
      SubtreeOfChild(k / 2, c);
    }
  }

  /** A descendant of a descendant is a descendant. */
  lemma {:induction false} SubtreeTrans(k: int, x: int, c: int)
    requires InSubtree(k, x) && InSubtree(x, c)
    ensures InSubtree(k, c)
    decreases k
  {
    if k != x {
      SubtreeTrans(k / 2, x, c);
    }
  }

  /** A strict descendant of `i` is at least `2i`. */
  lemma {:induction false} SubtreeBelow(k: int, i: int)
    requires InSubtree(k, i) && k != i
    ensures k >= 2 * i
  {
    if k / 2 != i {
      SubtreeBelow(k / 2, i);
    }
  }

  /** A child of a node in the subtree of `c` is a strict descendant of
      `c`. */
  lemma {:induction false} ChildInSubtree(x: int, r: int, c: int)
    requires InSubtree(r, c) && (x == 2 * r || x == 2 * r + 1)
    ensures InSubtree(x, c) && x != c && x / 2 == r
  {
    assert InSubtree(x / 2, c);
  }

  /** Two ancestors of one node lie on one line. */
  lemma {:induction false} SubtreeChain(k: int, a: int, b: int)
    requires InSubtree(k, a) && InSubtree(k, b) && a <= b
    ensures InSubtree(b, a)
  {
    if k != b {
      SubtreeChain(k / 2, a, b);
    }
  }

  /** A strict descendant of `i` is in the subtree of exactly one child. */
  lemma {:induction false} SubtreeStep(k: int, i: int)
    requires InSubtree(k, i) && k != i
    ensures InSubtree(k, 2 * i) != InSubtree(k, 2 * i + 1)
  {
    if k / 2 != i {
      SubtreeStep(k / 2, i);
      SubtreeBelow(k / 2, i);
    }
    if InSubtree(k, 2 * i) && InSubtree(k, 2 * i + 1) {
      SubtreeChain(k, 2 * i, 2 * i + 1);
      assert false;
    }
  }

  /** The ancestor of `k` at depth `d`. */
  ghost function Ancestor(k: int, d: nat): (a: int)
    requires k >= 1 && d <= Depth(k)
    ensures InSubtree(k, a) && Depth(a) == d
    decreases k
  {
    if Depth(k) == d then k else Ancestor(k / 2, d)
  }

  /** Subtree runs nest: a descendant's run lies inside its ancestor's. */
  lemma {:induction false} SubtreeWithin(maxOrder: int, k: int, i: int)
    requires InSubtree(k, i) && Depth(k) <= maxOrder
    ensures NodeOffsetPages(maxOrder, i) <= NodeOffsetPages(maxOrder, k)
    ensures NodeOffsetPages(maxOrder, k) + NodePages(maxOrder, k) <= NodeOffsetPages(maxOrder, i) + NodePages(maxOrder, i)
    decreases k
  {
    if k != i {
      SubtreeWithin(maxOrder, k / 2, i);
      ChildGeometry(maxOrder, k / 2);
      assert k == 2 * (k / 2) || k == 2 * (k / 2) + 1;
    }
  }

  /** Two different nodes of one depth have disjoint runs. */
  lemma {:induction false} SameDepthDisjoint(maxOrder: int, a: int, b: int)
    requires 1 <= a < b && Depth(a) == Depth(b) <= maxOrder
    ensures NodePages(maxOrder, a) == NodePages(maxOrder, b)
    ensures NodeOffsetPages(maxOrder, a) + NodePages(maxOrder, a) <= NodeOffsetPages(maxOrder, b)
  {
    var d := Depth(a);
    var p := NodePages(maxOrder, a);
    var x, y := a - Pow2(d), b - Pow2(d);
    NodeOffsetClosed(maxOrder, a);
    NodeOffsetClosed(maxOrder, b);
    assert NodePages(maxOrder, b) == p;
    MulMonotone(x + 1, y, p);
    MulSucc(x, p);
  }

  /** Nodes of which neither is an ancestor of the other have disjoint
      runs. */
  lemma {:induction false} RunsDisjoint(maxOrder: int, a: int, b: int)
    requires a >= 1 && b >= 1 && Depth(a) <= maxOrder && Depth(b) <= maxOrder
    requires !InSubtree(a, b) && !InSubtree(b, a)
    ensures NodeOffsetPages(maxOrder, a) + NodePages(maxOrder, a) <= NodeOffsetPages(maxOrder, b)
         || NodeOffsetPages(maxOrder, b) + NodePages(maxOrder, b) <= NodeOffsetPages(maxOrder, a)
  {
    if Depth(a) <= Depth(b) {
      var x := Ancestor(b, Depth(a));
      SubtreeWithin(maxOrder, b, x);
      if x < a { SameDepthDisjoint(maxOrder, x, a); } else { SameDepthDisjoint(maxOrder, a, x); }
    } else {
      var x := Ancestor(a, Depth(b));
      SubtreeWithin(maxOrder, a, x);
      if x < b { SameDepthDisjoint(maxOrder, x, b); } else { SameDepthDisjoint(maxOrder, b, x); }
    }
  }

  // ---------------------------------------------------------------------
  // Invariants of a chunk's map.

  /** Every entry is a non-negative int whose offset and length fields are
      those of its position in the tree. */
  ghost predicate Shaped(m: seq<int>, maxOrder: int)
  {
    0 <= maxOrder <= MaxOrderLimit && |m| == Pow2(maxOrder + 1) &&
    forall i | 1 <= i < |m| :: EntryOk(m, maxOrder, i)
  }

  /** Entry `i` is a non-negative int carrying node `i`'s offset and length. */
  ghost predicate EntryOk(m: seq<int>, maxOrder: int, i: int)
    requires 1 <= i < |m|
  {
    0 <= m[i] < 0x8000_0000 &&
    OffsetPages(m[i]) == NodeOffsetPages(maxOrder, i) &&
    RunPages(m[i]) == NodePages(maxOrder, i)
  }

  /** The states fit together: a node that is not split has two unused
      children, only pages hold slabs, and pages are never split. */
  ghost predicate Consistent(m: seq<int>)
  {
    |m| >= 2 && |m| % 2 == 0 &&
    (forall i | 1 <= i < |m| / 2 :: InnerOk(m, i)) &&
    (forall i | |m| / 2 <= i < |m| :: LeafOk(m, i))
  }

  /** An inner node never holds a slab, and unless it is split both its
      children are unused. */
  ghost predicate InnerOk(m: seq<int>, i: int)
    requires 1 <= i && 2 * i + 1 < |m|
  {
    State(m[i]) != AllocatedSubpage &&
    (State(m[i]) != Branch ==> State(m[2 * i]) == Unused && State(m[2 * i + 1]) == Unused)
  }

  /** A page is never split. */
  ghost predicate LeafOk(m: seq<int>, i: int)
    requires 0 <= i < |m|
  {
    State(m[i]) != Branch
  }

  /** Bytes an entry hands out by itself: its whole run when allocated. */
  ghost function Weight(v: int, pageSize: int): int
  {
    if State(v) >= Allocated then RunPages(v) * pageSize else 0
  }

  /** Bytes handed out from the subtree of `i`. */
  ghost function UsedBytes(m: seq<int>, pageSize: int, i: int): int
    requires i >= 1
    decreases |m| - i
  {
    if i >= |m| then 0
    else Weight(m[i], pageSize) + UsedBytes(m, pageSize, 2 * i) + UsedBytes(m, pageSize, 2 * i + 1)
  }

  /** Changing an entry outside a subtree leaves that subtree's usage alone. */
  lemma {:induction false} UsedFrame(m: seq<int>, pageSize: int, i: int, k: int, v: int)
    requires i >= 1 && 0 <= k < |m| && !InSubtree(k, i)
    ensures UsedBytes(m[k := v], pageSize, i) == UsedBytes(m, pageSize, i)
    decreases |m| - i
  {
    if i < |m| {
      if InSubtree(k, 2 * i) { SubtreeOfChild(k, 2 * i); }
      if InSubtree(k, 2 * i + 1) { SubtreeOfChild(k, 2 * i + 1); }
      UsedFrame(m, pageSize, 2 * i, k, v);
      UsedFrame(m, pageSize, 2 * i + 1, k, v);
    }
  }

  /** Changing an entry inside a subtree changes that subtree's usage by the
      difference of the entry's weights. */
  lemma {:induction false} UsedUpdate(m: seq<int>, pageSize: int, i: int, k: int, v: int)
    requires InSubtree(k, i) && k < |m|
    ensures UsedBytes(m[k := v], pageSize, i)
         == UsedBytes(m, pageSize, i) - Weight(m[k], pageSize) + Weight(v, pageSize)
    decreases |m| - i
  {
    if k == i {
      UsedFrame(m, pageSize, 2 * i, k, v);
      UsedFrame(m, pageSize, 2 * i + 1, k, v);
    } else {
      SubtreeStep(k, i);
      if InSubtree(k, 2 * i) {
        UsedUpdate(m, pageSize, 2 * i, k, v);
        UsedFrame(m, pageSize, 2 * i + 1, k, v);
      } else {
        UsedFrame(m, pageSize, 2 * i, k, v);
        UsedUpdate(m, pageSize, 2 * i + 1, k, v);
      }
    }
  }

  /** Below a node that is not split everything is unused. */
  lemma {:induction false} DescendantsUnused(m: seq<int>, i: int, k: int)
    requires Consistent(m) && 1 <= i < |m| && State(m[i]) != Branch
    requires InSubtree(k, i) && k != i && k < |m|
    ensures State(m[k]) == Unused
    decreases k
  {
    var p := k / 2;
    SubtreeBelow(k, i);
    assert InSubtree(p, i);
    if p != i {
      DescendantsUnused(m, i, p);
    }
    assert p < |m| / 2 && State(m[p]) != Branch;
    assert InnerOk(m, p);
    assert k == 2 * p || k == 2 * p + 1;
  }

  /** The strict ancestors of a node in use are all split. */
  lemma {:induction false} AncestorsSplit(m: seq<int>, k: int, a: int)
    requires Consistent(m) && 1 <= k < |m| && State(m[k]) != Unused
    requires InSubtree(k, a) && a != k
    ensures State(m[a]) == Branch
  {
    if State(m[a]) != Branch {
      DescendantsUnused(m, a, k);
    }
  }

  /** An unused subtree hands out nothing. */
  lemma {:induction false} UnusedSubtreeEmpty(m: seq<int>, pageSize: int, i: int)
    requires Consistent(m) && 1 <= i < |m| && State(m[i]) == Unused
    ensures UsedBytes(m, pageSize, i) == 0
    decreases |m| - i
  {
    if i < |m| / 2 {
      assert InnerOk(m, i);
      UnusedSubtreeEmpty(m, pageSize, 2 * i);
      UnusedSubtreeEmpty(m, pageSize, 2 * i + 1);
    }
  }

  /** A subtree never hands out more than its run. */
  lemma {:induction false} UsedBound(m: seq<int>, maxOrder: int, pageSize: int, i: int)
    requires Shaped(m, maxOrder) && Consistent(m) && pageSize >= 0 && 1 <= i < |m|
    ensures 0 <= UsedBytes(m, pageSize, i) <= NodePages(maxOrder, i) * pageSize
    decreases |m| - i
  {
    if i < |m| / 2 && State(m[i]) == Branch {
      UsedBound(m, maxOrder, pageSize, 2 * i);
      UsedBound(m, maxOrder, pageSize, 2 * i + 1);
      BranchUsed(m, maxOrder, pageSize, i);
    } else {
      NodeDepth(maxOrder, i);
      assert EntryOk(m, maxOrder, i);
      WeightBound(m[i], pageSize);
      if i < |m| / 2 {
        UnsplitUsed(m, pageSize, i);
      } else {
        assert 2 * i >= |m|;
      }
    }
  }

  /** A split node hands out what its two halves do, so within its run
      when they are within theirs. */
  lemma {:induction false} BranchUsed(m: seq<int>, maxOrder: int, pageSize: int, i: int)
    requires Shaped(m, maxOrder) && pageSize >= 0 && 1 <= i < |m| / 2 && State(m[i]) == Branch
    requires 0 <= UsedBytes(m, pageSize, 2 * i) <= NodePages(maxOrder, 2 * i) * pageSize
    requires 0 <= UsedBytes(m, pageSize, 2 * i + 1) <= NodePages(maxOrder, 2 * i + 1) * pageSize
    ensures 0 <= UsedBytes(m, pageSize, i) <= NodePages(maxOrder, i) * pageSize
  {
    assert |m| / 2 == Pow2(maxOrder);
    NodeDepth(maxOrder, i);
    ChildGeometry(maxOrder, i);
    SplitBound(UsedBytes(m, pageSize, 2 * i), UsedBytes(m, pageSize, 2 * i + 1),
               NodePages(maxOrder, 2 * i), pageSize);
  }

  /** Two halves of at most `half * p` bytes each fit in `2 * half` pages. */
  lemma {:induction false} SplitBound(u1: int, u2: int, half: int, p: int)
    requires 0 <= u1 <= half * p && 0 <= u2 <= half * p
    ensures 0 <= u1 + u2 <= (2 * half) * p
  {
    DoubleMul(half, p);
  }

  lemma {:induction false} DoubleMul(h: int, p: int)
    ensures (2 * h) * p == h * p + h * p
  {
  }

  lemma {:induction false} WeightBound(v: int, pageSize: int)
    requires 0 <= RunPages(v) && pageSize >= 0
    ensures 0 <= Weight(v, pageSize) <= RunPages(v) * pageSize
  {
    MulMonotone(0, RunPages(v), pageSize);
  }

  /** An inner node that is not split hands out exactly its own weight. */
  lemma {:induction false} UnsplitUsed(m: seq<int>, pageSize: int, i: int)
    requires Consistent(m) && 1 <= i < |m| / 2 && State(m[i]) != Branch
    ensures UsedBytes(m, pageSize, i) == Weight(m[i], pageSize)
  {
    assert InnerOk(m, i);
    UnusedSubtreeEmpty(m, pageSize, 2 * i);
    UnusedSubtreeEmpty(m, pageSize, 2 * i + 1);
  }

  /** Writing an entry with a new state keeps the map shaped. */
  lemma {:induction false} ShapedUpdate(m: seq<int>, maxOrder: int, k: int, s: int)
    requires Shaped(m, maxOrder) && 1 <= k < |m| && 0 <= s < 4
    ensures Shaped(m[k := WithState(m[k], s)], maxOrder)
  {
    assert EntryOk(m, maxOrder, k);
    WithStateFields(m[k], s);
    var m' := m[k := WithState(m[k], s)];
    forall i | 1 <= i < |m| ensures EntryOk(m', maxOrder, i) {
      assert EntryOk(m, maxOrder, i);
    }
  }

  /** The local conditions under which one write keeps the states
      consistent. */
  lemma {:induction false} ConsistentUpdate(m: seq<int>, k: int, v: int)
    requires Consistent(m) && 1 <= k < |m|
    requires k < |m| / 2 ==> State(v) != AllocatedSubpage
    requires k >= |m| / 2 ==> State(v) != Branch
    requires k < |m| / 2 && State(v) != Branch ==> State(m[2 * k]) == Unused && State(m[2 * k + 1]) == Unused
    requires k > 1 && State(v) != Unused ==> State(m[k / 2]) == Branch
    ensures Consistent(m[k := v])
  {
    var m' := m[k := v];
    forall i | 1 <= i < |m| / 2 ensures InnerOk(m', i) {
      assert InnerOk(m, i);
      if i != k && (2 * i == k || 2 * i + 1 == k) {
        assert k / 2 == i;
      }
    }
    forall i | |m| / 2 <= i < |m| ensures LeafOk(m', i) {
      assert LeafOk(m, i);
    }
  }

  /** Two different nodes in use never share a page. */
  lemma {:induction false} LiveRunsDisjoint(m: seq<int>, maxOrder: int, a: int, b: int)
    requires Shaped(m, maxOrder) && Consistent(m)
    requires 1 <= a < |m| && 1 <= b < |m| && a != b
    requires State(m[a]) >= Allocated && State(m[b]) >= Allocated
    ensures NodeOffsetPages(maxOrder, a) + NodePages(maxOrder, a) <= NodeOffsetPages(maxOrder, b)
         || NodeOffsetPages(maxOrder, b) + NodePages(maxOrder, b) <= NodeOffsetPages(maxOrder, a)
  {
    NodeDepth(maxOrder, a);
    NodeDepth(maxOrder, b);
    if InSubtree(a, b) { DescendantsUnused(m, b, a); }
    if InSubtree(b, a) { DescendantsUnused(m, a, b); }
    RunsDisjoint(maxOrder, a, b);
  }

  // ---------------------------------------------------------------------
  // Carving a run out of an unused subtree.

  /** `k` lies on the path from `c` down to `r`, above `r`. */
  ghost predicate OnPathAbove(k: int, c: int, r: int)
  {
    k != r && InSubtree(r, k) && InSubtree(k, c)
  }

  /** The map after splitting every node on the path from `c` down to `r`
      (`r` excluded). */
  ghost function CarveAbove(m: seq<int>, c: int, r: int): seq<int>
  {
    seq(|m|, k requires 0 <= k < |m| => if OnPathAbove(k, c, r) then WithState(m[k], Branch) else m[k])
  }

  /** The map after splitting the path from `c` down to `r` and giving `r`
      the state `st`. */
  ghost function Carve(m: seq<int>, c: int, r: int, st: int): seq<int>
    requires 0 <= r < |m|
  {
    CarveAbove(m, c, r)[r := WithState(m[r], st)]
  }

  /** Carving at the top of the path only rewrites the top. */
  lemma {:induction false} CarveAtTop(m: seq<int>, c: int, st: int)
    requires 1 <= c < |m|
    ensures Carve(m, c, c, st) == m[c := WithState(m[c], st)]
  {
    forall k | 0 <= k < |m| ensures !OnPathAbove(k, c, c) {
      if OnPathAbove(k, c, c) { SubtreeChain(c, k, c); }
    }
  }

  /** Carving down to `r` is carving down to its parent, splitting the
      parent, and then rewriting `r`. */
  lemma {:induction false} CarveExtend(m: seq<int>, c: int, r: int, st: int)
    requires InSubtree(r, c) && r != c && r < |m|
    ensures InSubtree(r / 2, c)
    ensures Carve(m, c, r, st) == Carve(m, c, r / 2, Branch)[r := WithState(m[r], st)]
  {
    var p := r / 2;
    SubtreeBelow(r, c);
    SubtreeBelow(r, p);
    forall k | 0 <= k < |m|
      ensures Carve(m, c, r, st)[k] == Carve(m, c, r / 2, Branch)[r := WithState(m[r], st)][k]
    {
      if k != r && k != p && InSubtree(k, c) && InSubtree(r, k) {
        SubtreeBelow(r, k);
        SubtreeChain(r, k, p);
      }
      if k != r && k != p && InSubtree(p, k) {
        assert InSubtree(r, k);
      }
    }
  }

  /** Carving leaves everything below the carved node alone. */
  lemma {:induction false} CarveBelow(m: seq<int>, c: int, r: int, st: int, k: int)
    requires 0 <= r < |m| && 0 <= k < |m| && InSubtree(k, r) && k != r
    ensures Carve(m, c, r, st)[k] == m[k]
  {
    SubtreeBelow(k, r);
  }

  /** Giving one unused node whose parent is split a new state keeps the map
      shaped and consistent when its children are unused; the bytes in use
      grow by the node's run when the new state is an allocated one. */
  lemma {:induction false} PlaceAt(m: seq<int>, maxOrder: int, pageSize: int, r: int, st: int)
    requires Shaped(m, maxOrder) && Consistent(m)
    requires 1 <= r < |m| && State(m[r]) == Unused && (r == 1 || State(m[r / 2]) == Branch)
    requires r < |m| / 2 ==> State(m[2 * r]) == Unused && State(m[2 * r + 1]) == Unused
    requires st == Branch || st == Allocated || st == AllocatedSubpage
    requires st == Branch ==> r < |m| / 2
    requires st == AllocatedSubpage ==> r >= |m| / 2
    ensures Shaped(m[r := WithState(m[r], st)], maxOrder) && Consistent(m[r := WithState(m[r], st)])
    ensures UsedBytes(m[r := WithState(m[r], st)], pageSize, 1)
         == UsedBytes(m, pageSize, 1) + (if st == Branch then 0 else NodePages(maxOrder, r) * pageSize)
  {
    assert EntryOk(m, maxOrder, r);
    var v := WithState(m[r], st);
    WithStateFields(m[r], st);
    InRootSubtree(r);
    ShapedUpdate(m, maxOrder, r, st);
    ConsistentUpdate(m, r, v);
    UsedUpdate(m, pageSize, 1, r, v);
  }

  /** Carving a node out of an unused subtree whose parent is split keeps
      the map shaped and consistent, and adds exactly the node's run to the
      bytes in use when the node is allocated. */
  lemma {:induction false} CarveFacts(m: seq<int>, maxOrder: int, pageSize: int, c: int, r: int, st: int)
    requires Shaped(m, maxOrder) && Consistent(m)
    requires 1 <= c < |m| && State(m[c]) == Unused && (c == 1 || State(m[c / 2]) == Branch)
    requires InSubtree(r, c) && r < |m|
    requires st == Branch || st == Allocated || st == AllocatedSubpage
    requires st == Branch ==> r < |m| / 2
    requires st == AllocatedSubpage ==> r >= |m| / 2
    ensures Shaped(Carve(m, c, r, st), maxOrder) && Consistent(Carve(m, c, r, st))
    ensures UsedBytes(Carve(m, c, r, st), pageSize, 1)
         == UsedBytes(m, pageSize, 1) + (if st == Branch then 0 else NodePages(maxOrder, r) * pageSize)
    decreases r
  {
    if r == c {
      CarveAtTop(m, c, st);
      if c < |m| / 2 {
        assert (2 * c) / 2 == c && (2 * c + 1) / 2 == c;
        DescendantsUnused(m, c, 2 * c);
        DescendantsUnused(m, c, 2 * c + 1);
      }
      PlaceAt(m, maxOrder, pageSize, r, st);
    } else {
      CarveExtend(m, c, r, st);
      SubtreeBelow(r, r / 2);
      CarveFacts(m, maxOrder, pageSize, c, r / 2, Branch);
      CarveStep(m, maxOrder, pageSize, c, r, st, Carve(m, c, r / 2, Branch));
    }
  }

  /** The inductive step of `CarveFacts`: `m1` is the map carved down to the
      parent of `r`. */
  lemma {:induction false} CarveStep(m: seq<int>, maxOrder: int, pageSize: int, c: int, r: int, st: int, m1: seq<int>)
    requires Shaped(m, maxOrder) && Consistent(m)
    requires 1 <= c < |m| && State(m[c]) == Unused
    requires InSubtree(r, c) && r != c && r < |m| && InSubtree(r / 2, c)
    requires st == Branch || st == Allocated || st == AllocatedSubpage
    requires st == Branch ==> r < |m| / 2
    requires st == AllocatedSubpage ==> r >= |m| / 2
    requires m1 == Carve(m, c, r / 2, Branch)
    requires Shaped(m1, maxOrder) && Consistent(m1) && UsedBytes(m1, pageSize, 1) == UsedBytes(m, pageSize, 1)
    requires Carve(m, c, r, st) == m1[r := WithState(m[r], st)]
    ensures Shaped(Carve(m, c, r, st), maxOrder) && Consistent(Carve(m, c, r, st))
    ensures UsedBytes(Carve(m, c, r, st), pageSize, 1)
         == UsedBytes(m, pageSize, 1) + (if st == Branch then 0 else NodePages(maxOrder, r) * pageSize)
  {
    var p := r / 2;
    SubtreeBelow(r, p);
    CarveBelow(m, c, p, Branch, r);
    DescendantsUnused(m, c, r);
    if r < |m| / 2 {
      ChildInSubtree(2 * r, r, c);
      ChildInSubtree(2 * r + 1, r, c);
      ChildInSubtree(2 * r, r, p);
      ChildInSubtree(2 * r + 1, r, p);
      DescendantsUnused(m, c, 2 * r);
      DescendantsUnused(m, c, 2 * r + 1);
      CarveBelow(m, c, p, Branch, 2 * r);
      CarveBelow(m, c, p, Branch, 2 * r + 1);
      assert m1[2 * r] == m[2 * r] && m1[2 * r + 1] == m[2 * r + 1];
    }
    assert EntryOk(m, maxOrder, p);
    WithStateFields(m[p], Branch);
    assert m1[p] == WithState(m[p], Branch);
    PlaceAt(m1, maxOrder, pageSize, r, st);
  }

  /** Carving from `c` to `c` itself splits nothing. */
  lemma {:induction false} CarveAboveNone(m: seq<int>, c: int)
    ensures CarveAbove(m, c, c) == m
  {
    forall k | 0 <= k < |m| ensures !OnPathAbove(k, c, c) {
      if OnPathAbove(k, c, c) { SubtreeChain(c, k, c); }
    }
  }

  /** Going one level further down splits the node just left. */
  lemma {:induction false} CarveAboveStep(m: seq<int>, c: int, r: int, x: int)
    requires InSubtree(r, c) && (x == 2 * r || x == 2 * r + 1) && x < |m|
    ensures CarveAbove(m, c, x) == CarveAbove(m, c, r)[r := WithState(m[r], Branch)]
  {
    assert x / 2 == r;
    forall k | 0 <= k < |m|
      ensures CarveAbove(m, c, x)[k] == CarveAbove(m, c, r)[r := WithState(m[r], Branch)][k]
    {
      if k == r {
        assert InSubtree(x, r);
        assert OnPathAbove(r, c, x);
      } else if k == x {
        assert !OnPathAbove(x, c, x) && !OnPathAbove(x, c, r);
      } else {
        if InSubtree(r, k) { assert InSubtree(x, k); }
        if InSubtree(x, k) { assert InSubtree(r, k); }
      }
    }
  }

  /** A split node on the way down changes nothing when it is carved through:
      carving from it is carving from the child the path enters. */
  lemma {:induction false} CarveThroughBranch(m: seq<int>, b: int, x: int, r: int, st: int)
    requires 1 <= b < |m| && State(m[b]) == Branch && (x == 2 * b || x == 2 * b + 1)
    requires InSubtree(r, x) && r < |m|
    ensures InSubtree(r, b)
    ensures Carve(m, b, r, st) == Carve(m, x, r, st)
  {
    assert x / 2 == b;
    SubtreeOfChild(r, x);
    forall k | 0 <= k < |m| ensures CarveAbove(m, b, r)[k] == CarveAbove(m, x, r)[k] {
      if k == b {
        assert OnPathAbove(b, b, r) && !OnPathAbove(b, x, r);
      } else {
        if OnPathAbove(k, b, r) {
          SubtreeBelow(k, b);
          if k < x {
            SubtreeChain(r, k, x);
            SubtreeBelow(x, k);
            assert false;
          }
          SubtreeChain(r, x, k);
        }
        if OnPathAbove(k, x, r) { SubtreeOfChild(k, x); }
      }
    }
  }

  /** Carving rewrites no page other than the one it stops at. */
  lemma {:induction false} CarveLeaf(m: seq<int>, c: int, r: int, st: int, k: int)
    requires 0 <= r < |m| && |m| % 2 == 0 && |m| / 2 <= k < |m| && k != r
    ensures Carve(m, c, r, st)[k] == m[k]
  {
    if OnPathAbove(k, c, r) { SubtreeBelow(r, k); }
  }

  // ---------------------------------------------------------------------
  // The depth-first search and the way back up.

  /** `parentIdx(i)`, `i >>> 1`. */
  function ParentIdx(i: int): (p: int)
    requires i >= 0
    ensures 2 * p <= i <= 2 * p + 1
    ensures i >= 2 ==> p >= 1 && InSubtree(i, p)
  {
    i / 2
  }

  /** `siblingIdx(i)`, `i ^ 1`: the other child of the same parent. */
  function SiblingIdx(i: int): (s: int)
    requires i >= 0
    ensures s >= 0 && s != i && s / 2 == i / 2
  {
    if i % 2 == 0 then i + 1 else i - 1
  }

  /** In a tree of even length the sibling of a non-root node is a non-root
      node of the tree. */
  lemma {:induction false} SiblingBounds(k: int, n: int)
    requires 2 <= k < n && n % 2 == 0
    ensures 2 <= SiblingIdx(k) < n
  {
  }

  /** Node `k` is where a search entering through split nodes finds a free
      run: it is unused and its parent is split (or it is the root). */
  ghost predicate Open(m: seq<int>, k: int)
  {
    1 <= k < |m| && State(m[k]) == Unused && (k == 1 || State(m[k / 2]) == Branch)
  }

  /** Below a node that is not split every node is unused and none is
      open. */
  lemma {:induction false} NoOpenBelow(m: seq<int>, c: int, k: int)
    requires Consistent(m) && 1 <= c < |m| && State(m[c]) != Branch
    requires InSubtree(k, c) && k != c && k < |m|
    ensures State(m[k]) == Unused && !Open(m, k)
  {
    DescendantsUnused(m, c, k);
    SubtreeBelow(k, c);
    if k / 2 != c {
      DescendantsUnused(m, c, k / 2);
    }
  }

  /** The map after `free` gives back node `k`: `k` becomes unused, and so
      does each ancestor reached while the node just freed has an unused
      sibling, up to the root at most. */
  ghost function Release(m: seq<int>, k: int): (m': seq<int>)
    requires 1 <= k < |m| && |m| % 2 == 0
    ensures |m'| == |m|
    decreases k
  {
    var m1 := m[k := WithState(m[k], Unused)];
    if k == 1 || State(m1[SiblingIdx(k)]) != Unused then m1 else Release(m1, ParentIdx(k))
  }

  /** Releasing a node in use whose children are unused keeps the map shaped
      and consistent and takes exactly the node's weight off the bytes in
      use. */
  lemma {:induction false} ReleaseFacts(m: seq<int>, maxOrder: int, pageSize: int, k: int)
    requires Shaped(m, maxOrder) && Consistent(m) && 1 <= k < |m|
    requires State(m[k]) != Unused
    requires k < |m| / 2 ==> State(m[2 * k]) == Unused && State(m[2 * k + 1]) == Unused
    ensures Shaped(Release(m, k), maxOrder) && Consistent(Release(m, k))
    ensures UsedBytes(Release(m, k), pageSize, 1) == UsedBytes(m, pageSize, 1) - Weight(m[k], pageSize)
    ensures State(Release(m, k)[k]) == Unused
    decreases k
  {
    var m1 := m[k := WithState(m[k], Unused)];
    ReleaseOne(m, maxOrder, pageSize, k);
    if k != 1 && State(m1[SiblingIdx(k)]) == Unused {
      var p := k / 2;
      AncestorsSplit(m, k, p);
      assert m1[p] == m[p];
      assert State(m1[2 * p]) == Unused && State(m1[2 * p + 1]) == Unused;
      ReleaseFacts(m1, maxOrder, pageSize, p);
      ReleaseKeeps(m1, p, k);
      assert Release(m, k) == Release(m1, p);
    } else {
      assert Release(m, k) == m1;
    }
  }

  /** Writing node `k` unused, the first step of a release, keeps the map
      shaped and consistent and takes the node's weight off the bytes in
      use. */
  lemma {:induction false} ReleaseOne(m: seq<int>, maxOrder: int, pageSize: int, k: int)
    requires Shaped(m, maxOrder) && Consistent(m) && 1 <= k < |m|
    requires State(m[k]) != Unused
    requires k < |m| / 2 ==> State(m[2 * k]) == Unused && State(m[2 * k + 1]) == Unused
    ensures Shaped(m[k := WithState(m[k], Unused)], maxOrder)
    ensures Consistent(m[k := WithState(m[k], Unused)])
    ensures UsedBytes(m[k := WithState(m[k], Unused)], pageSize, 1)
         == UsedBytes(m, pageSize, 1) - Weight(m[k], pageSize)
    ensures State(m[k := WithState(m[k], Unused)][k]) == Unused
  {
    var v := WithState(m[k], Unused);
    assert EntryOk(m, maxOrder, k);
    WithStateFields(m[k], Unused);
    ShapedUpdate(m, maxOrder, k, Unused);
    ConsistentUpdate(m, k, v);
    InRootSubtree(k);
    UsedUpdate(m, pageSize, 1, k, v);
  }

  /** Releasing `k` leaves every node other than `k` and its ancestors
      alone. */
  lemma {:induction false} ReleaseKeeps(m: seq<int>, k: int, x: int)
    requires 1 <= k < |m| && |m| % 2 == 0 && 0 <= x < |m| && !InSubtree(k, x)
    ensures Release(m, k)[x] == m[x]
    decreases k
  {
    var m1 := m[k := WithState(m[k], Unused)];
    if k != 1 {
      SiblingBounds(k, |m|);
      if State(m1[SiblingIdx(k)]) == Unused {
        var p := k / 2;
        assert Release(m, k) == Release(m1, p);
        assert !InSubtree(p, x);
        ReleaseKeeps(m1, p, x);
      }
    }
  }

  // ---------------------------------------------------------------------
  // The initial map.

  /** The entry the constructor writes for node `i`: the node's own offset
      and length, state unused. */
  ghost function InitialEntry(maxOrder: int, i: int): int
    requires i >= 1
  {
    NodeOffsetPages(maxOrder, i) * 0x20000 + NodePages(maxOrder, i) * 4 + Unused
  }

  /** The initial entry packs the node's offset and length. */
  lemma {:induction false} InitialEntryFields(maxOrder: int, i: int)
    requires 0 <= maxOrder <= MaxOrderLimit && 1 <= i < Pow2(maxOrder + 1)
    ensures 0 <= InitialEntry(maxOrder, i) < 0x8000_0000
    ensures OffsetPages(InitialEntry(maxOrder, i)) == NodeOffsetPages(maxOrder, i)
    ensures RunPages(InitialEntry(maxOrder, i)) == NodePages(maxOrder, i)
    ensures State(InitialEntry(maxOrder, i)) == Unused
  {
    var j, p := NodeOffsetPages(maxOrder, i), NodePages(maxOrder, i);
    NodeFieldBounds(maxOrder, i);
    PackFields(j, p, Unused);
    assert InitialEntry(maxOrder, i) == Pack(j, p, Unused);
  }

  /** A node's offset and length fit their fields of the packed entry. */
  lemma {:induction false} NodeFieldBounds(maxOrder: int, i: int)
    requires 0 <= maxOrder <= MaxOrderLimit && 1 <= i < Pow2(maxOrder + 1)
    ensures 0 <= NodeOffsetPages(maxOrder, i) < 0x4000
    ensures 1 <= NodePages(maxOrder, i) <= 0x4000
  {
    assert Pow2(14) == 0x4000;
    Pow2Monotone(maxOrder, MaxOrderLimit);
    NodeDepth(maxOrder, i);
    NodeWithinChunk(maxOrder, i);
    Pow2Monotone(maxOrder - Depth(i), maxOrder);
  }

  /** The `k`-th node of level `d` starts `k` runs into the chunk. */
  lemma {:induction false} InitialEntryAt(maxOrder: int, d: nat, k: int, q: int, j: int)
    requires d <= maxOrder && 0 <= k < Pow2(d) && q == Pow2(maxOrder - d) && j == k * q
    ensures InitialEntry(maxOrder, Pow2(d) + k) == j * 0x20000 + q * 4 + Unused
  {
    DepthOf(d, k);
    NodeOffsetClosed(maxOrder, Pow2(d) + k);
  }

  /** Level `i` of a tree of depth `maxOrder` has `2^i` nodes of
      `2^maxOrder >>> i` pages each. */
  lemma {:induction false} LevelRuns(maxOrder: nat, i: nat)
    requires i <= maxOrder
    ensures Pow2(i) * Pow2(maxOrder - i) == Pow2(maxOrder)
    ensures Pow2(i) + Pow2(i) == Pow2(i + 1) <= Pow2(maxOrder + 1)
  {
    Pow2Split(maxOrder, i);
    Pow2Monotone(i, maxOrder);
  }

  /** While the level loop runs, the next run is one of the level's `n`
      runs of `q` pages, and it ends where the run after it starts. */
  lemma {:induction false} LevelStep(k: int, n: int, q: int, j: int)
    requires q > 0 && j == k * q && j < n * q
    ensures k < n && j + q == (k + 1) * q
  {
    MulCancelLess(k, n, q);
    MulSucc(k, q);
  }

  /** The level loop stops after exactly `n` runs of `q` pages. */
  lemma {:induction false} LevelDone(k: int, n: int, q: int)
    requires 0 <= k <= n && q >= 1 && !(k * q < n * q)
    ensures k == n
  {
    if k < n {
      MulMonotone(k, n, q);
      MulMonotone(k + 1, n, q);
      MulSucc(k, q);
    }
  }

  /** The initial map is shaped, every node in it is unused, and it hands out
      nothing. */
  lemma {:induction false} InitialMapValid(m: seq<int>, maxOrder: int, pageSize: int)
    requires 0 <= maxOrder <= MaxOrderLimit && |m| == Pow2(maxOrder + 1)
    requires forall i | 1 <= i < |m| :: m[i] == InitialEntry(maxOrder, i)
    ensures Shaped(m, maxOrder) && Consistent(m)
    ensures forall i | 1 <= i < |m| :: State(m[i]) == Unused
    ensures UsedBytes(m, pageSize, 1) == 0
  {
    forall i | 1 <= i < |m| ensures EntryOk(m, maxOrder, i) && State(m[i]) == Unused {
      InitialEntryFields(maxOrder, i);
    }
    forall i | 1 <= i < |m| / 2 ensures InnerOk(m, i) {
    }
    forall i | |m| / 2 <= i < |m| ensures LeafOk(m, i) {
    }
    UnusedSubtreeEmpty(m, pageSize, 1);
  }

  /** Entries 1 up to `n` of `a` are those of the initial map. */
  ghost predicate Built(a: seq<int>, maxOrder: int, n: int)
  {
    n <= |a| && forall t | 1 <= t < n :: a[t] == InitialEntry(maxOrder, t)
  }

  lemma {:induction false} BuiltExtend(a: seq<int>, maxOrder: int, n: int)
    requires Built(a, maxOrder, n) && 1 <= n < |a|
    ensures Built(a[n := InitialEntry(maxOrder, n)], maxOrder, n + 1)
  {
  }

  /** The constructor's nested loop: level `i` of the tree holds `2^i` runs of
      `chunkSizeInPages >>> i` pages each, written left to right from index
      1. `writes` counts the entries written (the loop's total count). Each
      `j << 17 | runSizeInPages << 2 | ST_UNUSED` has disjoint fields, so the
      `|` are sums. */
  method Build(maxOrder: int, chunkSizeInPages: int) returns (memoryMap: array<int>, writes: int)
    requires 0 <= maxOrder <= MaxOrderLimit && chunkSizeInPages == Pow2(maxOrder)
    ensures fresh(memoryMap)
    ensures memoryMap.Length == 2 * Pow2(maxOrder) == Pow2(maxOrder + 1)
    ensures memoryMap[0] == 0
    ensures forall i | 1 <= i < memoryMap.Length :: memoryMap[i] == InitialEntry(maxOrder, i)
    ensures writes == memoryMap.Length - 1
  {
    Pow2Succ(maxOrder);
    memoryMap := new int[Pow2(maxOrder) * 2](_ => 0);
    var memoryMapIndex := 1;
    writes := 0;
    var i := 0;
    while i <= maxOrder
      invariant 0 <= i <= maxOrder + 1
      invariant memoryMapIndex == Pow2(i) && writes == Pow2(i) - 1
      invariant memoryMap[0] == 0
      invariant Built(memoryMap[..], maxOrder, memoryMapIndex)
    {
      memoryMapIndex, writes := BuildLevel(memoryMap, maxOrder, chunkSizeInPages, i, memoryMapIndex, writes);
      i := i + 1;
    }
    assert Built(memoryMap[..], maxOrder, memoryMap.Length);
  }

  /** Where the inner loop's `j` stands after `k` runs of `q` pages. */
  ghost function RunsStart(k: nat, q: int): int
  {
    if k == 0 then 0 else RunsStart(k - 1, q) + q
  }

  lemma {:induction false} RunsStartIs(k: nat, q: int)
    ensures RunsStart(k, q) == k * q
  {
    if k > 0 {
      RunsStartIs(k - 1, q);
    }
  }

  /** The run the inner loop writes next: while `j` is inside the chunk, the
      `k`-th run of level `i` exists, its packed entry is the initial entry of
      node `2^i + k`, and the run after it starts `runSizeInPages` later. */
  lemma {:induction false} NextRun(maxOrder: int, i: int, k: nat, j: int, q: int)
    requires 0 <= i <= maxOrder && q == Pow2(maxOrder - i) && j == RunsStart(k, q) && j < Pow2(maxOrder)
    ensures k < Pow2(i) && Pow2(i) + k < 2 * Pow2(maxOrder) && j + q == RunsStart(k + 1, q)
    ensures j * 0x20000 + q * 4 + Unused == InitialEntry(maxOrder, Pow2(i) + k)
  {
    RunsStartIs(k, q);
    LevelRuns(maxOrder, i);
    LevelStep(k, Pow2(i), q, j);
    InitialEntryAt(maxOrder, i, k, q, j);
  }

  /** The inner loop stops once the `2^i` runs of level `i` are written. */
  lemma {:induction false} LevelEnd(maxOrder: int, i: int, k: nat, j: int, q: int)
    requires 0 <= i <= maxOrder && q == Pow2(maxOrder - i) && j == RunsStart(k, q)
    requires k <= Pow2(i) && !(j < Pow2(maxOrder))
    ensures k == Pow2(i) && Pow2(i) + Pow2(i) == Pow2(i + 1)
  {
    RunsStartIs(k, q);
    LevelRuns(maxOrder, i);
    LevelDone(k, Pow2(i), q);
  }

  /** One write of the constructor's inner loop, in the packed form: the entry
      of the `k`-th run of level `i`, which starts `j` pages into the chunk. */
  method WriteRun(memoryMap: array<int>, maxOrder: int, i: int, ghost k: nat,
                  memoryMapIndex: int, j: int, runSizeInPages: int)
    requires 0 <= i <= maxOrder <= MaxOrderLimit && memoryMap.Length == 2 * Pow2(maxOrder)
    requires memoryMapIndex == Pow2(i) + k
    requires runSizeInPages == Pow2(maxOrder - i) && j == RunsStart(k, runSizeInPages) && j < Pow2(maxOrder)
    modifies memoryMap
    ensures k < Pow2(i) && j + runSizeInPages == RunsStart(k + 1, runSizeInPages)
    ensures 1 <= memoryMapIndex < memoryMap.Length
    ensures memoryMap[..] == old(memoryMap[..])[memoryMapIndex := InitialEntry(maxOrder, memoryMapIndex)]
  {
    NextRun(maxOrder, i, k, j, runSizeInPages);
    memoryMap[memoryMapIndex] := j * 0x20000 + runSizeInPages * 4 + Unused;
  }

  /** One pass of the constructor's inner loop: the `2^i` runs of level `i`,
      `chunkSizeInPages >>> i` pages each, written from index `2^i` on. */
  method BuildLevel(memoryMap: array<int>, maxOrder: int, chunkSizeInPages: int, i: int,
                    index0: int, writes0: int)
      returns (memoryMapIndex: int, writes: int)
    requires 0 <= i <= maxOrder <= MaxOrderLimit && chunkSizeInPages == Pow2(maxOrder)
    requires memoryMap.Length == 2 * Pow2(maxOrder)
    requires index0 == Pow2(i) && writes0 == Pow2(i) - 1 && memoryMap[0] == 0
    requires Built(memoryMap[..], maxOrder, index0)
    modifies memoryMap
    ensures memoryMapIndex == Pow2(i + 1) && writes == Pow2(i + 1) - 1 && memoryMap[0] == 0
    ensures Built(memoryMap[..], maxOrder, memoryMapIndex)
  {
    memoryMapIndex, writes := index0, writes0;
    var runSizeInPages := Shr(chunkSizeInPages, i);
    ShrPow2(maxOrder, i);
    ghost var k: nat := 0;
    var j := 0;
    while j < chunkSizeInPages
      invariant k <= Pow2(i) && j == RunsStart(k, runSizeInPages)
      invariant memoryMapIndex == Pow2(i) + k && writes == Pow2(i) - 1 + k
      invariant memoryMap[0] == 0
      invariant Built(memoryMap[..], maxOrder, memoryMapIndex)
      decreases chunkSizeInPages - j
    {
      ghost var before := memoryMap[..];
      WriteRun(memoryMap, maxOrder, i, k, memoryMapIndex, j, runSizeInPages);
      BuiltExtend(before, maxOrder, memoryMapIndex);
      memoryMapIndex := memoryMapIndex + 1;
      writes := writes + 1;
      j := j + runSizeInPages;
      k := k + 1;
    }
    LevelEnd(maxOrder, i, k, j, runSizeInPages);
  }
}
