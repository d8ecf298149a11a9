/** The 64-bit allocation handle shared by the chunk and its slabs.

    A run handle is the plain tree index of the allocated node, so its high
    word is 0. A slab handle carries the sentinel bit 62, the element index in
    the high word and the page's tree index in the low word. Java `long`
    values are Dafny integers in [-2^63, 2^63); the casts `(int) handle` and
    `(int) (handle >>> 32)` are written out in two's complement. */
module Handles {

  /** `0x4000000000000000L`, bit 62: it keeps every slab handle positive
      with a non-zero high word. */
  const Sentinel: int := 0x4000_0000_0000_0000

  /** `2^30`: `bitmapIdx & 0x3FFFFFFF` of a non-negative int is
      `bitmapIdx % ElementMask`. */
  const ElementMask: int := 0x4000_0000

  /** Java's `(int)` of a value already reduced to [0, 2^32). */
  function Wrap32(u: int): (r: int)
    requires 0 <= u < 0x1_0000_0000
    ensures -0x8000_0000 <= r < 0x8000_0000
    ensures r % 0x1_0000_0000 == u
  {
    if u < 0x8000_0000 then u else u - 0x1_0000_0000
  }

  /** `(int) handle`: the low word, read as a signed int. */
  function LowInt(handle: int): int
  {
    Wrap32(handle % 0x1_0000_0000)
  }

  /** `(int) (handle >>> 32)`: the high word of the 64-bit pattern, read as a
      signed int. */
  function HighInt(handle: int): int
  {
    Wrap32((handle % 0x1_0000_0000_0000_0000) / 0x1_0000_0000)
  }

  /** `0x4000000000000000L | (long) bitmapIdx << 32 | memoryMapIdx`. The three
      bit fields are disjoint for the indices the allocator produces, so the
      `|` are sums. */
  function ToHandle(memoryMapIdx: int, bitmapIdx: int): (handle: int)
    requires 0 <= memoryMapIdx < 0x8000_0000 && 0 <= bitmapIdx < ElementMask
    ensures 0 < handle < 0x8000_0000_0000_0000
  {
    Sentinel + bitmapIdx * 0x1_0000_0000 + memoryMapIdx
  }

  /** A slab handle decodes to the page index and element index it was built
      from, and its high word is never 0, which tells it apart from a run
      handle. */
  lemma {:induction false} ToHandleDecodes(memoryMapIdx: int, bitmapIdx: int)
    requires 0 <= memoryMapIdx < 0x8000_0000 && 0 <= bitmapIdx < ElementMask
    ensures LowInt(ToHandle(memoryMapIdx, bitmapIdx)) == memoryMapIdx
    ensures HighInt(ToHandle(memoryMapIdx, bitmapIdx)) == ElementMask + bitmapIdx
    ensures HighInt(ToHandle(memoryMapIdx, bitmapIdx)) != 0
    ensures HighInt(ToHandle(memoryMapIdx, bitmapIdx)) % ElementMask == bitmapIdx
  {
    var h := ToHandle(memoryMapIdx, bitmapIdx);
    var hi := ElementMask + bitmapIdx;
    assert h == hi * 0x1_0000_0000 + memoryMapIdx;
    assert 0 <= hi < 0x8000_0000;
    assert h % 0x1_0000_0000 == memoryMapIdx;
    assert h % 0x1_0000_0000_0000_0000 == h;
    assert h / 0x1_0000_0000 == hi;
  }

  /** Distinct (page, element) pairs give distinct slab handles. */
  lemma {:induction false} ToHandleInjective(i1: int, b1: int, i2: int, b2: int)
    requires 0 <= i1 < 0x8000_0000 && 0 <= b1 < ElementMask
    requires 0 <= i2 < 0x8000_0000 && 0 <= b2 < ElementMask
    requires ToHandle(i1, b1) == ToHandle(i2, b2)
    ensures i1 == i2 && b1 == b2
  {
    ToHandleDecodes(i1, b1);
    ToHandleDecodes(i2, b2);
  }

  /** A run handle is the node index itself: its low word is the index and
      its high word is 0. */
  lemma {:induction false} RunHandleDecodes(memoryMapIdx: int)
    requires 0 <= memoryMapIdx < 0x8000_0000
    ensures LowInt(memoryMapIdx) == memoryMapIdx && HighInt(memoryMapIdx) == 0
  {
  }
}
