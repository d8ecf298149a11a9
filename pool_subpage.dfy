/** A slab: one page split into `pageSize / elemSize` equal elements whose
    occupancy is a bitmap of 64-bit words, bit `b % 64` of word `b / 64` for
    element `b` (1 = handed out).

    The arena's per-size list of slabs with free elements is reduced to the
    ghost flag `inPool`: `AddToPool` and `RemoveFromPool` keep the source's
    "not linked" / "linked" assertions as preconditions and flip the flag. */
module Subpage {
  import opened Bits
  import opened Handles

  /** One `long` of the bitmap, as its unsigned 64-bit value. */
  type Word = w: int | 0 <= w < 0x1_0000_0000_0000_0000

  /** `maxNumElems >>> 6`, plus one when `maxNumElems & 63` is not 0: the
      number of words holding `maxNumElems` bits. */
  function BitmapWords(maxNumElems: nat): (words: nat)
    ensures 64 * (words - 1) < maxNumElems <= 64 * words || (maxNumElems == 0 && words == 0)
  {
    maxNumElems / 64 + if maxNumElems % 64 != 0 then 1 else 0
  }

  /** `init(elemSize)` stays inside the `pageSize >>> 10` words allocated by
      the constructor: `elemSize` is 0 (a zero-size class that never touches
      the bitmap), or positive with few enough elements. */
  predicate Fits(pageSize: int, elemSize: int)
  {
    elemSize == 0
    || (elemSize > 0 && pageSize >= 0 && BitmapWords(pageSize / elemSize) <= pageSize / 1024)
  }

  /** The page sizes a chunk hands to its slabs: whole kilobytes, at most
      2^30 bytes. */
  predicate PageSizeOk(pageSize: int)
  {
    1024 <= pageSize <= 0x4000_0000 && pageSize % 1024 == 0
  }

  /** The bitmap has room exactly for the element sizes from 16 bytes up,
      which is why the smallest size class is 16. */
  lemma {:induction false} FitsExactly(pageSize: int, elemSize: int)
    requires PageSizeOk(pageSize) && elemSize != 0
    ensures Fits(pageSize, elemSize) <==> elemSize >= 16
  {
    var w := pageSize / 1024;
    assert pageSize == 1024 * w;
    if elemSize >= 16 {
      var n := pageSize / elemSize;
      DivUpperBound(pageSize, elemSize, 64 * w + 1);
      assert n <= 64 * w;
      assert BitmapWords(n) <= w;
    } else if elemSize > 0 {
      var n := pageSize / elemSize;
      MulMonotone(elemSize, 15, 68 * w);
      DivLowerBound(pageSize, elemSize, 68 * w);
      assert n >= 64 * w + 1;
      assert BitmapWords(n) > w;
    }
  }

  /** A page holds at most `pageSize / 16` elements. */
  lemma {:induction false} ElementsBound(pageSize: int, elemSize: int)
    requires PageSizeOk(pageSize) && Fits(pageSize, elemSize) && elemSize != 0
    ensures elemSize >= 16 && 0 <= pageSize / elemSize <= pageSize / 16
  {
    FitsExactly(pageSize, elemSize);
    DivByMore(pageSize, 16, elemSize);
  }

  /** `n` distinct elements below `n` all in `s` make `s` at least that
      large. */
  lemma {:induction false} RangeCovered(s: set<int>, n: nat)
    requires forall b | 0 <= b < n :: b in s
    ensures |s| >= n
  {
    if n > 0 {
      RangeCovered(s - {n - 1}, n - 1);
    }
  }

  /** An element's word and bit position, `b >>> 6` and `b & 63`. */
  lemma {:induction false} WordOf(b: int, q: int)
    requires 64 * q <= b < 64 * q + 64
    ensures b / 64 == q && b % 64 == b - 64 * q
  {
  }

  /** Element `b` is handed out in the bitmap `words` of which the first
      `len` are in use: bit `b & 63` of word `b >>> 6` is set. */
  ghost predicate BitSet(words: seq<Word>, len: int, b: int)
  {
    0 <= b && b / 64 < len && b / 64 < |words| && Bit(words[b / 64], b % 64)
  }

  /** The handed-out elements among the first `n` of a bitmap: its set
      bits below `n`, whose number is its population count there. */
  ghost function Occupancy(words: seq<Word>, len: int, n: int): set<int>
  {
    set b | 0 <= b < n && BitSet(words, len, b)
  }

  /** A clear bit below `n` with every bit below it set is the lowest
      element the bitmap does not hand out. */
  lemma {:induction false} LowestFree(words: seq<Word>, len: int, n: int, next: int)
    requires 0 <= next < n && !BitSet(words, len, next)
    requires forall b | 0 <= b < next :: BitSet(words, len, b)
    ensures next !in Occupancy(words, len, n)
    ensures forall b | 0 <= b < next :: b in Occupancy(words, len, n)
  {
  }

  /** Zeroed words hand out nothing. */
  lemma {:induction false} OccupancyZero(words: seq<Word>, len: int, n: int)
    requires forall i | 0 <= i < len && i < |words| :: words[i] == 0
    ensures Occupancy(words, len, n) == {}
  {
    forall b | 0 <= b < n
      ensures !BitSet(words, len, b)
    {
      if b / 64 < len && b / 64 < |words| {
        NoBitsInZero(b % 64);
      }
    }
  }

  /** `words[q] |= 1L << r` on a clear bit hands out element `64 q + r` in
      addition to the others. */
  lemma {:induction false} OccupancySet(words: seq<Word>, len: int, n: int, b: int) returns (v: Word)
    requires 0 <= b < n && b / 64 < len <= |words| && !BitSet(words, len, b)
    ensures v == words[b / 64] + Pow2(b % 64)
    ensures Occupancy(words[b / 64 := v], len, n) == Occupancy(words, len, n) + {b}
  {
    var q, r := b / 64, b % 64;
    Pow2SixtyFour();
    SetBit(words[q], r, 0, 64);
    v := words[q] + Pow2(r);
    var after := words[q := v];
    forall c | 0 <= c < n
      ensures BitSet(after, len, c) == (BitSet(words, len, c) || c == b)
    {
      if c / 64 == q {
        SetBit(words[q], r, c % 64, 64);
      }
    }
  }

  /** `words[q] ^= 1L << r` on a set bit takes element `64 q + r` back and
      no other. */
  lemma {:induction false} OccupancyClear(words: seq<Word>, len: int, n: int, b: int) returns (v: Word)
    requires BitSet(words, len, b)
    ensures v == words[b / 64] - Pow2(b % 64)
    ensures Occupancy(words[b / 64 := v], len, n) == Occupancy(words, len, n) - {b}
  {
    var q, r := b / 64, b % 64;
    ClearBit(words[q], r, 0);
    v := words[q] - Pow2(r);
    var after := words[q := v];
    forall c | 0 <= c < n
      ensures BitSet(after, len, c) == (BitSet(words, len, c) && c != b)
    {
      if c / 64 == q {
        ClearBit(words[q], r, c % 64);
      }
    }
  }

  /** A bitmap whose first `n` bits are all set hands out `n` elements. */
  lemma {:induction false} OccupancyFull(words: seq<Word>, len: int, n: nat)
    requires forall b | 0 <= b < n :: BitSet(words, len, b)
    ensures |Occupancy(words, len, n)| >= n
  {
    RangeCovered(Occupancy(words, len, n), n);
  }

  /** `maxNumElems` and `bitmapLength` as `init` computes them for a
      positive `elemSize`. */
  predicate SizedIn(pageSize: int, elemSize: int, maxNumElems: int, bitmapLength: int)
  {
    elemSize > 0 && pageSize >= 0 && 0 <= maxNumElems <= pageSize / 16
    && maxNumElems == pageSize / elemSize
    && bitmapLength == BitmapWords(maxNumElems)
  }

  /** A slab is linked exactly while it is live and has a free element,
      and it is fully free once it is no longer live. */
  predicate LinkedIn(doNotDestroy: bool, numAvail: int, maxNumElems: int, inPool: bool)
  {
    (!doNotDestroy ==> numAvail == maxNumElems)
    && (inPool <==> doNotDestroy && (numAvail > 0 || maxNumElems == 0))
  }

  /** Of the `n` elements of a bitmap, `avail` are free and the others
      handed out, and while one is free `next` names a free one. */
  ghost predicate CountedIn(words: seq<Word>, len: int, n: int, avail: int, next: int)
  {
    0 <= avail <= n
    && |Occupancy(words, len, n)| == n - avail
    && (avail > 0 ==> 0 <= next < n && !BitSet(words, len, next))
  }

  /** Handing out the free element `x` leaves one fewer free. */
  lemma {:induction false} CountTaken(w0: seq<Word>, w1: seq<Word>, len: int, n: int, avail: int, x: int)
    requires CountedIn(w0, len, n, avail, x) && avail > 0
    requires Occupancy(w1, len, n) == Occupancy(w0, len, n) + {x}
    ensures x !in Occupancy(w0, len, n)
    ensures 0 <= avail - 1 <= n && |Occupancy(w1, len, n)| == n - (avail - 1)
  {
  }

  /** Giving back the handed-out element `x` leaves one more free. */
  lemma {:induction false} CountReturned(w0: seq<Word>, w1: seq<Word>, len: int, n: int, avail: int, next: int, x: int)
    requires CountedIn(w0, len, n, avail, next) && x in Occupancy(w0, len, n)
    requires Occupancy(w1, len, n) == Occupancy(w0, len, n) - {x}
    ensures 0 <= avail + 1 <= n && |Occupancy(w1, len, n)| == n - (avail + 1)
  {
    assert |Occupancy(w0, len, n)| >= 1;
  }

  /** A slab's mutable state as a value: its flags, sizes, counters and the
      contents of its bitmap. */
  datatype SlabState = SlabState(doNotDestroy: bool, elemSize: int, maxNumElems: int, nextAvail: int,
                                 bitmapLength: int, numAvail: int, inPool: bool, bits: seq<Word>)

  class PoolSubpage {
    /** Tree index of the page in its chunk's memory map. */
    const memoryMapIdx: int
    /** Byte offset of the page in its chunk. */
    const runOffset: int
    const pageSize: int
    /** `pageSize >>> 10` words: room for 16-byte elements. */
    const bitmap: array<Word>

    var doNotDestroy: bool
    var elemSize: int
    var maxNumElems: int
    var nextAvail: int
    var bitmapLength: int
    var numAvail: int
    /** Whether the slab is linked into the arena's list for its size. */
    ghost var inPool: bool

    /** The fixed part: the constructor's arguments and the bitmap's size. */
    ghost predicate Config()
    {
      0 <= memoryMapIdx < 0x8000_0000 && PageSizeOk(pageSize)
      && bitmap.Length == pageSize / 1024
    }

    /** Element `b` is handed out. */
    ghost predicate IsSet(b: int)
      reads this`bitmapLength, bitmap
    {
      BitSet(bitmap[..], bitmapLength, b)
    }

    /** The handed-out elements. Bits of the last word past `maxNumElems`
        are never set and never read as elements. */
    ghost function Occupied(): set<int>
      reads this`bitmapLength, this`maxNumElems, bitmap
    {
      Occupancy(bitmap[..], bitmapLength, maxNumElems)
    }

    /** The slab's state now; it determines the elements handed out. */
    ghost function Snapshot(): (v: SlabState)
      reads this, bitmap
      ensures Occupancy(v.bits, v.bitmapLength, v.maxNumElems) == Occupied()
    {
      SlabState(doNotDestroy, elemSize, maxNumElems, nextAvail, bitmapLength, numAvail, inPool, bitmap[..])
    }

    /** The slab's invariant. A zero-size slab only keeps itself linked. Any
        other slab has `pageSize / elemSize` elements described by a bitmap
        that fits, counters that agree with it, and is linked as its state
        says. */
    ghost predicate Valid()
      reads this, bitmap
    {
      Config()
      && (elemSize == 0 ==> doNotDestroy && inPool)
      && (elemSize != 0 ==>
            Fits(pageSize, elemSize) && SizedIn(pageSize, elemSize, maxNumElems, bitmapLength)
            && CountedIn(bitmap[..], bitmapLength, maxNumElems, numAvail, nextAvail)
            && LinkedIn(doNotDestroy, numAvail, maxNumElems, inPool))
    }

    /** `PoolSubpage(chunk, memoryMapIdx, runOffset, pageSize, elemSize)`:
        a fresh bitmap of `pageSize >>> 10` words, then `init(elemSize)`. */
    constructor (memoryMapIdx: int, runOffset: int, pageSize: int, elemSize: int)
      requires 0 <= memoryMapIdx < 0x8000_0000 && PageSizeOk(pageSize)
      requires Fits(pageSize, elemSize)
      ensures Valid() && fresh(bitmap)
      ensures this.memoryMapIdx == memoryMapIdx && this.runOffset == runOffset
      ensures this.pageSize == pageSize && this.elemSize == elemSize
      ensures doNotDestroy && inPool
      ensures elemSize != 0 ==>
                maxNumElems == numAvail == pageSize / elemSize && nextAvail == 0 && Occupied() == {}
    {
      this.memoryMapIdx := memoryMapIdx;
      this.runOffset := runOffset;
      this.pageSize := pageSize;
      bitmap := new Word[pageSize / 1024](_ => 0);
      doNotDestroy := false;
      this.elemSize := 0;
      maxNumElems := 0;
      nextAvail := 0;
      bitmapLength := 0;
      numAvail := 0;
      inPool := false;
      new;
      Init(elemSize);
    }

    /** `addToPool()`: the slab must not be linked yet. */
    ghost method AddToPool()
      requires !inPool
      modifies this`inPool
      ensures inPool
    {
      inPool := true;
    }

    /** `removeFromPool()`: the slab must be linked. */
    ghost method RemoveFromPool()
      requires inPool
      modifies this`inPool
      ensures !inPool
    {
      inPool := false;
    }

    /** `init(elemSize)`: (re)start the slab for one element size, with every
        element free, and link it. Words past `bitmapLength` keep whatever they
        held; they are never read. */
    method Init(elemSize: int)
      requires Config() && !inPool && Fits(pageSize, elemSize)
      modifies this, bitmap
      ensures Valid() && doNotDestroy && inPool && this.elemSize == elemSize
      ensures elemSize == 0 ==>
                maxNumElems == old(maxNumElems) && numAvail == old(numAvail)
                && nextAvail == old(nextAvail) && bitmapLength == old(bitmapLength)
                && bitmap[..] == old(bitmap[..])
      ensures elemSize != 0 ==>
                maxNumElems == numAvail == pageSize / elemSize && nextAvail == 0
                && bitmapLength == BitmapWords(maxNumElems)
                && (forall i | 0 <= i < bitmap.Length ::
                      bitmap[i] == if i < bitmapLength then 0 else old(bitmap[i]))
                && Occupied() == {}
    {
      doNotDestroy := true;
      this.elemSize := elemSize;
      if elemSize != 0 {
        maxNumElems := pageSize / elemSize;
        ElementsBound(pageSize, elemSize);
        numAvail := maxNumElems;
        nextAvail := 0;
        bitmapLength := maxNumElems / 64;
        if maxNumElems % 64 != 0 {
          bitmapLength := bitmapLength + 1;
        }
        assert SizedIn(pageSize, elemSize, maxNumElems, bitmapLength);
        assert bitmapLength <= bitmap.Length;
        ClearWords(bitmapLength);
        OccupancyZero(bitmap[..], bitmapLength, maxNumElems);
        assert |Occupied()| == 0;
        if maxNumElems > 0 {
          NoBitsInZero(0);
          assert !IsSet(0);
        }
        assert CountedIn(bitmap[..], bitmapLength, maxNumElems, numAvail, nextAvail);
      }
      AddToPool();
    }

    /** `bitmap[i] = 0` for every `i` below `n`, the loop of `init`. */
    method ClearWords(n: int)
      requires 0 <= n <= bitmap.Length
      modifies bitmap
      ensures forall t | 0 <= t < bitmap.Length :: bitmap[t] == if t < n then 0 else old(bitmap[t])
    {
      for i := 0 to n
        invariant forall t | 0 <= t < bitmap.Length ::
                    bitmap[t] == if t < i then 0 else old(bitmap[t])
      {
        bitmap[i] := 0;
      }
    }

    /** While an element is free, `nextAvail` names the lowest one: every
        element below it is handed out. */
    ghost predicate NextLowest()
      reads this`nextAvail, this`bitmapLength, this`maxNumElems, bitmap
    {
      0 <= nextAvail < maxNumElems && nextAvail !in Occupied()
      && forall b | 0 <= b < nextAvail :: b in Occupied()
    }

    /** `allocate()`: hand out the cached free element `nextAvail`, set its
        bit, and look for the next free one. A zero-size slab answers with
        element 0 and changes nothing; a full or no-longer-live slab answers
        -1 and changes nothing. */
    method Allocate() returns (handle: int)
      requires Valid()
      modifies this`numAvail, this`nextAvail, this`inPool, bitmap
      ensures Valid()
      ensures old(elemSize) == 0 ==>
                handle == ToHandle(0) && unchanged(this, bitmap)
      ensures old(elemSize) != 0 && (old(numAvail) == 0 || !old(doNotDestroy)) ==>
                handle == -1 && unchanged(this, bitmap)
      ensures old(elemSize) != 0 && old(numAvail) != 0 && old(doNotDestroy) ==>
                handle == ToHandle(old(nextAvail))
                && old(nextAvail) !in old(Occupied())
                && Occupied() == old(Occupied()) + {old(nextAvail)}
                && numAvail == old(numAvail) - 1
                && (numAvail == 0 <==> nextAvail == -1)
                && (numAvail > 0 ==> NextLowest())
                && inPool == (numAvail > 0)
    {
      if elemSize == 0 {
        return ToHandle(0);
      }
      if numAvail == 0 || !doNotDestroy {
        return -1;
      }
      var bitmapIdx := nextAvail;
      MarkTaken(bitmapIdx);
      Advance();
      return ToHandle(bitmapIdx);
    }

    /** The rest of `allocate()` once the element's bit is set: one fewer
        free element, and then either the slab is full and unlinked, or
        `findNextAvail()` caches another free element. */
    method Advance()
      requires Config() && elemSize != 0 && Fits(pageSize, elemSize)
      requires SizedIn(pageSize, elemSize, maxNumElems, bitmapLength)
      requires doNotDestroy && inPool && 1 <= numAvail <= maxNumElems
      requires |Occupied()| == maxNumElems - (numAvail - 1)
      modifies this`numAvail, this`nextAvail, this`inPool
      ensures Valid() && numAvail == old(numAvail) - 1
      ensures (numAvail == 0 <==> nextAvail == -1) && inPool == (numAvail > 0)
      ensures numAvail > 0 ==> NextLowest()
    {
      assert 64 * (bitmapLength - 1) < maxNumElems <= 64 * bitmapLength;
      ghost var w1 := bitmap[..];
      numAvail := numAvail - 1;
      if numAvail == 0 {
        RemoveFromPool();
        nextAvail := -1;
      } else {
        var next := FindNextAvailable();
        if next == -1 {
          forall b | 0 <= b < maxNumElems
            ensures BitSet(w1, bitmapLength, b)
          {
            assert IsSet(b);
          }
          OccupancyFull(w1, bitmapLength, maxNumElems);
          assert false;
        }
        assert !BitSet(w1, bitmapLength, next);
        forall b | 0 <= b < next
          ensures BitSet(w1, bitmapLength, b)
        {
          assert IsSet(b);
        }
        LowestFree(w1, bitmapLength, maxNumElems, next);
        nextAvail := next;
      }
      assert CountedIn(w1, bitmapLength, maxNumElems, numAvail, nextAvail);
      assert LinkedIn(doNotDestroy, numAvail, maxNumElems, inPool);
    }

    /** `bitmap[q] |= 1L << r` in `allocate()`: the cached free element
        `bitmapIdx`, in word `q = bitmapIdx >>> 6` at bit `r = bitmapIdx & 63`,
        is marked handed out. */
    method MarkTaken(bitmapIdx: int)
      requires Valid() && elemSize != 0 && numAvail != 0 && bitmapIdx == nextAvail
      modifies bitmap
      ensures bitmapIdx !in old(Occupied()) && Occupied() == old(Occupied()) + {bitmapIdx}
      ensures 0 <= numAvail - 1 <= maxNumElems && |Occupied()| == maxNumElems - (numAvail - 1)
    {
      var q := bitmapIdx / 64;
      var r := bitmapIdx % 64;
      assert !IsSet(bitmapIdx);
      ghost var v := OccupancySet(bitmap[..], bitmapLength, maxNumElems, bitmapIdx);
      bitmap[q] := bitmap[q] + Pow2(r);
      assert bitmap[..] == old(bitmap[..])[q := v];
      CountTaken(old(bitmap[..]), bitmap[..], bitmapLength, maxNumElems, numAvail, bitmapIdx);
    }

    /** `free(bitmapIdx)`: give element `bitmapIdx` back. The answer is
        whether the slab is still in use: false only when its last element
        came back while it already had a free one, which also ends its life
        and unlinks it. A slab that was full relinks itself and caches the
        returned element. */
    method Free(bitmapIdx: int) returns (inUse: bool)
      requires Valid()
      requires elemSize != 0 ==> bitmapIdx in Occupied()
      modifies this`numAvail, this`nextAvail, this`doNotDestroy, this`inPool, bitmap
      ensures Valid()
      ensures old(elemSize) == 0 ==> inUse && unchanged(this, bitmap)
      ensures old(elemSize) != 0 ==>
                Occupied() == old(Occupied()) - {bitmapIdx}
                && numAvail == old(numAvail) + 1
                && nextAvail == (if old(numAvail) == 0 then bitmapIdx else old(nextAvail))
                && inUse == (old(numAvail) == 0 || numAvail < maxNumElems)
                && doNotDestroy == inUse
                && inPool == inUse
    {
      if elemSize == 0 {
        return true;
      }
      MarkFree(bitmapIdx);
      var wasFull := numAvail == 0;
      numAvail := numAvail + 1;
      if wasFull {
        nextAvail := bitmapIdx;
        AddToPool();
        return true;
      }
      assert nextAvail !in old(Occupied()) && nextAvail !in Occupied();
      if numAvail < maxNumElems {
        return true;
      } else {
        doNotDestroy := false;
        RemoveFromPool();
        return false;
      }
    }

    /** `bitmap[q] ^= 1L << r` in `free(bitmapIdx)`: the handed-out element
        `bitmapIdx`, in word `q = bitmapIdx >>> 6` at bit `r = bitmapIdx & 63`,
        is marked free. */
    method MarkFree(bitmapIdx: int)
      requires Valid() && elemSize != 0 && bitmapIdx in Occupied()
      modifies bitmap
      ensures Occupied() == old(Occupied()) - {bitmapIdx}
      ensures 0 <= numAvail + 1 <= maxNumElems && |Occupied()| == maxNumElems - (numAvail + 1)
    {
      var q := bitmapIdx / 64;
      var r := bitmapIdx % 64;
      assert IsSet(bitmapIdx);
      ghost var v := OccupancyClear(bitmap[..], bitmapLength, maxNumElems, bitmapIdx);
      bitmap[q] := bitmap[q] - Pow2(r);
      assert bitmap[..] == old(bitmap[..])[q := v];
      CountReturned(old(bitmap[..]), bitmap[..], bitmapLength, maxNumElems, numAvail, nextAvail, bitmapIdx);
    }

    /** `findNextAvailable()`: the first clear bit of `bitmap[0 ..
        bitmapLength)`, scanning each word that is not all ones from its
        lowest bit, if it is a real element; -1 otherwise. So the answer is
        the smallest free element, or -1 exactly when every element is
        handed out. */
    method FindNextAvailable() returns (next: int)
      requires Config() && 0 <= bitmapLength <= bitmap.Length
      requires 0 <= maxNumElems <= 64 * bitmapLength
      ensures next == -1 || (0 <= next < maxNumElems && !IsSet(next))
      ensures forall b | 0 <= b < maxNumElems && (next == -1 || b < next) :: IsSet(b)
    {
      var newNextAvail := -1;
      Pow2SixtyFour();
      var i := 0;
      label scan:
      while i < bitmapLength
        invariant 0 <= i <= bitmapLength && newNextAvail == -1
        invariant forall b | 0 <= b < 64 * i :: IsSet(b)
      {
        var bits: int := bitmap[i];
        if bits != Pow2(64) - 1 {
          var j := 0;
          while j < 64
            invariant 0 <= j <= 64 && bits == Shr(bitmap[i], j)
            invariant forall t | 0 <= t < j :: Bit(bitmap[i], t)
          {
            ShrStep(bitmap[i], j);
            if bits % 2 == 0 {
              newNextAvail := i * 64 + j;
              WordOf(newNextAvail, i);
              forall b | 0 <= b < newNextAvail
                ensures IsSet(b)
              {
                if b >= 64 * i { WordOf(b, i); }
              }
              break scan;
            }
            bits := bits / 2;
            j := j + 1;
          }
        } else {
          forall t | 0 <= t < 64
            ensures Bit(bitmap[i], t)
          {
            AllOnes(64, t);
          }
        }
        forall b | 64 * i <= b < 64 * (i + 1)
          ensures IsSet(b)
        {
          WordOf(b, i);
        }
        i := i + 1;
      }
      if newNextAvail < maxNumElems {
        return newNextAvail;
      } else {
        return -1;
      }
    }

    /** `toHandle(bitmapIdx)`: the slab handle of one of this page's
        elements. */
    function ToHandle(bitmapIdx: int): (handle: int)
      requires Config() && 0 <= bitmapIdx < ElementMask
      reads this
      ensures LowInt(handle) == memoryMapIdx
      ensures HighInt(handle) != 0 && HighInt(handle) % ElementMask == bitmapIdx
    {
      ToHandleDecodes(memoryMapIdx, bitmapIdx);
      Handles.ToHandle(memoryMapIdx, bitmapIdx)
    }
  }
}
