/** The validation that fixes a chunk's geometry before any chunk exists:
    the page size must be a power of two of at least 4096 bytes, the tree
    depth at most 14 and the chunk (`pageSize << maxOrder`) at most 2^30
    bytes. Alongside, the trailing-zero count and the scenario that builds
    one memory map from validated values.

    Validation failures (`IllegalArgumentException`) are the `Invalid`
    outcome. Arguments are Java ints; only the doubling of the chunk size can
    leave the int range, and it is written out in two's complement. */
module BufferConfig {
  import opened Bits
  import opened Handles
  import opened MemoryMap

  /** A validator's outcome: the computed value, or the exception. */
  datatype Outcome = Ok(value: int) | Invalid

  /** `MAX_CHUNK_SIZE`, `(int) (((long) Integer.MAX_VALUE + 1) / 2)`. */
  const MaxChunkSize: int := 0x4000_0000

  /** The smallest page size the validator accepts. */
  const MinPageSize: int := 4096

  predicate IsInt(x: int)
  {
    -0x8000_0000 <= x < 0x8000_0000
  }

  /** `x << 1` on a Java int. */
  function Shl1(x: int): (r: int)
    requires IsInt(x)
    ensures IsInt(r)
    ensures -0x4000_0000 <= x < 0x4000_0000 ==> r == 2 * x
  {
    Wrap32((2 * x) % 0x1_0000_0000)
  }

  // ---------------------------------------------------------------------
  // Powers of two.

  lemma {:induction false} IsPow2Double(x: int)
    requires x >= 1
    ensures IsPow2(2 * x) <==> IsPow2(x)
    ensures IsPow2(x) ==> Log2(2 * x) == 1 + Log2(x)
  {
    assert (2 * x) / 2 == x;
  }

  /** An odd number above 1 has a second set bit. */
  lemma {:induction false} OddNotPow2(x: int)
    requires x >= 1 && x % 2 == 1
    ensures IsPow2(x) <==> x == 1
  {
  }

  /** `v` is `m * 2^r` with `m` odd. */
  ghost predicate TrailingZeros(v: int, r: nat)
  {
    v % Pow2(r) == 0 && (v / Pow2(r)) % 2 == 1
  }

  /** Below `r2` trailing zeros the quotient is still even. */
  lemma {:induction false} EvenQuotient(v: int, r1: nat, r2: nat)
    requires r1 < r2 && v % Pow2(r2) == 0
    ensures v % Pow2(r1) == 0 && (v / Pow2(r1)) % 2 == 0
  {
    var q, h := v / Pow2(r2), Pow2(r2 - r1 - 1);
    Pow2Split(r2, r1);
    assert Pow2(r2 - r1) == 2 * h;
    assert v == q * Pow2(r2);
    EvenMultiple(v, q, h, Pow2(r1));
  }

  lemma {:induction false} EvenMultiple(v: int, q: int, h: int, b: int)
    requires b > 0 && v == q * ((2 * h) * b)
    ensures v % b == 0 && (v / b) % 2 == 0
  {
    var m := 2 * (q * h);
    assert v == m * b;
    DivMul(m, b);
  }

  /** The trailing-zero count of a power of two is its log. */
  lemma {:induction false} TrailingZerosPow2(k: nat, r: nat)
    requires TrailingZeros(Pow2(k), r)
    ensures r == k
  {
    if r < k {
      DivMul(1, Pow2(k));
      EvenQuotient(Pow2(k), r, k);
      assert false;
    } else if r > k {
      Pow2Monotone(k, r);
      ModSmall(Pow2(k), Pow2(r));
      assert false;
    }
  }

  /** The trailing-zero count is determined by the value. */
  lemma {:induction false} TrailingZerosUnique(v: int, r1: nat, r2: nat)
    requires TrailingZeros(v, r1) && TrailingZeros(v, r2)
    ensures r1 == r2
  {
    if r1 < r2 {
      EvenQuotient(v, r1, r2);
      assert false;
    } else if r2 < r1 {
      EvenQuotient(v, r2, r1);
      assert false;
    }
  }

  lemma {:induction false} ModSmall(x: int, d: int)
    requires 0 <= x < d
    ensures x % d == x
  {
  }

  /** One more halving of an even multiple of `2^s`. */
  lemma {:induction false} HalveStep(v: int, i: int, s: nat)
    requires v == i * Pow2(s) && i % 2 == 0
    ensures v == (i / 2) * Pow2(s + 1)
  {
    assert i == 2 * (i / 2);
  }

  /** `v == i * 2^s` with `i` odd: `s` trailing zeros. */
  lemma {:induction false} OddFactor(v: int, i: int, s: nat)
    requires v == i * Pow2(s) && i % 2 == 1
    ensures TrailingZeros(v, s)
  {
    DivMul(i, Pow2(s));
  }

  // ---------------------------------------------------------------------
  // The validators.

  /** `calculateShifts(val)`: the number of trailing zero bits of `val`, 0
      for 0. `i >>= 1` of the even `i` is an exact halving. */
  method CalculateShifts(val: int) returns (shifts: nat)
    ensures val == 0 ==> shifts == 0
    ensures val != 0 ==> TrailingZeros(val, shifts)
    ensures IsPow2(val) ==> shifts == Log2(val)
  {
    shifts := 0;
    var i := val;
    while i != 0 && i % 2 == 0
      invariant val == i * Pow2(shifts)
      invariant val == 0 <==> i == 0
      invariant val == 0 ==> shifts == 0
      decreases if i < 0 then -i else i
    {
      HalveStep(val, i, shifts);
      i := i / 2;
      shifts := shifts + 1;
    }
    if val != 0 {
      OddFactor(val, i, shifts);
      if IsPow2(val) {
        IsPow2Log2(val);
        TrailingZerosPow2(Log2(val), shifts);
      }
    }
  }

  /** `validateAndCalculatePageShifts(pageSize)`: rejects a page size below
      4096 or with a second set bit, and otherwise counts the zero bits below
      the single one. */
  method ValidateAndCalculatePageShifts(pageSize: int) returns (r: Outcome)
    ensures r.Ok? <==> pageSize >= MinPageSize && IsPow2(pageSize)
    ensures r.Ok? ==> r.value >= 0 && Pow2(r.value) == pageSize && r.value == Log2(pageSize)
  {
    if pageSize < MinPageSize {
      return Invalid;
    }
    var found1 := false;
    var pageShifts: nat := 0;
    var i := pageSize;
    while i != 0
      invariant !found1 ==> i >= 1 && (IsPow2(pageSize) <==> IsPow2(i))
                            && (IsPow2(i) ==> Log2(pageSize) == pageShifts + Log2(i))
      invariant found1 ==> i >= 0 && (IsPow2(pageSize) <==> i == 0)
                           && (IsPow2(pageSize) ==> Log2(pageSize) == pageShifts)
      decreases i
    {
      if i % 2 != 0 {
        OddNotPow2(i);
        if !found1 {
          found1 := true;
        } else {
          return Invalid;
        }
      } else {
        if !found1 {
          IsPow2Double(i / 2);
          pageShifts := pageShifts + 1;
        }
      }
      i := i / 2;
    }
    IsPow2Log2(pageSize);
    return Ok(pageShifts);
  }

  /** `validateAndCalculateChunkSize(pageSize, maxOrder)`: rejects a depth
      above 14, then doubles `pageSize` `maxOrder` times, rejecting before
      any doubling of a size above `MAX_CHUNK_SIZE / 2`. */
  method ValidateAndCalculateChunkSize(pageSize: int, maxOrder: int) returns (r: Outcome)
    requires IsInt(pageSize)
    ensures maxOrder > 14 ==> r == Invalid
    ensures 0 < pageSize && maxOrder <= 14 ==>
              (r.Ok? <==> maxOrder <= 0 || pageSize * Pow2(maxOrder) <= MaxChunkSize)
    ensures 0 < pageSize && r.Ok? ==>
              r.value == pageSize * Pow2(if maxOrder < 0 then 0 else maxOrder)
    ensures 0 < pageSize && r.Ok? && maxOrder >= 1 ==> r.value <= MaxChunkSize
  {
    if maxOrder > 14 {
      return Invalid;
    }
    var chunkSize := pageSize;
    ghost var steps: nat := if maxOrder < 0 then 0 else maxOrder;
    ghost var done: nat := 0;
    var i := maxOrder;
    while i > 0
      invariant done <= steps && i == maxOrder - done && (i > 0 <==> done < steps)
      invariant IsInt(chunkSize)
      invariant 0 < pageSize ==> Doubling(pageSize, done, chunkSize)
    {
      if chunkSize > MaxChunkSize / 2 {
        if 0 < pageSize {
          Doubled(pageSize, done, i);
        }
        return Invalid;
      }
      if 0 < pageSize {
        DoubleStep(pageSize, done, chunkSize);
      }
      chunkSize := Shl1(chunkSize);
      done := done + 1;
      i := i - 1;
    }
    return Ok(chunkSize);
  }

  /** `chunkSize` is `pageSize` doubled `done` times, and each doubling kept
      it within `MAX_CHUNK_SIZE`. */
  ghost predicate Doubling(pageSize: int, done: nat, chunkSize: int)
  {
    chunkSize == pageSize * Pow2(done) && (done >= 1 ==> chunkSize <= MaxChunkSize)
  }

  lemma {:induction false} DoubleStep(pageSize: int, done: nat, chunkSize: int)
    requires 0 < pageSize && Doubling(pageSize, done, chunkSize) && chunkSize <= MaxChunkSize / 2
    ensures 0 < chunkSize && Doubling(pageSize, done + 1, 2 * chunkSize)
  {
    Pow2Succ(done);
    MulMonotone(1, Pow2(done), pageSize);
  }

  /** Once `pageSize * 2^done` exceeds half the limit with `i >= 1` doublings
      to go, the full `pageSize * 2^(done + i)` exceeds the limit. */
  lemma {:induction false} Doubled(pageSize: int, done: nat, i: nat)
    requires 0 < pageSize && i >= 1 && pageSize * Pow2(done) > MaxChunkSize / 2
    ensures pageSize * Pow2(done + i) > MaxChunkSize
  {
    var x := pageSize * Pow2(done);
    Pow2Add(done, i);
    MulAssoc(pageSize, Pow2(done), Pow2(i));
    Pow2Monotone(0, i - 1);
    assert Pow2(i) == 2 * Pow2(i - 1);
    MulMonotone(2, Pow2(i), x);
  }

  /** Values both validators accept meet what the chunk constructor asks
      of its geometry: `pageShifts` of at least 10 and a chunk of at most
      `2^30` bytes. A power of two that is a Java int is at most `2^30`, so
      without doublings the page alone is in range. */
  lemma {:induction false} ValidatedGeometry(pageSize: int, pageShifts: nat, maxOrder: nat, chunkSize: int)
    requires IsInt(pageSize) && pageSize >= MinPageSize && Pow2(pageShifts) == pageSize
    requires maxOrder <= MaxOrderLimit && chunkSize == pageSize * Pow2(maxOrder)
    requires maxOrder >= 1 ==> chunkSize <= MaxChunkSize
    ensures 10 <= pageShifts && pageShifts + maxOrder <= 30
  {
    Pow2Ten();
    Pow2Thirty();
    Pow2Succ(30);
    if pageShifts < 10 {
      Pow2Monotone(pageShifts, 10);
      assert false;
    }
    Pow2Add(pageShifts, maxOrder);
    if maxOrder == 0 {
      if pageShifts > 30 {
        Pow2Monotone(31, pageShifts);
        assert false;
      }
    } else if pageShifts + maxOrder > 30 {
      Pow2Monotone(31, pageShifts + maxOrder);
      assert false;
    }
  }

  /** The geometry `test()` sets up: page size 8192, depth 11. It asserts
      that the chunk has `1 << maxOrder` pages, then fills a memory map of
      `maxSubpageAllocs << 1` entries level by level from index 1, counting
      the entries written. */
  method Test() returns (pageShifts: int, chunkSize: int, chunkSizeInPages: int, maxSubpageAllocs: int,
                         memoryMap: array<int>, totalLoop: int)
    ensures pageShifts == 13 && chunkSize == 8192 * 2048
    ensures chunkSizeInPages == maxSubpageAllocs == 2048
    ensures fresh(memoryMap) && memoryMap.Length == maxSubpageAllocs * 2
    ensures forall i | 1 <= i < memoryMap.Length :: memoryMap[i] == InitialEntry(11, i)
    ensures totalLoop == memoryMap.Length - 1
  {
    var pageSize := 8192;
    Pow2Ten();
    assert Pow2(13) == 8192;
    Pow2IsPow2(13);
    var shifts := ValidateAndCalculatePageShifts(pageSize);
    pageShifts := shifts.value;
    var maxOrder := 11;
    assert Pow2(11) == 2048;
    var size := ValidateAndCalculateChunkSize(pageSize, maxOrder);
    chunkSize := size.value;
    chunkSizeInPages := chunkSize / Pow2(pageShifts);
    maxSubpageAllocs := Pow2(maxOrder);
    memoryMap, totalLoop := Build(maxOrder, chunkSizeInPages);
  }
}
