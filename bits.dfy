/** Integer models of the Java bit arithmetic the pooled allocator relies on.

    Java `int` and `long` bit patterns are modelled as Dafny integers: a left
    shift by a constant is a multiplication by a power of two, an unsigned right
    shift (`>>>`) of a non-negative value is a division, and a single bit of a
    64-bit `long` word (taken as its unsigned value in [0, 2^64)) is read with
    `Bit`. */
module Bits {

  /** `1 << n`. */
  function Pow2(n: nat): (p: nat)
    ensures p >= 1
  {
    if n == 0 then 1 else 2 * Pow2(n - 1)
  }

  lemma {:induction false} Pow2Add(a: nat, b: nat)
    ensures Pow2(a + b) == Pow2(a) * Pow2(b)
  {
    if a > 0 {
      Pow2Add(a - 1, b);
      assert Pow2(a + b) == 2 * Pow2(a - 1 + b);
    }
  }

  lemma {:induction false} Pow2Succ(n: nat)
    ensures Pow2(n + 1) == 2 * Pow2(n)
  {
  }

  lemma {:induction false} Pow2Split(n: nat, a: nat)
    requires a <= n
    ensures Pow2(n) == Pow2(n - a) * Pow2(a)
  {
    Pow2Add(n - a, a);
  }

  lemma {:induction false} Pow2Monotone(a: nat, b: nat)
    requires a <= b
    ensures Pow2(a) <= Pow2(b)
    ensures a < b ==> 2 * Pow2(a) <= Pow2(b)
  {
    if a < b {
      Pow2Monotone(a, b - 1);
    }
  }

  /** `1 << 10`, the smallest page size. */
  lemma {:induction false} Pow2Ten()
    ensures Pow2(10) == 1024
  {
    assert Pow2(2) == 4;
    Pow2Add(2, 2);
    Pow2Add(4, 4);
    Pow2Add(8, 2);
  }

  /** `1 << 30`, the largest chunk size. */
  lemma {:induction false} Pow2Thirty()
    ensures Pow2(30) == 0x4000_0000
  {
    Pow2Ten();
    Pow2Add(10, 10);
    Pow2Add(20, 10);
  }

  /** `2^64`: one more than the all-ones `long`, `~0L`, taken unsigned. */
  lemma {:induction false} Pow2SixtyFour()
    ensures Pow2(64) == 0x1_0000_0000_0000_0000
  {
    Pow2Thirty();
    assert Pow2(2) == 4;
    Pow2Add(30, 2);
    Pow2Add(32, 32);
  }

  /** `n` is a positive power of two: exactly one bit of `n` is set. */
  predicate IsPow2(n: int)
    decreases if n < 0 then 0 else n
  {
    n >= 1 && (n == 1 || (n % 2 == 0 && IsPow2(n / 2)))
  }

  /** The position of the highest set bit of a positive `n`. */
  function Log2(n: int): nat
    requires n >= 1
  {
    if n == 1 then 0 else 1 + Log2(n / 2)
  }

  lemma {:induction false} Pow2IsPow2(k: nat)
    ensures IsPow2(Pow2(k)) && Log2(Pow2(k)) == k
  {
    if k > 0 {
      Pow2IsPow2(k - 1);
      assert Pow2(k) / 2 == Pow2(k - 1);
    }
  }

  lemma {:induction false} IsPow2Log2(n: int)
    requires IsPow2(n)
    ensures Pow2(Log2(n)) == n
  {
    if n > 1 {
      IsPow2Log2(n / 2);
    }
  }

  /** Of two powers of two, the smaller is at most half the larger. */
  lemma {:induction false} Pow2Below(a: int, b: int)
    requires IsPow2(a) && IsPow2(b) && a < b
    ensures 2 * a <= b
  {
    var la, lb := Log2(a), Log2(b);
    IsPow2Log2(a);
    IsPow2Log2(b);
    if lb <= la {
      Pow2Monotone(lb, la);
      assert false;
    }
    Pow2Monotone(la, lb);
  }

  // ---------------------------------------------------------------------
  // Multiplication and division facts the solver needs spelled out.

  lemma {:induction false} MulMonotone(a: int, b: int, d: int)
    requires d >= 0 && a <= b
    ensures a * d <= b * d
  {
    assert b * d - a * d == (b - a) * d;
  }

  lemma {:induction false} MulLeftMonotone(k: int, a: int, b: int)
    requires k >= 0 && a <= b
    ensures k * a <= k * b
  {
    assert k * b - k * a == k * (b - a);
  }

  /** Multiples of `p` below `n * p`: `x * p` and the next one lie in
      [0, n * p]. */
  lemma {:induction false} MulBounds(x: int, p: int, n: int)
    requires 0 <= x < n && 0 <= p
    ensures 0 <= x * p && x * p + p <= n * p
  {
    MulMonotone(0, x, p);
    MulMonotone(x + 1, n, p);
  }

  lemma {:induction false} MulAssoc(a: int, b: int, c: int)
    ensures a * (b * c) == (a * b) * c
  { }

  lemma {:induction false} MulAdd(a: int, b: int, d: int)
    ensures (a + b) * d == a * d + b * d
  {
  }

  /** Scaling by `d >= 0` keeps `[o, o + p)` inside `[0, n)`. */
  lemma {:induction false} MulWithin(o: int, p: int, n: int, d: int)
    requires 0 <= o && 0 <= p && o + p <= n && 0 <= d
    ensures 0 <= o * d && o * d + p * d <= n * d
  {
    MulMonotone(0, o, d);
    MulMonotone(o + p, n, d);
    MulAdd(o, p, d);
  }

  /** Rounding down to a multiple of `d` never goes up. */
  lemma {:induction false} DivFloor(x: int, d: int)
    requires d > 0
    ensures (x / d) * d <= x
  {
    assert x == (x / d) * d + x % d;
  }

  lemma {:induction false} MulSucc(k: int, d: int)
    ensures (k + 1) * d == k * d + d
  {
  }

  lemma {:induction false} MulCancelLess(k: int, n: int, d: int)
    requires d > 0 && k * d < n * d
    ensures k < n
  {
    if k >= n { MulMonotone(n, k, d); }
  }

  lemma {:induction false} DivMul(q: int, d: int)
    requires d > 0
    ensures (q * d) / d == q && (q * d) % d == 0
  {
    var x := q * d;
    var t := x / d;
    assert x == t * d + x % d;
    assert (q - t) * d == x % d;
    if q - t >= 1 { MulMonotone(1, q - t, d); }
    if q - t <= -1 { MulMonotone(q - t, -1, d); }
  }

  /** Dividing by more gives less. */
  lemma {:induction false} DivByMore(x: int, a: int, b: int)
    requires 0 <= x && 0 < a <= b
    ensures 0 <= x / b <= x / a
  {
    var q := x / b;
    DivLowerBound(x, b, 0);
    assert x == q * b + x % b;
    MulLeftMonotone(q, a, b);
    DivLowerBound(x, a, q);
  }

  lemma {:induction false} DivLowerBound(x: int, d: int, k: int)
    requires d > 0 && k * d <= x
    ensures k <= x / d
  {
    var t := x / d;
    assert x == t * d + x % d;
    if t < k { MulMonotone(t + 1, k, d); }
  }

  lemma {:induction false} DivUpperBound(x: int, d: int, k: int)
    requires d > 0 && x < k * d
    ensures x / d < k
  {
    var t := x / d;
    assert x == t * d + x % d;
    if t >= k { MulMonotone(k, t, d); }
  }

  // ---------------------------------------------------------------------
  // Single bits of a word.

  /** Bit `r` of `w`: `(w >>> r & 1) != 0`. */
  predicate Bit(w: nat, r: nat)
  {
    if r == 0 then w % 2 == 1 else Bit(w / 2, r - 1)
  }

  /** `w >>> n`. */
  function Shr(w: nat, n: nat): nat
  {
    if n == 0 then w else Shr(w / 2, n - 1)
  }

  /** Shifting one position further halves the shifted word, and its lowest
      bit is the bit at the shift position. */
  lemma {:induction false} ShrStep(w: nat, n: nat)
    ensures Shr(w, n + 1) == Shr(w, n) / 2
    ensures Bit(w, n) == (Shr(w, n) % 2 == 1)
  {
    if n > 0 {
      ShrStep(w / 2, n - 1);
    }
  }

  /** `(1 << n) >>> i` is `1 << (n - i)` for a shift within the exponent. */
  lemma {:induction false} ShrPow2(n: nat, i: nat)
    requires i <= n
    ensures Shr(Pow2(n), i) == Pow2(n - i)
  {
    if i > 0 {
      assert Pow2(n) / 2 == Pow2(n - 1);
      ShrPow2(n - 1, i - 1);
    }
  }

  /** No bit at or above position `r` is set in a word below `2^r`. */
  lemma {:induction false} BitsAbove(w: nat, r: nat, s: nat)
    requires w < Pow2(r) && r <= s
    ensures !Bit(w, s)
  {
    if r == 0 {
      NoBitsInZero(s);
    } else {
      BitsAbove(w / 2, r - 1, s - 1);
    }
  }

  lemma {:induction false} NoBitsInZero(s: nat)
    ensures !Bit(0, s)
  {
    if s > 0 { NoBitsInZero(s - 1); }
  }

  /** Every bit below `n` of `2^n - 1` (all ones, `~0L` for n = 64) is set. */
  lemma {:induction false} AllOnes(n: nat, j: nat)
    requires j < n
    ensures Bit(Pow2(n) - 1, j)
  {
    if j > 0 {
      assert (Pow2(n) - 1) / 2 == Pow2(n - 1) - 1;
      AllOnes(n - 1, j - 1);
    }
  }

  /** `w | 1 << r` when bit `r` of `w` is clear is `w + 2^r`: it sets bit `r`
      and no other, and a word below `2^n` stays below `2^n`. */
  lemma {:induction false} SetBit(w: nat, r: nat, s: nat, n: nat)
    requires !Bit(w, r) && w < Pow2(n) && r < n
    ensures Bit(w + Pow2(r), s) == (s == r || Bit(w, s))
    ensures w + Pow2(r) < Pow2(n)
  {
    if r == 0 {
      if s != 0 { assert (w + 1) / 2 == w / 2; }
    } else {
      assert (w + Pow2(r)) / 2 == w / 2 + Pow2(r - 1);
      SetBit(w / 2, r - 1, if s == 0 then 0 else s - 1, n - 1);
    }
  }

  /** `w ^ 1 << r` when bit `r` of `w` is set is `w - 2^r`: it clears bit `r`
      and no other. */
  lemma {:induction false} ClearBit(w: nat, r: nat, s: nat)
    requires Bit(w, r)
    ensures w >= Pow2(r)
    ensures Bit(w - Pow2(r), s) == (s != r && Bit(w, s))
  {
    if r == 0 {
      if s != 0 { assert (w - 1) / 2 == w / 2; }
    } else {
      ClearBit(w / 2, r - 1, if s == 0 then 0 else s - 1);
      assert (w - Pow2(r)) / 2 == w / 2 - Pow2(r - 1);
    }
  }
}
