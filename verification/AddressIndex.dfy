/** Index generation for addresses (`generateIndex`): time in the top bits, randomness in the
    bottom ones, on big integers. */
module AddressIndex {
  import opened Nets

  datatype IndexError = MaskTooLarge

  /** Bitwise or of `big.Int`, in two's complement for negative numbers. */
  function Or(x: int, y: int): int
    decreases if x < 0 then -x else x
  {
    if x == 0 then y
    else if y == 0 then x
    else if x == -1 || y == -1 then -1
    else 2 * Or(x / 2, y / 2) + (if x % 2 == 1 || y % 2 == 1 then 1 else 0)
  }

  function Lsh(x: int, n: nat): int {
    x * Pow2(n)
  }

  /** `big.Int.Rem`: the remainder has the sign of the dividend. */
  function Rem(x: int, m: int): (r: int)
    requires m > 0
    ensures -m < r < m
  {
    if x >= 0 then x % m else -((-x) % m)
  }

  /** The value a Go `int64` holds after wrap-around. */
  function Int64(x: int): (r: int)
    ensures 0 <= r + HALF < 2 * HALF
  {
    (x + HALF) % (2 * HALF) - HALF
  }

  const HALF: int := 0x8000_0000_0000_0000

  function RandSize(mask: nat): nat {
    if mask < 80 then 16 else mask - 64
  }

  /** The argument of `rand.Int64N`, computed in `int64`. */
  function RandBound(mask: nat): int {
    Int64(Int64(Pow2(RandSize(mask))) - 1)
  }

  method GenerateIndex(t: int, mask: nat, r: int) returns (index: Result<int, IndexError>)
    requires mask < 128 ==> 0 <= r < RandBound(mask)
    ensures mask >= 128 ==> index == Err(MaskTooLarge)
    ensures mask < 128 ==> index == Ok(Index(t, mask, r))
  {
    if mask >= 128 {
      return Err(MaskTooLarge);
    }
    var z := t;
    var randSize := if mask - 64 > 16 then mask - 64 else 16;
    RandBoundIs(mask);
    OrShifted(z, randSize, r);
    z := Lsh(z, randSize);
    z := Or(z, r);
    z := z + r;
    z := Rem(z, Pow2(mask));
    return Ok(z);
  }

  /** The closed form of the index. */
  function Index(t: int, mask: nat, r: int): int {
    Rem(t * Pow2(RandSize(mask)) + 2 * r, Pow2(mask))
  }

  /** The index in numbers: from 80 host bits on, `mask - 64` random bits; below, 16 of them. */
  lemma IndexIs(t: nat, mask: nat, r: int)
    requires mask < 128 && Draw(mask, r)
    ensures mask >= 80 ==> Index(t, mask, r) == (t * Pow2(mask - 64) + 2 * r) % Pow2(mask)
    ensures mask < 80 ==> Index(t, mask, r) == (t * 65536 + 2 * r) % Pow2(mask)
  {
    Pow2At63();
    assert t * Pow2(RandSize(mask)) >= 0;
  }

  // ---------------------------------------------------------------- powers of two

  lemma {:induction false} Pow2Add(a: nat, b: nat)
    ensures Pow2(a + b) == Pow2(a) * Pow2(b)
  {
    if a > 0 {
      Pow2Add(a - 1, b);
    }
  }

  lemma {:induction false} Pow2Grows(a: nat, b: nat)
    requires a <= b
    ensures Pow2(a) <= Pow2(b)
    ensures a < b ==> 2 * Pow2(a) <= Pow2(b)
  {
    if a < b {
      Pow2Grows(a, b - 1);
    }
  }

  /** Or-ing a number into zeroed low bits is addition. */
  lemma {:induction false} OrShifted(x: int, s: nat, r: int)
    requires 0 <= r < Pow2(s)
    ensures Or(Lsh(x, s), r) == Lsh(x, s) + r
  {
    if s > 0 && r > 0 && Lsh(x, s) != 0 {
      var half := Lsh(x, s - 1);
      assert Lsh(x, s) == 2 * half by {
        Double(x, Pow2(s - 1));
      }
      OrShifted(x, s - 1, r / 2);
    }
  }

  lemma Double(x: int, y: int)
    ensures x * (2 * y) == 2 * (x * y)
  {
  }

  lemma Pow2At63()
    ensures Pow2(16) == 65536 && Pow2(63) == HALF
  {
    assert Pow2(16) == 65536;
    Pow2Add(16, 16);
    Pow2Add(32, 16);
    assert Pow2(15) == 32768;
    Pow2Add(48, 15);
  }

  /** The random bound never overflows into a panic: also for a 127-bit mask, where `1 << 63` is
      negative, the wrapped difference is `2^63 - 1`. */
  lemma RandBoundIs(mask: nat)
    requires mask < 128
    ensures RandBound(mask) == Pow2(RandSize(mask)) - 1 > 0
  {
    var s := RandSize(mask);
    Pow2At63();
    Pow2Grows(16, s);
    Pow2Grows(s, 63);
    Int64Minus1(Pow2(s));
  }

  lemma Int64Minus1(x: int)
    requires 0 < x <= HALF
    ensures Int64(Int64(x) - 1) == x - 1
  {
    if x == HALF {
      assert Int64(x) == -HALF;
    }
  }

  // ---------------------------------------------------------------- bounds and collisions

  ghost predicate Draw(mask: nat, r: int) {
    0 <= r <= Pow2(RandSize(mask)) - 2
  }

  /** From a clock that does not precede 1970 the index lies strictly below `2^mask`; in general
      it is negative exactly when the shifted sum is negative and not a multiple of `2^mask`. */
  lemma IndexBound(t: int, mask: nat, r: int)
    requires Draw(mask, r)
    ensures t >= 0 ==> 0 <= Index(t, mask, r) < Pow2(mask)
    ensures Index(t, mask, r) < 0 <==>
            t * Pow2(RandSize(mask)) + 2 * r < 0 && (t * Pow2(RandSize(mask)) + 2 * r) % Pow2(mask) != 0
  {
    var s, m := Pow2(RandSize(mask)), Pow2(mask);
    var v := t * s + 2 * r;
    if t >= 0 {
      assert t * s >= 0;
    }
    NegatedRemainder(v, m);
  }

  lemma NegatedRemainder(v: int, m: int)
    requires m > 0
    ensures v % m == 0 <==> (-v) % m == 0
  {
    var q, k := v / m, (-v) / m;
    assert v == q * m + v % m && -v == k * m + (-v) % m;
    if v % m == 0 {
      assert -v == (-q) * m;
      MultipleHasNoRemainder(-q, m);
    }
    if (-v) % m == 0 {
      assert v == (-k) * m;
      MultipleHasNoRemainder(-k, m);
    }
  }

  lemma MultipleHasNoRemainder(k: int, m: int)
    requires m > 0
    ensures (k * m) % m == 0
  {
    RemainderUnique(k * m, m, k, 0);
  }

  lemma RemainderUnique(v: int, m: int, q: int, r: int)
    requires m > 0 && v == q * m + r && 0 <= r < m
    ensures v % m == r && v / m == q
  {
    var d := v / m - q;
    assert d * m == r - v % m by {
      assert (v / m) * m + v % m == v;
      assert d * m == (v / m) * m - q * m;
    }
    ProductGrows(d, 1, m);
    ProductGrows(-d, 1, m);
    assert (-d) * m == -(d * m);
  }

  lemma ProductGrows(d: int, bound: int, m: int)
    requires m > 0
    ensures d >= bound ==> d * m >= bound * m
  {
    if d >= bound {
      assert (d - bound) * m >= 0;
    }
  }

  /** Two numbers have the same remainder exactly when they differ by a multiple. */
  lemma SameRemainder(a: int, b: int, m: int)
    requires m > 0
    ensures a % m == b % m <==> Multiple(a - b, m)
  {
    if a % m == b % m {
      var k := a / m - b / m;
      assert a == (a / m) * m + a % m && b == (b / m) * m + b % m;
      assert a - b == k * m;
    }
    if k :| a - b == k * m {
      assert b == (b / m) * m + b % m;
      assert a == (b / m + k) * m + b % m;
      RemainderUnique(a, m, b / m + k, b % m);
    }
  }

  /** Some draws make the indices of the two times equal. */
  ghost predicate CanCollide(t1: nat, t2: nat, mask: nat) {
    exists r1, r2 :: Draw(mask, r1) && Draw(mask, r2) && Index(t1, mask, r1) == Index(t2, mask, r2)
  }

  ghost predicate Multiple(v: int, m: int) {
    exists k :: v == k * m
  }

  /** Two indices are equal exactly when their shifted sums differ by a multiple of `2^mask`. */
  lemma EqualIndicesIff(t1: nat, t2: nat, mask: nat, r1: int, r2: int)
    requires mask < 128 && Draw(mask, r1) && Draw(mask, r2)
    ensures Index(t1, mask, r1) == Index(t2, mask, r2) <==>
            Multiple((t2 - t1) * Pow2(RandSize(mask)) + 2 * (r2 - r1), Pow2(mask))
  {
    var s := Pow2(RandSize(mask));
    var v1, v2 := t1 * s + 2 * r1, t2 * s + 2 * r2;
    assert t1 * s >= 0 && t2 * s >= 0;
    SameRemainder(v2, v1, Pow2(mask));
    assert (t2 - t1) * s == t2 * s - t1 * s;
    assert v2 - v1 == (t2 - t1) * s + 2 * (r2 - r1);
  }

  /** Exactly when two clock readings can collide for some draws: always with a mask below 16, and
      otherwise when their distance modulo the period `2^(mask - randSize)` is 0, 1 or -1. */
  lemma CollisionIff(t1: nat, t2: nat, mask: nat)
    requires mask < 128
    ensures CanCollide(t1, t2, mask) <==>
            mask < 16 || NearPeriod(t2 - t1, Pow2(if mask < 80 then mask - 16 else 64))
  {
    if mask < 16 {
      SmallMaskForgetsTime(t1, mask, 0);
      SmallMaskForgetsTime(t2, mask, 0);
      HalfRange(mask);
      assert Draw(mask, 0) && Index(t1, mask, 0) == Index(t2, mask, 0);
    } else {
      CollisionMeansNear(t1, t2, mask);
      if NearPeriod(t2 - t1, Pow2(mask - RandSize(mask))) {
        var g := (t2 - t1) % Pow2(mask - RandSize(mask));
        ShiftedRemainder(t2 - t1, Pow2(mask - RandSize(mask)));
        CollisionWitness(t1, t2, mask, if g == 0 then 0 else if g == 1 then -1 else 1);
      }
    }
  }

  /** With a mask below 16 the shifted time is a multiple of `2^mask` and drops out. */
  lemma SmallMaskForgetsTime(t: nat, mask: nat, r: int)
    requires mask < 16 && Draw(mask, r)
    ensures Index(t, mask, r) == (2 * r) % Pow2(mask)
  {
    Pow2Add(mask, RandSize(mask) - mask);
    MultipleDropsOut(t, Pow2(RandSize(mask)), Pow2(mask), Pow2(RandSize(mask) - mask), 2 * r);
  }

  lemma MultipleDropsOut(t: nat, shift: nat, m: nat, rest: nat, v: nat)
    requires m > 0 && shift == m * rest
    ensures Rem(t * shift + v, m) == v % m
  {
    assert t * shift == (t * rest) * m;
    assert t * shift >= 0;
    SameRemainder(t * shift + v, v, m);
  }

  predicate NearPeriod(g: int, period: int)
    requires period > 0
  {
    g % period == 0 || g % period == 1 || g % period == period - 1
  }

  lemma ShiftedRemainder(g: int, period: int)
    requires period > 0
    ensures g % period == 1 ==> (g - 1) % period == 0
    ensures g % period == period - 1 ==> (g + 1) % period == 0
  {
    var q := g / period;
    assert g == q * period + g % period;
    if g % period == 1 {
      RemainderUnique(g - 1, period, q, 0);
    }
    if g % period == period - 1 {
      assert (q + 1) * period == q * period + period;
      RemainderUnique(g + 1, period, q + 1, 0);
    }
  }

  lemma CollisionMeansNear(t1: nat, t2: nat, mask: nat)
    requires RandSize(mask) <= mask < 128
    ensures CanCollide(t1, t2, mask) ==> NearPeriod(t2 - t1, Pow2(mask - RandSize(mask)))
  {
    var s, period := Pow2(RandSize(mask)), Pow2(mask - RandSize(mask));
    Pow2Add(RandSize(mask), mask - RandSize(mask));
    if r1, r2 :| Draw(mask, r1) && Draw(mask, r2) && Index(t1, mask, r1) == Index(t2, mask, r2) {
      EqualIndicesIff(t1, t2, mask, r1, r2);
      CollisionDistance(t2 - t1, s, period, 2 * (r2 - r1));
    }
  }

  lemma CollisionDistance(g: int, s: int, period: int, d: int)
    requires s > 0 && period > 0 && -2 * s < d < 2 * s && Multiple(g * s + d, s * period)
    ensures NearPeriod(g, period)
  {
    var k :| g * s + d == k * (s * period);
    var e := k * period - g;
    assert k * (s * period) == (k * period) * s;
    assert e * s == (k * period) * s - g * s;
    SmallFactor(e, s);
    NearMultiple(g, period, k, e);
  }

  lemma SmallFactor(e: int, s: int)
    requires s > 0 && -2 * s < e * s < 2 * s
    ensures -1 <= e <= 1
  {
    ProductGrows(e, 2, s);
    ProductGrows(-e, 2, s);
    assert (-e) * s == -(e * s);
  }

  lemma NearMultiple(g: int, period: int, k: int, e: int)
    requires period > 0 && e == k * period - g && -1 <= e <= 1
    ensures NearPeriod(g, period)
  {
    if e == 0 {
      RemainderUnique(g, period, k, 0);
    } else if e == 1 {
      assert g == (k - 1) * period + (period - 1);
      RemainderUnique(g, period, k - 1, period - 1);
    } else if period == 1 {
      assert g % period == 0;
    } else {
      RemainderUnique(g, period, k, 1);
    }
  }

  /** Draws that differ by half the random range make up for one tick. */
  lemma CollisionWitness(t1: nat, t2: nat, mask: nat, e: int)
    requires RandSize(mask) <= mask < 128 && -1 <= e <= 1
    requires (t2 - t1 + e) % Pow2(mask - RandSize(mask)) == 0
    ensures CanCollide(t1, t2, mask)
  {
    var half: int := Pow2(RandSize(mask) - 1);
    HalfRange(mask);
    var r1: int := if e == -1 then half else 0;
    var r2: int := if e == 1 then half else 0;
    var g: int := t2 - t1;
    Pow2Add(RandSize(mask), mask - RandSize(mask));
    MultipleOfProduct(g, e, Pow2(RandSize(mask)), Pow2(mask - RandSize(mask)), 2 * (r2 - r1));
    EqualIndicesIff(t1, t2, mask, r1, r2);
    assert Draw(mask, r1) && Draw(mask, r2);
  }

  lemma HalfRange(mask: nat)
    ensures Pow2(RandSize(mask)) == 2 * Pow2(RandSize(mask) - 1) && Draw(mask, Pow2(RandSize(mask) - 1))
  {
    Pow2Grows(2, RandSize(mask));
  }

  lemma MultipleOfProduct(g: int, e: int, s: int, period: int, d: int)
    requires s > 0 && period > 0 && (g + e) % period == 0 && d == e * s
    ensures Multiple(g * s + d, s * period)
  {
    var k := (g + e) / period;
    assert g + e == k * period;
    assert (g + e) * s == g * s + e * s;
    assert (k * period) * s == k * (s * period);
    assert g * s + d == k * (s * period);
  }

  /** The window the design relies on: within it no two draws collide. */
  lemma NoCollisionInWindow(t1: nat, t2: nat, mask: nat, r1: int, r2: int)
    requires 16 <= mask < 128 && Draw(mask, r1) && Draw(mask, r2)
    requires 2 <= t2 - t1 <= Pow2(if mask < 80 then mask - 16 else 64) - 2
    ensures Index(t1, mask, r1) != Index(t2, mask, r2)
  {
    var period := Pow2(mask - RandSize(mask));
    RemainderUnique(t2 - t1, period, 0, t2 - t1);
    assert !NearPeriod(t2 - t1, period);
    CollisionIff(t1, t2, mask);
  }

  /** With at least 80 host bits nothing wraps for an `int64` clock, so the index grows with time
      at any gap of at least two ticks. */
  lemma IndexGrows(t1: nat, t2: nat, mask: nat, r1: int, r2: int)
    requires 80 <= mask < 128 && Draw(mask, r1) && Draw(mask, r2)
    requires t1 + 2 <= t2 < HALF
    ensures 0 <= Index(t1, mask, r1) < Index(t2, mask, r2) < Pow2(mask)
  {
    IndexExact(t1, mask, r1);
    IndexExact(t2, mask, r2);
    SumGrows(t1, t2, Pow2(RandSize(mask)), r1, r2);
  }

  lemma SumGrows(t1: int, t2: int, s: int, r1: int, r2: int)
    requires 0 <= t1 && t1 + 2 <= t2 && 0 <= r1 <= s - 2 && 0 <= r2
    ensures 0 <= t1 * s + 2 * r1 < t2 * s + 2 * r2
  {
    ProductGrows(t2, t1 + 2, s);
    assert (t1 + 2) * s == t1 * s + 2 * s;
    assert t1 * s >= 0;
  }

  lemma IndexExact(t: nat, mask: nat, r: int)
    requires 80 <= mask < 128 && Draw(mask, r) && t < HALF
    ensures 0 <= t * Pow2(mask - 64) + 2 * r < Pow2(mask)
    ensures Index(t, mask, r) == t * Pow2(mask - 64) + 2 * r
  {
    var s, rest: nat := Pow2(RandSize(mask)), mask - RandSize(mask);
    Pow2Of64(rest);
    Pow2Add(RandSize(mask), rest);
    SumBelow(t, HALF, s, r);
    RemOfSmall(t * s + 2 * r, Pow2(mask));
  }

  lemma RemOfSmall(v: int, m: int)
    requires 0 <= v < m
    ensures Rem(v, m) == v
  {
    RemainderUnique(v, m, 0, v);
  }

  lemma SumBelow(t: int, half: int, s: int, r: int)
    requires 0 <= t < half && 0 <= r <= s - 2
    ensures 0 <= t * s + 2 * r < s * (2 * half)
  {
    ProductGrows(half, t + 1, s);
    assert (t + 1) * s == t * s + s;
    ProductGrows(half, 1, s);
    assert s * (2 * half) == half * s + half * s;
    assert t * s >= 0;
  }

  lemma Pow2Of64(n: nat)
    requires n == 64
    ensures Pow2(n) == 2 * HALF
  {
    Pow2At63();
    assert Pow2(n) == 2 * Pow2(n - 1);
  }
}
