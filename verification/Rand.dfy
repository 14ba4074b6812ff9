/**
 The linear congruential generator behind rand(): `rseed = (rseed * 1103515245 + 12345) & RAND_MAX`
 on 32-bit unsigned integers. Masking with RAND_MAX, one less than a power of two, is written as a
 remainder.
 */
module Rand {
  import opened Machine

  const MULTIPLIER: nat := 1103515245
  const INCREMENT: nat := 12345
  const RAND_MAX: nat := 0x7FFF_FFFF

  function Step(r: nat): (x: nat) {
    ((r * MULTIPLIER) % UINT32 + INCREMENT) % UINT32 % (RAND_MAX + 1)
  }

  /** The state after `n` calls of rand(). */
  function Iterate(seed: nat, n: nat): (x: nat) {
    if n == 0 then seed else Step(Iterate(seed, n - 1))
  }

  /** The first numbers for the seeds 0 and 1, which fix the two constants. */
  lemma FirstNumbers()
    ensures Iterate(0, 1) == 12345 && Iterate(1, 1) == 1103527590 && Iterate(0, 2) == 1406932606
  {
    hide Step;
    NumberAfter(0, 12345);
    NumberAfter(1, 1103527590);
    NumberAfter(12345, 1406932606);
    assert Iterate(0, 0) == 0 && Iterate(1, 0) == 1;
  }

  lemma NumberAfter(r: nat, x: nat)
    requires x < 0x8000_0000 && (r * 1103515245 + 12345 - x) % 0x8000_0000 == 0
    ensures Step(r) == x
  {
    hide Step;
    StepIsAffine(r);
    QuotientIs(r * 1103515245 + 12345, (r * 1103515245 + 12345 - x) / 0x8000_0000, x, 0x8000_0000);
  }

  ghost predicate Multiple(n: int, m: nat)
    requires m > 0
  {
    exists q :: n == q * m
  }

  // ---------------------------------------------------------------------------
  // Powers of two
  // ---------------------------------------------------------------------------

  /** An odd factor contributes nothing to divisibility by a power of two. */
  lemma {:induction false} OddCancels(x: int, o: int, k: nat)
    requires o % 2 == 1
    ensures Multiple(x * o, Pow2(k)) <==> Multiple(x, Pow2(k))
    decreases k
  {
    if k == 0 {
      MultipleOfOne(x);
      MultipleOfOne(x * o);
    } else if x % 2 == 1 {
      OddTimesOdd(x, o);
      OddNotMultiple(x, k);
      OddNotMultiple(x * o, k);
    } else {
      var y := x / 2;
      assert x * o == 2 * (y * o) by {
        assert x == 2 * y;
      }
      OddCancels(y, o, k - 1);
      DoubleMultiple(y, k - 1);
      DoubleMultiple(y * o, k - 1);
    }
  }

  lemma MultipleOfOne(x: int)
    ensures Multiple(x, Pow2(0))
  {
    assert x == x * Pow2(0);
  }

  lemma OddNotMultiple(x: int, k: nat)
    requires x % 2 == 1 && k > 0
    ensures !Multiple(x, Pow2(k))
  {
    forall q
      ensures x != q * Pow2(k)
    {
      assert q * Pow2(k) == 2 * (q * Pow2(k - 1));
    }
  }

  lemma OddTimesOdd(x: int, o: int)
    requires x % 2 == 1 && o % 2 == 1
    ensures (x * o) % 2 == 1
  {
    var a, b := x / 2, o / 2;
    assert x * o == 2 * (2 * a * b + a + b) + 1;
  }

  /** Doubling on both sides: `2^(k+1)` divides `2x` exactly when `2^k` divides `x`. */
  lemma DoubleMultiple(x: int, k: nat)
    ensures Multiple(2 * x, Pow2(k + 1)) <==> Multiple(x, Pow2(k))
  {
    if Multiple(x, Pow2(k)) {
      var q :| x == q * Pow2(k);
      assert 2 * x == q * Pow2(k + 1);
    }
    if Multiple(2 * x, Pow2(k + 1)) {
      var q :| 2 * x == q * Pow2(k + 1);
      assert x == q * Pow2(k);
    }
  }

  lemma MultipleIsRemainder(n: int, m: nat)
    requires m > 0
    ensures Multiple(n, m) <==> n % m == 0
  {
    if n % m == 0 {
      assert n == (n / m) * m;
    }
    if Multiple(n, m) {
      var q :| n == q * m;
      QuotientIs(n, q, 0, m);
    }
  }

  lemma SameRemainder(a: int, b: int, m: nat)
    requires m > 0
    ensures a % m == b % m <==> Multiple(a - b, m)
  {
    if a % m == b % m {
      assert a - b == (a / m - b / m) * m;
    }
    if Multiple(a - b, m) {
      var q :| a - b == q * m;
      assert a == (q + b / m) * m + b % m by {
        assert b == (b / m) * m + b % m;
        assert (q + b / m) * m == q * m + (b / m) * m;
      }
      QuotientIs(a, q + b / m, b % m, m);
    }
  }

  // ---------------------------------------------------------------------------
  // The sum 1 + a + ... + a^(n-1) of powers of the multiplier
  // ---------------------------------------------------------------------------

  function Power(n: nat): (p: nat) {
    if n == 0 then 1 else MULTIPLIER * Power(n - 1)
  }

  function PowerSum(n: nat): (s: nat) {
    if n == 0 then 0 else MULTIPLIER * PowerSum(n - 1) + 1
  }

  lemma {:induction false} PowerIsOneModFour(n: nat)
    ensures Power(n) % 4 == 1
  {
    if n > 0 {
      PowerIsOneModFour(n - 1);
    }
  }

  lemma {:induction false} PowerSumParity(n: nat)
    ensures PowerSum(n) % 2 == n % 2
  {
    if n > 0 {
      PowerSumParity(n - 1);
      ParityStep(PowerSum(n - 1), n);
    }
  }

  lemma ParityStep(s: int, n: int)
    requires s % 2 == (n - 1) % 2
    ensures (MULTIPLIER * s + 1) % 2 == n % 2
  {
    EvenShift(MULTIPLIER * s + 1, n, 551757622 * s + s / 2 - (n - 1) / 2);
  }

  lemma EvenShift(a: int, b: int, q: int)
    requires a == b + 2 * q
    ensures a % 2 == b % 2
  {
  }

  lemma {:induction false} PowerSumAdds(m: nat, n: nat)
    ensures PowerSum(m + n) == PowerSum(m) + Power(m) * PowerSum(n)
  {
    if m > 0 {
      PowerSumAdds(m - 1, n);
      assert PowerSum(m + n) == MULTIPLIER * PowerSum(m - 1 + n) + 1;
      AddStep(MULTIPLIER, PowerSum(m - 1), Power(m - 1), PowerSum(n));
    }
  }

  lemma AddStep(a: nat, x: nat, p: nat, s: nat)
    ensures a * (x + p * s) + 1 == (a * x + 1) + (a * p) * s
  {
  }

  lemma Factored(s: nat, p: nat, o: nat)
    requires p + 1 == 2 * o
    ensures s + p * s == 2 * (s * o)
  {
  }

  /** The sum of the first `n` powers is divisible by `2^k` exactly when `n` is. */
  lemma {:induction false} PowerSumDivisible(n: nat, k: nat)
    ensures Multiple(PowerSum(n), Pow2(k)) <==> Multiple(n, Pow2(k))
    decreases k
  {
    hide *;
    if k == 0 {
      MultipleOfOne(PowerSum(n));
      MultipleOfOne(n);
    } else if n % 2 == 1 {
      PowerSumParity(n);
      OddNotMultiple(n, k);
      OddNotMultiple(PowerSum(n), k);
    } else {
      var m := n / 2;
      assert n == m + m;
      PowerSumAdds(m, m);
      PowerIsOneModFour(m);
      var o := (Power(m) + 1) / 2;
      Factored(PowerSum(m), Power(m), o);
      DoubleMultiple(PowerSum(m) * o, k - 1);
      OddCancels(PowerSum(m), o, k - 1);
      PowerSumDivisible(m, k - 1);
      DoubleMultiple(m, k - 1);
    }
  }

  // ---------------------------------------------------------------------------
  // The period
  // ---------------------------------------------------------------------------

  /** The recurrence without the reduction modulo 2^31. */
  function Unreduced(x: nat, n: nat): (r: nat) {
    if n == 0 then x else MULTIPLIER * Unreduced(x, n - 1) + INCREMENT
  }

  lemma {:induction false} UnreducedClosed(x: nat, n: nat)
    ensures Unreduced(x, n) == x + PowerSum(n) * (x * (MULTIPLIER - 1) + INCREMENT)
  {
    if n > 0 {
      UnreducedClosed(x, n - 1);
      ClosedStep(x, MULTIPLIER, INCREMENT, PowerSum(n - 1), x * (MULTIPLIER - 1) + INCREMENT);
    }
  }

  lemma ClosedStep(x: nat, a: nat, c: nat, s: nat, q: int)
    requires q == x * (a - 1) + c
    ensures a * (x + s * q) + c == x + (a * s + 1) * q
  {
  }

  lemma StepIsAffine(r: nat)
    ensures Step(r) == (MULTIPLIER * r + INCREMENT) % (RAND_MAX + 1)
  {
    var p, m := r * MULTIPLIER, RAND_MAX + 1;
    ModuloDivisor(p % UINT32 + INCREMENT, m, 2);
    assert p % UINT32 + INCREMENT - (p + INCREMENT) == (-2 * (p / UINT32)) * m;
    SameRemainder(p % UINT32 + INCREMENT, p + INCREMENT, m);
  }

  lemma {:induction false} IterateIsUnreduced(seed: nat, n: nat)
    ensures Iterate(seed, n) % (RAND_MAX + 1) == Unreduced(seed, n) % (RAND_MAX + 1)
  {
    hide Step;
    if n > 0 {
      IterateIsUnreduced(seed, n - 1);
      StepIsAffine(Iterate(seed, n - 1));
      AffineModulo(Iterate(seed, n - 1), Unreduced(seed, n - 1));
    }
  }

  lemma AffineModulo(a: nat, b: nat)
    requires a % (RAND_MAX + 1) == b % (RAND_MAX + 1)
    ensures (MULTIPLIER * a + INCREMENT) % (RAND_MAX + 1) == (MULTIPLIER * b + INCREMENT) % (RAND_MAX + 1)
  {
    var m := RAND_MAX + 1;
    SameRemainder(a, b, m);
    var q :| a - b == q * m;
    assert MULTIPLIER * a + INCREMENT - (MULTIPLIER * b + INCREMENT) == (MULTIPLIER * q) * m;
    SameRemainder(MULTIPLIER * a + INCREMENT, MULTIPLIER * b + INCREMENT, m);
  }

  lemma RangeIsPow2()
    ensures Pow2(31) == RAND_MAX + 1
  {
    WordsArePow2();
  }

  lemma ModuloDivisor(x: int, d: nat, e: nat)
    requires d > 0 && e > 0
    ensures (x % (e * d)) % d == x % d
  {
    var q := x / (e * d);
    assert x - x % (e * d) == (q * e) * d;
    SameRemainder(x, x % (e * d), d);
  }

  /**
   Full period of the low bits: from any seed and for every k up to 31, the low k bits return to
   their starting value after n calls exactly when 2^k divides n.
   */
  lemma LowBitsPeriod(seed: nat, n: nat, k: nat)
    requires k <= 31
    ensures Iterate(seed, n) % Pow2(k) == seed % Pow2(k) <==> n % Pow2(k) == 0
  {
    hide *;
    IterateIsUnreduced(seed, n);
    RangeIsPow2();
    Pow2Splits(31, k);
    ModuloDivisor(Iterate(seed, n), Pow2(k), Pow2(31 - k));
    ModuloDivisor(Unreduced(seed, n), Pow2(k), Pow2(31 - k));
    SameRemainder(Unreduced(seed, n), seed, Pow2(k));
    UnreducedClosed(seed, n);
    OddOffset(seed);
    OddCancels(PowerSum(n), seed * (MULTIPLIER - 1) + INCREMENT, k);
    PowerSumDivisible(n, k);
    MultipleIsRemainder(n, Pow2(k));
  }

  lemma OddOffset(seed: nat)
    ensures (seed * (MULTIPLIER - 1) + INCREMENT) % 2 == 1
  {
    assert seed * (MULTIPLIER - 1) == 2 * (551757622 * seed);
  }

  lemma {:induction false} IterateAdds(seed: nat, i: nat, n: nat)
    ensures Iterate(seed, i + n) == Iterate(Iterate(seed, i), n)
  {
    if n > 0 {
      IterateAdds(seed, i, n - 1);
      assert Iterate(seed, i + n) == Step(Iterate(seed, i + (n - 1)));
    }
  }

  /** Between any two calls the state repeats exactly after multiples of 2^31 calls. */
  lemma StatePeriod(seed: nat, i: nat, n: nat)
    requires i > 0
    ensures Iterate(seed, i + n) == Iterate(seed, i) <==> n % (RAND_MAX + 1) == 0
  {
    hide *;
    IterateAdds(seed, i, n);
    LowBitsPeriod(Iterate(seed, i), n, 31);
    RangeIsPow2();
    InRange(seed, i);
    InRange(seed, i + n);
    SmallRemainder(Iterate(seed, i), Pow2(31));
    SmallRemainder(Iterate(seed, i + n), Pow2(31));
  }

  lemma SmallRemainder(x: nat, m: nat)
    requires x < m
    ensures x % m == x
  {
  }

  lemma NoRepeat(seed: nat, i: nat, n: nat)
    requires 0 < i < n <= RAND_MAX + 1
    ensures Iterate(seed, i) != Iterate(seed, n)
  {
    hide *;
    StatePeriod(seed, i, n - i);
    SmallRemainder(n - i, RAND_MAX + 1);
  }

  lemma InRange(seed: nat, n: nat)
    requires n > 0
    ensures Iterate(seed, n) <= RAND_MAX
  {
  }

  ghost function UpTo(n: nat): (u: set<nat>)
    ensures |u| == n && forall v :: v in u <==> 0 <= v < n
  {
    if n == 0 then {} else UpTo(n - 1) + {n - 1}
  }

  ghost function Outputs(seed: nat, n: nat): (o: set<nat>) {
    if n == 0 then {} else Outputs(seed, n - 1) + {Iterate(seed, n)}
  }

  lemma {:induction false} OutputAt(seed: nat, n: nat, v: nat) returns (i: nat)
    requires v in Outputs(seed, n)
    ensures 1 <= i <= n && Iterate(seed, i) == v
  {
    hide Iterate;
    if v == Iterate(seed, n) {
      i := n;
    } else {
      i := OutputAt(seed, n - 1, v);
    }
  }

  /** No value repeats within 2^31 consecutive outputs. */
  lemma {:induction false} OutputsDistinct(seed: nat, n: nat)
    requires n <= RAND_MAX + 1
    ensures |Outputs(seed, n)| == n && forall v :: v in Outputs(seed, n) ==> 0 <= v <= RAND_MAX
  {
    hide Iterate;
    if n > 0 {
      OutputsDistinct(seed, n - 1);
      InRange(seed, n);
      if Iterate(seed, n) in Outputs(seed, n - 1) {
        var i := OutputAt(seed, n - 1, Iterate(seed, n));
        NoRepeat(seed, i, n);
      }
    }
  }

  /** From any seed, the first 2^31 outputs are each value from 0 to RAND_MAX exactly once. */
  lemma {:induction false} EveryValueOnce(seed: nat, v: nat) returns (n: nat)
    requires v <= RAND_MAX
    ensures 1 <= n <= RAND_MAX + 1 && Iterate(seed, n) == v
    ensures forall i :: 1 <= i <= RAND_MAX + 1 && Iterate(seed, i) == v ==> i == n
  {
    hide *;
    var N := RAND_MAX + 1;
    OutputsDistinct(seed, N);
    EqualSize(Outputs(seed, N), UpTo(N));
    n := OutputAt(seed, N, v);
    forall i | 1 <= i <= N && Iterate(seed, i) == v
      ensures i == n
    {
      if i < n {
        NoRepeat(seed, i, n);
      } else if i > n {
        NoRepeat(seed, n, i);
      }
    }
  }

  lemma EqualSize<T>(a: set<T>, b: set<T>)
    requires a <= b && |a| == |b|
    ensures a == b
  {
    assert b == a + (b - a);
  }

  // ---------------------------------------------------------------------------
  // The generator
  // ---------------------------------------------------------------------------

  function UintFrom(r: nat, lb: nat, ub: nat): (x: nat)
    requires (ub - lb + 1) % UINT32 != 0
  {
    (lb + r % ((ub - lb + 1) % UINT32)) % UINT32
  }

  class Generator {
    var rseed: nat
    ghost var seed: nat
    ghost var calls: nat

    /** The state is what `calls` steps make of the seed. */
    ghost predicate Valid()
      reads this
    {
      rseed < UINT32 && rseed == Iterate(seed, calls)
    }

    constructor ()
      ensures Valid() && seed == 0 && calls == 0
    {
      rseed, seed, calls := 0, 0, 0;
    }

    method Srand(x: nat)
      requires x < UINT32
      modifies this
      ensures Valid() && seed == x && calls == 0
    {
      rseed, seed, calls := x, x, 0;
    }

    method Rand() returns (r: nat)
      requires Valid()
      modifies this
      ensures Valid() && seed == old(seed) && calls == old(calls) + 1
      ensures r == Iterate(seed, calls) && r <= RAND_MAX
    {
      rseed := ((rseed * MULTIPLIER) % UINT32 + INCREMENT) % UINT32 % (RAND_MAX + 1);
      calls := calls + 1;
      r := rseed;
    }

    /** The bounds must not span all 2^32 values: the source then divides by zero. */
    method RandUint(lb: nat, ub: nat) returns (x: nat)
      requires Valid() && lb < UINT32 && ub < UINT32 && (ub - lb + 1) % UINT32 != 0
      modifies this
      ensures Valid() && seed == old(seed) && calls == old(calls) + 1
      ensures x == UintFrom(Iterate(seed, calls), lb, ub)
      ensures lb <= ub ==> lb <= x <= ub
    {
      hide UintFrom, Iterate;
      var r := Rand();
      x := UintFrom(r, lb, ub);
      if lb <= ub {
        UintValue(r, lb, ub);
      }
    }

    /**
     The span and the sum must fit an int, as the source computes them in one, and the span is not zero. With the bounds
     the wrong way round the remainder by a negative span is still not negative, so the result lies
     above the lower bound.
     */
    method RandInt(lb: int, ub: int) returns (x: int)
      requires Valid() && -0x8000_0000 <= lb < 0x8000_0000 && -0x8000_0000 <= ub < 0x8000_0000
      requires -0x8000_0000 <= ub - lb + 1 < 0x8000_0000 && ub - lb + 1 != 0
      requires ub < lb ==> 2 * lb - ub - 1 <= 0x8000_0000
      modifies this
      ensures Valid() && seed == old(seed) && calls == old(calls) + 1
      ensures lb <= ub ==> lb <= x <= ub && Multiple(lb + Iterate(seed, calls) - x, ub - lb + 1)
      ensures ub < lb ==> lb <= x < 2 * lb - ub - 1 && Multiple(lb + Iterate(seed, calls) - x, lb - ub - 1)
    {
      hide Iterate;
      var r := Rand();
      var span := ub - lb + 1;
      x := lb + r % span;
      assert lb + r - x == (r / span) * span == (-(r / span)) * (-span);
    }
  }

  /** Which values randuint can return: all of [lb, ub], except those more than RAND_MAX above lb. */
  lemma {:induction false} UintReaches(seed: nat, lb: nat, ub: nat, v: nat)
    requires lb <= v <= ub < UINT32 && ub - lb + 1 < UINT32
    ensures (exists n: nat :: n > 0 && UintFrom(Iterate(seed, n), lb, ub) == v) <==> v - lb <= RAND_MAX
  {
    hide *;
    if v - lb <= RAND_MAX {
      var n := EveryValueOnce(seed, v - lb);
      UintValue(Iterate(seed, n), lb, ub);
      assert n > 0 && UintFrom(Iterate(seed, n), lb, ub) == v;
    } else {
      forall n: nat | n > 0
        ensures UintFrom(Iterate(seed, n), lb, ub) != v
      {
        InRange(seed, n);
        UintValue(Iterate(seed, n), lb, ub);
      }
    }
  }

  lemma UintValue(r: nat, lb: nat, ub: nat)
    requires lb <= ub < UINT32 && ub - lb + 1 < UINT32
    ensures lb <= UintFrom(r, lb, ub) <= ub && UintFrom(r, lb, ub) <= lb + r
    ensures r <= ub - lb ==> UintFrom(r, lb, ub) == lb + r
  {
    var span := ub - lb + 1;
    SmallRemainder(span, UINT32);
    var rest := r % span;
    assert rest <= r by {
      assert r == (r / span) * span + rest;
    }
    if r <= ub - lb {
      SmallRemainder(r, span);
    }
    SmallRemainder(lb + rest, UINT32);
  }
}
