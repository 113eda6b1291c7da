/**
 What the fractions chosen by src/gainmap.rs (float_to_unsigned_fraction) are worth: when a fraction is
 refused, when a numerator keeps to its range, and that for every f32 the answer exists, keeps to
 both ranges and is near.
 */
module FractionAnswers {
  import opened Words
  import opened Arithmetic
  import opened Divisibility
  import opened ContinuedFraction

  // ----- fractions whose expansion ends within the turns of the loop -----

  /** The expansion ends at the k-th convergent. */
  ghost predicate EndsAt(v: real, k: nat) {
    Active(v, k) && Rem(v, k) == 0.0
  }

  lemma UnitFactor(n: nat, d: nat, p: int, q: int, a: nat)
    requires Gcd(n, d) == 1 && n == p * a && d == q * a
    ensures a == 1
  {
    var x, y := Bezout(n, d);
    assert n * x + d * y == a * (p * x + q * y);
    UnitProduct(a, p * x + q * y);
  }

  lemma UnitProduct(a: nat, m: int)
    requires a * m == 1
    ensures a == 1
  {
    if a >= 2 {
      if m >= 1 {
        MulMonotone(a, 1, m);
      } else {
        MulMonotone(a, m, 0);
      }
    }
  }

  /** The last convergent of a reduced fraction is the fraction. */
  lemma LastConvergent(v: real, n: nat, d: nat, k: nat)
    requires IsFraction(v, n, d) && Gcd(n, d) == 1 && EndsAt(v, k)
    ensures Q(v, k) == d && P(v, k) == n
  {
    hide Rem, Q, P, QBefore, PBefore, Gcd;
    var a, b := RationalSteps(v, n, d, k);
    assert b == 0;
    UnitFactor(n, d, P(v, k), Q(v, k), a);
  }

  /** A reduced fraction that the loop can reach is refused exactly when it is at most one and its numerator is out of range. */
  lemma RefusedIff(v: real, maxNumerator: U32, n: nat, d: nat, k: nat)
    requires InRange(v, maxNumerator) && IsFraction(v, n, d) && Gcd(n, d) == 1
    requires EndsAt(v, k) && k < MAX_ITER && d <= U32_MAX
    ensures Approximate(v, maxNumerator).None? <==> v <= 1.0 && n > maxNumerator
  {
    hide Approximate, Q, P, Rem, Gcd, Approximates;
    LastConvergent(v, n, d, k);
    if v <= 1.0 && n > maxNumerator {
      assert RefusedAt(v, maxNumerator, k);
      ApproximateCorrect(v, maxNumerator);
    } else {
      Accepts(v, maxNumerator, n, d);
    }
  }

  /** The first end of an expansion that ends before the k-th convergent. */
  lemma {:induction false} FindEnd(v: real, k: nat) returns (j: nat)
    requires !Active(v, k)
    ensures j < k && EndsAt(v, j)
  {
    hide Rem;
    if k >= 1 && Active(v, k - 1) {
      j := k - 1;
    } else {
      assert k >= 1;
      j := FindEnd(v, k - 1);
    }
  }

  /** The same, told from the fraction alone: its denominator is below the fortieth Fibonacci number. */
  lemma SmallFractionRefusedIff(v: real, maxNumerator: U32, n: nat, d: nat)
    requires InRange(v, maxNumerator) && IsFraction(v, n, d) && Gcd(n, d) == 1
    requires d < Fib(MAX_ITER + 1) && d <= U32_MAX
    ensures Approximate(v, maxNumerator).None? <==> v <= 1.0 && n > maxNumerator
  {
    hide Approximate, Q, Rem, Fib, Gcd, IsFraction;
    if Active(v, MAX_ITER) {
      QGrows(v, MAX_ITER);
      DenominatorBound(v, n, d, MAX_ITER);
    } else {
      var k := FindEnd(v, MAX_ITER);
      RefusedIff(v, maxNumerator, n, d, k);
    }
  }

  // ----- the range of the numerator -----

  /** All turns are used, and the last convergent, which the loop does not test, leaves the numerator range. */
  ghost predicate Overruns(v: real, maxNumerator: U32) {
    && InRange(v, maxNumerator) && Active(v, MAX_ITER) && Q(v, MAX_ITER) <= MaxDenominator(v, maxNumerator)
    && Scale(Q(v, MAX_ITER), v) >= maxNumerator as real + 0.5
  }

  lemma RoundAtMost(x: real, m: int)
    ensures Round(x) <= m <==> x < m as real + 0.5
  {
  }

  /** Before the turns run out the multiple of v was tested against the numerator range. */
  lemma TestedInRange(v: real, maxNumerator: U32, k: nat)
    requires Approximate(v, maxNumerator).Some? && k < MAX_ITER && Active(v, k)
    requires InRange(v, maxNumerator) && Q(v, k) <= MaxDenominator(v, maxNumerator)
    ensures Scale(Q(v, k), v) <= maxNumerator as real
  {
    hide Approximate, Q, Rem, MaxDenominator, Scale;
    ApproximateCorrect(v, maxNumerator);
    assert !RefusedAt(v, maxNumerator, k);
  }

  /** With a convergent beyond the turns still allowed, the loop uses all of them. */
  lemma MustExhaust(v: real, maxNumerator: U32, k: nat, n: int, d: int)
    requires v >= 0.0 && Active(v, MAX_ITER) && Q(v, MAX_ITER) <= MaxDenominator(v, maxNumerator)
    requires ExactAt(v, k, n, d) || CappedAt(v, maxNumerator, k, n, d) || ExhaustedAt(v, k, n, d)
    ensures ExhaustedAt(v, k, n, d)
  {
    hide Q, Rem, MaxDenominator, Scale, Round;
    if k < MAX_ITER {
      assert Rem(v, k) > 0.0;
      ActiveBefore(v, MAX_ITER, k);
      NotYetInteger(v, k, n);
      QMonotone(v, k + 1, MAX_ITER);
    }
  }

  /** The numerator keeps to its range exactly when the turns do not run out on a number that leaves it. */
  lemma NumeratorInRangeIff(v: real, maxNumerator: U32)
    requires Approximate(v, maxNumerator).Some?
    ensures var (n, d) := Approximate(v, maxNumerator).value;
            0 <= n && (n <= maxNumerator <==> !Overruns(v, maxNumerator))
  {
    hide Approximate, Q, Rem, MaxDenominator, Scale, Round, RefusedAt;
    ApproximateCorrect(v, maxNumerator);
    var (n, d) := Approximate(v, maxNumerator).value;
    var k := HowStopped(v, maxNumerator, n, d);
    RoundAtMost(Scale(d, v), maxNumerator);
    if Overruns(v, maxNumerator) {
      MustExhaust(v, maxNumerator, k, n, d);
    } else if k < MAX_ITER {
      ActiveBefore(v, if CappedAt(v, maxNumerator, k, n, d) then k + 1 else k, k);
      TestedInRange(v, maxNumerator, k);
      NearestOfExact(v, k, n, d);
    }
  }

  lemma NearestOfExact(v: real, k: nat, n: int, d: int)
    ensures ExactAt(v, k, n, d) ==> n == Round(Scale(d, v))
  {
    hide Q, Rem, Active, Round;
    RoundOfInteger(n);
  }

  // ----- the numbers that an f32 can be -----

  function Pow2(e: nat): nat {
    if e == 0 then 1 else 2 * Pow2(e - 1)
  }

  const MANTISSA_LIMIT := 0x100_0000

  /** A 24-bit mantissa times or over a power of two: every finite non-negative f32 is one. */
  ghost predicate IsF32(v: real) {
    exists m: nat, e: nat :: m < MANTISSA_LIMIT && ScaledMantissa(v, m, e)
  }

  ghost predicate ScaledMantissa(v: real, m: nat, e: nat) {
    v == (m * Pow2(e)) as real || v * Pow2(e) as real == m as real
  }

  lemma {:induction false} Pow2Positive(e: nat)
    ensures Pow2(e) >= 1
  {
    if e > 0 {
      Pow2Positive(e - 1);
    }
  }

  /** Such a number is an integer, or a fraction with a 24-bit numerator. */
  lemma F32Fraction(v: real) returns (n: nat, d: nat)
    requires IsF32(v)
    ensures IsFraction(v, n, d) && (n < MANTISSA_LIMIT || d == 1)
  {
    hide Pow2;
    var m: nat, e: nat :| m < MANTISSA_LIMIT && ScaledMantissa(v, m, e);
    Pow2Positive(e);
    if v == (m * Pow2(e)) as real {
      n, d := m * Pow2(e), 1;
    } else {
      n, d := m, Pow2(e);
    }
  }

  /** Convergent numerators grow like the Fibonacci numbers too. */
  lemma {:induction false} PGrows(v: real, k: nat)
    requires Active(v, k) && v >= 0.0
    ensures P(v, k) >= Fib(k) && PBefore(v, k) >= if k == 0 then 1 else Fib(k - 1)
  {
    hide Rem, Quotient;
    if k >= 1 {
      PGrows(v, k - 1);
      RemStep(v, k);
      MulAtLeast(Quotient(v, k), P(v, k - 1));
    }
  }

  /** Convergent numerators of n/d never exceed n. */
  lemma NumeratorBound(v: real, n: nat, d: nat, k: nat)
    requires IsFraction(v, n, d) && Active(v, k) && v >= 0.0
    ensures P(v, k) <= n
  {
    hide Rem, Q, QBefore, P, PBefore, Fib;
    var a, b := RationalSteps(v, n, d, k);
    PGrows(v, k);
    MulAtLeast(a, P(v, k));
    MulNonnegative(PBefore(v, k), b);
  }

  lemma MulNonnegative(x: int, y: nat)
    requires x >= 0
    ensures x * y >= 0
  {
  }

  lemma FibValues()
    ensures Fib(36) == 14_930_352 && Fib(37) == 24_157_817 && Fib(38) == 39_088_169
    ensures Fib(39) == 63_245_986 && Fib(40) == 102_334_155 && Fib(41) == 165_580_141
  {
    assert Fib(10) == 55 && Fib(11) == 89;
    assert Fib(20) == 6_765 && Fib(21) == 10_946;
    assert Fib(30) == 832_040 && Fib(31) == 1_346_269;
    assert Fib(34) == 5_702_887 && Fib(35) == 9_227_465;
  }

  /** The expansion of an f32 ends within the turns of the loop. */
  lemma F32EndsInTime(v: real, n: nat, d: nat)
    requires IsFraction(v, n, d) && (n < MANTISSA_LIMIT || d == 1) && v >= 0.0
    ensures !Active(v, MAX_ITER)
  {
    hide Rem, Q, P, Fib, IsFraction;
    if Active(v, MAX_ITER) {
      FibValues();
      PGrows(v, MAX_ITER);
      QGrows(v, MAX_ITER);
      NumeratorBound(v, n, d, MAX_ITER);
      DenominatorBound(v, n, d, MAX_ITER);
    }
  }

  /** n/d is v, or misses it by less than one over d times the cap on denominators. */
  ghost predicate Near(v: real, maxNumerator: U32, n: int, d: int)
    requires v >= 0.0
  {
    Scale(d, v) == n as real || -1.0 < Times(Scale(d, v) - n as real, MaxDenominator(v, maxNumerator) as real) < 1.0
  }

  /**
   The loop on the inputs it has: an f32 is refused exactly out of range, all other f32 get a fraction
   within both ranges that is exact or near.
   */
  lemma F32Approximation(v: real, maxNumerator: U32)
    requires IsF32(v) && v >= 0.0 && maxNumerator >= MANTISSA_LIMIT - 1
    ensures Approximate(v, maxNumerator).Some? <==> v <= maxNumerator as real
    ensures Approximate(v, maxNumerator).Some? ==>
              var (n, d) := Approximate(v, maxNumerator).value;
              && 0 <= n <= maxNumerator && 1 <= d <= MaxDenominator(v, maxNumerator)
              && Near(v, maxNumerator, n, d)
  {
    hide Approximate, Q, Rem, MaxDenominator, Scale, Round, Times, RefusedAt, IsF32;
    var n0, d0 := F32Fraction(v);
    F32EndsInTime(v, n0, d0);
    ApproximateCorrect(v, maxNumerator);
    if v <= maxNumerator as real {
      F32NumeratorFits(v, maxNumerator, n0, d0);
      Accepts(v, maxNumerator, n0, d0);
      NumeratorInRangeIff(v, maxNumerator);
      var (n, d) := Approximate(v, maxNumerator).value;
      var k := HowStopped(v, maxNumerator, n, d);
      if CappedAt(v, maxNumerator, k, n, d) {
        CappedError(v, maxNumerator, k, n, d);
      }
    }
  }

  lemma F32NumeratorFits(v: real, maxNumerator: U32, n: nat, d: nat)
    requires IsFraction(v, n, d) && (n < MANTISSA_LIMIT || d == 1)
    requires v <= maxNumerator as real && maxNumerator >= MANTISSA_LIMIT - 1
    ensures n <= maxNumerator
  {
  }

  // ----- a number that is no f32 -----

  /** Denominator after k more turns of Euclid's algorithm. */
  function EuclidQ(a: nat, b: nat, q: int, qp: int, k: nat): int
    decreases k
  {
    if k == 0 || b == 0 then q else EuclidQ(b, a % b, (a / b) * q + qp, q, k - 1)
  }

  /** Euclid's algorithm has k more turns. */
  predicate EuclidLasts(a: nat, b: nat, k: nat)
    decreases k
  {
    k == 0 || (b > 0 && EuclidLasts(b, a % b, k - 1))
  }

  lemma {:induction false} EuclidRuns(v: real, n: nat, d: nat, j: nat, a: nat, b: nat, k: nat)
    requires Active(v, j) && Euclid(v, n, d, j, a, b) && EuclidLasts(a, b, k)
    ensures Active(v, j + k) && Q(v, j + k) == EuclidQ(a, b, Q(v, j), QBefore(v, j), k)
    decreases k
  {
    hide Rem, Q, QBefore, P, PBefore, Quotient;
    if k > 0 {
      RemPositive(v, n, d, j, a, b);
      StillActive(v, j);
      var a1, b1 := EuclidStep(v, n, d, j + 1, a, b);
      EuclidRem(v, j + 1, a, b);
      QStep(v, j + 1);
      EuclidRuns(v, n, d, j + 1, a1, b1, k - 1);
    }
  }

  lemma RemPositive(v: real, n: nat, d: nat, k: nat, a: nat, b: nat)
    requires Euclid(v, n, d, k, a, b) && b > 0
    ensures Rem(v, k) > 0.0 && Rem(v, k) * a as real == b as real
  {
    hide Rem, Q, P;
  }

  lemma QStep(v: real, k: nat)
    requires k >= 1
    ensures Q(v, k) == Quotient(v, k) * Q(v, k - 1) + QBefore(v, k - 1) && QBefore(v, k) == Q(v, k - 1)
  {
  }

  // Two turns with the quotients 1 and 74, then quotients of 1 from the Fibonacci numbers 41 and 40 on.
  const OVERRUN_NUMERATOR := 12_355_264_589
  const OVERRUN_DENOMINATOR := 12_520_844_730
  const OVERRUN := OVERRUN_NUMERATOR as real / OVERRUN_DENOMINATOR as real

  /** Fibonacci neighbours divide with quotient one, down the sequence. */
  lemma {:induction false} FibonacciTurns(t: nat, q: int, qp: int, k: nat)
    requires k + 2 <= t
    ensures EuclidLasts(Fib(t + 1), Fib(t), k)
    ensures EuclidQ(Fib(t + 1), Fib(t), q, qp, k) == q * Fib(k + 1) + qp * Fib(k)
    decreases k
  {
    hide Fib;
    FibStart();
    if k > 0 {
      hide EuclidQ, EuclidLasts;
      FibRatio(t);
      FibStep(k);
      EuclidTurn(Fib(t + 1), Fib(t), q, qp, k);
      FibonacciTurns(t - 1, q + qp, q, k - 1);
      SumTimes(q, qp, Fib(k), Fib(k - 1));
    }
  }

  lemma FibStart()
    ensures Fib(0) == 0 && Fib(1) == 1
  {
  }

  lemma FibStep(t: nat)
    requires t >= 1
    ensures Fib(t + 1) == Fib(t) + Fib(t - 1)
  {
  }

  lemma FibRatio(t: nat)
    requires t >= 3
    ensures Fib(t) > 0 && Fib(t + 1) / Fib(t) == 1 && Fib(t + 1) % Fib(t) == Fib(t - 1)
  {
    hide Fib;
    FibIncreases(t - 1);
    FibStep(t);
    DivModUnique(Fib(t + 1), Fib(t), 1, Fib(t - 1));
  }

  lemma EuclidTurn(a: nat, b: nat, q: int, qp: int, k: nat)
    requires b > 0 && k > 0
    ensures EuclidLasts(a, b, k) == EuclidLasts(b, a % b, k - 1)
    ensures EuclidQ(a, b, q, qp, k) == EuclidQ(b, a % b, (a / b) * q + qp, q, k - 1)
  {
  }

  lemma SumTimes(q: int, qp: int, f: int, g: int)
    ensures (q + qp) * f + q * g == q * (f + g) + qp * f
  {
  }

  lemma {:induction false} FibIncreases(t: nat)
    requires t >= 2
    ensures 0 < Fib(t) < Fib(t + 1)
  {
    if t > 2 {
      FibIncreases(t - 1);
    }
  }

  /** k + 2 turns on the two terms of the number: two by hand, the others among Fibonacci numbers. */
  lemma OverrunTurns(k: nat)
    requires k <= 37
    ensures EuclidLasts(OVERRUN_DENOMINATOR, OVERRUN_NUMERATOR, k + 2)
    ensures EuclidQ(OVERRUN_DENOMINATOR, OVERRUN_NUMERATOR, 1, 0, k + 2) == 75 * Fib(k + 1) + Fib(k)
  {
    hide Fib;
    FibValues();
    FibonacciTurns(40, 75, 1, k);
    assert EuclidQ(OVERRUN_NUMERATOR, Fib(41), 1, 1, k + 1) == EuclidQ(Fib(41), Fib(40), 75, 1, k);
  }

  lemma OverrunTrace()
    ensures Active(OVERRUN, 39) && Q(OVERRUN, 38) == 1_826_766_627 && Q(OVERRUN, 39) == 2_955_770_492
  {
    hide Rem, Q, QBefore, P, PBefore, Active, Euclid, EuclidQ, EuclidLasts, Fib;
    var n, d := OVERRUN_NUMERATOR, OVERRUN_DENOMINATOR;
    FibValues();
    OverrunTurns(36);
    OverrunTurns(37);
    NothingYet(OVERRUN);
    EuclidStart(OVERRUN, n, d);
    EuclidRuns(OVERRUN, n, d, 0, d, n, 38);
    EuclidRuns(OVERRUN, n, d, 0, d, n, 39);
  }

  lemma NothingYet(v: real)
    ensures Active(v, 0) && Q(v, 0) == 1 && QBefore(v, 0) == 0
  {
  }

  /** A number below one that uses all turns: its numerator is above i32::MAX, unlike that of any f32. */
  lemma OverrunExample()
    ensures Overruns(OVERRUN, I32_MAX) && Approximate(OVERRUN, I32_MAX) == Some((2_916_682_323, 2_955_770_492))
  {
    hide Rem, Q, QBefore, Active, Approximate;
    OverrunTrace();
    ApproximateCorrect(OVERRUN, I32_MAX);
    forall k: nat
      ensures !RefusedAt(OVERRUN, I32_MAX, k)
    {
      if k < MAX_ITER {
        ActiveBefore(OVERRUN, 39, 38);
        QMonotone(OVERRUN, k, 38);
      }
    }
    var (n, d) := Approximate(OVERRUN, I32_MAX).value;
    var k := HowStopped(OVERRUN, I32_MAX, n, d);
    MustExhaust(OVERRUN, I32_MAX, k, n, d);
  }
}
