/**
 Continued-fraction rational approximation (src/gainmap.rs, float_to_unsigned_fraction), over exact
 reals: f64 rounding is idealised and the f32 input is the number it denotes.

 The convergents are defined here by the textbook recurrences. The loop is proved to compute their
 denominators, and the error bounds follow from the convergents' identities.
 */
module ContinuedFraction {
  import opened Words
  import opened Arithmetic

  const MAX_ITER := 39

  /** Rounding half away from zero, for the non-negative values it is used on. */
  function Round(x: real): int {
    (x + 0.5).Floor
  }

  /** d times v: in the named form the lemmas can pass around without doing arithmetic on it. */
  function Scale(d: int, v: real): real {
    d as real * v
  }

  function Times(x: real, y: real): real {
    x * y
  }

  // ----- convergents of v -----

  function Inverse(r: real): real
    requires r != 0.0
  {
    1.0 / r
  }

  function Frac(x: real): (r: real)
    ensures 0.0 <= r < 1.0
  {
    x - x.Floor as real
  }

  /** Fractional part left after k quotients; zero from the point where the expansion ends. */
  function Rem(v: real, k: nat): (r: real)
    ensures 0.0 <= r < 1.0
  {
    if k == 0 then Frac(v)
    else if Rem(v, k - 1) == 0.0 then 0.0
    else Frac(Inverse(Rem(v, k - 1)))
  }

  /** The k-th partial quotient, k >= 1. */
  function Quotient(v: real, k: nat): int
    requires k >= 1
  {
    if Rem(v, k - 1) == 0.0 then 0 else Inverse(Rem(v, k - 1)).Floor
  }

  /** Denominator of the k-th convergent. */
  function Q(v: real, k: nat): int
    decreases k, 1
  {
    if k == 0 then 1 else Quotient(v, k) * Q(v, k - 1) + QBefore(v, k - 1)
  }

  function QBefore(v: real, k: nat): int
    decreases k, 0
  {
    if k == 0 then 0 else Q(v, k - 1)
  }

  /** Numerator of the k-th convergent. */
  function P(v: real, k: nat): int
    decreases k, 1
  {
    if k == 0 then v.Floor else Quotient(v, k) * P(v, k - 1) + PBefore(v, k - 1)
  }

  function PBefore(v: real, k: nat): int
    decreases k, 0
  {
    if k == 0 then 1 else P(v, k - 1)
  }

  /** The expansion does not end before the k-th quotient. */
  ghost predicate Active(v: real, k: nat) {
    forall j :: 0 <= j < k ==> Rem(v, j) > 0.0
  }

  lemma InverseFacts(r: real)
    requires 0.0 < r < 1.0
    ensures Inverse(r) > 1.0 && Inverse(r) * r == 1.0
  {
    LessCancel(1.0, Inverse(r), r);
  }

  ghost predicate Inverts(a: int, r1: real, r: real) {
    (a as real + r1) * r == 1.0
  }

  /** The quotient and the new remainder make up the inverse of the old remainder. */
  lemma RemStep(v: real, k: nat)
    requires k >= 1 && Rem(v, k - 1) > 0.0
    ensures Quotient(v, k) >= 1
    ensures Quotient(v, k) as real + Rem(v, k) == Inverse(Rem(v, k - 1))
    ensures Inverts(Quotient(v, k), Rem(v, k), Rem(v, k - 1))
  {
    hide Inverse;
    InverseFacts(Rem(v, k - 1));
  }

  lemma {:induction false} QPositive(v: real, k: nat)
    requires Active(v, k)
    ensures Q(v, k) >= 1 && QBefore(v, k) >= 0
    ensures k >= 1 ==> Q(v, k) >= QBefore(v, k)
  {
    if k >= 1 {
      hide Rem, Quotient;
      QPositive(v, k - 1);
      RemStep(v, k);
      MulAtLeast(Quotient(v, k), Q(v, k - 1));
    }
  }

  ghost predicate Unimodular(p: int, pp: int, q: int, qp: int) {
    pp * q - p * qp == 1 || pp * q - p * qp == -1
  }

  /** Neighbouring convergents differ by a unit fraction: the determinant is 1 or -1. */
  lemma {:induction false} Determinant(v: real, k: nat)
    ensures Unimodular(P(v, k), PBefore(v, k), Q(v, k), QBefore(v, k))
  {
    if k >= 1 {
      Determinant(v, k - 1);
      DeterminantStep(P(v, k - 1), PBefore(v, k - 1), Q(v, k - 1), QBefore(v, k - 1), Quotient(v, k));
    }
  }

  /** v is the fraction p/q completed by the part r of its predecessor pp/qp. */
  ghost predicate Completed(v: real, p: int, pp: int, q: int, qp: int, r: real) {
    v * (q as real + qp as real * r) == p as real + pp as real * r
  }

  /** v is the k-th convergent completed by the fraction still to come. */
  lemma {:induction false} Completes(v: real, k: nat)
    requires Active(v, k)
    ensures Completed(v, P(v, k), PBefore(v, k), Q(v, k), QBefore(v, k), Rem(v, k))
  {
    hide Completed, Rem, Quotient, Inverts;
    if k == 0 {
      CompletesFirst(v);
    } else {
      Completes(v, k - 1);
      RemStep(v, k);
      CompletesStep(v, P(v, k - 1), PBefore(v, k - 1), Q(v, k - 1), QBefore(v, k - 1), Rem(v, k - 1), Quotient(v, k), Rem(v, k));
    }
  }

  lemma CompletesFirst(v: real)
    ensures Completed(v, P(v, 0), PBefore(v, 0), Q(v, 0), QBefore(v, 0), Rem(v, 0))
  {
  }

  lemma CompletesStep(v: real, p: int, pp: int, q: int, qp: int, r: real, a: int, r1: real)
    requires r > 0.0 && Inverts(a, r1, r)
    requires Completed(v, p, pp, q, qp, r)
    ensures Completed(v, a * p + pp, p, a * q + qp, q, r1)
  {
    StepLeft(q as real, qp as real, r, a as real, r1);
    StepLeft(p as real, pp as real, r, a as real, r1);
    assert (a * q + qp) as real == a as real * q as real + qp as real;
    assert (a * p + pp) as real == a as real * p as real + pp as real;
    var left, right := (a * q + qp) as real + q as real * r1, (a * p + pp) as real + p as real * r1;
    assert (v * left) * r == v * (left * r);
    CancelReal(v * left, right, r);
  }

  /** The remainder is zero exactly when the convergent's denominator clears v. */
  lemma ExactWhenRemZero(v: real, k: nat)
    requires Active(v, k) && Rem(v, k) == 0.0
    ensures Scale(Q(v, k), v) == P(v, k) as real
  {
    Completes(v, k);
  }

  /** q*v is within one over `next` of p. */
  ghost predicate Close(v: real, p: int, q: int, next: int) {
    -1.0 <= Times(Scale(q, v) - p as real, next as real) <= 1.0
  }

  /** Distance of the k-th convergent from v, scaled by its denominator: at most one over the next denominator. */
  lemma ConvergentError(v: real, k: nat)
    requires Active(v, k + 1)
    ensures Q(v, k + 1) >= 1
    ensures Close(v, P(v, k), Q(v, k), Q(v, k + 1))
  {
    hide Rem, Quotient, P, Completed, Close, Unimodular, Inverts;
    Completes(v, k);
    Determinant(v, k);
    QPositive(v, k);
    QPositive(v, k + 1);
    RemStep(v, k + 1);
    ErrorBound(v, P(v, k), PBefore(v, k), Q(v, k), QBefore(v, k), Rem(v, k), Quotient(v, k + 1), Rem(v, k + 1), Q(v, k + 1));
  }

  lemma ErrorBound(v: real, p: int, pp: int, q: int, qp: int, r: real, a: int, r1: real, next: int)
    requires 0.0 < r < 1.0 && Inverts(a, r1, r) && r1 >= 0.0
    requires Completed(v, p, pp, q, qp, r)
    requires Unimodular(p, pp, q, qp)
    requires q >= 1 && qp >= 0 && next == a * q + qp >= 1
    ensures Close(v, p, q, next)
  {
    var s := q as real + qp as real * r;
    // The error times s is r or -r, and next * r is at most s.
    ErrorTimesScale(v, p as real, pp as real, q as real, qp as real, r, s);
    ScaledDeterminant(p, pp, q, qp, r);
    NextAsReal(a, q, qp, next);
    NextBelowScale(q as real, qp as real, r, a as real, r1, next as real, s);
    ErrorFromScale(q as real * v - p as real, s, r, next as real);
  }

  lemma ScaledDeterminant(p: int, pp: int, q: int, qp: int, r: real)
    requires Unimodular(p, pp, q, qp)
    ensures var d := (pp as real * q as real - p as real * qp as real) * r; d == r || d == -r
  {
    assert (pp * q - p * qp) as real == pp as real * q as real - p as real * qp as real;
  }

  // ----- rational inputs -----

  /** v is the fraction n/d. */
  ghost predicate IsFraction(v: real, n: nat, d: nat) {
    d >= 1 && v * d as real == n as real
  }

  /** Euclid's remainders a and b behind the k-th remainder of n/d. */
  ghost predicate Euclid(v: real, n: nat, d: nat, k: nat, a: nat, b: nat) {
    && b < a && Rem(v, k) * a as real == b as real
    && d == Q(v, k) * a + QBefore(v, k) * b
    && n == P(v, k) * a + PBefore(v, k) * b
  }

  lemma {:induction false} RationalSteps(v: real, n: nat, d: nat, k: nat) returns (a: nat, b: nat)
    requires IsFraction(v, n, d) && Active(v, k)
    ensures Euclid(v, n, d, k, a, b)
  {
    hide Euclid;
    if k == 0 {
      a, b := d, n % d;
      EuclidStart(v, n, d);
    } else {
      var a0, b0 := RationalSteps(v, n, d, k - 1);
      a, b := EuclidStep(v, n, d, k, a0, b0);
    }
  }

  lemma EuclidStart(v: real, n: nat, d: nat)
    requires IsFraction(v, n, d)
    ensures Euclid(v, n, d, 0, d, n % d)
  {
    EuclideanDivision(n, d);
    FloorUnique(v, n / d, d, n % d, n);
  }

  lemma EuclidStep(v: real, n: nat, d: nat, k: nat, a0: nat, b0: nat) returns (a: nat, b: nat)
    requires k >= 1 && Active(v, k) && Euclid(v, n, d, k - 1, a0, b0)
    ensures Euclid(v, n, d, k, a, b) && b0 > 0 && a == b0 && b == a0 % b0
  {
    hide Rem, Quotient;
    assert Rem(v, k - 1) > 0.0;
    PositiveRatio(Rem(v, k - 1), a0, b0);
    a, b := b0, a0 % b0;
    EuclideanDivision(a0, b0);
    EuclidRem(v, k, a0, b0);
    Regroup(a0, b0, a0 / b0, b, Q(v, k - 1), QBefore(v, k - 1));
    Regroup(a0, b0, a0 / b0, b, P(v, k - 1), PBefore(v, k - 1));
  }

  lemma EuclidRem(v: real, k: nat, a0: nat, b0: nat)
    requires k >= 1 && Rem(v, k - 1) > 0.0 && Rem(v, k - 1) * a0 as real == b0 as real && b0 > 0
    ensures Quotient(v, k) == a0 / b0
    ensures Rem(v, k) * b0 as real == (a0 % b0) as real
  {
    hide Rem, Quotient, Inverse;
    var r := Rem(v, k - 1);
    InverseRatio(r, a0, b0);
    EuclideanDivision(a0, b0);
    FloorUnique(Inverse(r), a0 / b0, b0, a0 % b0, a0);
    RemIsFrac(v, k);
  }

  lemma RemIsFrac(v: real, k: nat)
    requires k >= 1 && Rem(v, k - 1) > 0.0
    ensures Rem(v, k) == Inverse(Rem(v, k - 1)) - Inverse(Rem(v, k - 1)).Floor as real
    ensures Quotient(v, k) == Inverse(Rem(v, k - 1)).Floor
  {
  }

  lemma InverseRatio(r: real, a: nat, b: nat)
    requires r > 0.0 && r * a as real == b as real && b > 0
    ensures Inverse(r) * b as real == a as real
  {
    var x := Inverse(r);
    assert x * r == 1.0;
    assert x * b as real == (x * r) * a as real;
  }

  /** Convergent denominators of n/d never exceed d, so their multiples of v never exceed n. */
  lemma DenominatorBound(v: real, n: nat, d: nat, k: nat)
    requires IsFraction(v, n, d) && Active(v, k) && v >= 0.0
    ensures 1 <= Q(v, k) <= d
    ensures Scale(Q(v, k), v) <= n as real
  {
    hide Rem, Euclid, Q, P;
    var a, b := RationalSteps(v, n, d, k);
    QPositive(v, k);
    EuclidDenominator(v, n, d, k, a, b);
    BelowFraction(v, n, d, Q(v, k));
  }

  lemma EuclidDenominator(v: real, n: nat, d: nat, k: nat, a: nat, b: nat)
    requires Euclid(v, n, d, k, a, b) && Q(v, k) >= 1 && QBefore(v, k) >= 0
    ensures Q(v, k) <= d
  {
    FactorBelow(Q(v, k), a, QBefore(v, k), b, d);
  }

  lemma BelowFraction(v: real, n: nat, d: nat, q: int)
    requires IsFraction(v, n, d) && v >= 0.0 && q <= d
    ensures Scale(q, v) <= n as real
  {
    MulMonotoneReal(q as real, d as real, v);
  }

  function Fib(k: nat): nat {
    if k < 2 then k else Fib(k - 1) + Fib(k - 2)
  }

  /** Convergent denominators grow at least like the Fibonacci numbers. */
  lemma {:induction false} QGrows(v: real, k: nat)
    requires Active(v, k)
    ensures Q(v, k) >= Fib(k + 1) && QBefore(v, k) >= Fib(k)
  {
    hide Rem, Quotient;
    if k >= 1 {
      QGrows(v, k - 1);
      RemStep(v, k);
      MulAtLeast(Quotient(v, k), Q(v, k - 1));
    }
  }

  // ----- the loop -----

  function MaxDenominator(v: real, maxNumerator: U32): int
    requires v >= 0.0
  {
    if v <= 1.0 then U32_MAX else (maxNumerator as real / v).Floor
  }

  ghost predicate InRange(v: real, maxNumerator: U32) {
    0.0 <= v <= maxNumerator as real
  }

  lemma MaxDenominatorFacts(v: real, maxNumerator: U32)
    requires InRange(v, maxNumerator)
    ensures 1 <= MaxDenominator(v, maxNumerator) <= U32_MAX
    ensures v > 1.0 ==> Scale(MaxDenominator(v, maxNumerator), v) <= maxNumerator as real
  {
    if v > 1.0 {
      var x := maxNumerator as real / v;
      assert x * v == maxNumerator as real;
      LessCancel(1.0, x, v);
      if x > maxNumerator as real {
        MulMonotoneReal(maxNumerator as real, x, v);
      }
      MulMonotoneReal(x.Floor as real, x, v);
    }
  }

  /** The k-th convergent denominator is still allowed, but its multiple of v leaves the numerator range. */
  ghost predicate RefusedAt(v: real, maxNumerator: U32, k: nat) {
    && InRange(v, maxNumerator) && k < MAX_ITER && Active(v, k) && Q(v, k) <= MaxDenominator(v, maxNumerator)
    && Scale(Q(v, k), v) > maxNumerator as real
  }

  /** The zero-remainder test fired at the k-th convergent. */
  ghost predicate ExactAt(v: real, k: nat, n: int, d: int) {
    k < MAX_ITER && Active(v, k) && d == Q(v, k) && Scale(d, v) == n as real
  }

  /** The next convergent denominator would exceed the cap. */
  ghost predicate CappedAt(v: real, maxNumerator: U32, k: nat, n: int, d: int) {
    && InRange(v, maxNumerator) && k < MAX_ITER && Active(v, k + 1) && d == Q(v, k)
    && Q(v, k + 1) > MaxDenominator(v, maxNumerator) && n == Round(Scale(d, v))
  }

  /** All iterations were used. */
  ghost predicate ExhaustedAt(v: real, k: nat, n: int, d: int) {
    k == MAX_ITER && Active(v, k) && d == Q(v, k) && n == Round(Scale(d, v))
  }

  lemma RoundIsNear(x: real)
    ensures -0.5 <= x - Round(x) as real <= 0.5
  {
  }

  lemma RoundOfInteger(n: int)
    ensures Round(n as real) == n
  {
  }

  /** The answer of the loop from its k-th turn on; None when it refuses. */
  function ApproximateFrom(v: real, maxNumerator: U32, k: nat, currentV: real, d: int, previousD: int): Option<(int, int)>
    requires v >= 0.0 && k <= MAX_ITER
    decreases MAX_ITER - k
  {
    if k == MAX_ITER then Some((Round(Scale(d, v)), d))
    else if Scale(d, v) > maxNumerator as real then None
    else if Scale(d, v) == Round(Scale(d, v)) as real then Some((Round(Scale(d, v)), d))
    else if currentV == 0.0 then None
    else
      var next := Inverse(currentV);
      var newD := previousD + next.Floor * d;
      if newD > MaxDenominator(v, maxNumerator) then Some((Round(Scale(d, v)), d))
      else ApproximateFrom(v, maxNumerator, k + 1, Frac(next), newD, d)
  }

  /** The fraction chosen for v, as (numerator, denominator). */
  function Approximate(v: real, maxNumerator: U32): Option<(int, int)> {
    if v < 0.0 || v > maxNumerator as real then None
    else ApproximateFrom(v, maxNumerator, 0, Frac(v), 1, 0)
  }

  /**
   Correctness of every turn: the denominators are the true convergent denominators, and a success
   stops exactly, on the cap, or after all iterations.
   */
  lemma {:induction false} ApproximateFromCorrect(v: real, maxNumerator: U32, k: nat, currentV: real, d: int, previousD: int)
    requires k <= MAX_ITER && InRange(v, maxNumerator) && LoopState(v, k, currentV, d, previousD)
    requires 1 <= d <= MaxDenominator(v, maxNumerator)
    ensures var r := ApproximateFrom(v, maxNumerator, k, currentV, d, previousD);
            && (r.None? ==> exists j :: RefusedAt(v, maxNumerator, j))
            && (r.Some? ==> Approximates(v, maxNumerator, r.value.0, r.value.1))
    decreases MAX_ITER - k
  {
    hide Rem, Quotient, Active, LoopState, MaxDenominator, Inverse, RefusedAt, ExactAt, CappedAt, ExhaustedAt, Round,
      Approximates, Scale;
    var n := Round(Scale(d, v));
    if k == MAX_ITER {
      StateExhausted(v, maxNumerator, k, currentV, d, previousD, n);
    } else if Scale(d, v) > maxNumerator as real {
      StateRefused(v, maxNumerator, k, currentV, d, previousD);
    } else if Scale(d, v) == n as real {
      StateExact(v, maxNumerator, k, currentV, d, previousD, n);
    } else {
      StateStep(v, k, currentV, d, previousD);
      var next := Inverse(currentV);
      var newD := previousD + next.Floor * d;
      if newD > MaxDenominator(v, maxNumerator) {
        StateCapped(v, maxNumerator, k, Frac(next), d, newD, n);
      } else {
        ApproximateFromCorrect(v, maxNumerator, k + 1, Frac(next), newD, d);
      }
    }
  }

  /** Before its expansion ends, no multiple of v by a convergent denominator is an integer. */
  lemma NotYetInteger(v: real, k: nat, n: int)
    requires Active(v, k) && Rem(v, k) > 0.0
    ensures Scale(Q(v, k), v) != n as real
  {
    hide Rem, Q, QBefore, P, PBefore, Completed, Unimodular;
    Completes(v, k);
    Determinant(v, k);
    QPositive(v, k);
    BetweenIntegers(v, P(v, k), PBefore(v, k), Q(v, k), QBefore(v, k), Rem(v, k), n);
  }

  lemma BetweenIntegers(v: real, p: int, pp: int, q: int, qp: int, r: real, n: int)
    requires Completed(v, p, pp, q, qp, r) && Unimodular(p, pp, q, qp) && 0.0 < r < 1.0 && q >= 1 && qp >= 0
    ensures Scale(q, v) != n as real
  {
    var s := q as real + qp as real * r;
    ErrorTimesScale(v, p as real, pp as real, q as real, qp as real, r, s);
    ScaledDeterminant(p, pp, q, qp, r);
    ProductNonnegative(qp as real, r);
    ApartFromIntegers(q as real * v - p as real, s, r, n - p);
  }

  lemma ApartFromIntegers(e: real, s: real, r: real, m: int)
    requires (e * s == r || e * s == -r) && 0.0 < r < 1.0 <= s
    ensures e != m as real
  {
    if m >= 1 {
      MulMonotoneReal(1.0, m as real, s);
    } else if m <= -1 {
      MulMonotoneReal(m as real, -1.0, s);
    }
  }

  lemma {:induction false} QMonotone(v: real, j: nat, k: nat)
    requires j <= k && Active(v, k)
    ensures Q(v, j) <= Q(v, k)
  {
    if j < k {
      hide Rem, Q, QBefore;
      QMonotone(v, j, k - 1);
      QPositive(v, k);
      BeforeIsPrevious(v, k);
    }
  }

  lemma BeforeIsPrevious(v: real, k: nat)
    requires k >= 1
    ensures QBefore(v, k) == Q(v, k - 1)
  {
  }

  /** A convergent that leaves the numerator range while its denominator is allowed is met, and refused. */
  lemma {:induction false} RefusedFrom(v: real, maxNumerator: U32, k: nat, currentV: real, d: int, previousD: int, last: nat)
    requires RefusedAt(v, maxNumerator, last) && k <= last && LoopState(v, k, currentV, d, previousD)
    ensures ApproximateFrom(v, maxNumerator, k, currentV, d, previousD).None?
    decreases last - k
  {
    hide Rem, Quotient, Q, QBefore, Round, Scale, Inverse, MaxDenominator;
    if k < last {
      assert Rem(v, k) > 0.0;
      ActiveBefore(v, last, k);
      NotYetInteger(v, k, Round(Scale(d, v)));
      StateStep(v, k, currentV, d, previousD);
      QMonotone(v, k + 1, last);
      var next := Inverse(currentV);
      RefusedFrom(v, maxNumerator, k + 1, Frac(next), previousD + next.Floor * d, d, last);
    }
  }

  /** What the loop returns: refused exactly out of range or at a refusal point, otherwise an approximation. */
  lemma ApproximateCorrect(v: real, maxNumerator: U32)
    ensures var r := Approximate(v, maxNumerator);
            && (r.None? <==> !InRange(v, maxNumerator) || exists k :: RefusedAt(v, maxNumerator, k))
            && (r.Some? ==> InRange(v, maxNumerator) && Approximates(v, maxNumerator, r.value.0, r.value.1))
  {
    if InRange(v, maxNumerator) {
      hide ApproximateFrom, Rem, Quotient, Active, LoopState, MaxDenominator, RefusedAt, Approximates;
      MaxDenominatorFacts(v, maxNumerator);
      StateStart(v);
      ApproximateFromCorrect(v, maxNumerator, 0, Frac(v), 1, 0);
      if k :| RefusedAt(v, maxNumerator, k) {
        RefusedFrom(v, maxNumerator, 0, Frac(v), 1, 0, k);
      }
    }
  }

  /**
   The source's loop, operation by operation over exact reals. Its check of the new denominator
   against u32 can never fire and is an assertion here.
   */
  method FloatToUnsignedFraction(v: real, maxNumerator: U32) returns (ok: bool, numerator: int, denominator: int)
    ensures Approximate(v, maxNumerator) == if ok then Some((numerator, denominator)) else None
    ensures !ok <==> !InRange(v, maxNumerator) || exists k :: RefusedAt(v, maxNumerator, k)
    ensures ok ==> InRange(v, maxNumerator) && Approximates(v, maxNumerator, numerator, denominator)
  {
    ApproximateCorrect(v, maxNumerator);
    numerator, denominator := 0, 1;
    if v < 0.0 || v > maxNumerator as real {
      return false, numerator, denominator;
    }
    MaxDenominatorFacts(v, maxNumerator);
    var maxD := MaxDenominator(v, maxNumerator);
    var previousD := 0;
    var currentV := Frac(v);
    StateStart(v);
    hide Rem, Quotient, Active, LoopState, InRange, MaxDenominator, Inverse, RefusedAt, Round, Approximates, Scale;
    for k := 0 to MAX_ITER
      invariant LoopState(v, k, currentV, denominator, previousD)
      invariant 1 <= denominator <= maxD
      invariant Approximate(v, maxNumerator) == ApproximateFrom(v, maxNumerator, k, currentV, denominator, previousD)
    {
      var numDouble := Scale(denominator, v);
      if numDouble > maxNumerator as real {
        return false, numerator, denominator;
      }
      numerator := Round(numDouble);
      if numDouble - numerator as real == 0.0 {
        return true, numerator, denominator;
      }
      StateStep(v, k, currentV, denominator, previousD);
      currentV := Inverse(currentV);
      var newD := previousD + currentV.Floor * denominator;
      if newD > maxD {
        return true, numerator, denominator;
      }
      previousD := denominator;
      assert newD <= U32_MAX;
      denominator := newD;
      currentV := Frac(currentV);
    }
    numerator := Round(Scale(denominator, v));
    return true, numerator, denominator;
  }

  /** A successful answer: within the cap, nearest numerator, and one of the three ways to stop. */
  ghost predicate Approximates(v: real, maxNumerator: U32, n: int, d: int)
    requires InRange(v, maxNumerator)
  {
    && 1 <= d <= MaxDenominator(v, maxNumerator)
    && n >= 0 && -0.5 <= Scale(d, v) - n as real <= 0.5
    && exists k :: ExactAt(v, k, n, d) || CappedAt(v, maxNumerator, k, n, d) || ExhaustedAt(v, k, n, d)
  }

  /** The loop variables after k steps. */
  ghost predicate LoopState(v: real, k: nat, currentV: real, d: int, previousD: int) {
    Active(v, k) && currentV == Rem(v, k) && d == Q(v, k) && previousD == QBefore(v, k)
  }

  lemma StateStart(v: real)
    ensures LoopState(v, 0, Frac(v), 1, 0)
  {
  }

  lemma StateRefused(v: real, maxNumerator: U32, k: nat, currentV: real, d: int, previousD: int)
    requires LoopState(v, k, currentV, d, previousD) && k < MAX_ITER && InRange(v, maxNumerator)
    requires d <= MaxDenominator(v, maxNumerator) && Scale(d, v) > maxNumerator as real
    ensures RefusedAt(v, maxNumerator, k)
  {
  }

  lemma Nearest(v: real, d: int, n: int)
    requires v >= 0.0 && d >= 0 && n == Round(Scale(d, v))
    ensures n >= 0 && -0.5 <= Scale(d, v) - n as real <= 0.5
  {
    ProductNonnegative(d as real, v);
  }

  lemma StateExact(v: real, maxNumerator: U32, k: nat, currentV: real, d: int, previousD: int, n: int)
    requires LoopState(v, k, currentV, d, previousD) && k < MAX_ITER && InRange(v, maxNumerator)
    requires 1 <= d <= MaxDenominator(v, maxNumerator) && n == Round(Scale(d, v)) && Scale(d, v) == n as real
    ensures Approximates(v, maxNumerator, n, d)
  {
    hide Rem, Q, Round, MaxDenominator, Scale;
    Nearest(v, d, n);
    assert ExactAt(v, k, n, d);
  }

  /** While the multiple of v is not an integer, the next step computes the next convergent denominator. */
  lemma StateStep(v: real, k: nat, currentV: real, d: int, previousD: int)
    requires LoopState(v, k, currentV, d, previousD) && Scale(d, v) != Round(Scale(d, v)) as real
    ensures currentV > 0.0
    ensures var next := Inverse(currentV);
            && LoopState(v, k + 1, Frac(next), previousD + next.Floor * d, d)
            && previousD + next.Floor * d >= 1
  {
    hide Rem, Quotient, Round, Inverse, Scale;
    NotExactYet(v, k, d);
    RemIsFrac(v, k + 1);
    StillActive(v, k);
    QPositive(v, k + 1);
  }

  lemma StateCapped(v: real, maxNumerator: U32, k: nat, r: real, d: int, newD: int, n: int)
    requires LoopState(v, k + 1, r, newD, d) && k < MAX_ITER && InRange(v, maxNumerator)
    requires 1 <= d <= MaxDenominator(v, maxNumerator) < newD && n == Round(Scale(d, v))
    ensures Approximates(v, maxNumerator, n, d)
  {
    hide Rem, Quotient, Round, MaxDenominator, Scale;
    Nearest(v, d, n);
    assert QBefore(v, k + 1) == Q(v, k);
    assert CappedAt(v, maxNumerator, k, n, d);
  }

  lemma StateExhausted(v: real, maxNumerator: U32, k: nat, currentV: real, d: int, previousD: int, n: int)
    requires LoopState(v, k, currentV, d, previousD) && k == MAX_ITER && InRange(v, maxNumerator)
    requires 1 <= d <= MaxDenominator(v, maxNumerator) && n == Round(Scale(d, v))
    ensures Approximates(v, maxNumerator, n, d)
  {
    hide Rem, Q, Round, MaxDenominator, Scale;
    Nearest(v, d, n);
    assert ExhaustedAt(v, k, n, d);
  }

  /** Where the multiple of v is not an integer, the expansion has not ended. */
  lemma NotExactYet(v: real, k: nat, d: int)
    requires Active(v, k) && d == Q(v, k) && Scale(d, v) != Round(Scale(d, v)) as real
    ensures Rem(v, k) > 0.0
  {
    hide Rem, Q, P, Scale;
    if Rem(v, k) == 0.0 {
      ExactWhenRemZero(v, k);
      IntegerRounds(Scale(d, v), P(v, k));
    }
  }

  lemma IntegerRounds(x: real, p: int)
    requires x == p as real
    ensures Round(x) as real == x
  {
    hide Round;
    RoundOfInteger(p);
  }

  lemma StillActive(v: real, k: nat)
    requires Active(v, k) && Rem(v, k) > 0.0
    ensures Active(v, k + 1)
  {
  }

  // ----- what an answer is worth -----

  /** Stopping on the cap leaves an error below one over the cap, in units of the denominator. */
  lemma CappedError(v: real, maxNumerator: U32, k: nat, n: int, d: int)
    requires CappedAt(v, maxNumerator, k, n, d)
    ensures -1.0 < Times(Scale(d, v) - n as real, MaxDenominator(v, maxNumerator) as real) < 1.0
  {
    hide Rem, Q, P, Round, MaxDenominator, Close, Scale, Times;
    MaxDenominatorFacts(v, maxNumerator);
    ConvergentError(v, k);
    NearestBeats(Scale(d, v), P(v, k), n);
    ErrorBelowCap(v, d, P(v, k), n, Q(v, k + 1), MaxDenominator(v, maxNumerator));
  }

  /** The rounded numerator is at least as near as the convergent's own. */
  lemma NearestBeats(x: real, p: int, n: int)
    requires n == Round(x)
    ensures Abs(x - n as real) <= Abs(x - p as real)
  {
    hide Round;
    RoundIsNear(x);
    if p > n {
      assert p as real >= n as real + 1.0;
    } else if p < n {
      assert p as real <= n as real - 1.0;
    }
  }

  function Abs(x: real): real {
    if x < 0.0 then -x else x
  }

  lemma ErrorBelowCap(v: real, d: int, p: int, n: int, next: int, cap: int)
    requires Close(v, p, d, next) && next > cap >= 1
    requires Abs(Scale(d, v) - n as real) <= Abs(Scale(d, v) - p as real)
    ensures -1.0 < Times(Scale(d, v) - n as real, cap as real) < 1.0
  {
    hide Scale, Abs, Times;
    var e, f := Scale(d, v) - p as real, Scale(d, v) - n as real;
    AbsBound(f);
    AbsBound(Times(e, next as real));
    AbsBound(Times(f, cap as real));
    AbsTimes(e, next as real);
    AbsTimes(f, cap as real);
    ScaledSmaller(Abs(f), Abs(e), cap as real, next as real);
  }

  lemma AbsBound(x: real)
    ensures Abs(x) >= 0.0
    ensures Abs(x) <= 1.0 <==> -1.0 <= x <= 1.0
    ensures Abs(x) < 1.0 <==> -1.0 < x < 1.0
  {
  }

  lemma AbsTimes(x: real, y: real)
    requires y > 0.0
    ensures Times(Abs(x), y) == Abs(Times(x, y))
  {
    if x >= 0.0 {
      ProductNonnegative(x, y);
    } else {
      ProductNonnegative(-x, y);
      assert (-x) * y == -(x * y);
    }
  }

  lemma ScaledSmaller(f: real, e: real, cap: real, next: real)
    requires 0.0 <= f <= e && 1.0 <= cap < next && Times(e, next) <= 1.0
    ensures Times(f, cap) < 1.0
  {
    hide Times;
    TimesMonotone(f, e, cap);
    if e > 0.0 {
      TimesIncreasing(e, cap, next);
    } else {
      TimesZero(f, cap);
    }
  }

  lemma TimesMonotone(x: real, y: real, v: real)
    requires x <= y && v >= 0.0
    ensures Times(x, v) <= Times(y, v)
  {
    MulMonotoneReal(x, y, v);
  }

  lemma TimesIncreasing(e: real, x: real, y: real)
    requires e > 0.0 && x < y
    ensures Times(e, x) < Times(e, y)
  {
    assert e * (y - x) > 0.0;
  }

  lemma TimesZero(f: real, cap: real)
    requires f == 0.0
    ensures Times(f, cap) == 0.0
  {
  }

  /**
   No number in range is refused when it exceeds one, when the numerators go up to u32::MAX, or when
   it is a fraction whose numerator is in range. Every f32 in range is of one of these kinds.
   */
  lemma NeverRefused(v: real, maxNumerator: U32, k: nat, n: nat, d: nat)
    requires InRange(v, maxNumerator)
    requires v > 1.0 || maxNumerator == U32_MAX || (IsFraction(v, n, d) && n <= maxNumerator)
    ensures !RefusedAt(v, maxNumerator, k)
  {
    hide Rem, Quotient, Q, IsFraction, MaxDenominator, Active;
    if Active(v, k) && Q(v, k) <= MaxDenominator(v, maxNumerator) {
      StaysInRange(v, maxNumerator, k, n, d);
    }
  }

  lemma StaysInRange(v: real, maxNumerator: U32, k: nat, n: nat, d: nat)
    requires InRange(v, maxNumerator) && Active(v, k) && Q(v, k) <= MaxDenominator(v, maxNumerator)
    requires v > 1.0 || maxNumerator == U32_MAX || (IsFraction(v, n, d) && n <= maxNumerator)
    ensures Scale(Q(v, k), v) <= maxNumerator as real
  {
    hide Rem, Quotient, Q, IsFraction, MaxDenominator, Active;
    MaxDenominatorFacts(v, maxNumerator);
    QPositive(v, k);
    if v > 1.0 {
      MulMonotoneReal(Q(v, k) as real, MaxDenominator(v, maxNumerator) as real, v);
    } else if maxNumerator == U32_MAX {
      MulMonotoneReal(v, 1.0, Q(v, k) as real);
    } else {
      DenominatorBound(v, n, d, k);
    }
  }

  /** With i32 numerators some exact rationals below one are refused, although the fraction is tiny. */
  lemma SignedRangeRefusal()
    ensures var v := 0xFFFF_FFFE as real / 0xFFFF_FFFF as real;
            RefusedAt(v, I32_MAX, 2)
  {
    var v := 0xFFFF_FFFE as real / 0xFFFF_FFFF as real;
    assert Rem(v, 0) == v;
    assert Inverse(v).Floor == 1;
    assert Rem(v, 1) == 1.0 / 0xFFFF_FFFE as real;
    assert Inverse(Rem(v, 1)) == 0xFFFF_FFFE as real;
    assert Quotient(v, 1) == 1 && Quotient(v, 2) == 0xFFFF_FFFE;
    assert Q(v, 1) == 1 && Q(v, 2) == 0xFFFF_FFFF;
  }

  lemma HowStopped(v: real, maxNumerator: U32, n: int, d: int) returns (k: nat)
    requires InRange(v, maxNumerator) && Approximates(v, maxNumerator, n, d)
    ensures ExactAt(v, k, n, d) || CappedAt(v, maxNumerator, k, n, d) || ExhaustedAt(v, k, n, d)
  {
    k :| ExactAt(v, k, n, d) || CappedAt(v, maxNumerator, k, n, d) || ExhaustedAt(v, k, n, d);
  }

  /** A fraction whose denominator is below the fortieth Fibonacci number is recovered exactly. */
  lemma SmallFractionsAreExact(v: real, maxNumerator: U32, num: int, den: int, n: nat, d: nat)
    requires InRange(v, maxNumerator) && Approximates(v, maxNumerator, num, den)
    requires IsFraction(v, n, d) && d <= MaxDenominator(v, maxNumerator) && d < Fib(MAX_ITER + 1)
    ensures Scale(den, v) == num as real
  {
    hide Rem, Quotient, Q, Round, MaxDenominator, Active, Scale, IsFraction, Approximates, Fib;
    var k := HowStopped(v, maxNumerator, num, den);
    if ExhaustedAt(v, k, num, den) {
      DenominatorBound(v, n, d, k);
      QGrows(v, k);
    } else if CappedAt(v, maxNumerator, k, num, den) {
      DenominatorBound(v, n, d, k + 1);
    }
  }

  lemma Accepts(v: real, maxNumerator: U32, n: nat, d: nat)
    requires InRange(v, maxNumerator)
    requires v > 1.0 || maxNumerator == U32_MAX || (IsFraction(v, n, d) && n <= maxNumerator)
    ensures Approximate(v, maxNumerator).Some?
  {
    hide Approximate, RefusedAt, InRange, IsFraction, Approximates;
    ApproximateCorrect(v, maxNumerator);
    forall k: nat
      ensures !RefusedAt(v, maxNumerator, k)
    {
      NeverRefused(v, maxNumerator, k, n, d);
    }
  }

  /** A fraction in range with a small denominator comes back as an equal fraction. */
  lemma SmallFractionsRoundTrip(v: real, maxNumerator: U32, n: nat, d: nat)
    requires InRange(v, maxNumerator) && IsFraction(v, n, d) && n <= maxNumerator
    requires d <= MaxDenominator(v, maxNumerator) && d < Fib(MAX_ITER + 1)
    ensures Approximate(v, maxNumerator).Some?
    ensures var (num, den) := Approximate(v, maxNumerator).value;
            && 1 <= den <= U32_MAX && 0 <= num <= maxNumerator
            && Scale(den, v) == num as real
  {
    hide Approximate, IsFraction, MaxDenominator, Scale, Fib;
    Accepts(v, maxNumerator, n, d);
    ApproximateCorrect(v, maxNumerator);
    MaxDenominatorFacts(v, maxNumerator);
    var (num, den) := Approximate(v, maxNumerator).value;
    SmallFractionsAreExact(v, maxNumerator, num, den, n, d);
    ExactInRange(v, maxNumerator, n, d, num, den);
  }

  lemma ExactInRange(v: real, maxNumerator: U32, n: nat, d: nat, num: int, den: int)
    requires InRange(v, maxNumerator) && IsFraction(v, n, d) && n <= maxNumerator
    requires Approximates(v, maxNumerator, num, den) && Scale(den, v) == num as real
    requires d <= MaxDenominator(v, maxNumerator) && d < Fib(MAX_ITER + 1)
    ensures num <= maxNumerator
  {
    hide Rem, Quotient, Q, Round, MaxDenominator, Active, Scale, IsFraction, Approximates, Fib;
    var k := HowStopped(v, maxNumerator, num, den);
    var j := if CappedAt(v, maxNumerator, k, num, den) then k + 1 else k;
    ActiveBefore(v, j, k);
    DenominatorBound(v, n, d, k);
  }

  lemma ActiveBefore(v: real, j: nat, k: nat)
    requires Active(v, j) && k <= j
    ensures Active(v, k)
  {
  }

  /** Every numerator fits u32, and the denominators of accepted numbers are positive u32 values. */
  lemma NumeratorFits(v: real, maxNumerator: U32, n: int, d: int)
    requires InRange(v, maxNumerator) && Approximates(v, maxNumerator, n, d)
    ensures 0 <= n <= U32_MAX && 1 <= d <= U32_MAX
  {
    hide ExactAt, CappedAt, ExhaustedAt, MaxDenominator, Scale, InRange;
    MaxDenominatorFacts(v, maxNumerator);
    ScaleFits(v, maxNumerator, d);
  }

  lemma ScaleFits(v: real, maxNumerator: U32, d: int)
    requires InRange(v, maxNumerator) && 1 <= d <= MaxDenominator(v, maxNumerator)
    ensures Scale(d, v) <= U32_MAX as real
  {
    hide MaxDenominator;
    MaxDenominatorFacts(v, maxNumerator);
    if v > 1.0 {
      MulMonotoneReal(d as real, MaxDenominator(v, maxNumerator) as real, v);
    } else {
      MulMonotoneReal(v, 1.0, d as real);
    }
  }
}

