/**
 Exact animation timing: reduced rational durations, and the quantizer that rounds cumulative
 presentation endpoints to a destination clock (src/animation.rs).

 `Exact` is the reference: one step over unbounded rationals. `TimingQuantizer` is the
 bounded-integer state machine of the source, proved equal to it step by step. The laws about
 whole runs are proved about `Exact`.
 */
module Timing {
  import opened Words
  import opened Arithmetic
  import opened Divisibility

  datatype TimingError = ZeroDenominator | Inexact | Overflow

  datatype Ratio = Ratio(numerator: nat, denominator: nat) {
    ghost predicate Reduced() {
      denominator >= 1 && Gcd(numerator, denominator) == 1
    }

    ghost function Value(): real
      requires denominator >= 1
    {
      numerator as real / denominator as real
    }
  }

  /** A duration in seconds: private fields keep it reduced and within u64 / u32. */
  type FrameDuration = d: Ratio | IsDuration(d)
    witness Ratio(0, 1)

  ghost predicate IsDuration(d: Ratio) {
    d.numerator <= U64_MAX && d.denominator <= U32_MAX && d.Reduced()
  }

  function Reduce(n: nat, d: nat): Ratio
    requires d >= 1
  {
    ReducedIsCoprime(n, d);
    Ratio(Div(n, Gcd(n, d)), Div(d, Gcd(n, d)))
  }

  lemma ReduceIsReduced(n: nat, d: nat)
    requires d >= 1
    ensures Reduce(n, d).Reduced()
    ensures Reduce(n, d).numerator <= n && Reduce(n, d).denominator <= d
    ensures Reduce(n, d).numerator * d == n * Reduce(n, d).denominator
    ensures Divides(Reduce(n, d).denominator, d)
  {
    ReducedIsCoprime(n, d);
    var g, r := Gcd(n, d), Reduce(n, d);
    CrossMultiply(g, r.numerator, r.denominator, n, d);
    MultipleDivides(r.denominator, g);
  }

  /** The reduced form depends only on the value. */
  lemma ReduceUnique(n: nat, d: nat, r: Ratio)
    requires d >= 1 && r.Reduced() && r.numerator * d == n * r.denominator
    ensures Reduce(n, d) == r
  {
    hide Reduce;
    ReduceIsReduced(n, d);
    var s := Reduce(n, d);
    CrossEqual(s.numerator, s.denominator, r.numerator, r.denominator, n, d);
    CoprimeUnique(s.numerator, s.denominator, r.numerator, r.denominator);
  }

  /** Euclid's loop. */
  method GcdLoop(a0: nat, b0: nat) returns (a: nat)
    ensures a == Gcd(a0, b0)
  {
    a := a0;
    var b: nat := b0;
    while b != 0
      invariant Gcd(a, b) == Gcd(a0, b0)
      decreases b
    {
      a, b := b, a % b;
    }
  }

  method NewDuration(numerator: U64, denominator: U32) returns (r: Result<Ratio, TimingError>)
    ensures r.Err? <==> denominator == 0
    ensures r.Err? ==> r.error == ZeroDenominator
    ensures r.Ok? ==> IsDuration(r.value) && r.value.numerator * denominator == numerator * r.value.denominator
    ensures r.Ok? ==> r.value == Reduce(numerator, denominator)
  {
    if denominator == 0 {
      return Err(ZeroDenominator);
    }
    var a := GcdLoop(numerator, denominator);
    ReducedIsCoprime(numerator, denominator);
    ReduceIsReduced(numerator, denominator);
    return Ok(Ratio(Div(numerator, a), Div(denominator, a)));
  }

  function TicksAt(d: FrameDuration, ticksPerSecond: U32): (r: Result<int, TimingError>)
    ensures r.Ok? <==> ticksPerSecond != 0 && exists n: int {:trigger n * d.denominator} ::
              0 <= n <= U64_MAX && n * d.denominator == d.numerator * ticksPerSecond
    ensures r.Ok? ==> 0 <= r.value <= U64_MAX && r.value * d.denominator == d.numerator * ticksPerSecond
    ensures r == Err(ZeroDenominator) <==> ticksPerSecond == 0
    ensures r == Err(Inexact) <==> ticksPerSecond != 0 && forall n: int {:trigger n * d.denominator} ::
              n * d.denominator != d.numerator * ticksPerSecond
    ensures r.Err? ==> r.error in {ZeroDenominator, Inexact, Overflow}
  {
    if ticksPerSecond == 0 then Err(ZeroDenominator)
    else
      var scaled := d.numerator * ticksPerSecond;
      ExactQuotient(scaled, d.denominator);
      if scaled % d.denominator != 0 then Err(Inexact)
      else if scaled / d.denominator <= U64_MAX then Ok(scaled / d.denominator) else Err(Overflow)
  }

  lemma ExactQuotient(n: nat, d: nat)
    requires d != 0
    ensures n % d == 0 ==> (n / d) * d == n
    ensures forall q: int {:trigger q * d} :: q * d == n ==> n % d == 0 && n / d == q
  {
    forall q: int {:trigger q * d} | q * d == n
      ensures n % d == 0 && n / d == q
    {
      DivModUnique(n, d, q, 0);
    }
  }

  // ----- the reference step -----

  datatype Quantizer = Quantizer(clock: nat, maxTicks: nat, phase: Ratio, roundedUp: bool) {
    ghost predicate Valid() {
      && 1 <= clock <= U32_MAX && maxTicks <= U64_MAX
      && phase.Reduced() && phase.numerator < phase.denominator <= U128_MAX
      && roundedUp == (2 * phase.numerator >= phase.denominator)
    }
  }

  function Fresh(clock: nat, maxTicks: nat): (q: Quantizer)
    ensures 1 <= clock <= U32_MAX && maxTicks <= U64_MAX ==> q.Valid()
  {
    Quantizer(clock, maxTicks, Ratio(0, 1), false)
  }

  /** Denominator of the fractional tick part of `d`, reduced in destination ticks. */
  function TickDenominator(d: FrameDuration, clock: nat): (r: nat)
    ensures r >= 1
  {
    ReducedIsCoprime((d.numerator * clock) % d.denominator, d.denominator);
    Div(d.denominator, Gcd((d.numerator * clock) % d.denominator, d.denominator))
  }

  /** phase + d * clock, over the unreduced denominator phase.denominator * d.denominator. */
  function TotalNumerator(q: Quantizer, d: FrameDuration): nat {
    q.phase.numerator * d.denominator + d.numerator * q.clock * q.phase.denominator
  }

  function TotalDenominator(q: Quantizer, d: FrameDuration): nat {
    q.phase.denominator * d.denominator
  }

  function Bit(b: bool): nat {
    if b then 1 else 0
  }

  /** Ticks between the old and the new endpoint, each rounded half up. */
  function Ticks(q: Quantizer, d: FrameDuration): nat
    requires q.Valid()
  {
    TotalPositive(q, d);
    TicksNonnegative(q, d);
    var n, dd := TotalNumerator(q, d), TotalDenominator(q, d);
    n / dd + Bit(2 * (n % dd) >= dd) - Bit(q.roundedUp)
  }

  /**
   One step in unbounded arithmetic: emit the ticks to the newly rounded endpoint and keep the
   exact fractional phase. The phase must fit u128 over its common denominator.
   */
  function Exact(q: Quantizer, d: FrameDuration): Result<(Quantizer, nat), TimingError>
    requires q.Valid()
  {
    if Lcm(q.phase.denominator, TickDenominator(d, q.clock)) > U128_MAX then Err(Overflow)
    else if Ticks(q, d) > q.maxTicks then Err(Overflow)
    else
      TotalPositive(q, d);
      var n, dd := TotalNumerator(q, d), TotalDenominator(q, d);
      Ok((q.(phase := Reduce(n % dd, dd), roundedUp := 2 * (n % dd) >= dd), Ticks(q, d)))
  }

  lemma TotalPositive(q: Quantizer, d: FrameDuration)
    requires q.phase.denominator >= 1
    ensures TotalDenominator(q, d) >= 1
  {
  }

  /** Endpoints are rounded monotonically, so the subtraction of the old rounding bit cannot underflow. */
  lemma TicksNonnegative(q: Quantizer, d: FrameDuration)
    requires q.Valid()
    ensures TotalDenominator(q, d) >= 1
    ensures var n, dd := TotalNumerator(q, d), TotalDenominator(q, d);
            n / dd + Bit(2 * (n % dd) >= dd) >= Bit(q.roundedUp)
  {
    TotalPositive(q, d);
    if q.roundedUp {
      var pn, pd := q.phase.numerator, q.phase.denominator;
      MulMonotone(d.denominator, pd, 2 * pn);
      assert pd * d.denominator <= 2 * (pn * d.denominator);
      assert d.numerator * q.clock * pd >= 0;
      HalfRoundsUp(TotalNumerator(q, d), TotalDenominator(q, d));
    }
  }

  lemma HalfRoundsUp(n: nat, dd: nat)
    requires dd >= 1 && 2 * n >= dd
    ensures n / dd + Bit(2 * (n % dd) >= dd) >= 1
  {
    if n < dd {
      DivModUnique(n, dd, 0, n);
    } else {
      WholeQuotientPositive(n, dd);
    }
  }

  // ----- the bounded step computes the reference step -----

  /**
   The phase arithmetic of `quantize`: with `left` and `right` over the common denominator
   `sumDen`, the reference numerator and denominator are `m` times the bounded ones.
   */
  lemma CommonDenominator(q: Quantizer, d: FrameDuration, whole: nat, frac0: nat, g: nat, frac: nat, den: nat,
                          common: nat, leftScale: nat, rightScale: nat,
                          sumDen: nat, left: nat, right: nat) returns (m: nat)
    requires q.Valid()
    requires sumDen == q.phase.denominator * leftScale
    requires left == q.phase.numerator * leftScale && right == frac * rightScale
    requires d.numerator * q.clock == d.denominator * whole + frac0 && frac0 < d.denominator
    requires g > 0 && d.denominator == g * den && frac0 == g * frac
    requires common > 0 && den == common * leftScale && q.phase.denominator == common * rightScale
    ensures m > 0
    ensures TotalDenominator(q, d) == m * sumDen
    ensures TotalNumerator(q, d) == TotalDenominator(q, d) * whole + m * (left + right)
  {
    m := g * common;
    var pn, pd, dd := q.phase.numerator, q.phase.denominator, d.denominator;
    ScaleProduct(pd, g, common, leftScale);
    ScaleProduct(pn, g, common, leftScale);
    ScaledDuration(dd, whole, g, frac, common, rightScale, pd, d.numerator * q.clock);
    Distribute(m, left, right);
  }

  /** Carry and remainder over `sumDen` give the reference quotient, rounding bit and phase. */
  lemma CarryIsExact(n: nat, dd: nat, m: nat, sumDen: nat, whole: nat, sum: nat, carry: nat, rem: nat)
    requires m > 0 && dd == m * sumDen && rem < sumDen
    requires n == dd * whole + m * sum && sum == carry * sumDen + rem
    ensures dd >= 1
    ensures n / dd == whole + carry
    ensures (2 * (n % dd) >= dd) == (rem >= sumDen - rem)
    ensures Reduce(n % dd, dd) == Reduce(rem, sumDen)
  {
    Distribute(m, carry * sumDen, rem);
    assert m * (carry * sumDen) == dd * carry;
    Distribute(dd, whole, carry);
    MulStrict(m, rem, sumDen);
    DivModUnique(n, dd, whole + carry, m * rem);
    ScaleHalf(m, rem, sumDen);
    ReduceScaled(m, rem, sumDen);
  }

  lemma ReduceScaled(m: nat, rem: nat, sumDen: nat)
    requires m > 0 && sumDen > 0
    ensures m * sumDen >= 1
    ensures Reduce(m * rem, m * sumDen) == Reduce(rem, sumDen)
  {
    hide Reduce;
    ReduceIsReduced(rem, sumDen);
    var r := Reduce(rem, sumDen);
    MulMonotone(m, 1, sumDen);
    ScaleCross(m, r.numerator, r.denominator, rem, sumDen);
    ReduceUnique(m * rem, m * sumDen, r);
  }

  lemma PhaseScales(pd: nat, den: nat)
    requires pd >= 1 && den >= 1
    ensures Gcd(pd, den) > 0
    ensures den == Gcd(pd, den) * Div(den, Gcd(pd, den))
    ensures pd == Gcd(pd, den) * Div(pd, Gcd(pd, den))
    ensures Div(den, Gcd(pd, den)) <= den && Div(pd, Gcd(pd, den)) <= pd
  {
    GcdPositive(pd, den);
    GcdDividesBoth(pd, den);
    var g := Gcd(pd, den);
    WholeQuotient(g, den);
    WholeQuotient(g, pd);
    MulMonotone(Div(den, g), 1, g);
    MulMonotone(Div(pd, g), 1, g);
  }

  lemma DurationBounds(d: FrameDuration, clock: U32, whole: nat, den: nat)
    requires whole == Div(d.numerator * clock, d.denominator) && den <= d.denominator
    ensures whole <= U64_MAX * U32_MAX && den <= U32_MAX
    ensures d.numerator * clock == d.denominator * whole + (d.numerator * clock) % d.denominator
  {
    MulMonotone(d.numerator, clock, U32_MAX);
    MulMonotone(U32_MAX, d.numerator, U64_MAX);
    MulMonotone(whole, 1, d.denominator);
  }

  lemma PhaseStaysReduced(rem: nat, sumDen: nat)
    requires rem < sumDen
    ensures Reduce(rem, sumDen).Reduced()
    ensures Reduce(rem, sumDen).numerator < Reduce(rem, sumDen).denominator <= sumDen
    ensures (2 * Reduce(rem, sumDen).numerator >= Reduce(rem, sumDen).denominator) == (rem >= sumDen - rem)
  {
    ReduceIsReduced(rem, sumDen);
    ReducedIsCoprime(rem, sumDen);
    var g, r := Gcd(rem, sumDen), Reduce(rem, sumDen);
    FractionBounds(rem, sumDen, g, r.numerator, r.denominator);
    ScaleHalf(g, r.numerator, r.denominator);
  }

  /** The intermediate values of one step, named once for the two lemmas below. */
  ghost function Whole(q: Quantizer, d: FrameDuration): nat { Div(d.numerator * q.clock, d.denominator) }
  ghost function Frac0(q: Quantizer, d: FrameDuration): nat { (d.numerator * q.clock) % d.denominator }
  ghost function Frac(q: Quantizer, d: FrameDuration): nat
  {
    ReducedIsCoprime(Frac0(q, d), d.denominator);
    Div(Frac0(q, d), Gcd(Frac0(q, d), d.denominator))
  }
  ghost function Common(q: Quantizer, d: FrameDuration): (g: nat)
    requires q.Valid()
    ensures g > 0
  {
    GcdPositive(q.phase.denominator, TickDenominator(d, q.clock));
    Gcd(q.phase.denominator, TickDenominator(d, q.clock))
  }
  ghost function LeftScale(q: Quantizer, d: FrameDuration): nat
    requires q.Valid()
  {
    Div(TickDenominator(d, q.clock), Common(q, d))
  }
  ghost function RightScale(q: Quantizer, d: FrameDuration): nat
    requires q.Valid()
  {
    Div(q.phase.denominator, Common(q, d))
  }

  /** Every intermediate value fits u128 as soon as the common denominator does. */
  lemma StepBounds(q: Quantizer, d: FrameDuration)
    requires q.Valid()
    ensures Gcd(Frac0(q, d), d.denominator) > 0
    ensures Whole(q, d) <= U64_MAX * U32_MAX
    ensures LeftScale(q, d) <= U128_MAX && RightScale(q, d) <= U128_MAX && Frac(q, d) <= U128_MAX
    ensures Lcm(q.phase.denominator, TickDenominator(d, q.clock)) == q.phase.denominator * LeftScale(q, d)
    ensures q.phase.numerator * LeftScale(q, d) < q.phase.denominator * LeftScale(q, d)
    ensures Frac(q, d) * RightScale(q, d) < q.phase.denominator * LeftScale(q, d)
  {
    var frac0, den := Frac0(q, d), TickDenominator(d, q.clock);
    ReducedIsCoprime(frac0, d.denominator);
    PhaseScales(q.phase.denominator, den);
    var g := Gcd(frac0, d.denominator);
    MulMonotone(den, 1, g);
    DurationBounds(d, q.clock, Whole(q, d), den);
    FractionBounds(frac0, d.denominator, g, Frac(q, d), den);
    ScaledBelow(q.phase.numerator, q.phase.denominator, Frac(q, d), den, Common(q, d), LeftScale(q, d), RightScale(q, d));
  }

  lemma StepIsExact(q: Quantizer, d: FrameDuration, sumDen: nat, left: nat, right: nat, carry: nat, rem: nat)
    requires q.Valid()
    requires sumDen == q.phase.denominator * LeftScale(q, d)
    requires left == q.phase.numerator * LeftScale(q, d) && right == Frac(q, d) * RightScale(q, d)
    requires left + right == carry * sumDen + rem && rem < sumDen
    ensures TotalDenominator(q, d) >= 1
    ensures var n, dd := TotalNumerator(q, d), TotalDenominator(q, d);
            && n / dd == Whole(q, d) + carry
            && (2 * (n % dd) >= dd) == (rem >= sumDen - rem)
            && Reduce(n % dd, dd) == Reduce(rem, sumDen)
  {
    var m := StepDenominator(q, d, sumDen, left, right);
    CarryIsExact(TotalNumerator(q, d), TotalDenominator(q, d), m, sumDen, Whole(q, d), left + right, carry, rem);
  }

  lemma StepDenominator(q: Quantizer, d: FrameDuration, sumDen: nat, left: nat, right: nat) returns (m: nat)
    requires q.Valid()
    requires sumDen == q.phase.denominator * LeftScale(q, d)
    requires left == q.phase.numerator * LeftScale(q, d) && right == Frac(q, d) * RightScale(q, d)
    ensures m > 0
    ensures TotalDenominator(q, d) == m * sumDen
    ensures TotalNumerator(q, d) == TotalDenominator(q, d) * Whole(q, d) + m * (left + right)
  {
    var frac0, den := Frac0(q, d), TickDenominator(d, q.clock);
    DivisionFact(d.numerator * q.clock, d.denominator);
    ReducedIsCoprime(frac0, d.denominator);
    PhaseScales(q.phase.denominator, den);
    m := CommonDenominator(q, d, Whole(q, d), frac0, Gcd(frac0, d.denominator), Frac(q, d), den,
                           Common(q, d), LeftScale(q, d), RightScale(q, d), sumDen, left, right);
  }

  function CheckedMul(a: U128, b: U128): Option<U128> {
    if a * b <= U128_MAX then Some(a * b) else None
  }

  function CheckedAdd(a: U128, b: U128): Option<U128> {
    if a + b <= U128_MAX then Some(a + b) else None
  }

  function CheckedSub(a: U128, b: U128): Option<U128> {
    if b <= a then Some(a - b) else None
  }

  /** The source's state machine: u128 phase arithmetic, every product and sum checked. */
  class TimingQuantizer {
    const clock: U32
    const maxTicks: U64
    var phaseNum: U128
    var phaseDen: U128
    var roundedUp: bool

    function State(): Quantizer
      reads this
    {
      Quantizer(clock, maxTicks, Ratio(phaseNum, phaseDen), roundedUp)
    }

    constructor Init(clock: U32, maxTicks: U64)
      requires clock != 0
      ensures State() == Fresh(clock, maxTicks)
    {
      this.clock, this.maxTicks := clock, maxTicks;
      phaseNum, phaseDen, roundedUp := 0, 1, false;
    }

    static method New(clock: U32, maxTicks: U64) returns (r: Result<TimingQuantizer, TimingError>)
      ensures r.Err? <==> clock == 0
      ensures r.Err? ==> r.error == ZeroDenominator
      ensures r.Ok? ==> fresh(r.value) && r.value.State() == Fresh(clock, maxTicks) && r.value.State().Valid()
    {
      if clock == 0 {
        return Err(ZeroDenominator);
      }
      var q := new TimingQuantizer.Init(clock, maxTicks);
      return Ok(q);
    }

    /** `quantize`: an error leaves the state alone. */
    method Quantize(d: FrameDuration) returns (r: Result<Ratio, TimingError>)
      requires State().Valid()
      modifies this
      ensures State().Valid()
      ensures match Exact(old(State()), d)
              case Err(e) => r == Err(e) && State() == old(State())
              case Ok(step) => r == Ok(Reduce(step.1, clock)) && State() == step.0
      ensures r.Err? ==> r.error == Overflow
    {
      ExactKeepsValid(State(), d);
      var step :- Advance(State(), d);
      r := NewDuration(step.1, clock);
      phaseNum, phaseDen, roundedUp := step.0.phase.numerator, step.0.phase.denominator, step.0.roundedUp;
    }
  }

  /**
   The arithmetic of `quantize` on bounded integers, in the source's order and with its checks,
   computes the unbounded reference step.
   */
  method Advance(q: Quantizer, d: FrameDuration) returns (r: Result<(Quantizer, nat), TimingError>)
    requires q.Valid()
    ensures r == Exact(q, d)
  {
    StepBounds(q, d);
    var scaled: nat := d.numerator * q.clock;
    var whole, frac0 := Div(scaled, d.denominator), scaled % d.denominator;
    var reduce := GcdLoop(frac0, d.denominator);
    var frac, den := Div(frac0, reduce), Div(d.denominator, reduce);
    var common := GcdLoop(q.phase.denominator, den);
    var leftScale, rightScale := Div(den, common), Div(q.phase.denominator, common);
    var sumDen :- CheckedMul(q.phase.denominator, leftScale).ToResult(Overflow);
    // From here on no checked operation can fail: `.value` is proved to be there.
    var left := CheckedMul(q.phase.numerator, leftScale).value;
    var right := CheckedMul(frac, rightScale).value;
    // The sum of two fractions below one can leave u128, so the carry is decided by a subtraction.
    var carry, remainder;
    if left >= sumDen - right {
      carry, remainder := 1, left - (sumDen - right);
    } else {
      carry, remainder := 0, left + right;
    }
    StepIsExact(q, d, sumDen, left, right, carry, remainder);
    TicksNonnegative(q, d);
    r := Round(q, whole, carry, remainder, sumDen);
  }

  /** The tick count and new phase from a carry and remainder over the common denominator. */
  method Round(q: Quantizer, whole: nat, carry: nat, remainder: U128, sumDen: U128)
    returns (r: Result<(Quantizer, nat), TimingError>)
    requires q.Valid() && whole <= U64_MAX * U32_MAX && carry <= 1 && remainder < sumDen
    requires whole + carry + Bit(remainder >= sumDen - remainder) >= Bit(q.roundedUp)
    ensures var up := remainder >= sumDen - remainder;
            var ticks := whole + carry + Bit(up) - Bit(q.roundedUp);
            r == if ticks > q.maxTicks then Err(Overflow)
                 else Ok((q.(phase := Reduce(remainder, sumDen), roundedUp := up), ticks))
  {
    var up := remainder >= sumDen - remainder;
    var ticks := CheckedSub(CheckedAdd(CheckedAdd(whole, carry).value, Bit(up)).value, Bit(q.roundedUp)).value;
    if ticks > U64_MAX || ticks > q.maxTicks {
      return Err(Overflow);
    }
    var g := GcdLoop(remainder, sumDen);
    ReducedIsCoprime(remainder, sumDen);
    r := Ok((q.(phase := Ratio(Div(remainder, g), Div(sumDen, g)), roundedUp := up), ticks));
  }

  /** Every step keeps the state invariant; the phase stays a reduced fraction below one tick. */
  lemma ExactKeepsValid(q: Quantizer, d: FrameDuration)
    requires q.Valid()
    ensures Exact(q, d).Ok? ==> Exact(q, d).value.0.Valid() && Exact(q, d).value.1 <= q.maxTicks
  {
    var carry, rem := StepRemainder(q, d);
    PhaseStaysReduced(rem, Lcm(q.phase.denominator, TickDenominator(d, q.clock)));
  }

  // ----- whole runs -----

  /** Final state and total ticks emitted for a sequence of durations. */
  function Run(q: Quantizer, ds: seq<FrameDuration>): (r: Result<(Quantizer, nat), TimingError>)
    requires q.Valid()
    ensures r.Ok? ==> r.value.0.Valid() && r.value.0.clock == q.clock && r.value.0.maxTicks == q.maxTicks
  {
    if ds == [] then Ok((q, 0))
    else
      var (q1, total) :- Run(q, ds[..|ds| - 1]);
      ExactKeepsValid(q1, ds[|ds| - 1]);
      var (q2, ticks) :- Exact(q1, ds[|ds| - 1]);
      Ok((q2, total + ticks))
  }

  /** Exact rational sum of the source durations, in seconds. */
  ghost function Sum(ds: seq<FrameDuration>): real {
    if ds == [] then 0.0 else Sum(ds[..|ds| - 1]) + ds[|ds| - 1].Value()
  }

  /** The value of a step: phase and new duration add up to whole ticks and the new phase. */
  lemma StepValue(q: Quantizer, d: FrameDuration)
    requires q.Valid() && Exact(q, d).Ok?
    ensures var (q1, ticks) := Exact(q, d).value;
            && q1.phase.denominator >= 1
            && q.phase.Value() + d.Value() * q.clock as real
               == (ticks + Bit(q.roundedUp) - Bit(q1.roundedUp)) as real + q1.phase.Value()
  {
    TotalPositive(q, d);
    PhasePlusDuration(q, d);
    TotalParts(TotalNumerator(q, d), TotalDenominator(q, d));
  }

  lemma PhasePlusDuration(q: Quantizer, d: FrameDuration)
    requires q.phase.denominator >= 1
    ensures q.phase.Value() + d.Value() * q.clock as real
            == TotalNumerator(q, d) as real / TotalDenominator(q, d) as real
  {
    TimesClock(d, q.clock);
    RatioSum(q.phase.numerator, q.phase.denominator, d.numerator * q.clock, d.denominator);
  }

  lemma TotalParts(n: nat, dd: nat)
    requires dd >= 1
    ensures Reduce(n % dd, dd).denominator >= 1
    ensures n as real / dd as real == (n / dd) as real + Reduce(n % dd, dd).Value()
  {
    var phase := Reduce(n % dd, dd);
    ReduceIsReduced(n % dd, dd);
    WholeAndPart(n, dd);
    SameValue(n % dd, dd, phase.numerator, phase.denominator);
  }

  lemma TimesClock(d: FrameDuration, clock: nat)
    ensures d.Value() * clock as real == (d.numerator * clock) as real / d.denominator as real
  {
    var v := d.Value();
    assert v * d.denominator as real == d.numerator as real;
    RealQuotient(v * clock as real, (d.numerator * clock) as real, d.denominator as real);
  }

  /** Exact destination ticks elapsed, with no rounding anywhere. */
  ghost function Elapsed(ds: seq<FrameDuration>, clock: nat): real {
    if ds == [] then 0.0 else Elapsed(ds[..|ds| - 1], clock) + ds[|ds| - 1].Value() * clock as real
  }

  lemma {:induction false} ElapsedIsSum(ds: seq<FrameDuration>, clock: nat)
    ensures Elapsed(ds, clock) == Sum(ds) * clock as real
  {
    hide Ratio.Value;
    if ds != [] {
      ElapsedIsSum(ds[..|ds| - 1], clock);
    }
  }

  lemma ZeroPhase()
    ensures Ratio(0, 1).Value() == 0.0
  {
  }

  lemma RunStep(q: Quantizer, d: FrameDuration, elapsed: real, total: nat)
    requires q.Valid() && Exact(q, d).Ok?
    requires elapsed == (total - Bit(q.roundedUp)) as real + q.phase.Value()
    ensures var (q1, ticks) := Exact(q, d).value;
            && q1.phase.denominator >= 1
            && elapsed + d.Value() * q.clock as real == (total + ticks - Bit(q1.roundedUp)) as real + q1.phase.Value()
  {
    hide Exact, Ratio.Value;
    StepValue(q, d);
  }

  /** After any successful run, the exact elapsed ticks are the rounded-down total plus the phase. */
  lemma {:induction false} RunValue(clock: U32, maxTicks: U64, ds: seq<FrameDuration>)
    requires clock != 0 && Run(Fresh(clock, maxTicks), ds).Ok?
    ensures var (q, total) := Run(Fresh(clock, maxTicks), ds).value;
            Elapsed(ds, clock) == (total - Bit(q.roundedUp)) as real + q.phase.Value()
  {
    hide Exact, Ratio.Value, Quantizer.Valid;
    if ds == [] {
      ZeroPhase();
    } else {
      var init, last := ds[..|ds| - 1], ds[|ds| - 1];
      RunValue(clock, maxTicks, init);
      var (q, total) := Run(Fresh(clock, maxTicks), init).value;
      RunStep(q, last, Elapsed(init, clock), total);
    }
  }

  /** The quantizer never drifts: the total is the exact elapsed time rounded half up, once. */
  lemma NeverDrifts(clock: U32, maxTicks: U64, ds: seq<FrameDuration>)
    requires clock != 0 && Run(Fresh(clock, maxTicks), ds).Ok?
    ensures var total := Run(Fresh(clock, maxTicks), ds).value.1;
            && total == (Sum(ds) * clock as real + 0.5).Floor
            && -0.5 < total as real - Sum(ds) * clock as real <= 0.5
  {
    hide Exact, Ratio.Value;
    RunValue(clock, maxTicks, ds);
    ElapsedIsSum(ds, clock);
    PhaseRange(Run(Fresh(clock, maxTicks), ds).value.0);
  }

  lemma PhaseRange(q: Quantizer)
    requires q.Valid()
    ensures 0.0 <= q.phase.Value() < 1.0
    ensures q.roundedUp == (q.phase.Value() >= 0.5)
  {
    QuotientRange(q.phase.numerator, q.phase.denominator, q.phase.Value());
  }

  /** The phase denominator never leaves the divisors of a common multiple of the tick denominators. */
  lemma PhaseStaysInDivisors(q: Quantizer, d: FrameDuration, m: U128)
    requires q.Valid() && Divides(q.phase.denominator, m) && Divides(TickDenominator(d, q.clock), m) && m != 0
    ensures Exact(q, d).Err? <==> Ticks(q, d) > q.maxTicks
    ensures Exact(q, d).Ok? ==> Divides(Exact(q, d).value.0.phase.denominator, m)
  {
    var sumDen := Lcm(q.phase.denominator, TickDenominator(d, q.clock));
    LcmDivides(q.phase.denominator, TickDenominator(d, q.clock), m);
    WholeQuotient(sumDen, m);
    MulMonotone(sumDen, 1, m / sumDen);
    var carry, rem := StepRemainder(q, d);
    ReduceIsReduced(rem, sumDen);
    DividesTransitive(Reduce(rem, sumDen).denominator, sumDen, m);
  }

  lemma SplitCarry(q: Quantizer, d: FrameDuration, sumDen: nat, left: nat, right: nat) returns (carry: nat, rem: nat)
    requires q.Valid()
    requires sumDen == q.phase.denominator * LeftScale(q, d)
    requires left == q.phase.numerator * LeftScale(q, d) && right == Frac(q, d) * RightScale(q, d)
    requires left < sumDen && right < sumDen
    ensures TotalDenominator(q, d) >= 1 && rem < sumDen
    ensures Reduce(TotalNumerator(q, d) % TotalDenominator(q, d), TotalDenominator(q, d)) == Reduce(rem, sumDen)
    ensures (2 * (TotalNumerator(q, d) % TotalDenominator(q, d)) >= TotalDenominator(q, d)) == (rem >= sumDen - rem)
  {
    carry := if left >= sumDen - right then 1 else 0;
    rem := if left >= sumDen - right then left + right - sumDen else left + right;
    StepIsExact(q, d, sumDen, left, right, carry, rem);
  }

  lemma StepRemainder(q: Quantizer, d: FrameDuration) returns (carry: nat, rem: nat)
    requires q.Valid()
    ensures var sumDen := Lcm(q.phase.denominator, TickDenominator(d, q.clock));
            && TotalDenominator(q, d) >= 1
            && rem < sumDen
            && Reduce(TotalNumerator(q, d) % TotalDenominator(q, d), TotalDenominator(q, d)) == Reduce(rem, sumDen)
            && (2 * (TotalNumerator(q, d) % TotalDenominator(q, d)) >= TotalDenominator(q, d)) == (rem >= sumDen - rem)
  {
    StepBounds(q, d);
    carry, rem := SplitCarry(q, d, q.phase.denominator * LeftScale(q, d), q.phase.numerator * LeftScale(q, d),
                             Frac(q, d) * RightScale(q, d));
  }

  /**
   Runs whose tick denominators all divide some m within u128 never overflow the phase
   arithmetic: such a run stops only at a frame whose tick count exceeds the destination field.
   */
  lemma {:induction false} BoundedClocksNeverOverflow(clock: U32, maxTicks: U64, ds: seq<FrameDuration>, m: U128)
    requires clock != 0 && m != 0
    requires forall k :: 0 <= k < |ds| ==> Divides(TickDenominator(ds[k], clock), m)
    ensures var r := Run(Fresh(clock, maxTicks), ds);
            && (r.Ok? ==> Divides(r.value.0.phase.denominator, m))
            && (r.Err? ==> exists k :: 0 <= k < |ds| && Run(Fresh(clock, maxTicks), ds[..k]).Ok?
                                       && Ticks(Run(Fresh(clock, maxTicks), ds[..k]).value.0, ds[k]) > maxTicks)
  {
    if ds == [] {
      MultipleDivides(1, m);
    } else {
      var n := |ds| - 1;
      var init := ds[..n];
      BoundedClocksNeverOverflow(clock, maxTicks, init, m);
      var r := Run(Fresh(clock, maxTicks), init);
      if r.Ok? {
        PhaseStaysInDivisors(r.value.0, ds[n], m);
      } else {
        var k :| 0 <= k < |init| && Run(Fresh(clock, maxTicks), init[..k]).Ok?
                 && Ticks(Run(Fresh(clock, maxTicks), init[..k]).value.0, init[k]) > maxTicks;
        assert init[..k] == ds[..k];
      }
    }
  }

  /** What is emitted is exactly representable at the destination clock, as the tick count returned. */
  lemma EmittedTicksAgree(q: Quantizer, d: FrameDuration)
    requires q.Valid() && Exact(q, d).Ok?
    ensures var ticks := Exact(q, d).value.1;
            IsDuration(Reduce(ticks, q.clock)) && TicksAt(Reduce(ticks, q.clock), q.clock) == Ok(ticks)
  {
    var ticks := Exact(q, d).value.1;
    var r := Reduce(ticks, q.clock);
    ReduceIsReduced(ticks, q.clock);
    assert ticks * r.denominator == r.numerator * q.clock;
    ExactQuotient(r.numerator * q.clock, r.denominator);
  }

  /** From a fresh phase, an exactly representable duration passes unchanged and leaves no phase. */
  lemma ExactStepIsIdentity(clock: U32, maxTicks: U64, d: FrameDuration)
    requires clock != 0 && TicksAt(d, clock).Ok? && TicksAt(d, clock).value <= maxTicks
    ensures Exact(Fresh(clock, maxTicks), d) == Ok((Fresh(clock, maxTicks), TicksAt(d, clock).value))
    ensures Reduce(TicksAt(d, clock).value, clock) == d
  {
    var n := TicksAt(d, clock).value;
    DivModUnique(d.numerator * clock, d.denominator, n, 0);
    MultipleDivides(d.denominator, 1);
    assert Gcd(0, d.denominator) == d.denominator by {
      assert 0 % d.denominator == 0;
      assert Gcd(0, d.denominator) == Gcd(d.denominator, 0);
    }
    assert TickDenominator(d, clock) == 1;
    ReduceUnique(0, d.denominator, Ratio(0, 1));
    ReduceUnique(n, clock, d);
  }

  /** A run of exactly representable durations is the identity and never accumulates a phase. */
  lemma {:induction false} ExactRunIsIdentity(clock: U32, maxTicks: U64, ds: seq<FrameDuration>)
    requires clock != 0
    requires forall k :: 0 <= k < |ds| ==> TicksAt(ds[k], clock).Ok? && TicksAt(ds[k], clock).value <= maxTicks
    ensures Run(Fresh(clock, maxTicks), ds).Ok? && Run(Fresh(clock, maxTicks), ds).value.0 == Fresh(clock, maxTicks)
    ensures forall k :: 0 <= k < |ds| ==>
              && Exact(Fresh(clock, maxTicks), ds[k]).Ok?
              && Reduce(Exact(Fresh(clock, maxTicks), ds[k]).value.1, clock) == ds[k]
  {
    forall k | 0 <= k < |ds|
      ensures Exact(Fresh(clock, maxTicks), ds[k]).Ok?
              && Reduce(Exact(Fresh(clock, maxTicks), ds[k]).value.1, clock) == ds[k]
    {
      ExactStepIsIdentity(clock, maxTicks, ds[k]);
    }
    if ds != [] {
      ExactRunIsIdentity(clock, maxTicks, ds[..|ds| - 1]);
      ExactStepIsIdentity(clock, maxTicks, ds[|ds| - 1]);
    }
  }
}
