/**
 Products, quotients and remainders of integers and reals: the nonlinear steps that the timing and
 continued-fraction proofs take one at a time.
 */
module Arithmetic {
  import opened Words
  import opened Divisibility

  // ----- integers and fractions of integers -----

  lemma CrossMultiply(g: nat, rn: nat, rd: nat, n: nat, d: nat)
    requires g > 0 && n == g * rn && d == g * rd
    ensures rn * d == n * rd && rn <= n && rd <= d && d == rd * g
  {
    assert rn * (g * rd) == (g * rn) * rd;
    MulMonotone(rn, 1, g);
    MulMonotone(rd, 1, g);
  }

  lemma CrossEqual(sn: nat, sd: nat, rn: nat, rd: nat, n: nat, d: nat)
    requires d >= 1 && sn * d == n * sd && rn * d == n * rd
    ensures sn * rd == rn * sd
  {
    assert d * (sn * rd) == (n * sd) * rd;
    assert d * (rn * sd) == (n * rd) * sd;
    CancelFactor(d, sn * rd, rn * sd);
  }

  lemma WholeQuotientPositive(n: nat, dd: nat)
    requires n >= dd >= 1
    ensures n / dd >= 1
  {
  }

  lemma ScaleProduct(p: nat, g: nat, common: nat, scale: nat)
    ensures p * (g * (common * scale)) == (g * common) * (p * scale)
  {
  }

  lemma ScaledDuration(dd: nat, whole: nat, g: nat, frac: nat, common: nat, rightScale: nat, pd: nat, scaled: nat)
    requires scaled == dd * whole + g * frac && pd == common * rightScale
    ensures scaled * pd == (pd * dd) * whole + (g * common) * (frac * rightScale)
  {
    assert scaled * pd == (dd * whole) * pd + (g * frac) * pd;
    assert (dd * whole) * pd == (pd * dd) * whole;
    ScaleProduct(frac, g, common, rightScale);
    assert (g * frac) * (common * rightScale) == frac * (g * (common * rightScale));
  }

  lemma MulStrict(m: nat, a: int, b: int)
    requires m > 0 && a < b
    ensures m * a < m * b
  {
    MulMonotone(m, a + 1, b);
  }

  lemma ScaleHalf(m: nat, rem: nat, sumDen: nat)
    requires m > 0
    ensures (2 * (m * rem) >= m * sumDen) == (rem >= sumDen - rem)
  {
    if rem >= sumDen - rem {
      MulMonotone(m, sumDen, 2 * rem);
    } else {
      MulStrict(m, 2 * rem, sumDen);
    }
  }

  lemma ScaleCross(m: nat, rn: nat, rd: nat, rem: nat, sumDen: nat)
    requires rn * sumDen == rem * rd
    ensures rn * (m * sumDen) == (m * rem) * rd
  {
    assert rn * (m * sumDen) == m * (rn * sumDen);
    assert (m * rem) * rd == m * (rem * rd);
  }

  /** Once the common denominator fits u128, no later phase product can overflow. */
  lemma ScaledBelow(pn: nat, pd: nat, frac: nat, den: nat, common: nat, leftScale: nat, rightScale: nat)
    requires pn < pd && frac < den && common > 0
    requires den == common * leftScale && pd == common * rightScale
    ensures pn * leftScale < pd * leftScale
    ensures frac * rightScale < pd * leftScale
  {
    assert leftScale > 0 && rightScale > 0;
    assert pd * leftScale - pn * leftScale == leftScale * (pd - pn);
    MulMonotone(leftScale, 1, pd - pn);
    assert pd * leftScale == den * rightScale;
    assert den * rightScale - frac * rightScale == rightScale * (den - frac);
    MulMonotone(rightScale, 1, den - frac);
  }

  lemma FractionBounds(frac0: nat, den0: nat, g: nat, frac: nat, den: nat)
    requires frac0 < den0 && g > 0 && frac0 == g * frac && den0 == g * den
    ensures frac < den
  {
    if frac >= den {
      MulMonotone(g, den, frac);
    }
  }

  lemma DivisionFact(n: nat, d: nat)
    requires d != 0
    ensures n == d * Div(n, d) + n % d
  {
  }

  lemma RatioSum(a: int, b: int, c: int, d: int)
    requires b > 0 && d > 0
    ensures b * d > 0
    ensures a as real / b as real + c as real / d as real == (a * d + c * b) as real / (b * d) as real
  {
    var x, y := a as real / b as real, c as real / d as real;
    assert x * b as real == a as real;
    assert y * d as real == c as real;
    var bd := (b * d) as real;
    assert bd == b as real * d as real;
    assert (x + y) * bd == (x * b as real) * d as real + (y * d as real) * b as real;
    assert (a * d + c * b) as real == a as real * d as real + c as real * b as real;
    RealQuotient(x + y, (a * d + c * b) as real, bd);
  }

  lemma RealQuotient(x: real, n: real, d: real)
    requires d > 0.0 && x * d == n
    ensures n / d == x
  {
  }

  lemma WholeAndPart(n: nat, dd: nat)
    requires dd >= 1
    ensures n as real / dd as real == (n / dd) as real + (n % dd) as real / dd as real
  {
    var part := (n % dd) as real / dd as real;
    assert part * dd as real == (n % dd) as real;
    assert n == (n / dd) * dd + n % dd;
    assert n as real == (n / dd) as real * dd as real + (n % dd) as real;
    RealQuotient((n / dd) as real + part, n as real, dd as real);
  }

  lemma SameValue(a: nat, b: nat, c: nat, d: nat)
    requires b >= 1 && d >= 1 && c * b == a * d
    ensures a as real / b as real == c as real / d as real
  {
    var y := c as real / d as real;
    assert y * d as real == c as real;
    assert c as real * b as real == a as real * d as real;
    assert (y * b as real) * d as real == a as real * d as real;
    CancelReal(y * b as real, a as real, d as real);
    RealQuotient(y, a as real, b as real);
  }

  lemma CancelReal(x: real, y: real, d: real)
    requires d > 0.0 && x * d == y * d
    ensures x == y
  {
    assert (x - y) * d == 0.0;
  }

  lemma QuotientRange(n: nat, d: nat, v: real)
    requires n < d && v == n as real / d as real
    ensures 0.0 <= v < 1.0
    ensures (2 * n >= d) == (v >= 0.5)
  {
    assert v * d as real == n as real;
    CompareScaled(0.0, v, d as real);
    CompareScaled(v, 1.0, d as real);
    CompareScaled(0.5, v, d as real);
  }

  lemma CompareScaled(x: real, y: real, d: real)
    requires d > 0.0
    ensures x < y <==> x * d < y * d
    ensures x <= y <==> x * d <= y * d
  {
    assert (y - x) * d == y * d - x * d;
  }

  // ----- reals -----

  lemma MulAtLeast(a: int, q: int)
    requires a >= 1 && q >= 0
    ensures a * q >= q
  {
  }

  lemma DeterminantStep(p: int, pp: int, q: int, qp: int, a: int)
    ensures p * (a * q + qp) - (a * p + pp) * q == -(pp * q - p * qp)
  {
    assert p * (a * q + qp) == a * (p * q) + p * qp;
    assert (a * p + pp) * q == a * (p * q) + pp * q;
  }

  lemma StepLeft(q: real, qp: real, r: real, a: real, r1: real)
    requires (a + r1) * r == 1.0
    ensures (a * q + qp + q * r1) * r == q + qp * r
  {
    assert (a * q + qp + q * r1) * r == q * ((a + r1) * r) + qp * r;
  }

  lemma NextAsReal(a: int, q: int, qp: int, next: int)
    requires next == a * q + qp
    ensures next as real == a as real * q as real + qp as real
  {
  }

  lemma ErrorTimesScale(v: real, p: real, pp: real, q: real, qp: real, r: real, s: real)
    requires s == q + qp * r && v * s == p + pp * r
    ensures (q * v - p) * s == (pp * q - p * qp) * r
  {
    assert (q * v - p) * s == q * (v * s) - p * s;
    assert q * (p + pp * r) - p * (q + qp * r) == (pp * q - p * qp) * r;
  }

  lemma NextBelowScale(q: real, qp: real, r: real, a: real, r1: real, n: real, s: real)
    requires (a + r1) * r == 1.0 && r > 0.0 && r1 >= 0.0 && q >= 0.0
    requires n == a * q + qp && s == q + qp * r
    ensures n * r <= s
  {
    StepLeft(q, qp, r, a, r1);
    assert (n + q * r1) * r == s;
    assert (q * r1) * r >= 0.0;
    assert (n + q * r1) * r == n * r + (q * r1) * r;
  }

  lemma ErrorFromScale(e: real, s: real, r: real, n: real)
    requires e * s == r || e * s == -r
    requires r > 0.0 && n >= 1.0 && n * r <= s
    ensures -1.0 <= e * n <= 1.0
  {
    var d := if e >= 0.0 then e else -e;
    assert d * s == r by {
      if e >= 0.0 {
        assert n * r > 0.0;
        assert e * s >= 0.0;
      } else {
        assert (-e) * s == -(e * s);
        assert n * r > 0.0;
        assert (-e) * s >= 0.0;
      }
    }
    assert d >= 0.0 && d * (s - n * r) >= 0.0;
    assert (d * n) * r == d * (n * r);
    assert d * (s - n * r) == d * s - d * (n * r);
    LessCancel(d * n, 1.0, r);
  }

  lemma LessCancel(x: real, y: real, r: real)
    requires r > 0.0 && x * r <= y * r
    ensures x <= y
  {
    assert (y - x) * r >= 0.0;
  }

  lemma FloorUnique(x: real, q: int, b: nat, r: nat, a: int)
    requires b >= 1 && r < b && a == q * b + r && x * b as real == a as real
    ensures x.Floor == q
    ensures (x - q as real) * b as real == r as real
  {
    assert (x - q as real) * b as real == r as real by {
      assert a as real == q as real * b as real + r as real;
    }
    LessCancel(0.0, x - q as real, b as real);
    if x - q as real >= 1.0 {
      MulMonotoneReal(1.0, x - q as real, b as real);
    }
  }

  lemma EuclideanDivision(n: int, d: nat)
    requires d >= 1
    ensures n == (n / d) * d + n % d
  {
  }

  lemma PositiveRatio(r: real, a: nat, b: nat)
    requires r > 0.0 && r * a as real == b as real && b < a
    ensures b > 0
  {
  }

  lemma Regroup(a0: int, b0: int, t: int, b: int, q: int, qp: int)
    requires a0 == t * b0 + b
    ensures q * a0 + qp * b0 == (t * q + qp) * b0 + q * b
  {
  }

  lemma FactorBelow(q: int, a: nat, qp: int, b: nat, d: nat)
    requires q >= 1 && a >= 1 && qp >= 0 && d == q * a + qp * b
    ensures q <= d
  {
    assert q * a >= q;
    assert qp * b >= 0;
  }

  lemma MulMonotoneReal(x: real, y: real, v: real)
    requires x <= y && v >= 0.0
    ensures x * v <= y * v
  {
    assert (y - x) * v >= 0.0;
  }

  lemma ProductNonnegative(x: real, y: real)
    requires x >= 0.0 && y >= 0.0
    ensures x * y >= 0.0
  {
  }
}
