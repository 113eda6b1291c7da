/** Euclid's algorithm, and the facts about it that exact rational timing rests on. */
module Divisibility {

  ghost predicate Divides(d: nat, n: nat) {
    d != 0 && n % d == 0
  }

  /** Greatest common divisor; Gcd(a, 0) == a, as in the source's loop. */
  function Gcd(a: nat, b: nat): nat
    decreases b
  {
    if b == 0 then a else Gcd(b, a % b)
  }

  function Lcm(a: nat, b: nat): nat
    requires a != 0
  {
    GcdPositive(a, b);
    a * Div(b, Gcd(a, b))
  }

  function Div(n: nat, d: nat): nat
    requires d != 0
  {
    n / d
  }

  lemma GcdPositive(a: nat, b: nat)
    requires a != 0 || b != 0
    ensures Gcd(a, b) > 0
    decreases b
  {
    if b != 0 {
      GcdPositive(b, a % b);
    }
  }

  lemma MultipleDivides(d: nat, k: nat)
    requires d != 0
    ensures Divides(d, d * k)
    ensures (d * k) / d == k
  {
    DivModUnique(d * k, d, k, 0);
  }

  lemma SmallMultiple(d: int, k: int)
    requires 0 - d < d * k < d
    ensures k == 0
  {
    if k >= 1 {
      MulMonotone(d, 1, k);
    } else if k <= -1 {
      MulMonotone(d, k, -1);
    }
  }

  lemma MulMonotone(d: int, a: int, b: int)
    requires d >= 0 && a <= b
    ensures d * a <= d * b
  {
    assert d * (b - a) >= 0;
  }

  /** Quotient and remainder are the only pair with the defining property. */
  lemma DivModUnique(n: int, d: nat, q: int, r: nat)
    requires d != 0 && n == d * q + r && r < d
    ensures n / d == q && n % d == r
  {
    var q', r' := n / d, n % d;
    var k := q' - q;
    assert d * k == r - r' by {
      assert d * k == d * q' - d * q;
    }
    SmallMultiple(d, k);
  }

  lemma WholeQuotient(d: nat, n: nat)
    requires Divides(d, n)
    ensures n == d * (n / d)
  {
  }

  /** Bezout: the gcd is an integer combination of its arguments. */
  lemma {:induction false} Bezout(a: nat, b: nat) returns (x: int, y: int)
    ensures a * x + b * y == Gcd(a, b)
    decreases b
  {
    if b == 0 {
      x, y := 1, 0;
    } else {
      var x', y' := Bezout(b, a % b);
      x, y := y', x' - (a / b) * y';
      assert a == b * (a / b) + a % b;
      calc {
        a * x + b * y;
        a * y' + b * x' - b * ((a / b) * y');
        { assert b * ((a / b) * y') == (b * (a / b)) * y'; }
        (a - b * (a / b)) * y' + b * x';
        (a % b) * y' + b * x';
      }
    }
  }

  lemma {:induction false} GcdDividesBoth(a: nat, b: nat)
    requires a != 0 || b != 0
    ensures Divides(Gcd(a, b), a) && Divides(Gcd(a, b), b)
    decreases b
  {
    GcdPositive(a, b);
    if b == 0 {
      MultipleDivides(a, 1);
      assert 0 % a == 0;
    } else {
      GcdDividesBoth(b, a % b);
      var g := Gcd(a, b);
      WholeQuotient(g, b);
      WholeQuotient(g, a % b);
      var k := (b / g) * (a / b) + (a % b) / g;
      calc {
        a;
        b * (a / b) + a % b;
        (g * (b / g)) * (a / b) + g * ((a % b) / g);
        { assert (g * (b / g)) * (a / b) == g * ((b / g) * (a / b)); }
        g * k;
      }
      MultipleDivides(g, k);
    }
  }

  lemma {:induction false} GcdScale(k: nat, a: nat, b: nat)
    requires k != 0
    ensures Gcd(k * a, k * b) == k * Gcd(a, b)
    decreases b
  {
    if b == 0 {
      assert k * b == 0;
    } else {
      assert k * b != 0;
      assert k * (b * (a / b)) == (k * b) * (a / b);
      assert a == b * (a / b) + a % b;
      assert k * a == (k * b) * (a / b) + k * (a % b);
      assert k * (a % b) < k * b;
      DivModUnique(k * a, k * b, a / b, k * (a % b));
      GcdScale(k, b, a % b);
    }
  }

  /** A common multiple of two numbers is a multiple of their least common multiple. */
  lemma LcmDivides(a: nat, b: nat, m: nat)
    requires Divides(a, m) && Divides(b, m)
    ensures Lcm(a, b) != 0 && Divides(Lcm(a, b), m)
  {
    var g, l := Gcd(a, b), Lcm(a, b);
    LcmTimesGcd(a, b);
    WholeQuotient(a, m);
    WholeQuotient(b, m);
    var x, y := Bezout(a, b);
    var k := LcmFactor(a, b, g, l, m / a, m / b, x, y, m);
    NonnegativeFactor(l, k);
    MultipleDivides(l, k);
  }

  lemma LcmTimesGcd(a: nat, b: nat)
    requires a != 0 && b != 0
    ensures Gcd(a, b) > 0 && Lcm(a, b) > 0
    ensures Lcm(a, b) * Gcd(a, b) == a * b
  {
    var g := Gcd(a, b);
    GcdPositive(a, b);
    GcdDividesBoth(a, b);
    WholeQuotient(g, b);
    var k := Div(b, g);
    assert k != 0;
    assert a * (k * g) == (a * k) * g;
  }

  lemma LcmFactor(a: int, b: int, g: nat, l: int, ma: int, mb: int, x: int, y: int, m: int) returns (k: int)
    requires g != 0 && l * g == a * b && m == a * ma == b * mb && a * x + b * y == g
    ensures l * k == m
  {
    k := mb * x + ma * y;
    calc {
      g * (l * k);
      (l * g) * k;
      (a * b) * (mb * x + ma * y);
      { Distribute(a * b, mb * x, ma * y); }
      (a * b) * (mb * x) + (a * b) * (ma * y);
      { assert (a * b) * (mb * x) == (b * mb) * (a * x); assert (a * b) * (ma * y) == (a * ma) * (b * y); }
      m * (a * x) + m * (b * y);
      { Distribute(m, a * x, b * y); }
      m * g;
      g * m;
    }
    CancelFactor(g, l * k, m);
  }

  lemma Distribute(a: int, b: int, c: int)
    ensures a * (b + c) == a * b + a * c
  {
  }

  lemma NonnegativeFactor(l: nat, k: int)
    requires l != 0 && l * k >= 0
    ensures k >= 0
  {
  }

  lemma ZeroFactor(g: nat, x: int)
    requires g != 0 && g * x == 0
    ensures x == 0
  {
  }

  lemma CancelFactor(g: nat, a: int, b: int)
    requires g != 0 && g * a == g * b
    ensures a == b
  {
    assert g * (a - b) == 0;
    ZeroFactor(g, a - b);
  }

  lemma DividesTransitive(a: nat, b: nat, c: nat)
    requires Divides(a, b) && Divides(b, c)
    ensures Divides(a, c)
  {
    WholeQuotient(a, b);
    WholeQuotient(b, c);
    var k := (b / a) * (c / b);
    assert c == a * k by {
      assert (a * (b / a)) * (c / b) == a * ((b / a) * (c / b));
    }
    MultipleDivides(a, k);
  }

  /** Dividing out the gcd leaves coprime numbers. */
  lemma ReducedIsCoprime(a: nat, b: nat)
    requires b != 0
    ensures Gcd(a, b) > 0 && Gcd(a / Gcd(a, b), b / Gcd(a, b)) == 1
    ensures a == Gcd(a, b) * (a / Gcd(a, b)) && b == Gcd(a, b) * (b / Gcd(a, b))
    ensures b / Gcd(a, b) >= 1
  {
    var g := Gcd(a, b);
    GcdPositive(a, b);
    GcdDividesBoth(a, b);
    WholeQuotient(g, a);
    WholeQuotient(g, b);
    GcdScale(g, a / g, b / g);
    CancelFactor(g, Gcd(a / g, b / g), 1);
  }

  /** A coprime fraction is determined by its value. */
  lemma CoprimeUnique(a: nat, b: nat, c: nat, d: nat)
    requires b != 0 && d != 0 && Gcd(a, b) == 1 && Gcd(c, d) == 1
    requires a * d == c * b
    ensures a == c && b == d
  {
    // Scaling either pair by the other's denominator gives the same pair of numbers.
    GcdScale(d, a, b);
    GcdScale(b, c, d);
    assert d * a == b * c && d * b == b * d;
    assert b == d;
    CancelFactor(b, a, c);
  }
}
