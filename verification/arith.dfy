/** Euclid's algorithm as the puzzles write it (day 8, day 20 and the fractions of day 21
    share the same definition): order the arguments so the first is the larger, stop when
    the smaller is zero, otherwise recurse on the smaller and the remainder. */
module Arith {

  function Gcd(a: nat, b: nat): nat
    decreases if a < b then a else b
  {
    var (x, y) := if a < b then (b, a) else (a, b);
    if y == 0 then x else Gcd(y, x % y)
  }

  /** The least common multiple as `a * b / gcd(a, b)`. */
  function Lcm(a: nat, b: nat): nat
    requires a > 0 || b > 0
  {
    GcdPositive(a, b);
    a * b / Gcd(a, b)
  }

  lemma {:induction false} GcdPositive(a: nat, b: nat)
    requires a > 0 || b > 0
    ensures Gcd(a, b) > 0
    decreases if a < b then a else b
  {
    var (x, y) := if a < b then (b, a) else (a, b);
    if y != 0 {
      GcdPositive(y, x % y);
    }
  }

  lemma MulNonneg(a: int, b: int)
    requires a >= 0 && b >= 0
    ensures a * b >= 0
  {
  }

  /** Euclidean division is determined by any decomposition `n == g * k + r` with
      `0 <= r < g`. */
  lemma DivModUnique(n: int, g: int, k: int, r: int)
    requires g > 0 && 0 <= r < g && n == g * k + r
    ensures n / g == k && n % g == r
  {
    var q, r' := n / g, n % g;
    assert n == g * q + r';
    var m := k - q;
    assert g * m == r' - r by {
      assert g * k - g * q == g * (k - q);
    }
    if m >= 1 {
      assert g * m == g * (m - 1) + g;
      MulNonneg(g, m - 1);
    } else if m <= -1 {
      assert g * m == -(g * (-m - 1)) - g;
      MulNonneg(g, -m - 1);
    }
  }

  lemma MulMod(g: int, k: int)
    requires g > 0
    ensures (g * k) % g == 0 && (g * k) / g == k
  {
    DivModUnique(g * k, g, k, 0);
  }

  /** `g` divides `n` exactly when `n` is `g` times the quotient. */
  lemma DivisorWitness(g: int, n: int)
    requires g > 0 && n % g == 0
    ensures n == g * (n / g)
  {
  }

  lemma Distribute(g: int, c: int, d: int, x: int, y: int)
    ensures c * (g * x) + d * (g * y) == g * (c * x + d * y)
  {
  }

  lemma SumOfMultiples(g: int, m: int, n: int, c: int, d: int)
    requires g > 0 && m % g == 0 && n % g == 0
    ensures (c * m + d * n) % g == 0
  {
    DivisorWitness(g, m);
    DivisorWitness(g, n);
    Distribute(g, c, d, m / g, n / g);
    MulMod(g, c * (m / g) + d * (n / g));
  }

  /** The result of `Gcd` is a positive common divisor; `Gcd(a, 0) == a`; the
      argument order does not matter. */
  lemma {:induction false} GcdDivides(a: nat, b: nat)
    requires a > 0 || b > 0
    ensures Gcd(a, b) > 0 && a % Gcd(a, b) == 0 && b % Gcd(a, b) == 0
    ensures b == 0 ==> Gcd(a, b) == a
    ensures Gcd(a, b) == Gcd(b, a)
    decreases if a < b then a else b
  {
    var (x, y) := if a < b then (b, a) else (a, b);
    if y == 0 {
      assert x % x == 0;
    } else {
      GcdDivides(y, x % y);
      RemainderStep(x, y, Gcd(y, x % y));
    }
  }

  /** A common divisor of `y` and `x % y` divides `x`. */
  lemma RemainderStep(x: nat, y: nat, g: int)
    requires y > 0 && g > 0 && y % g == 0 && (x % y) % g == 0
    ensures x % g == 0
  {
    SumOfMultiples(g, y, x % y, x / y, 1);
    assert x == (x / y) * y + 1 * (x % y);
  }

  /** Bézout's identity: the gcd is an integer combination of the arguments. */
  lemma Bezout(a: nat, b: nat) returns (x: int, y: int)
    ensures x * a + y * b == Gcd(a, b)
  {
    if a < b {
      assert Gcd(a, b) == Gcd(b, a);
      y, x := BezoutOrdered(b, a);
    } else {
      x, y := BezoutOrdered(a, b);
    }
  }

  lemma {:induction false} BezoutOrdered(p: nat, q: nat) returns (u: int, v: int)
    requires p >= q
    ensures u * p + v * q == Gcd(p, q)
    decreases q
  {
    if q == 0 {
      u, v := 1, 0;
    } else {
      var r := p % q;
      var s, t := BezoutOrdered(q, r);
      assert Gcd(p, q) == Gcd(q, r);
      var d := p / q;
      assert r == p - d * q;
      BezoutStep(s, t, p, q, d);
      u, v := t, s - t * d;
    }
  }

  lemma BezoutStep(s: int, t: int, p: int, q: int, d: int)
    ensures s * q + t * (p - d * q) == t * p + (s - t * d) * q
  {
  }

  lemma Regroup(x: int, a: int, y: int, q: int, b: int)
    ensures (x * a + y * q) * b == x * (a * b) + (y * b) * q
  {
  }

  lemma Assoc(a: int, b: int, c: int)
    ensures (a * b) * c == a * (b * c) && a * (b * c) == b * (a * c)
  {
  }

  /** Every common divisor divides the gcd. */
  lemma GcdGreatest(a: nat, b: nat, d: int)
    requires d > 0 && a % d == 0 && b % d == 0
    ensures Gcd(a, b) % d == 0
  {
    var x, y := Bezout(a, b);
    SumOfMultiples(d, a, b, x, y);
  }

  /** Euclid's lemma: a number coprime to `q` cannot supply any factor of `q`. */
  lemma Euclid(a: nat, q: nat, b: int)
    requires q > 0 && Gcd(a, q) == 1 && (a * b) % q == 0
    ensures b % q == 0
  {
    var x, y := Bezout(a, q);
    Regroup(x, a, y, q, b);
    assert b == x * (a * b) + (y * b) * q;
    assert q % q == 0;
    SumOfMultiples(q, a * b, q, x, y * b);
  }

  /** `Lcm` is a positive common multiple of its (positive) arguments. */
  lemma LcmCommonMultiple(a: nat, b: nat)
    requires a > 0 && b > 0
    ensures Lcm(a, b) > 0 && Lcm(a, b) % a == 0 && Lcm(a, b) % b == 0
  {
    GcdDivides(a, b);
    var g := Gcd(a, b);
    DivisorWitness(g, a);
    DivisorWitness(g, b);
    Cofactors(g, a / g, b / g);
    MulMod(b, a / g);
    MulMod(a, b / g);
    PositiveProduct(a / g, b);
  }

  /** With `a == g * ka` and `b == g * kb`, `a * b / g` is `ka * b`, which is `a * kb`. */
  lemma Cofactors(g: int, ka: int, kb: int)
    requires g > 0
    ensures (g * ka) * (g * kb) / g == ka * (g * kb) == (g * ka) * kb
  {
    Assoc(g, ka, g * kb);
    MulMod(g, ka * (g * kb));
  }

  lemma PositiveProduct(a: int, b: int)
    requires a > 0 && b > 0
    ensures a * b > 0
  {
    MulNonneg(a - 1, b);
  }

  /** Dividing both arguments by their gcd leaves coprime cofactors. */
  lemma CofactorsCoprime(a: nat, b: nat)
    requires a > 0 && b > 0
    ensures Gcd(a, b) > 0 && a % Gcd(a, b) == 0 && b % Gcd(a, b) == 0
    ensures Gcd(a / Gcd(a, b), b / Gcd(a, b)) == 1
  {
    GcdDivides(a, b);
    var g := Gcd(a, b);
    DivisorWitness(g, a);
    DivisorWitness(g, b);
    var ka, kb := a / g, b / g;
    assert ka > 0;
    var x, y := CofactorCombination(a, b, g, ka, kb);
    UnitCombination(ka, kb, x, y);
  }

  lemma CofactorCombination(a: nat, b: nat, g: nat, ka: int, kb: int) returns (x: int, y: int)
    requires g == Gcd(a, b) && g > 0 && a == g * ka && b == g * kb
    ensures x * ka + y * kb == 1
  {
    x, y := Bezout(a, b);
    assert g * (x * ka + y * kb) == g * 1 by {
      Distribute(g, x, y, ka, kb);
    }
    MulCancel(g, x * ka + y * kb, 1);
  }

  /** Numbers with an integer combination equal to 1 are coprime. */
  lemma UnitCombination(p: nat, q: nat, x: int, y: int)
    requires p > 0 && x * p + y * q == 1
    ensures Gcd(p, q) == 1
  {
    GcdDivides(p, q);
    var d := Gcd(p, q);
    SumOfMultiples(d, p, q, x, y);
    assert 1 % d == 0;
  }

  /** `Lcm` is the least common multiple: it divides every common multiple. */
  lemma LcmLeast(a: nat, b: nat, m: int)
    requires a > 0 && b > 0 && m % a == 0 && m % b == 0
    ensures Lcm(a, b) > 0 && m % Lcm(a, b) == 0
  {
    LcmCommonMultiple(a, b);
    CofactorsCoprime(a, b);
    var g := Gcd(a, b);
    var ka, kb := a / g, b / g;
    DivisorWitness(g, a);
    DivisorWitness(g, b);
    assert Lcm(a, b) == ka * b by {
      Assoc(g, ka, b);
      MulMod(g, ka * b);
    }
    var t := CommonMultipleQuotient(g, ka, kb, m);
    assert m == (ka * b) * t by {
      Assoc(ka, g, kb);
      Assoc(ka * g, kb, t);
    }
    MulMod(ka * b, t);
  }

  /** A common multiple of `g * ka` and `g * kb`, with coprime `ka` and `kb`, is
      `g * ka * kb` times some `t`. */
  lemma CommonMultipleQuotient(g: nat, ka: nat, kb: nat, m: int) returns (t: int)
    requires g > 0 && ka > 0 && kb > 0 && Gcd(ka, kb) == 1
    requires m % (g * ka) == 0 && m % (g * kb) == 0
    ensures m == ((ka * g) * kb) * t
  {
    DivisorWitness(g * ka, m);
    DivisorWitness(g * kb, m);
    var k, j := m / (g * ka), m / (g * kb);
    assert g * (ka * k) == g * (kb * j) by {
      Assoc(g, ka, k);
      Assoc(g, kb, j);
    }
    MulCancel(g, ka * k, kb * j);
    MulMod(kb, j);
    Euclid(ka, kb, k);
    DivisorWitness(kb, k);
    t := k / kb;
    assert m == (g * ka) * (kb * t);
    Assoc(g * ka, kb, t);
    assert g * ka == ka * g;
  }

  lemma MulCancel(g: int, u: int, v: int)
    requires g > 0 && g * u == g * v
    ensures u == v
  {
    MulMod(g, u);
    MulMod(g, v);
  }
}
