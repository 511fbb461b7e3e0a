/** Exact rational numbers for day 21 (`fraction.rs`). A fraction is a numerator and a
    denominator; every constructor normalises it to lowest terms with a positive
    denominator, so structural equality coincides with equality of the rationals
    denoted. Rust's `i128` is modelled by unbounded integers. */
module Fractions {
  import opened Wrappers
  import opened Arith

  datatype Fraction = Fraction(p: int, q: int)

  function Abs(x: int): (r: nat)
    ensures r == x || r == -x
  {
    if x < 0 then -x else x
  }

  function Signum(x: int): (r: int)
    ensures (x < 0 <==> r == -1) && (x == 0 <==> r == 0) && (x > 0 <==> r == 1)
  {
    if x < 0 then -1 else if x == 0 then 0 else 1
  }

  /** The rational a fraction denotes; the degenerate `0/0` denotes 0. */
  function Val(f: Fraction): real
  {
    if f.q == 0 then 0.0 else f.p as real / f.q as real
  }

  /** `d` is a positive divisor of `n`. */
  predicate Divides(d: int, n: int)
  {
    d > 0 && n % d == 0
  }

  /** Lowest terms with a positive denominator: the form `simplify` leaves behind. */
  ghost predicate Normal(f: Fraction)
  {
    f.q > 0 && forall d :: Divides(d, f.p) && Divides(d, f.q) ==> d == 1
  }

  /** Normality is the gcd of numerator and denominator being 1. */
  lemma NormalGcd(p: int, q: int)
    requires q > 0
    ensures Normal(Fraction(p, q)) <==> Gcd(Abs(p), q) == 1
  {
    GcdDivides(Abs(p), q);
    var g := Gcd(Abs(p), q);
    if Normal(Fraction(p, q)) {
      AbsDivides(g, p);
      assert Divides(g, p) && Divides(g, q);
    }
    if g == 1 {
      forall d | Divides(d, p) && Divides(d, q)
        ensures d == 1
      {
        AbsDivides(d, p);
        GcdGreatest(Abs(p), q, d);
        OnlyDivisorOfOne(d);
      }
    }
  }

  lemma AbsDivides(d: int, p: int)
    requires d > 0
    ensures p % d == 0 <==> Abs(p) % d == 0
  {
    NegDivides(d, p);
  }

  lemma NegDivides(d: int, p: int)
    requires d > 0
    ensures p % d == 0 <==> (-p) % d == 0
  {
    if p % d == 0 {
      NegMultiple(d, p);
    }
    if (-p) % d == 0 {
      NegMultiple(d, -p);
      assert -(-p) == p;
    }
  }

  lemma NegMultiple(d: int, p: int)
    requires d > 0 && p % d == 0
    ensures (-p) % d == 0
  {
    var k := p / d;
    DivisorWitness(d, p);
    assert -p == d * (-k);
    MulMod(d, -k);
  }

  lemma OnlyDivisorOfOne(d: int)
    requires d > 0 && 1 % d == 0
    ensures d == 1
  {
    if d > 1 {
      DivModUnique(1, d, 0, 1);
    }
  }

  /** `Fraction::new`: divide out the gcd and move the sign to the numerator. Both parts
      zero makes the gcd zero and the division panics; a zero denominator with a non-zero
      numerator degenerates to `0/0`. The divisions are exact, so Rust's truncation and
      Dafny's Euclidean division agree. */
  function New(p: int, q: int): (r: Result<Fraction>)
    ensures r.Err? <==> p == 0 && q == 0
    ensures q != 0 ==> r.Ok? && Normal(r.value) && Val(r.value) == p as real / q as real
    ensures q == 0 && p != 0 ==> r == Ok(Fraction(0, 0))
  {
    if p == 0 && q == 0 then Err
    else
      var m := Gcd(Abs(p), Abs(q));
      GcdDivides(Abs(p), Abs(q));
      var f := Fraction(Signum(p * q) * Abs(p) / m, Abs(q) / m);
      NewFacts(p, q, m, f);
      Ok(f)
  }

  lemma NewFacts(p: int, q: int, m: nat, f: Fraction)
    requires p != 0 || q != 0
    requires m == Gcd(Abs(p), Abs(q)) && m > 0
    requires f == Fraction(Signum(p * q) * Abs(p) / m, Abs(q) / m)
    ensures q != 0 ==> Normal(f) && Val(f) == p as real / q as real
    ensures q == 0 ==> f == Fraction(0, 0)
  {
    if q == 0 {
      NewZeroDenominator(p, m);
    } else if p == 0 {
      NewZeroNumerator(q, m);
    } else {
      NewGeneral(p, q, m, f);
    }
  }

  lemma NewZeroDenominator(p: int, m: nat)
    requires p != 0 && m == Gcd(Abs(p), 0)
    ensures m > 0 && Signum(p * 0) * Abs(p) / m == 0 && 0 / m == 0
  {
    GcdDivides(Abs(p), 0);
  }

  lemma NewZeroNumerator(q: int, m: nat)
    requires q != 0 && m == Gcd(0, Abs(q))
    ensures m > 0 && Signum(0 * q) * 0 / m == 0 && Abs(q) / m == 1
    ensures Normal(Fraction(0, 1))
  {
    GcdDivides(Abs(q), 0);
    GcdDivides(0, Abs(q));
    MulMod(m, 1);
    GcdDivides(1, 0);
    NormalGcd(0, 1);
  }

  lemma NewGeneral(p: int, q: int, m: nat, f: Fraction)
    requires p != 0 && q != 0
    requires m == Gcd(Abs(p), Abs(q)) && m > 0
    requires f == Fraction(Signum(p * q) * Abs(p) / m, Abs(q) / m)
    ensures Normal(f) && Val(f) == p as real / q as real
  {
    CofactorsCoprime(Abs(p), Abs(q));
    var s := Signum(p) * Signum(q);
    SignOfProduct(p, q);
    DivisorWitness(m, Abs(p));
    DivisorWitness(m, Abs(q));
    var kp, kq := Abs(p) / m, Abs(q) / m;
    ExactQuotient(m, kp, s);
    assert f.p == s * kp;
    assert Abs(f.p) == kp;
    assert f.q == kq > 0;
    NormalGcd(f.p, f.q);
    SignedCofactor(p, q, m, kp, kq);
  }

  lemma SignOfProduct(p: int, q: int)
    requires p != 0 && q != 0
    ensures Signum(p * q) == Signum(p) * Signum(q)
  {
    if p > 0 && q > 0 {
      PositiveProduct(p, q);
    } else if p > 0 {
      PositiveProduct(p, -q);
    } else if q > 0 {
      PositiveProduct(-p, q);
    } else {
      PositiveProduct(-p, -q);
    }
  }

  lemma ExactQuotient(m: int, k: int, s: int)
    requires m > 0 && (s == 1 || s == -1)
    ensures s * (m * k) / m == s * k
  {
    assert s * (m * k) == m * (s * k);
    MulMod(m, s * k);
  }

  lemma SignedCofactor(p: int, q: int, m: int, kp: int, kq: int)
    requires p != 0 && q != 0 && m > 0 && kq > 0
    requires Abs(p) == m * kp && Abs(q) == m * kq
    ensures (Signum(p) * Signum(q) * kp) as real / kq as real == p as real / q as real
  {
    var sp, sq := Signum(p), Signum(q);
    assert p == sp * (m * kp);
    assert q == sq * (m * kq);
    assert (sp * sq * kp) * q == p * kq by {
      assert sq * sq == 1;
      calc {
        (sp * sq * kp) * q;
        (sp * sq * kp) * (sq * (m * kq));
        sp * (sq * sq) * (m * kp) * kq;
        p * kq;
      }
    }
    CrossMultiply(sp * sq * kp, kq, p, q);
  }

  /** Two quotients of integers with non-zero denominators are equal iff their cross
      products are. */
  lemma CrossMultiply(a: int, b: int, c: int, d: int)
    requires b != 0 && d != 0
    ensures a as real / b as real == c as real / d as real <==> a * d == c * b
  {
    var x, y, z, w := a as real, b as real, c as real, d as real;
    assert (a * d) as real == x * w;
    assert (c * b) as real == z * y;
    assert x / y == z / w <==> x * w == z * y;
  }

  /** Construction from parts known to be valid, as every operation below uses it. */
  function Make(p: int, q: int): (r: Fraction)
    requires q != 0
    ensures Normal(r) && Val(r) == p as real / q as real
  {
    New(p, q).value
  }

  /** Structural equality of normal fractions is equality of the rationals. */
  lemma Canonical(a: Fraction, b: Fraction)
    requires Normal(a) && Normal(b)
    ensures a == b <==> Val(a) == Val(b)
  {
    if Val(a) == Val(b) {
      CrossMultiply(a.p, a.q, b.p, b.q);
      assert a.p * b.q == b.p * a.q;
      DividesOther(a, b);
      DividesOther(b, a);
      MutualDivisors(a.q, b.q);
      MulCancel(a.q, a.p, b.p);
    }
  }

  /** For equal normal fractions, each denominator divides the other. */
  lemma DividesOther(a: Fraction, b: Fraction)
    requires Normal(a) && Normal(b) && a.p * b.q == b.p * a.q
    ensures b.q % a.q == 0
  {
    CrossMultiple(a.p, a.q, b.p, b.q);
    NormalGcd(a.p, a.q);
    Euclid(Abs(a.p), a.q, b.q);
  }

  lemma CrossMultiple(ap: int, aq: int, bp: int, bq: int)
    requires aq > 0 && ap * bq == bp * aq
    ensures (Abs(ap) * bq) % aq == 0
  {
    var s := if ap < 0 then -1 else 1;
    assert Abs(ap) * bq == aq * (s * bp) by {
      assert Abs(ap) == s * ap;
    }
    MulMod(aq, s * bp);
  }

  lemma MutualDivisors(x: int, y: int)
    requires x > 0 && y > 0 && x % y == 0 && y % x == 0
    ensures x == y
  {
    NotBelow(x, y);
    NotBelow(y, x);
  }

  /** A positive multiple of `y` is at least `y`. */
  lemma NotBelow(x: int, y: int)
    requires x > 0 && y > 0 && x % y == 0
    ensures x >= y
  {
    DivisorWitness(y, x);
    var k := x / y;
    if k <= 0 {
      MulNonneg(y, -k);
    } else {
      MulNonneg(y, k - 1);
    }
  }

  /** `From<i128>`: an integer as a fraction over 1. */
  function FromInt(v: int): (r: Fraction)
    ensures r == Fraction(v, 1) && Normal(r) && Val(r) == v as real
  {
    var f := Make(v, 1);
    forall d | Divides(d, v) && Divides(d, 1)
      ensures d == 1
    {
      OnlyDivisorOfOne(d);
    }
    Canonical(f, Fraction(v, 1));
    f
  }

  /** A normal fraction with the value `p / q` of a reduced pair is that pair. */
  lemma Recognize(f: Fraction, p: int, q: int)
    requires Normal(f) && q > 0 && Gcd(Abs(p), q) == 1 && Val(f) == p as real / q as real
    ensures f == Fraction(p, q)
  {
    NormalGcd(p, q);
    Canonical(f, Fraction(p, q));
  }

  /** A normal fraction is zero exactly when it is `0/1`, so comparing with `0.into()`
      is comparing the numerator with zero. */
  lemma ZeroIsZeroOverOne(f: Fraction)
    requires Normal(f)
    ensures f == FromInt(0) <==> f.p == 0
  {
    if f.p == 0 {
      MulMod(f.q, 1);
      assert Divides(f.q, f.p) && Divides(f.q, f.q);
    }
  }

  /** `Neg`: the numerator's sign flips and no normalisation is needed. */
  function Neg(a: Fraction): (r: Fraction)
    ensures Normal(a) ==> Normal(r) && Val(r) == -Val(a)
  {
    NegFacts(a);
    Fraction(-a.p, a.q)
  }

  lemma NegFacts(a: Fraction)
    ensures Normal(a) ==> Normal(Fraction(-a.p, a.q))
    ensures a.q > 0 ==> (-a.p) as real / a.q as real == -(a.p as real / a.q as real)
  {
    if Normal(a) {
      forall d | Divides(d, -a.p) && Divides(d, a.q)
        ensures d == 1
      {
        NegDivides(d, a.p);
      }
    }
  }

  /** Negation is an involution. */
  lemma NegInvolution(a: Fraction)
    ensures Neg(Neg(a)) == a
  {
  }

  /** `Add`: bring both to the lcm of the denominators, add numerators, normalise.
      The arithmetic operations are methods, so that a caller sees only their contracts
      and never the arithmetic of the normalisation. */
  method Add(a: Fraction, b: Fraction) returns (r: Fraction)
    requires Normal(a) && Normal(b)
    ensures Normal(r) && Val(r) == Val(a) + Val(b)
  {
    LcmCommonMultiple(a.q, b.q);
    var q := Lcm(a.q, b.q);
    var p := a.p * (q / a.q) + b.p * (q / b.q);
    AddFacts(a, b, q, p);
    r := Make(p, q);
  }

  lemma AddFacts(a: Fraction, b: Fraction, q: int, p: int)
    requires a.q > 0 && b.q > 0 && q > 0 && q % a.q == 0 && q % b.q == 0
    requires p == a.p * (q / a.q) + b.p * (q / b.q)
    ensures p as real / q as real == Val(a) + Val(b)
  {
    DivisorWitness(a.q, q);
    DivisorWitness(b.q, q);
    var ka, kb := q / a.q, q / b.q;
    assert ka > 0 && kb > 0;
    Scale(a.p, a.q, ka);
    Scale(b.p, b.q, kb);
    var qr := q as real;
    assert p as real == (a.p * ka) as real + (b.p * kb) as real;
    assert p as real / qr == (a.p * ka) as real / qr + (b.p * kb) as real / qr;
  }

  /** Scaling numerator and denominator by the same positive factor keeps the value. */
  lemma Scale(x: int, y: int, k: int)
    requires y > 0 && k > 0
    ensures (x * k) as real / (y * k) as real == x as real / y as real
  {
    CrossMultiply(x * k, y * k, x, y);
    assert (x * k) * y == x * (y * k);
  }

  /** `Sub` is `a + (-b)`. */
  method Sub(a: Fraction, b: Fraction) returns (r: Fraction)
    requires Normal(a) && Normal(b)
    ensures Normal(r) && Val(r) == Val(a) - Val(b)
  {
    r := Add(a, Neg(b));
  }

  /** `Mul` exactly as written: it accepts any pair of fractions and inherits the panic of
      `new` when both products are zero. */
  function MulRaw(a: Fraction, b: Fraction): (r: Result<Fraction>)
    ensures r.Err? <==> a.p * b.p == 0 && a.q * b.q == 0
    ensures a.q > 0 && b.q > 0 ==> r.Ok? && Normal(r.value) && Val(r.value) == Val(a) * Val(b)
  {
    if a.q > 0 && b.q > 0 then
      PositiveProduct(a.q, b.q);
      MulFacts(a, b);
      New(a.p * b.p, a.q * b.q)
    else
      New(a.p * b.p, a.q * b.q)
  }

  lemma MulFacts(a: Fraction, b: Fraction)
    requires a.q > 0 && b.q > 0
    ensures (a.p * b.p) as real / (a.q * b.q) as real == Val(a) * Val(b)
  {
    var x, y, z, w := a.p as real, a.q as real, b.p as real, b.q as real;
    assert (a.p * b.p) as real == x * z;
    assert (a.q * b.q) as real == y * w;
    assert (x * z) / (y * w) == (x / y) * (z / w);
  }

  /** Multiplication of normal fractions. */
  method Mul(a: Fraction, b: Fraction) returns (r: Fraction)
    requires Normal(a) && Normal(b)
    ensures Normal(r) && Val(r) == Val(a) * Val(b)
  {
    r := MulRaw(a, b).value;
  }

  /** `inv`: swap numerator and denominator and normalise; the inverse of zero is the
      degenerate `0/0`. */
  function Inv(a: Fraction): (r: Result<Fraction>)
    ensures r.Err? <==> a.p == 0 && a.q == 0
    ensures Normal(a) && a.p != 0 ==> r.Ok? && Normal(r.value) && Val(r.value) * Val(a) == 1.0
    ensures Normal(a) && a.p == 0 ==> r == Ok(Fraction(0, 0))
  {
    InvFacts(a, New(a.q, a.p));
    New(a.q, a.p)
  }

  lemma InvFacts(a: Fraction, r: Result<Fraction>)
    requires r == New(a.q, a.p)
    ensures a.q > 0 && a.p != 0 ==> r.Ok? && Val(r.value) * Val(a) == 1.0
  {
    if a.q > 0 && a.p != 0 {
      Reciprocal(a.p, a.q, r.value);
    }
  }

  lemma Reciprocal(p: int, q: int, r: Fraction)
    requires q > 0 && p != 0 && Val(r) == q as real / p as real
    ensures Val(r) * (p as real / q as real) == 1.0
  {
    var x, y := p as real, q as real;
    assert (y / x) * (x / y) == 1.0;
  }

  /** `Div`: multiply by `new(rhs.q, rhs.p)`. A zero divisor turns into `0/0`, and the
      following multiplication reaches `new(0, 0)`, which panics. */
  method Div(a: Fraction, b: Fraction) returns (r: Result<Fraction>)
    requires Normal(a) && Normal(b)
    ensures r.Err? <==> b.p == 0
    ensures r.Ok? ==> Normal(r.value) && Val(r.value) * Val(b) == Val(a)
  {
    var recip := New(b.q, b.p).value;
    if b.p == 0 {
      assert recip == Fraction(0, 0);
      r := MulRaw(a, recip);
    } else {
      var m := Mul(a, recip);
      DivFacts(a, b, recip, m);
      r := Ok(m);
    }
  }

  lemma DivFacts(a: Fraction, b: Fraction, recip: Fraction, r: Fraction)
    requires b.q > 0 && b.p != 0 && Val(recip) == b.q as real / b.p as real
    requires Val(r) == Val(a) * Val(recip)
    ensures Val(r) * Val(b) == Val(a)
  {
    var x, y := b.p as real, b.q as real;
    assert (y / x) * (x / y) == 1.0;
  }

  /** The sum of the rationals denoted, the reference for `Sum`. */
  function ValSum(fs: seq<Fraction>): real
  {
    if fs == [] then 0.0 else ValSum(fs[..|fs| - 1]) + Val(fs[|fs| - 1])
  }

  /** `Sum`: fold `+` from `new(0, 1)`. */
  method Sum(fs: seq<Fraction>) returns (r: Fraction)
    requires forall i :: 0 <= i < |fs| ==> Normal(fs[i])
    ensures Normal(r) && Val(r) == ValSum(fs)
  {
    r := Make(0, 1);
    for i := 0 to |fs|
      invariant Normal(r) && Val(r) == ValSum(fs[..i])
    {
      assert fs[..i + 1][..i] == fs[..i];
      r := Add(r, fs[i]);
    }
    assert fs[..|fs|] == fs;
  }

  // The unit tests of `fraction.rs`, as computations with their expected results.

  method AddExample() returns (r: Fraction)
    ensures r == Make(17, 12)
  {
    r := Add(Make(2, 3), Make(3, 4));
    Canonical(r, Make(17, 12));
  }

  method MulExample() returns (r: Fraction)
    ensures r == Make(1, 28)
  {
    r := Mul(Make(1, 6), Make(3, 14));
    assert Val(r) == (1.0 / 6.0) * (3.0 / 14.0);
    Canonical(r, Make(1, 28));
  }

  method DivExample() returns (r: Result<Fraction>)
    ensures r == Ok(Make(1, 9))
  {
    r := Div(Make(1, 6), Make(3, 2));
    assert Val(r.value) * (3.0 / 2.0) == 1.0 / 6.0;
    Canonical(r.value, Make(1, 9));
  }

  method SumExample() returns (r: Fraction)
    ensures r == Make(43, 12)
  {
    var fs := [Make(1, 3), Make(3, 4), Make(5, 2)];
    assert fs[..2][..1] == [fs[0]];
    assert fs[..2] == [fs[0], fs[1]];
    assert [fs[0]][..0] == [];
    assert ValSum([fs[0]]) == Val(fs[0]) == 1.0 / 3.0;
    assert ValSum(fs[..2]) == Val(fs[0]) + Val(fs[1]);
    assert ValSum(fs) == 1.0 / 3.0 + 3.0 / 4.0 + 5.0 / 2.0;
    r := Sum(fs);
    Canonical(r, Make(43, 12));
  }
}
