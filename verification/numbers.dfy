/** Exact numbers used by the expression tree: normalised rationals (the
    exponent type) and complex numbers with exact parts (the literal type).
    These stand in for the arbitrary-precision `Ratio`/`Complex` types the
    system borrows from its numeric library. */
module Numbers {

  function Abs(x: int): nat
  {
    if x < 0 then -x else x
  }

  /** Euclid's algorithm. */
  function Gcd(a: nat, b: nat): nat
    decreases b
  {
    if b == 0 then a else Gcd(b, a % b)
  }

  predicate Divides(d: nat, x: nat)
  {
    d > 0 && x % d == 0
  }

  // Small facts of integer arithmetic, stated as implications so that they
  // can be called without first establishing a precondition.

  lemma MulAtLeast(y: int, k: int)
    ensures y > 0 && k >= 1 ==> y * k >= y
  {
    if y > 0 && k >= 1 {
      assert y * k == y * (k - 1) + y;
      assert y * (k - 1) >= 0;
    }
  }

  lemma BoundedMultipleIsZero(y: int, k: int)
    ensures y > 0 && -y < y * k < y ==> k == 0
  {
    MulAtLeast(y, k);
    MulAtLeast(y, -k);
    assert y * (-k) == -(y * k);
  }

  /** Euclidean division is unique. */
  lemma ModUnique(x: int, y: int, q: int, r: int)
    requires y > 0 && 0 <= r < y && x == y * q + r
    ensures x % y == r && x / y == q
  {
    var q', r' := x / y, x % y;
    assert x == y * q' + r';
    assert y * (q - q') == r' - r;
    BoundedMultipleIsZero(y, q - q');
  }

  lemma MultipleIsDivisible(g: nat, k: int)
    requires g > 0
    ensures (g * k) % g == 0 && (g * k) / g == k
  {
    ModUnique(g * k, g, k, 0);
  }

  lemma Factor(g: int, u: int, w: int, q: int)
    ensures (g * u) * q + g * w == g * (u * q + w)
  {
  }

  lemma {:induction false} GcdDividesBoth(a: nat, b: nat)
    requires a > 0 || b > 0
    ensures Gcd(a, b) > 0
    ensures Divides(Gcd(a, b), a) && Divides(Gcd(a, b), b)
    decreases b
  {
    if b == 0 {
      MultipleIsDivisible(a, 1);
      MultipleIsDivisible(a, 0);
    } else {
      var q, r := a / b, a % b;
      assert a == b * q + r;
      GcdDividesBoth(b, r);
      var g := Gcd(b, r);
      assert Gcd(a, b) == g;
      DividesCombination(g, b, r, q);
    }
  }

  /** A common divisor of b and r divides b * q + r. */
  lemma DividesCombination(g: nat, b: nat, r: nat, q: nat)
    requires Divides(g, b) && Divides(g, r)
    ensures Divides(g, b * q + r)
  {
    var u, w := b / g, r / g;
    assert b == g * u && r == g * w;
    Factor(g, u, w, q);
    assert b * q + r == g * (u * q + w);
    MultipleIsDivisible(g, u * q + w);
  }

  lemma ModScale(k: nat, a: nat, b: nat)
    requires k > 0 && b > 0
    ensures (k * a) % (k * b) == k * (a % b)
  {
    var q, r := a / b, a % b;
    assert a == b * q + r;
    assert k * a == (k * b) * q + k * r by {
      assert k * (b * q + r) == k * (b * q) + k * r;
    }
    MulAtLeast(k, b - r);
    assert k * (b - r) == k * b - k * r;
    ModUnique(k * a, k * b, q, k * r);
  }

  lemma {:induction false} GcdScale(k: nat, a: nat, b: nat)
    requires k > 0
    ensures Gcd(k * a, k * b) == k * Gcd(a, b)
    decreases b
  {
    if b > 0 {
      ModScale(k, a, b);
      GcdScale(k, b, a % b);
    }
  }

  /** Dividing both arguments by their gcd leaves coprime numbers. */
  lemma ReducedIsCoprime(a: nat, b: nat)
    requires b > 0
    ensures Gcd(a, b) > 0 && Gcd(a / Gcd(a, b), b / Gcd(a, b)) == 1
  {
    GcdDividesBoth(a, b);
    var g := Gcd(a, b);
    var u, v := a / g, b / g;
    ExactQuotient(g, a);
    ExactQuotient(g, b);
    GcdScale(g, u, v);
    assert g * Gcd(u, v) == g * 1;
    MulCancel(Gcd(u, v), 1, g);
  }

  lemma ExactQuotient(d: nat, x: nat)
    requires Divides(d, x)
    ensures d * (x / d) == x
  {
  }

  lemma MulCancel(a: int, b: int, c: int)
    requires c > 0 && a * c == b * c
    ensures a == b
  {
    assert c * (a - b) == 0;
    BoundedMultipleIsZero(c, a - b);
  }

  /** The representation of a rational: numerator over denominator. */
  datatype Ratio = Ratio(numer: int, denom: int)

  /** Lowest terms with a positive denominator, as the numeric library keeps
      every rational it returns. */
  predicate Normal(r: Ratio)
  {
    r.denom > 0 && Gcd(Abs(r.numer), r.denom) == 1
  }

  type Rat = r: Ratio | Normal(r) witness Ratio(0, 1)

  const Zero: Rat := Ratio(0, 1)
  const One: Rat := Ratio(1, 1)

  /** Two rationals denote the same number. */
  predicate SameValue(x: Ratio, y: Ratio)
  {
    x.numer * y.denom == y.numer * x.denom
  }

  /** numer/denom reduced to lowest terms, sign moved to the numerator. */
  function MakeRat(n: int, d: int): (r: Rat)
    requires d != 0
    ensures SameValue(r, Ratio(n, d))
    ensures (n < 0) == (d < 0) ==> r.numer >= 0
    ensures (n < 0) != (d < 0) ==> r.numer <= 0
  {
    ReduceFacts(n, d);
    Reduce(n, d)
  }

  function Reduce(n: int, d: int): Ratio
    requires d != 0
  {
    GcdPositive(Abs(n), Abs(d));
    var g := Gcd(Abs(n), Abs(d));
    var a, b := Abs(n) / g, Abs(d) / g;
    Ratio(if (n < 0) != (d < 0) then -a else a, b)
  }

  lemma {:induction false} GcdPositive(a: nat, b: nat)
    requires b > 0
    ensures Gcd(a, b) > 0
    decreases b
  {
    if a % b > 0 {
      GcdPositive(b, a % b);
    }
  }

  lemma ReduceFacts(n: int, d: int)
    requires d != 0
    ensures Normal(Reduce(n, d))
    ensures SameValue(Reduce(n, d), Ratio(n, d))
    ensures (n < 0) == (d < 0) ==> Reduce(n, d).numer >= 0
    ensures (n < 0) != (d < 0) ==> Reduce(n, d).numer <= 0
  {
    var g := Gcd(Abs(n), Abs(d));
    ReducedIsCoprime(Abs(n), Abs(d));
    GcdDividesBoth(Abs(n), Abs(d));
    var a := Abs(n) / g;
    var b := Abs(d) / g;
    ExactQuotient(g, Abs(n));
    ExactQuotient(g, Abs(d));
    ReducedCross(n, d, g, a, b);
    assert Abs(if (n < 0) != (d < 0) then -a else a) == a;
  }

  lemma ReducedCross(n: int, d: int, g: nat, a: int, b: int)
    requires g > 0 && d != 0 && Abs(n) == g * a && Abs(d) == g * b
    ensures b > 0
    ensures (if (n < 0) != (d < 0) then -a else a) * d == n * b
  {
    assert a * Abs(d) == Abs(n) * b by {
      assert a * (g * b) == (g * a) * b;
    }
    MulAtMostZero(g, b);
  }

  function RatMul(x: Rat, y: Rat): (r: Rat)
    ensures r.numer * (x.denom * y.denom) == (x.numer * y.numer) * r.denom
  {
    MakeRat(x.numer * y.numer, x.denom * y.denom)
  }

  function RatAbs(x: Rat): (r: Rat)
    ensures r.numer == Abs(x.numer) && r.denom == x.denom
  {
    Ratio(Abs(x.numer), x.denom)
  }

  function IntRat(k: int): (r: Rat)
    ensures r.numer == k && r.denom == 1
  {
    Ratio(k, 1)
  }

  /** The rational 1/d, used as a root exponent. */
  function UnitFraction(d: nat): (r: Rat)
    requires d > 0
    ensures SameValue(r, Ratio(1, d))
    ensures r.numer == 1 && r.denom == d
  {
    assert Gcd(1, d) == 1 by {
      if d > 1 {
        assert 1 % d == 1;
      }
    }
    Ratio(1, d)
  }

  predicate IsNegative(x: Rat)
  {
    x.numer < 0
  }

  predicate IsInteger(x: Rat)
  {
    x.denom == 1
  }

  /** A normal rational is zero only in the form 0/1, so comparing with
      `Zero` structurally is comparing values. */
  lemma ZeroIsCanonical(x: Rat)
    ensures SameValue(x, Zero) <==> x == Zero
  {
    if x.numer == 0 {
      assert Gcd(0, x.denom) == x.denom;
    }
  }

  /** Likewise the only normal form of one is 1/1. */
  lemma OneIsCanonical(x: Rat)
    ensures SameValue(x, One) <==> x == One
  {
    if x.numer == x.denom {
      assert Gcd(x.denom, x.denom) == x.denom by {
        assert x.denom % x.denom == 0;
      }
    }
  }

  /** Normal forms are unique: two normal rationals with the same value are
      the same representation. */
  lemma NormalFormUnique(x: Rat, y: Rat)
    requires SameValue(x, y)
    ensures x == y
  {
    CoprimeDividesProduct(x.denom, x.numer, y.denom, y.numer);
    CoprimeDividesProduct(y.denom, y.numer, x.denom, x.numer);
    DivisorAtMost(x.denom, y.denom);
    DivisorAtMost(y.denom, x.denom);
    assert x.denom == y.denom;
    MulCancel(x.numer, y.numer, x.denom);
  }

  lemma DivisorAtMost(d: int, x: int)
    ensures d > 0 && x > 0 && x % d == 0 ==> d <= x
  {
    if d > 0 {
      var k := x / d;
      assert x == d * k + x % d;
      MulAtLeast(d, k);
      MulAtMostZero(d, k);
    }
  }

  lemma MulAtMostZero(y: int, k: int)
    ensures y > 0 && k <= 0 ==> y * k <= 0
  {
  }

  /** Euclid's lemma on the cross products of two fractions: if n/d is in
      lowest terms and n * e == f * d, then d divides e. */
  lemma CoprimeDividesProduct(d: nat, n: int, e: nat, f: int)
    requires d > 0 && Gcd(Abs(n), d) == 1
    requires n * e == f * d
    ensures e % d == 0
  {
    if e > 0 {
      var an := Abs(n);
      CrossMultiple(n, e, f, d);
      ScaledMultiple(e, d);
      CommonDivisorDividesGcd(d, e * an, e * d);
      GcdScale(e, an, d);
    }
  }

  lemma CrossMultiple(n: int, e: nat, f: int, d: nat)
    requires d > 0 && n * e == f * d
    ensures (e * Abs(n)) % d == 0
  {
    CrossAbs(n, e, f, d);
    MultipleIsDivisible(d, Abs(f));
  }

  lemma ScaledMultiple(e: nat, d: nat)
    requires d > 0
    ensures (e * d) % d == 0
  {
    MultipleIsDivisible(d, e);
    assert e * d == d * e;
  }

  lemma CrossAbs(n: int, e: nat, f: int, d: nat)
    requires n * e == f * d
    ensures e * Abs(n) == d * Abs(f)
  {
    AbsMul(n, e);
    AbsMul(f, d);
  }

  lemma AbsMul(a: int, b: nat)
    ensures Abs(a * b) == Abs(a) * b
  {
    if a < 0 {
      assert a * b == -(Abs(a) * b);
    }
  }

  lemma {:induction false} CommonDivisorDividesGcd(d: nat, a: nat, b: nat)
    requires d > 0 && a % d == 0 && b % d == 0
    ensures Gcd(a, b) % d == 0
    decreases b
  {
    if b > 0 {
      var q := a / b;
      assert a == b * q + a % b;
      var ka, kb := a / d, b / d;
      assert a == d * ka && b == d * kb;
      assert a % b == d * (ka - kb * q) by {
        assert (d * kb) * q == d * (kb * q);
        assert d * ka - d * (kb * q) == d * (ka - kb * q);
      }
      MultipleIsDivisible(d, ka - kb * q);
      CommonDivisorDividesGcd(d, b, a % b);
    }
  }

  /** A complex number with exact real and imaginary parts. */
  datatype Complex = Complex(re: real, im: real)

  const CZero: Complex := Complex(0.0, 0.0)
  const COne: Complex := Complex(1.0, 0.0)

  /** The squared norm re^2 + im^2. */
  function NormSqr(v: Complex): real
  {
    v.re * v.re + v.im * v.im
  }

  /** A complex number the reciprocal is undefined for: its squared norm,
      the divisor of the reciprocal, is zero. */
  predicate IsZero(v: Complex)
  {
    NormSqr(v) == 0.0
  }

  function CAdd(x: Complex, y: Complex): Complex
  {
    Complex(x.re + y.re, x.im + y.im)
  }

  function CMul(x: Complex, y: Complex): Complex
  {
    Complex(x.re * y.re - x.im * y.im, x.re * y.im + x.im * y.re)
  }

  /** The reciprocal: conjugate over the squared norm, as the numeric library
      computes it; it has no value when that norm is zero. */
  function CInv(v: Complex): (r: Complex)
    requires !IsZero(v)
    ensures CMul(v, r) == COne
  {
    var n := NormSqr(v);
    var r := Complex(v.re / n, -(v.im / n));
    assert n / n == 1.0;
    assert CMul(v, r).re == n / n;
    assert CMul(v, r).im == 0.0;
    r
  }

  // The field laws the proofs about values rely on.

  lemma AddAssoc(x: Complex, y: Complex, z: Complex)
    ensures CAdd(CAdd(x, y), z) == CAdd(x, CAdd(y, z))
  {
  }

  lemma AddComm(x: Complex, y: Complex)
    ensures CAdd(x, y) == CAdd(y, x)
  {
  }

  lemma MulAssoc(x: Complex, y: Complex, z: Complex)
    ensures CMul(CMul(x, y), z) == CMul(x, CMul(y, z))
  {
  }

  lemma MulComm(x: Complex, y: Complex)
    ensures CMul(x, y) == CMul(y, x)
  {
  }

  lemma MulUnit(x: Complex)
    ensures CMul(x, COne) == x && CMul(COne, x) == x
  {
  }

  lemma Distrib(x: Complex, y: Complex, z: Complex)
    ensures CMul(x, CAdd(y, z)) == CAdd(CMul(x, y), CMul(x, z))
    ensures CMul(CAdd(y, z), x) == CAdd(CMul(y, x), CMul(z, x))
  {
  }

  /** Exact integer power by repeated multiplication. */
  function CPow(v: Complex, k: nat): Complex
  {
    if k == 0 then COne else CMul(v, CPow(v, k - 1))
  }

  function ComplexOfInt(k: int): (r: Complex)
    ensures r.re == k as real && r.im == 0.0
  {
    Complex(k as real, 0.0)
  }

  lemma {:induction false} CPowAdd(v: Complex, a: nat, b: nat)
    ensures CPow(v, a + b) == CMul(CPow(v, a), CPow(v, b))
  {
    if a == 0 {
      MulUnit(CPow(v, b));
    } else {
      CPowAdd(v, a - 1, b);
      MulAssoc(v, CPow(v, a - 1), CPow(v, b));
    }
  }

  /** A power of a power multiplies the exponents. */
  lemma {:induction false} CPowPow(v: Complex, a: nat, b: nat)
    ensures CPow(CPow(v, a), b) == CPow(v, a * b)
  {
    if b > 0 {
      var m := MulSucc(a, b);
      CPowPow(v, a, b - 1);
      PowerOfPowerStep(v, a, b, m, a * b);
    }
  }

  /** One more factor `v^a` adds `a` to the exponent. */
  lemma PowerOfPowerStep(v: Complex, a: nat, b: nat, m: nat, k: nat)
    requires b > 0 && k == a + m && CPow(CPow(v, a), b - 1) == CPow(v, m)
    ensures CPow(CPow(v, a), b) == CPow(v, k)
  {
    CPowAdd(v, a, m);
  }

  /** The product `a * (b - 1)` as a natural number, and `a * b` in terms
      of it. */
  lemma MulSucc(a: nat, b: nat) returns (m: nat)
    requires b > 0
    ensures m == a * (b - 1) && a * b == a + m
  {
    m := a * (b - 1);
  }

  lemma {:induction false} CPowProduct(x: Complex, y: Complex, k: nat)
    ensures CPow(CMul(x, y), k) == CMul(CPow(x, k), CPow(y, k))
  {
    if k == 0 {
      MulUnit(COne);
    } else {
      CPowProduct(x, y, k - 1);
      var a, b := CPow(x, k - 1), CPow(y, k - 1);
      calc {
        CMul(CMul(x, y), CMul(a, b));
        { MulAssoc(x, y, CMul(a, b)); }
        CMul(x, CMul(y, CMul(a, b)));
        { MulAssoc(y, a, b); MulComm(y, a); MulAssoc(a, y, b); }
        CMul(x, CMul(a, CMul(y, b)));
        { MulAssoc(x, a, CMul(y, b)); }
        CMul(CMul(x, a), CMul(y, b));
      }
    }
  }

  /** A power of the reciprocal is the reciprocal of the power. */
  lemma {:induction false} CPowInv(v: Complex, k: nat)
    requires !IsZero(v)
    ensures CMul(CPow(CInv(v), k), CPow(v, k)) == COne
  {
    if k == 0 {
      MulUnit(COne);
    } else {
      CPowInv(v, k - 1);
      var w, a, b := CInv(v), CPow(CInv(v), k - 1), CPow(v, k - 1);
      calc {
        CMul(CMul(w, a), CMul(v, b));
        { MulAssoc(w, a, CMul(v, b)); MulAssoc(a, v, b); MulComm(a, v); MulAssoc(v, a, b); }
        CMul(w, CMul(v, CMul(a, b)));
        { MulAssoc(w, v, CMul(a, b)); MulComm(w, v); }
        CMul(COne, COne);
        { MulUnit(COne); }
        COne;
      }
    }
  }
}
