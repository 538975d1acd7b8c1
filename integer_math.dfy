/** Exact integer arithmetic on mp++ integers: truncating division, gcd, power,
    generalised binomial coefficient, factorial, inversion, the in-place ternary
    primitives and the integral sine and cosine. */
module IntegerMath {
  import opened Wrappers

  function AbsInt(x: int): (r: nat)
    ensures r == x || r == -x
  {
    if x < 0 then -x else x
  }

  // ---------------------------------------------------------------------------
  // Truncating division (C++ `/` and mp++ `tdiv_q`)
  // ---------------------------------------------------------------------------

  /** The quotient rounded toward zero, as C++ and mp++ compute it: the
      remainder `a - q*b` is smaller than the divisor in magnitude and, when
      nonzero, has the sign of the dividend. */
  function TruncDiv(a: int, b: int): (q: int)
    requires b != 0
    ensures AbsInt(a - q * b) < AbsInt(b)
    ensures a - q * b == 0 || ((a - q * b < 0) <==> (a < 0))
  {
    var q0 := AbsInt(a) / AbsInt(b);
    TruncDivHelper(AbsInt(a), AbsInt(b), q0);
    if (a < 0) == (b < 0) then q0 else -q0
  }

  lemma TruncDivHelper(x: nat, y: nat, q0: int)
    requires y > 0 && q0 == x / y
    ensures 0 <= x - q0 * y < y
  {
  }

  /** The remainder of the truncating division. */
  function TruncRem(a: int, b: int): int
    requires b != 0
  {
    a - TruncDiv(a, b) * b
  }

  /** Truncation toward zero is the only quotient with the two properties of
      `TruncDiv`'s contract, so `TruncDiv` is determined by them. */
  lemma {:induction false} TruncDivUnique(a: int, b: int, q: int)
    requires b != 0
    requires AbsInt(a - q * b) < AbsInt(b)
    requires a - q * b == 0 || ((a - q * b < 0) <==> (a < 0))
    ensures q == TruncDiv(a, b)
  {
    var t := TruncDiv(a, b);
    var r, s := a - q * b, a - t * b;
    assert r - s == (t - q) * b;
    assert s - r == (q - t) * b;
    if q != t {
      if t - q >= 1 {
        MulAtLeast(t - q, b);
      } else {
        MulAtLeast(q - t, b);
      }
    }
  }

  lemma MulAtLeast(k: int, b: int)
    requires k >= 1
    ensures AbsInt(k * b) >= AbsInt(b)
  {
    if b >= 0 {
      assert k * b == b + (k - 1) * b;
    } else {
      assert k * b == b + (k - 1) * b;
      assert (k - 1) * b <= 0;
    }
  }

  // ---------------------------------------------------------------------------
  // Greatest common divisor
  // ---------------------------------------------------------------------------

  lemma MulMod(d: int, m: int)
    requires d > 0
    ensures (d * m) % d == 0
  {
    var q, r := (d * m) / d, (d * m) % d;
    assert d * m == d * q + r;
    assert r == d * (m - q);
    if m - q >= 1 {
      MulAtLeast(m - q, d);
    } else if m - q <= -1 {
      assert -r == d * (q - m);
      MulAtLeast(q - m, d);
    }
  }

  /** Divisibility by `d` is kept by integral combinations. */
  lemma DividesCombination(d: int, a: int, b: int, q: int)
    requires d > 0 && a % d == 0 && b % d == 0
    ensures (a + q * b) % d == 0
  {
    var x, y := a / d, b / d;
    assert a == d * x;
    assert b == d * y;
    assert a + q * b == d * (x + q * y);
    MulMod(d, x + q * y);
  }

  lemma DividesNegation(d: int, a: int)
    requires d > 0 && a % d == 0
    ensures (-a) % d == 0
  {
    DividesCombination(d, 0, a, -1);
  }

  /** Euclid's algorithm on the magnitudes of the operands, as piranha's
      `gcd()` computes it: the result is never negative. */
  function Gcd(a: int, b: int): (g: nat)
    ensures g == 0 <==> (a == 0 && b == 0)
    decreases AbsInt(b)
  {
    if b == 0 then AbsInt(a) else Gcd(b, AbsInt(a) % AbsInt(b))
  }

  /** The gcd divides both operands. */
  lemma {:induction false} GcdDivides(a: int, b: int)
    requires Gcd(a, b) != 0
    ensures a % Gcd(a, b) == 0 && b % Gcd(a, b) == 0
    decreases AbsInt(b)
  {
    var g := Gcd(a, b);
    if b == 0 {
      MulMod(g, 1);
      AbsDivides(g, a);
    } else {
      var aa: int, ab: int := AbsInt(a), AbsInt(b);
      GcdDivides(b, aa % ab);
      AbsDividesBack(g, b);
      EuclidStep(g, aa, ab);
      AbsDivides(g, a);
    }
  }

  /** If `g` divides `|b|` and `|a| % |b|`, it divides `|a|`. */
  lemma EuclidStep(g: int, aa: int, ab: int)
    requires g > 0 && aa >= 0 && ab > 0
    requires ab % g == 0 && (aa % ab) % g == 0
    ensures aa % g == 0
  {
    assert aa == aa % ab + (aa / ab) * ab;
    DividesCombination(g, aa % ab, ab, aa / ab);
  }

  lemma AbsDivides(g: int, x: int)
    requires g > 0 && AbsInt(x) % g == 0
    ensures x % g == 0
  {
    if x < 0 {
      DividesNegation(g, AbsInt(x));
    }
  }

  lemma AbsDividesBack(g: int, x: int)
    requires g > 0 && x % g == 0
    ensures AbsInt(x) % g == 0
  {
    if x < 0 {
      DividesNegation(g, x);
    }
  }

  /** Every common positive divisor of the operands divides the gcd. */
  lemma {:induction false} GcdGreatest(a: int, b: int, d: int)
    requires d > 0 && a % d == 0 && b % d == 0
    ensures Gcd(a, b) % d == 0
    decreases AbsInt(b)
  {
    if b == 0 {
      if a < 0 {
        DividesNegation(d, a);
      }
    } else {
      var aa: int, ab: int := AbsInt(a), AbsInt(b);
      AbsDividesBack(d, a);
      AbsDividesBack(d, b);
      assert aa % ab == aa + (-(aa / ab)) * ab;
      DividesCombination(d, aa, ab, -(aa / ab));
      GcdGreatest(b, aa % ab, d);
    }
  }

  lemma DividesBound(d: int, g: int)
    requires d > 0 && g > 0 && g % d == 0
    ensures d <= g
  {
    var k := g / d;
    assert g == d * k;
    MulAtLeast(k, d);
  }

  /** The value of `gcd()` is the reference gcd: a non-negative common divisor
      that every common divisor divides, and it is zero only for (0, 0). */
  lemma IsReferenceGcd(a: int, b: int)
    ensures Gcd(a, b) >= 0
    ensures Gcd(a, b) != 0 ==> a % Gcd(a, b) == 0 && b % Gcd(a, b) == 0
    ensures forall d :: d > 0 && a % d == 0 && b % d == 0 ==> Gcd(a, b) % d == 0
    ensures forall d :: d > 0 && a % d == 0 && b % d == 0 && Gcd(a, b) != 0 ==> d <= Gcd(a, b)
  {
    if Gcd(a, b) != 0 {
      GcdDivides(a, b);
    }
    forall d | d > 0 && a % d == 0 && b % d == 0
      ensures Gcd(a, b) % d == 0
      ensures Gcd(a, b) != 0 ==> d <= Gcd(a, b)
    {
      GcdGreatest(a, b, d);
      if Gcd(a, b) != 0 {
        DividesBound(d, Gcd(a, b));
      }
    }
  }

  /** `gcd(0, n) == gcd(n, 0) == |n|`. */
  lemma GcdWithZero(n: int)
    ensures Gcd(0, n) == AbsInt(n) && Gcd(n, 0) == AbsInt(n)
  {
    if n != 0 {
      var m := AbsInt(n);
      assert 0 % m == 0;
      assert Gcd(0, n) == Gcd(n, 0 % m);
    }
  }

  /** `gcd` is symmetric. */
  lemma GcdSymmetric(a: int, b: int)
    ensures Gcd(a, b) == Gcd(b, a)
  {
    var g, h := Gcd(a, b), Gcd(b, a);
    IsReferenceGcd(a, b);
    IsReferenceGcd(b, a);
    if g != 0 && h != 0 {
      DividesBound(g, h);
      DividesBound(h, g);
    }
  }

  /** `gcd3(out, a, b)` writes `gcd(a, b)` into `out`. */
  method Gcd3(a: int, b: int) returns (out: nat)
    ensures out == Gcd(a, b)
    ensures out != 0 ==> a % out == 0 && b % out == 0
  {
    out := Gcd(a, b);
    if out != 0 {
      GcdDivides(a, b);
    }
  }

  function BoolToInt(b: bool): int
  {
    if b then 1 else 0
  }

  /** `gcd` on two bools: true when any operand is true, consistently with the
      gcd of the operands read as 0 and 1. */
  function GcdBool(a: bool, b: bool): (r: bool)
    ensures BoolToInt(r) == Gcd(BoolToInt(a), BoolToInt(b))
  {
    a || b
  }

  /** `gcd` of a bool and an integer: 1 when the bool is true, `|n|` when it is
      false, consistently with the gcd of the bool read as 0 or 1. */
  function GcdBoolInt(a: bool, n: int): (r: nat)
    ensures r == Gcd(BoolToInt(a), n) && r == Gcd(n, BoolToInt(a))
  {
    GcdSymmetric(BoolToInt(a), n);
    if a then 1 else AbsInt(n)
  }

  // ---------------------------------------------------------------------------
  // Power
  // ---------------------------------------------------------------------------

  /** `b` raised to a natural exponent. */
  function Power(b: int, e: nat): int
  {
    if e == 0 then 1 else b * Power(b, e - 1)
  }

  lemma {:induction false} PowerAdd(b: int, m: nat, n: nat)
    ensures Power(b, m + n) == Power(b, m) * Power(b, n)
  {
    if m > 0 {
      PowerAdd(b, m - 1, n);
    }
  }

  lemma {:induction false} PowerMul(b: int, m: nat, n: nat)
    ensures Power(b, m * n) == Power(Power(b, m), n)
  {
    if n > 0 {
      PowerMul(b, m, n - 1);
      assert m * n == m + m * (n - 1);
      PowerAdd(b, m, m * (n - 1));
    }
  }

  lemma {:induction false} PowerMagnitude(b: int, e: nat)
    requires AbsInt(b) >= 2 && e >= 1
    ensures AbsInt(Power(b, e)) >= 2
  {
    if e > 1 {
      PowerMagnitude(b, e - 1);
      var p := Power(b, e - 1);
      MulAtLeast(AbsInt(b), p);
      assert AbsInt(b * p) == AbsInt(AbsInt(b) * p);
    }
  }

  lemma {:induction false} PowerMinusOne(e: nat)
    ensures Power(-1, e) == if e % 2 == 0 then 1 else -1
  {
    if e > 0 {
      PowerMinusOne(e - 1);
    }
  }

  lemma {:induction false} PowerNonZero(b: int, e: nat)
    requires b != 0
    ensures Power(b, e) != 0
  {
    if e > 0 {
      PowerNonZero(b, e - 1);
    }
  }

  /** `pow(n, e)` on mp++ integers: the exact power for `e >= 0`; for a negative
      exponent `zero_division_error` when `n` is zero, and otherwise the
      reciprocal of `n^|e|` truncated toward zero (so 1, -1 or 0). */
  function Pow(n: int, e: int): (r: Result<int>)
    ensures e >= 0 ==> r == Ok(Power(n, e))
    ensures e < 0 ==> (r.Err? <==> n == 0)
    ensures r.Err? ==> r.error == ZeroDivisionError
  {
    if e >= 0 then Ok(Power(n, e))
    else if n == 0 then Err(ZeroDivisionError)
    else if n == 1 then Ok(1)
    else if n == -1 then Ok(if (-e) % 2 == 0 then 1 else -1)
    else Ok(0)
  }

  /** For a negative exponent the result is `1 / n^|e|` rounded toward zero. */
  lemma PowNegativeExponent(n: int, e: int)
    requires e < 0 && n != 0
    ensures Power(n, -e) != 0
    ensures Pow(n, e) == Ok(TruncDiv(1, Power(n, -e)))
  {
    PowerNonZero(n, -e);
    var p := Power(n, -e);
    TruncDivOne(p);
    if n == 1 {
      PowerOne(-e);
    } else if n == -1 {
      PowerMinusOne(-e);
    } else {
      PowerMagnitude(n, -e);
    }
  }

  lemma TruncDivOne(p: int)
    requires p != 0
    ensures TruncDiv(1, p) == if p == 1 then 1 else if p == -1 then -1 else 0
  {
    if AbsInt(p) >= 2 {
      assert AbsInt(1) / AbsInt(p) == 0;
    }
  }

  /** The product of two rationals. Definitions over rationals multiply
      through this function, so that unfolding them does not put a nonlinear
      term in front of the solver. */
  function RMul(a: real, b: real): real
  {
    a * b
  }

  /** A rational raised to a natural exponent. */
  function RealPower(x: real, e: nat): real
  {
    if e == 0 then 1.0 else x * RealPower(x, e - 1)
  }

  lemma {:induction false} RealPowerAdd(x: real, m: nat, n: nat)
    ensures RealPower(x, m + n) == RealPower(x, m) * RealPower(x, n)
  {
    if m > 0 {
      RealPowerAdd(x, m - 1, n);
    }
  }

  lemma {:induction false} RealPowerNonZero(x: real, e: nat)
    requires x != 0.0
    ensures RealPower(x, e) != 0.0
  {
    if e > 0 {
      RealPowerNonZero(x, e - 1);
    }
  }

  /** `pow(q, e)` on mp++ rationals with an integral exponent: the exact power;
      a negative exponent takes the reciprocal and throws
      `zero_division_error` on a zero base. */
  function RatPow(x: real, e: int): (r: Result<real>)
    ensures e >= 0 ==> r == Ok(RealPower(x, e))
    ensures e < 0 ==> (r.Err? <==> x == 0.0)
    ensures r.Err? ==> r.error == ZeroDivisionError
    ensures e < 0 && r.Ok? ==> r.value * RealPower(x, -e) == 1.0
  {
    if e >= 0 then Ok(RealPower(x, e))
    else if x == 0.0 then Err(ZeroDivisionError)
    else
      RealPowerNonZero(x, -e);
      Ok(1.0 / RealPower(x, -e))
  }

  /** On a nonzero base the exponents add, whatever their signs. */
  lemma RatPowAdd(x: real, a: int, b: int)
    requires x != 0.0
    ensures RatPow(x, a).Ok? && RatPow(x, b).Ok? && RatPow(x, a + b).Ok?
    ensures RatPow(x, a + b).value == RMul(RatPow(x, a).value, RatPow(x, b).value)
  {
    var pa, pb, pab := RatPow(x, a).value, RatPow(x, b).value, RatPow(x, a + b).value;
    if a >= 0 && b >= 0 {
      RealPowerAdd(x, a, b);
    } else if a < 0 && b < 0 {
      BothNegative(x, a, b);
    } else {
      if a < 0 {
        MixedSigns(x, a, b);
      } else {
        MixedSigns(x, b, a);
      }
    }
  }

  lemma BothNegative(x: real, a: int, b: int)
    requires x != 0.0 && a < 0 && b < 0
    ensures RatPow(x, a + b).Ok?
    ensures RatPow(x, a + b).value == RMul(RatPow(x, a).value, RatPow(x, b).value)
  {
    var na, nb := RealPower(x, -a), RealPower(x, -b);
    RealPowerAdd(x, -a, -b);
    InverseOfProduct(RatPow(x, a + b).value, RatPow(x, a).value, RatPow(x, b).value, na, nb);
  }

  /** If `c` inverts `m * n`, `u` inverts `m` and `v` inverts `n`, then `c == u * v`. */
  lemma InverseOfProduct(c: real, u: real, v: real, m: real, n: real)
    requires c * (m * n) == 1.0 && u * m == 1.0 && v * n == 1.0
    ensures c == RMul(u, v)
  {
    assert (u * v) * (m * n) == (u * m) * (v * n);
    ProductInverse(c, u * v, m * n);
  }

  lemma ProductInverse(u: real, v: real, w: real)
    requires u * w == 1.0 && v * w == 1.0
    ensures u == v
  {
    assert w != 0.0;
    assert u == u * (w / w);
  }

  lemma MixedSigns(x: real, a: int, b: int)
    requires x != 0.0 && a < 0 <= b
    ensures RatPow(x, a + b).Ok?
    ensures RatPow(x, a + b).value == RMul(RatPow(x, a).value, RatPow(x, b).value)
  {
    var pa, pb, pc := RatPow(x, a).value, RatPow(x, b).value, RatPow(x, a + b).value;
    var pn := RealPower(x, -a);
    assert pa * pn == 1.0;
    if a + b >= 0 {
      // x^b = x^(a+b) * x^(-a)
      RealPowerAdd(x, a + b, -a);
      assert pb == pc * pn;
      CancelInverse(pa, pb, pc, pn);
    } else {
      // x^(-a) = x^(-(a+b)) * x^b
      var pm := RealPower(x, -(a + b));
      RealPowerAdd(x, -(a + b), b);
      assert pn == pm * pb;
      assert pc * pm == 1.0;
      SharedInverse(pa, pb, pc, pn, pm);
    }
  }

  /** If `u` inverts `q` and `p == r * q`, then `u * p == r`. */
  lemma CancelInverse(u: real, p: real, r: real, q: real)
    requires u * q == 1.0 && p == r * q
    ensures RMul(u, p) == r
  {
    assert u * (r * q) == (u * q) * r;
  }

  /** If `u` inverts `n == m * p` and `c` inverts `m`, then `c == u * p`. */
  lemma SharedInverse(u: real, p: real, c: real, n: real, m: real)
    requires u * n == 1.0 && n == m * p && c * m == 1.0
    ensures c == RMul(u, p)
  {
    assert (u * p) * m == u * (m * p);
    ProductInverse(c, u * p, m);
  }

  lemma {:induction false} PowerOne(e: nat)
    ensures Power(1, e) == 1
  {
    if e > 0 {
      PowerOne(e - 1);
    }
  }

  // ---------------------------------------------------------------------------
  // Binomial coefficient and factorial
  // ---------------------------------------------------------------------------

  /** The binomial coefficient for natural arguments (Pascal's triangle). */
  function BinomialNat(n: nat, k: nat): nat
  {
    if k == 0 then 1
    else if n == 0 then 0
    else BinomialNat(n - 1, k - 1) + BinomialNat(n - 1, k)
  }

  lemma {:induction false} BinomialNatAbove(n: nat, k: nat)
    requires k > n
    ensures BinomialNat(n, k) == 0
  {
    if n > 0 {
      BinomialNatAbove(n - 1, k - 1);
      BinomialNatAbove(n - 1, k);
    }
  }

  function Sign(e: nat): int
  {
    if e % 2 == 0 then 1 else -1
  }

  /** The generalised binomial coefficient of `binomial()`: Pascal's triangle for
      natural arguments, `(-1)^k * C(k - n - 1, k)` for a negative top argument,
      and for a negative bottom argument the mp++ extension (nonzero only when
      `k <= n < 0`). */
  function Binomial(n: int, k: int): (r: int)
    ensures n >= 0 && k > n ==> r == 0
    ensures k == 0 ==> r == 1
  {
    if k < 0 then
      (if n < 0 && k <= n then Sign(n - k) * BinomialNat(-k - 1, n - k) else 0)
    else if n >= 0 then
      (if k > n then BinomialNatAbove(n, k); 0 else BinomialNat(n, k))
    else Sign(k) * BinomialNat(k - n - 1, k)
  }

  /** Pascal's rule holds for every integer top argument, negative ones
      included: the negative branch is a continuation of the natural one. */
  lemma PascalRule(n: int, k: int)
    requires k >= 1
    ensures Binomial(n, k) == Binomial(n - 1, k - 1) + Binomial(n - 1, k)
  {
    if n >= 1 {
      if k > n {
        BinomialNatAbove(n - 1, k - 1);
      } else if k == n {
        BinomialNatAbove(n - 1, k);
      }
    } else {
      var m := k - n;
      assert BinomialNat(m, k) == BinomialNat(m - 1, k - 1) + BinomialNat(m - 1, k);
      assert Binomial(n - 1, k - 1) == Sign(k - 1) * BinomialNat(m - 1, k - 1);
      assert Binomial(n - 1, k) == Sign(k) * BinomialNat(m, k);
      if n == 0 {
        BinomialNatAbove(k - 1, k);
        assert Binomial(n, k) == 0;
      } else {
        assert Binomial(n, k) == Sign(k) * BinomialNat(m - 1, k);
      }
      if k % 2 == 0 {
        assert Sign(k) == 1 && Sign(k - 1) == -1;
      } else {
        assert Sign(k) == -1 && Sign(k - 1) == 1;
      }
    }
  }

  lemma BinomialExamples()
    ensures Binomial(0, 0) == 1 && Binomial(0, 1) == 0
    ensures Binomial(1, 1) == 1 && Binomial(5, 3) == 10
    ensures Binomial(-5, 4) == 70
  {
    assert BinomialNat(1, 1) == 1;
    assert BinomialNat(1, 2) == 0;
    assert BinomialNat(2, 1) == 2;
    assert BinomialNat(2, 2) == 1;
    assert BinomialNat(2, 3) == 0;
    assert BinomialNat(3, 1) == 3;
    assert BinomialNat(3, 2) == 3;
    assert BinomialNat(3, 3) == 1;
    assert BinomialNat(3, 4) == 0;
    assert BinomialNat(4, 1) == 4;
    assert BinomialNat(4, 2) == 6;
    assert BinomialNat(4, 3) == 4;
    assert BinomialNat(4, 4) == 1;
    assert BinomialNat(5, 1) == 5;
    assert BinomialNat(5, 2) == 10;
    assert BinomialNat(5, 3) == 10;
    assert BinomialNat(5, 4) == 5;
    assert BinomialNat(6, 1) == 6;
    assert BinomialNat(6, 2) == 15;
    assert BinomialNat(6, 3) == 20;
    assert BinomialNat(6, 4) == 15;
    assert BinomialNat(7, 1) == 7;
    assert BinomialNat(7, 2) == 21;
    assert BinomialNat(7, 3) == 35;
    assert BinomialNat(7, 4) == 35;
    assert BinomialNat(8, 1) == 8;
    assert BinomialNat(8, 2) == 28;
    assert BinomialNat(8, 3) == 56;
    assert BinomialNat(8, 4) == 70;
  }

  /** `n!` for a natural `n`. */
  function Fact(n: nat): (r: nat)
    ensures r >= 1
  {
    if n == 0 then 1 else n * Fact(n - 1)
  }

  /** The largest argument mp++ accepts for a factorial. */
  const FactorialLimit: nat := 1000000
  /** `std::numeric_limits<unsigned long>::max()` in the LP64 model. */
  const UnsignedLongMax: nat := 0xFFFF_FFFF_FFFF_FFFF

  /** `math::factorial(n)`: `domain_error` for a negative argument,
      `overflow_error` past the unsigned long range, `invalid_argument` past the
      mp++ limit, and `n!` otherwise. */
  function Factorial(n: int): (r: Result<int>)
    ensures r.Ok? <==> 0 <= n <= FactorialLimit
    ensures r.Ok? ==> r.value == Fact(n)
    ensures n < 0 ==> r == Err(DomainError)
    ensures n > UnsignedLongMax ==> r == Err(OverflowError)
    ensures FactorialLimit < n <= UnsignedLongMax ==> r == Err(InvalidArgument)
  {
    if n < 0 then Err(DomainError)
    else if n > UnsignedLongMax then Err(OverflowError)
    else if n > FactorialLimit then Err(InvalidArgument)
    else Ok(Fact(n))
  }

  /** The falling factorial n (n-1) ... (n-k+1). */
  function Falling(n: int, k: nat): int
    decreases k
  {
    if k == 0 then 1 else n * Falling(n - 1, k - 1)
  }

  /** n! is the falling factorial of n of length n. */
  lemma {:induction false} FactIsFalling(n: nat)
    ensures Fact(n) == Falling(n, n)
  {
    if n > 0 {
      FactIsFalling(n - 1);
    }
  }

  // ---------------------------------------------------------------------------
  // Inversion
  // ---------------------------------------------------------------------------

  /** `invert()` of an mp++ integer is `pow(n, -1)`: 1 and -1 are their own
      inverses, every other nonzero integer inverts to 0. */
  function Invert(n: int): (r: Result<int>)
    ensures r == Pow(n, -1)
    ensures n == 0 ==> r == Err(ZeroDivisionError)
    ensures n == 1 || n == -1 ==> r == Ok(n)
    ensures AbsInt(n) >= 2 ==> r == Ok(0)
  {
    if n == 0 then Err(ZeroDivisionError) else if n == 1 || n == -1 then Ok(n) else Ok(0)
  }

  /** `invert()` of an mp++ rational is its reciprocal. */
  function InvertRational(q: real): (r: Result<real>)
    ensures r.Err? <==> q == 0.0
    ensures r.Err? ==> r.error == ZeroDivisionError
    ensures r.Ok? ==> r.value * q == 1.0
  {
    if q == 0.0 then Err(ZeroDivisionError) else Ok(1.0 / q)
  }

  // ---------------------------------------------------------------------------
  // In-place primitives (the first argument is the output)
  // ---------------------------------------------------------------------------

  /** `math::negate(x)`: `x := -x`. */
  method Negate(x: int) returns (x': int)
    ensures x' + x == 0
  {
    x' := -x;
  }

  /** `math::multiply_accumulate(x, y, z)`: `x := x + y * z`. */
  method MultiplyAccumulate(x: int, y: int, z: int) returns (x': int)
    ensures x' - x == y * z
  {
    x' := x + y * z;
  }

  /** `math::add3(x, y, z)`: `x := y + z`. */
  method Add3(y: int, z: int) returns (x: int)
    ensures x - z == y
  {
    x := y + z;
  }

  /** `math::sub3(x, y, z)`: `x := y - z`. */
  method Sub3(y: int, z: int) returns (x: int)
    ensures x + z == y
  {
    x := y - z;
  }

  /** `math::mul3(x, y, z)`: `x := y * z`. */
  method Mul3(y: int, z: int) returns (x: int)
    ensures x == y * z
  {
    x := y * z;
  }

  /** `math::div3(x, y, z)`: `x := y / z` truncated toward zero; a zero divisor
      throws `zero_division_error` and leaves `x` alone. */
  method Div3(x: int, y: int, z: int) returns (x': int, outcome: Outcome)
    ensures outcome.Fail? <==> z == 0
    ensures outcome.Fail? ==> outcome.error == ZeroDivisionError && x' == x
    ensures z != 0 ==> x' == TruncDiv(y, z)
    ensures z != 0 ==> AbsInt(y - x' * z) < AbsInt(z)
  {
    if z == 0 {
      return x, Fail(ZeroDivisionError);
    }
    x' := TruncDiv(y, z);
    outcome := Pass;
  }

  lemma TernaryExamples()
    ensures TruncDiv(6, -2) == -3 && TruncDiv(6, 3) == 2 && TruncDiv(-8, 2) == -4
    ensures TruncDiv(7, -4) == -1 && TruncDiv(-7, 4) == -1 && TruncDiv(-7, -4) == 1
  {
  }

  // ---------------------------------------------------------------------------
  // Sine and cosine of integers, partial derivative of a constant
  // ---------------------------------------------------------------------------

  /** `sin(n)` of an integer: only the sine of zero (zero) is exact; any other
      argument throws `domain_error`. */
  function Sin(n: int): (r: Result<int>)
    ensures r.Ok? <==> n == 0
    ensures r.Ok? ==> r.value == 0
    ensures r.Err? ==> r.error == DomainError
  {
    if n == 0 then Ok(0) else Err(DomainError)
  }

  /** `cos(n)` of an integer: one for zero, `domain_error` otherwise. */
  function Cos(n: int): (r: Result<int>)
    ensures r.Ok? <==> n == 0
    ensures r.Ok? ==> r.value == 1
    ensures r.Err? ==> r.error == DomainError
  {
    if n == 0 then Ok(1) else Err(DomainError)
  }

  /** `math::partial(x, name)` of a plain number is zero whatever the name. */
  function PartialConstant(x: int, name: string): (r: int)
    ensures r == 0
  {
    0
  }

  // ---------------------------------------------------------------------------
  // Storage of mp++ integers
  // ---------------------------------------------------------------------------

  /** An mp++ integer: its value and whether it is held in static (inline) or
      dynamic (heap) storage. */
  datatype MpInteger = MpInteger(value: int, isStatic: bool)

  /** `promote()`: switch a static integer to dynamic storage, keeping the value;
      it reports false when the storage was already dynamic. */
  function Promote(n: MpInteger): (r: (MpInteger, bool))
    ensures r.0.value == n.value && !r.0.isStatic
    ensures r.1 == n.isStatic
  {
    (MpInteger(n.value, false), n.isStatic)
  }

  predicate IsZero(n: MpInteger) { n.value == 0 }
  predicate IsOne(n: MpInteger) { n.value == 1 }

  /** Promotion changes no value test. */
  lemma PromoteKeepsTests(n: MpInteger)
    ensures IsZero(Promote(n).0) == IsZero(n) && IsOne(Promote(n).0) == IsOne(n)
  {
  }
}
