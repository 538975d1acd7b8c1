/** `invert()` of a divisor series: a polynomial that is an integral linear
    combination `c_1 x_1 + ... + c_n x_n` becomes the coefficient `1/f`
    times the divisor `1/[(m_1 x_1 + ... + m_n x_n)]`, where `f` takes out
    the gcd of the `c_i` and the sign that makes the first nonzero
    multiplier positive. */
module Divisor {
  import opened Wrappers
  import IntegerMath
  import opened SymbolUtils
  import opened Terms
  import opened Series
  import Polynomial
  import Monomial

  // ---------------------------------------------------------------------------
  // The gcd of a vector of multipliers
  // ---------------------------------------------------------------------------

  /** The gcd of all entries, starting from 0 as `gcd()` folded over a
      vector does. */
  function GcdAll(xs: seq<int>): (g: nat)
    ensures g == 0 <==> forall i :: 0 <= i < |xs| ==> xs[i] == 0
    decreases |xs|
  {
    if xs == [] then 0
    else
      assert forall i :: 1 <= i < |xs| ==> xs[i] == xs[1..][i - 1];
      IntegerMath.Gcd(xs[0], GcdAll(xs[1..]))
  }

  /** Divisibility is transitive. */
  lemma DividesTrans(g: int, r: int, x: int)
    requires g > 0 && r > 0 && r % g == 0 && x % r == 0
    ensures x % g == 0
  {
    var a, b := r / g, x / r;
    assert r == g * a;
    assert x == r * b;
    assert x == g * (a * b);
    IntegerMath.MulMod(g, a * b);
  }

  /** The gcd divides every entry. */
  lemma {:induction false} GcdAllDivides(xs: seq<int>, i: nat)
    requires GcdAll(xs) != 0 && i < |xs|
    ensures xs[i] % GcdAll(xs) == 0
    decreases |xs|
  {
    var r := GcdAll(xs[1..]);
    var g := GcdAll(xs);
    IntegerMath.GcdDivides(xs[0], r);
    if i > 0 {
      assert xs[i] == xs[1..][i - 1];
      if r == 0 {
        assert xs[i] == 0;
      } else {
        GcdAllDivides(xs[1..], i - 1);
        DividesTrans(g, r, xs[i]);
      }
    }
  }

  /** Every positive common divisor of the entries divides the gcd. */
  lemma {:induction false} GcdAllGreatest(xs: seq<int>, d: int)
    requires d > 0 && forall i :: 0 <= i < |xs| ==> xs[i] % d == 0
    ensures GcdAll(xs) % d == 0
    decreases |xs|
  {
    if xs != [] {
      assert forall i :: 0 <= i < |xs| - 1 ==> xs[1..][i] == xs[i + 1];
      GcdAllGreatest(xs[1..], d);
      IntegerMath.GcdGreatest(xs[0], GcdAll(xs[1..]), d);
    }
  }

  // ---------------------------------------------------------------------------
  // Canonical multipliers
  // ---------------------------------------------------------------------------

  /** The position of the first nonzero entry, or the length when all are
      zero. */
  function FirstNonZero(xs: seq<int>): (i: nat)
    ensures i <= |xs| && forall j :: 0 <= j < i ==> xs[j] == 0
    ensures i < |xs| ==> xs[i] != 0
    decreases |xs|
  {
    if xs == [] then 0
    else if xs[0] != 0 then 0
    else
      assert forall j :: 1 <= j < |xs| ==> xs[j] == xs[1..][j - 1];
      1 + FirstNonZero(xs[1..])
  }

  /** The multipliers of a divisor in canonical form: coprime, and the first
      nonzero one positive. */
  predicate Canonical(xs: seq<int>)
  {
    GcdAll(xs) == 1 && FirstNonZero(xs) < |xs| && xs[FirstNonZero(xs)] > 0
  }

  /** The factor `f` taken out of the multipliers: their gcd, negated when
      the first nonzero one is negative. */
  function Factor(xs: seq<int>): (f: int)
    requires exists i :: 0 <= i < |xs| && xs[i] != 0
    ensures f != 0 && IntegerMath.AbsInt(f) == GcdAll(xs)
    ensures f < 0 <==> xs[FirstNonZero(xs)] < 0
  {
    if xs[FirstNonZero(xs)] < 0 then -(GcdAll(xs) as int) else GcdAll(xs)
  }

  /** The multipliers divided by their factor: the vector is `f` times the
      result. */
  function Normalise(xs: seq<int>): (r: seq<int>)
    requires exists i :: 0 <= i < |xs| && xs[i] != 0
    ensures |r| == |xs| && forall i :: 0 <= i < |xs| ==> xs[i] == Factor(xs) * r[i]
  {
    var g := GcdAll(xs);
    var neg := xs[FirstNonZero(xs)] < 0;
    var r := seq(|xs|, i requires 0 <= i < |xs| => if neg then -(xs[i] / g) else xs[i] / g);
    assert forall i :: 0 <= i < |xs| ==> xs[i] == Factor(xs) * r[i] by {
      forall i | 0 <= i < |xs| ensures xs[i] == Factor(xs) * r[i] {
        GcdAllDivides(xs, i);
        Unscale(xs[i], g, neg, Factor(xs), r[i]);
      }
    }
    r
  }

  lemma Unscale(x: int, g: int, neg: bool, f: int, q: int)
    requires g > 0 && x % g == 0
    requires f == (if neg then -g else g) && q == (if neg then -(x / g) else x / g)
    ensures x == f * q
  {
    var k := x / g;
    assert x == g * k;
    if neg {
      assert f * q == g * k;
    }
  }

  /** Dividing out the factor leaves canonical multipliers with the same
      zero pattern. */
  lemma NormaliseIsCanonical(xs: seq<int>)
    requires exists i :: 0 <= i < |xs| && xs[i] != 0
    ensures Canonical(Normalise(xs))
    ensures forall i :: 0 <= i < |xs| ==> (Normalise(xs)[i] == 0 <==> xs[i] == 0)
  {
    NormaliseZeros(xs);
    NormaliseCoprime(xs);
  }

  lemma NormaliseZeros(xs: seq<int>)
    requires exists i :: 0 <= i < |xs| && xs[i] != 0
    ensures forall i :: 0 <= i < |xs| ==> (Normalise(xs)[i] == 0 <==> xs[i] == 0)
    ensures FirstNonZero(Normalise(xs)) == FirstNonZero(xs) < |xs|
    ensures Normalise(xs)[FirstNonZero(xs)] > 0
  {
    var r := Normalise(xs);
    var p := FirstNonZero(xs);
    var f := Factor(xs);
    forall i | 0 <= i < |xs| ensures r[i] == 0 <==> xs[i] == 0 {
      ZeroFactor(xs[i], f, r[i]);
    }
    SameZeros(xs, r);
    SignOfFirst(xs[p], f, r[p]);
  }

  lemma ZeroFactor(x: int, f: int, r: int)
    requires f != 0 && x == f * r
    ensures r == 0 <==> x == 0
  {
  }

  lemma NormaliseCoprime(xs: seq<int>)
    requires exists i :: 0 <= i < |xs| && xs[i] != 0
    ensures GcdAll(Normalise(xs)) == 1
  {
    var r := Normalise(xs);
    NormaliseZeros(xs);
    assert r[FirstNonZero(xs)] != 0;
    CommonFactorOne(xs, Factor(xs), r);
  }

  /** When `xs` is `f` times `r` and `|f|` is the gcd of `xs`, the gcd of `r`
      is 1. */
  lemma CommonFactorOne(xs: seq<int>, f: int, r: seq<int>)
    requires |r| == |xs| && GcdAll(xs) > 0 && GcdAll(r) > 0 && IntegerMath.AbsInt(f) == GcdAll(xs)
    requires forall i :: 0 <= i < |xs| ==> xs[i] == f * r[i]
    ensures GcdAll(r) == 1
  {
    var g, h := GcdAll(xs), GcdAll(r);
    var d := CommonDivisor(xs, f, r, g, h);
    GcdAllGreatest(xs, d);
    IntegerMath.DividesBound(d, g);
  }

  /** `g * h` divides every entry of `xs`, and exceeds `g` unless `h` is 1. */
  lemma CommonDivisor(xs: seq<int>, f: int, r: seq<int>, g: int, h: int) returns (d: int)
    requires |r| == |xs| && g > 0 && h > 0 && IntegerMath.AbsInt(f) == g && h == GcdAll(r)
    requires forall i :: 0 <= i < |xs| ==> xs[i] == f * r[i]
    ensures d > 0 && (forall i :: 0 <= i < |xs| ==> xs[i] % d == 0) && (h != 1 ==> d > g)
  {
    d := g * h;
    PositiveProduct(g, h);
    forall i | 0 <= i < |xs| ensures xs[i] % d == 0 {
      GcdAllDivides(r, i);
      ScaledDivides(xs[i], f, r[i], g, h);
    }
    if h != 1 {
      ProductExceeds(g, h);
    }
  }

  lemma ProductExceeds(g: int, h: int)
    requires g > 0 && h > 1
    ensures g * h > g
  {
    assert g * h == g + g * (h - 1);
    PositiveProduct(g, h - 1);
  }

  lemma {:induction false} SameZeros(xs: seq<int>, ys: seq<int>)
    requires |xs| == |ys| && forall i :: 0 <= i < |xs| ==> (xs[i] == 0 <==> ys[i] == 0)
    ensures FirstNonZero(xs) == FirstNonZero(ys)
    decreases |xs|
  {
    if xs != [] && xs[0] == 0 {
      SameZeros(xs[1..], ys[1..]);
    }
  }

  lemma SignOfFirst(x: int, f: int, r: int)
    requires x == f * r && x != 0 && (f < 0 <==> x < 0)
    ensures r > 0
  {
  }

  lemma ScaledDivides(x: int, f: int, r: int, g: int, h: int)
    requires g > 0 && h > 0 && IntegerMath.AbsInt(f) == g && x == f * r && r % h == 0
    ensures x % (g * h) == 0
  {
    var k := r / h;
    assert r == h * k;
    var s := if f < 0 then -1 else 1;
    assert f == s * g;
    assert x == (g * h) * (s * k);
    IntegerMath.MulMod(g * h, s * k);
  }

  lemma PositiveProduct(g: int, h: int)
    requires g > 0 && h > 0
    ensures g * h > 0
  {
  }

  // ---------------------------------------------------------------------------
  // Inversion
  // ---------------------------------------------------------------------------

  /** The result of `invert()`: the reciprocal of a constant, or the
      coefficient `cf` times the divisor `1/[(sum mult[i] * ss[i])]`. */
  datatype Inverse = Reciprocal(value: real) | Divided(cf: real, ss: seq<string>, mult: seq<int>)

  /** Each symbol's entry of the integral combination, 0 for symbols without
      one. */
  function Multipliers(ss: seq<string>, m: map<string, int>): (r: seq<int>)
    ensures |r| == |ss| && forall i :: 0 <= i < |ss| ==> r[i] == (if ss[i] in m then m[ss[i]] else 0)
  {
    seq(|ss|, i requires 0 <= i < |ss| => if ss[i] in m then m[ss[i]] else 0)
  }

  /** Every multiplier fits the divisor's exponent type, whose magnitude is
      limited to `bound`. */
  predicate InBounds(xs: seq<int>, bound: nat)
  {
    forall i :: 0 <= i < |xs| ==> -(bound as int) <= xs[i] <= bound
  }

  predicate IsConstant(s: Series)
  {
    |s.terms| == 1 && forall i :: 0 <= i < |s.terms[0].key| ==> s.terms[0].key[i] == 0
  }

  /** A polynomial that is an integral linear combination has a nonzero
      multiplier as soon as it has a term. */
  lemma SomeMultiplier(s: Series)
    requires Valid(s) && s.terms != [] && Polynomial.IntegralCombination(s).Ok?
    ensures var xs := Multipliers(s.ss, Polynomial.IntegralCombination(s).value);
            exists i :: 0 <= i < |xs| && xs[i] != 0
  {
    var m := Polynomial.IntegralCombination(s).value;
    assert Polynomial.IntegralLinear(s.terms[0]);
    var j :| 0 <= j < |s.terms[0].key| && Monomial.LinearAt(s.terms[0].key, j);
    Polynomial.CombinationEntries(s.ss, s.terms, 0, j);
    assert Multipliers(s.ss, m)[j] != 0;
  }

  /** `invert()`. The zero series throws `zero_division_error`; a constant
      is replaced by its reciprocal in the coefficient ring (so the integer
      2 gives 0); any other series must be an integral linear combination
      (`invalid_argument`, or `safe_cast_failure` for a non-integral
      coefficient, otherwise) whose canonical multipliers fit the
      divisor's exponent type (`invalid_argument` otherwise). */
  function Invert(s: Series, bound: nat): (r: Result<Inverse>)
    requires Valid(s)
    ensures r.Err? && r.error == ZeroDivisionError <==> s.terms == []
    ensures r.Err? && s.terms != [] ==> IsInvalidArgument(r.error)
    ensures r.Ok? && r.value.Reciprocal? <==> IsConstant(s)
    ensures IsConstant(s) ==> r == Ok(Reciprocal(CfDiv(s.ring, 1.0, s.terms[0].cf)))
    ensures s.terms != [] && !IsConstant(s) ==>
              (r.Err? <==> Polynomial.IntegralCombination(s).Err? ||
                           !InBounds(Normalise(Multipliers(s.ss, Polynomial.IntegralCombination(s).value)), bound))
    ensures r.Ok? && r.value.Divided? ==> r.value.ss == s.ss && Canonical(r.value.mult) && InBounds(r.value.mult, bound)
  {
    if s.terms == [] then Err(ZeroDivisionError)
    else if IsConstant(s) then Ok(Reciprocal(CfDiv(s.ring, 1.0, s.terms[0].cf)))
    else
      var lc := Polynomial.IntegralCombination(s);
      if lc.Err? then Err(lc.error)
      else
        var xs := Multipliers(s.ss, lc.value);
        SomeMultiplier(s);
        var ms := Normalise(xs);
        NormaliseIsCanonical(xs);
        if !InBounds(ms, bound) then Err(InvalidArgument)
        else Ok(Divided(1.0 / (Factor(xs) as real), s.ss, ms))
  }

  /** What the inverse means: the coefficient times each canonical
      multiplier gives back that symbol's coefficient in the polynomial, so
      `cf / (sum mult[i] x_i)` is `1 / (sum c_i x_i)`. */
  lemma InvertMeaning(s: Series, bound: nat, i: nat)
    requires Valid(s) && Invert(s, bound).Ok? && Invert(s, bound).value.Divided? && i < |s.ss|
    ensures var d := Invert(s, bound).value;
            d.cf != 0.0 && IntegerMath.RMul(d.cf, Coef(s, map[s.ss[i] := 1])) == d.mult[i] as real
  {
    var xs := InvertDivided(s, bound);
    var d := Invert(s, bound).value;
    CombinationMeaning(s, i, xs);
    assert d.cf == 1.0 / (Factor(xs) as real);
    assert d.mult == Normalise(xs);
  }

  lemma CombinationMeaning(s: Series, i: nat, xs: seq<int>)
    requires Valid(s) && s.terms != [] && Polynomial.IntegralCombination(s).Ok? && i < |s.ss|
    requires xs == Multipliers(s.ss, Polynomial.IntegralCombination(s).value)
    requires exists j :: 0 <= j < |xs| && xs[j] != 0
    ensures 1.0 / (Factor(xs) as real) != 0.0
    ensures IntegerMath.RMul(1.0 / (Factor(xs) as real), Coef(s, map[s.ss[i] := 1])) == Normalise(xs)[i] as real
  {
    Polynomial.IntegralCombinationCoef(s, s.ss[i]);
    assert Coef(s, map[s.ss[i] := 1]) == xs[i] as real;
    ScaleBack(Factor(xs), Normalise(xs)[i], xs[i]);
  }

  lemma InvertDivided(s: Series, bound: nat) returns (xs: seq<int>)
    requires Valid(s) && Invert(s, bound).Ok? && Invert(s, bound).value.Divided?
    ensures s.terms != [] && Polynomial.IntegralCombination(s).Ok?
    ensures xs == Multipliers(s.ss, Polynomial.IntegralCombination(s).value)
    ensures exists i :: 0 <= i < |xs| && xs[i] != 0
    ensures Invert(s, bound).value == Divided(1.0 / (Factor(xs) as real), s.ss, Normalise(xs))
  {
    xs := Multipliers(s.ss, Polynomial.IntegralCombination(s).value);
    SomeMultiplier(s);
  }

  lemma ScaleBack(f: int, r: int, x: int)
    requires f != 0 && x == f * r
    ensures IntegerMath.RMul(1.0 / (f as real), x as real) == r as real
  {
    assert (x as real) == (f as real) * (r as real);
  }

  // ---------------------------------------------------------------------------
  // Examples
  // ---------------------------------------------------------------------------

  lemma GcdExamples()
    ensures GcdAll([2, -4]) == 2 && GcdAll([-2, 4]) == 2
  {
    assert IntegerMath.Gcd(-4, 0) == 4;
    assert IntegerMath.Gcd(2, 4) == IntegerMath.Gcd(4, 2 % 4);
    assert IntegerMath.Gcd(4, 2) == IntegerMath.Gcd(2, 0);
    assert IntegerMath.Gcd(-2, 4) == IntegerMath.Gcd(4, 2 % 4);
    assert [2, -4][1..] == [-4] && [-4][1..] == [];
    assert [-2, 4][1..] == [4] && [4][1..] == [];
  }

  /** `2x - 4y` gives the divisor `x - 2y` with the factor 2. */
  lemma NormaliseExample()
    ensures [2, -4][0] != 0 && Factor([2, -4]) == 2 && Normalise([2, -4]) == [1, -2]
  {
    GcdExamples();
    assert FirstNonZero([2, -4]) == 0;
    assert Normalise([2, -4])[1] == -4 / 2;
  }

  /** `-2x + 4y` gives the same divisor with the factor -2. */
  lemma NormaliseNegativeExample()
    ensures [-2, 4][0] != 0 && Factor([-2, 4]) == -2 && Normalise([-2, 4]) == [1, -2]
  {
    GcdExamples();
    assert FirstNonZero([-2, 4]) == 0;
    assert Normalise([-2, 4])[1] == -(4 / 2);
  }

  /** `invert(2x - 4y)` is `1/2 * 1/[(x - 2y)]`. */
  lemma InvertExample()
    ensures Invert(Series(Rationals, ["x", "y"], [Term(2.0, [1, 0]), Term(-4.0, [0, 1])]), 32767)
            == Ok(Divided(0.5, ["x", "y"], [1, -2]))
  {
    var s := Series(Rationals, ["x", "y"], [Term(2.0, [1, 0]), Term(-4.0, [0, 1])]);
    assert Lt("x", "y") && Valid(s) && !IsConstant(s);
    InvertTwo(s, 32767, 2, -4);
    NormaliseExample();
  }

  /** `invert(-2x + 4y)` is `-1/2 * 1/[(x - 2y)]`. */
  lemma InvertNegativeExample()
    ensures Invert(Series(Rationals, ["x", "y"], [Term(-2.0, [1, 0]), Term(4.0, [0, 1])]), 32767)
            == Ok(Divided(-0.5, ["x", "y"], [1, -2]))
  {
    var s := Series(Rationals, ["x", "y"], [Term(-2.0, [1, 0]), Term(4.0, [0, 1])]);
    assert Lt("x", "y") && Valid(s) && !IsConstant(s);
    InvertTwo(s, 32767, -2, 4);
    NormaliseNegativeExample();
    ReciprocalMinusTwo();
  }

  lemma ReciprocalMinusTwo()
    ensures 1.0 / (-2 as real) == -0.5
  {
    assert -2 as real == -2.0;
    assert -0.5 * -2.0 == 1.0;
  }

  /** `invert()` of a polynomial that is neither zero nor constant, once its
      integral combination is known. */
  lemma InvertOfCombination(s: Series, bound: nat, xs: seq<int>)
    requires Valid(s) && s.terms != [] && !IsConstant(s) && Polynomial.IntegralCombination(s).Ok?
    requires xs == Multipliers(s.ss, Polynomial.IntegralCombination(s).value)
    ensures exists i :: 0 <= i < |xs| && xs[i] != 0
    ensures Invert(s, bound) == if InBounds(Normalise(xs), bound)
                                then Ok(Divided(1.0 / (Factor(xs) as real), s.ss, Normalise(xs)))
                                else Err(InvalidArgument)
  {
    SomeMultiplier(s);
  }

  lemma InvertTwo(s: Series, bound: nat, a: int, b: int)
    requires Valid(s) && s.ss == ["x", "y"] && a != 0
    requires s.terms == [Term(a as real, [1, 0]), Term(b as real, [0, 1])]
    ensures [a, b][0] != 0
    ensures Invert(s, bound) == if InBounds(Normalise([a, b]), bound)
                                then Ok(Divided(1.0 / (Factor([a, b]) as real), s.ss, Normalise([a, b])))
                                else Err(InvalidArgument)
  {
    var xs := CombinationOfTwo(s, a, b);
    InvertOfCombination(s, bound, xs);
  }

  /** The combination of two terms `a x + b y`, and its multipliers. */
  lemma CombinationOfTwo(s: Series, a: int, b: int) returns (xs: seq<int>)
    requires Valid(s) && s.ss == ["x", "y"]
    requires s.terms == [Term(a as real, [1, 0]), Term(b as real, [0, 1])]
    ensures Polynomial.IntegralCombination(s).Ok?
    ensures xs == Multipliers(s.ss, Polynomial.IntegralCombination(s).value) == [a, b]
  {
    assert Monomial.LinearAt([1, 0], 0) && Monomial.LinearAt([0, 1], 1);
    assert Monomial.IsLinear([1, 0], s.ss) == Ok((true, 0));
    assert Monomial.IsLinear([0, 1], s.ss) == Ok((true, 1));
    assert s.terms[1..][1..] == [];
    assert (a as real).Floor == a && (b as real).Floor == b;
    var m := map["y" := b][ "x" := a];
    assert Polynomial.Combination(s.ss, s.terms[1..]) == Ok(map["y" := b]);
    assert Polynomial.IntegralCombination(s) == Ok(m);
    xs := Multipliers(s.ss, m);
    assert xs == [a, b];
  }

  /** Constants invert to their reciprocal in the coefficient ring: 2 gives
      0 over the integers and 1/2 over the rationals; the zero series
      throws. */
  lemma InvertConstantExamples()
    ensures Invert(Series(Integers, [], [Term(2.0, [])]), 32767) == Ok(Reciprocal(0.0))
    ensures Invert(Series(Rationals, ["x"], [Term(2.0 / 3.0, [0])]), 32767) == Ok(Reciprocal(1.5))
    ensures Invert(Series(Rationals, ["x"], []), 32767) == Err(ZeroDivisionError)
  {
    InvertIntegerTwo();
    InvertRationalTwoThirds();
  }

  /** The integer 2 inverts to the truncated quotient 1 / 2, that is 0. */
  lemma InvertIntegerTwo()
    ensures Invert(Series(Integers, [], [Term(2.0, [])]), 32767) == Ok(Reciprocal(0.0))
  {
    var s := Series(Integers, [], [Term(2.0, [])]);
    assert IsConstant(s);
    IntegerMath.TruncDivUnique(1, 2, 0);
    assert CfDiv(Integers, 1.0, 2.0) == 0.0;
  }

  /** The rational 2/3 inverts to 3/2. */
  lemma InvertRationalTwoThirds()
    ensures Invert(Series(Rationals, ["x"], [Term(2.0 / 3.0, [0])]), 32767) == Ok(Reciprocal(1.5))
  {
    var s := Series(Rationals, ["x"], [Term(2.0 / 3.0, [0])]);
    assert IsConstant(s);
    assert CfDiv(Rationals, 1.0, 2.0 / 3.0) == 1.5;
  }

  /** `x - 1` has a constant term, and `x - y/2` a coefficient that is not
      an integer: neither can be inverted. */
  lemma InvertRejectsExamples()
    ensures Invert(Series(Rationals, ["x"], [Term(1.0, [1]), Term(-1.0, [0])]), 32767).Err?
    ensures Invert(Series(Rationals, ["x", "y"], [Term(1.0, [1, 0]), Term(-0.5, [0, 1])]), 32767) == Err(SafeCastFailure)
  {
    assert Monomial.LinearAt([1], 0);
    assert !Monomial.LinearAt([0], 0);
    assert Monomial.LinearAt([1, 0], 0) && Monomial.LinearAt([0, 1], 1);
    assert Monomial.IsLinear([0, 1], ["x", "y"]) == Ok((true, 1));
    assert !IsIntegral(-0.5);
  }

  /** A multiplier past the range of `short` throws. */
  lemma InvertOutOfRangeExample()
    ensures Invert(Series(Rationals, ["x", "y"], [Term(32768.0, [1, 0]), Term(1.0, [0, 1])]), 32767) == Err(InvalidArgument)
  {
    var s := Series(Rationals, ["x", "y"], [Term(32768.0, [1, 0]), Term(1.0, [0, 1])]);
    assert Lt("x", "y") && Valid(s) && !IsConstant(s);
    var xs := CombinationOfTwo(s, 32768, 1);
    assert IntegerMath.Gcd(1, 0) == 1;
    assert IntegerMath.Gcd(32768, 1) == IntegerMath.Gcd(1, 32768 % 1);
    assert [32768, 1][1..] == [1] && [1][1..] == [];
    assert GcdAll(xs) == 1;
    assert Normalise(xs)[0] == 32768;
    InvertOfCombination(s, 32767, xs);
  }
}
