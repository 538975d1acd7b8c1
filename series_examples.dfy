/** The series behaviour the unit tests pin down with explicit values, stated
    over the symbols `x` and `y`. */
module SeriesExamples {
  import opened Wrappers
  import IntegerMath
  import opened SymbolUtils
  import opened Terms
  import opened Series
  import Monomial

  // ---------------------------------------------------------------------------
  // General laws behind the examples
  // ---------------------------------------------------------------------------

  /** `(a + b) - b == a`, whatever the symbol sets. */
  lemma AddSubCancel(a: Series, b: Series)
    requires Valid(a) && Valid(b)
    ensures Equal(Sub(Add(a, b), b), a)
  {
    forall e ensures Coef(Sub(Add(a, b), b), e) == Coef(a, e) {
      SubCoef(Add(a, b), b, e);
      AddCoef(a, b, e);
    }
    EqualIffCoef(Sub(Add(a, b), b), a);
  }

  /** `a - a == 0`. */
  lemma SubSelf(a: Series)
    requires Valid(a)
    ensures Equal(Sub(a, a), Zero(a.ring, []))
    ensures IsZero(Sub(a, a))
  {
    forall e ensures Coef(Sub(a, a), e) == 0.0 {
      SubCoef(a, a, e);
    }
    EqualIffCoef(Sub(a, a), Zero(a.ring, []));
    IsZeroIff(Sub(a, a));
  }

  /** The series of a name gives 1 to the name itself and 0 to every other
      monomial. */
  lemma SymbolCoef(ring: Ring, x: string, e: map<string, int>)
    ensures Coef(Symbol(ring, x), e) == (if Supported(e, [x]) && ExpOf(e, x) == 1 then 1.0 else 0.0)
  {
    assert [Term(1.0, [1])][1..] == [];
    var k := KeyOf(e, [x]);
    assert k == [ExpOf(e, x)];
    assert Coeff([Term(1.0, [1])], k) == (if [1] == k then 1.0 else 0.0) + Coeff([], k);
  }

  lemma SymbolsDiffer(ring: Ring, x: string, y: string, e: map<string, int>)
    requires x != y
    ensures Coef(Symbol(ring, x), e) == 0.0 || Coef(Symbol(ring, y), e) == 0.0
  {
    SymbolCoef(ring, x, e);
    SymbolCoef(ring, y, e);
  }

  // ---------------------------------------------------------------------------
  // Addition and subtraction
  // ---------------------------------------------------------------------------

  /** `x + x` is one term with coefficient 2 over `{x}`; `x - x` has no term
      but keeps the symbol set `{x}`. */
  lemma AddSubExamples(ring: Ring)
    ensures Add(Symbol(ring, "x"), Symbol(ring, "x")) == Series(ring, ["x"], [Term(2.0, [1])])
    ensures Sub(Symbol(ring, "x"), Symbol(ring, "x")) == Series(ring, ["x"], [])
  {
    var x := Symbol(ring, "x");
    assert Merge(["x"], ["x"]) == ["x"];
    Monomial.ReencodeLaws([1], ["x"], ["x"], ["x"]);
    assert Rekey(x.terms, ["x"], ["x"]) == [Term(1.0, [1])];
    assert ExtendTo(x, ["x"]) == x;
    assert Insert([Term(1.0, [1])], [1], 1.0) == [Term(2.0, [1])];
    assert Neg(x).terms == [Term(-1.0, [1])];
    assert Rekey(Neg(x).terms, ["x"], ["x"]) == [Term(-1.0, [1])];
    assert ExtendTo(Neg(x), ["x"]) == Neg(x);
    assert Insert([Term(1.0, [1])], [1], -1.0) == [];
  }

  /** Adding series over different symbols merges the symbol sets. */
  lemma MergedSymbolsExample(ring: Ring)
    ensures Add(Symbol(ring, "x"), Symbol(ring, "y")).ss == ["x", "y"]
    ensures Mul(Symbol(ring, "x"), Symbol(ring, "y")).ss == ["x", "y"]
  {
    assert Lt("x", "y");
    assert Merge(["x"], ["y"]) == ["x", "y"];
  }

  /** A rational `x` plus an integer `y`, either way round: rational
      coefficients, the symbols `x` and `y`, and coefficient 1 for each of
      `x` and `y`. */
  lemma MixedAddExample(x: Series, y: Series)
    requires x == Symbol(Rationals, "x") && y == Symbol(Integers, "y")
    ensures Add(x, y).ring == Rationals && Add(y, x).ring == Rationals
    ensures Add(x, y).ss == ["x", "y"] && Add(y, x).ss == ["x", "y"]
    ensures Coef(Add(x, y), map["x" := 1]) == 1.0 && Coef(Add(x, y), map["y" := 1]) == 1.0
    ensures Coef(Add(y, x), map["x" := 1]) == 1.0 && Coef(Add(y, x), map["y" := 1]) == 1.0
  {
    assert Lt("x", "y");
    assert Merge(["x"], ["y"]) == ["x", "y"];
    assert Merge(["y"], ["x"]) == ["x", "y"] by {
      MergeCommutes(["x"], ["y"]);
    }
    var ex, ey := map["x" := 1], map["y" := 1];
    AddCoef(x, y, ex);
    AddCoef(x, y, ey);
    AddCoef(y, x, ex);
    AddCoef(y, x, ey);
    SymbolCoef(Rationals, "x", ex);
    SymbolCoef(Rationals, "x", ey);
    SymbolCoef(Integers, "y", ex);
    SymbolCoef(Integers, "y", ey);
  }

  // ---------------------------------------------------------------------------
  // Equality and identity
  // ---------------------------------------------------------------------------

  /** `x == (x + y) - y` and `x - x == 0`. */
  lemma EqualityExamples(ring: Ring)
    ensures Equal(Sub(Add(Symbol(ring, "x"), Symbol(ring, "y")), Symbol(ring, "y")), Symbol(ring, "x"))
    ensures Equal(Sub(Symbol(ring, "x"), Symbol(ring, "x")), Constant(ring, 0.0))
  {
    var x, y := Symbol(ring, "x"), Symbol(ring, "y");
    AddSubCancel(x, y);
    SubSelf(x);
    EqualIffCoef(Zero(ring, []), Constant(ring, 0.0));
    EqualIffCoef(Sub(x, x), Zero(ring, []));
    EqualIffCoef(Sub(x, x), Constant(ring, 0.0));
  }

  /** `(x + y) - y` keeps `y` in its symbol set, so it is not identical to
      `x`. */
  lemma NotIdenticalExample(ring: Ring)
    ensures !IsIdentical(Sub(Add(Symbol(ring, "x"), Symbol(ring, "y")), Symbol(ring, "y")), Symbol(ring, "x"))
  {
    assert "y" in Sub(Add(Symbol(ring, "x"), Symbol(ring, "y")), Symbol(ring, "y")).ss;
  }

  /** `(x + y) - y` is over the symbols `x` and `y`, and gives `x` a
      nonzero coefficient while `y` occurs in none of its monomials. */
  lemma DifferenceExample(ring: Ring)
    ensures Sub(Add(Symbol(ring, "x"), Symbol(ring, "y")), Symbol(ring, "y")).ss == ["x", "y"]
    ensures Coef(Sub(Add(Symbol(ring, "x"), Symbol(ring, "y")), Symbol(ring, "y")), map["x" := 1]) != 0.0
    ensures forall e :: Coef(Sub(Add(Symbol(ring, "x"), Symbol(ring, "y")), Symbol(ring, "y")), e) != 0.0 ==> ExpOf(e, "y") == 0
  {
    var x, y := Symbol(ring, "x"), Symbol(ring, "y");
    var x2 := Sub(Add(x, y), y);
    DifferenceSymbols(ring);
    AddSubCancel(x, y);
    EqualIffCoef(x2, x);
    CoefsOfX(ring, x2);
  }

  lemma DifferenceSymbols(ring: Ring)
    ensures Sub(Add(Symbol(ring, "x"), Symbol(ring, "y")), Symbol(ring, "y")).ss == ["x", "y"]
  {
    assert Lt("x", "y");
    assert Merge(["x"], ["y"]) == ["x", "y"];
    SortedSetsEqual(Merge(["x", "y"], ["y"]), ["x", "y"]);
  }

  /** A series with the coefficients of `x` gives `x` a nonzero one and
      no monomial with `y` in it a nonzero one. */
  lemma CoefsOfX(ring: Ring, d: Series)
    requires forall e :: Coef(d, e) == Coef(Symbol(ring, "x"), e)
    ensures Coef(d, map["x" := 1]) != 0.0
    ensures forall e :: Coef(d, e) != 0.0 ==> ExpOf(e, "y") == 0
  {
    SymbolCoef(ring, "x", map["x" := 1]);
    forall e | Coef(d, e) != 0.0 ensures ExpOf(e, "y") == 0 {
      SymbolCoef(ring, "x", e);
    }
  }

  /** Trimming `(x + y) - y` drops `y` and keeps `x`. */
  lemma TrimSymbolsExample(ring: Ring)
    ensures Trim(Sub(Add(Symbol(ring, "x"), Symbol(ring, "y")), Symbol(ring, "y"))).ss == ["x"]
  {
    var x2 := Sub(Add(Symbol(ring, "x"), Symbol(ring, "y")), Symbol(ring, "y"));
    var t := Trim(x2);
    DifferenceExample(ring);
    TrimSymbols(x2, "x");
    assert ExpOf(map["x" := 1], "x") != 0;
    TrimSymbols(x2, "y");
    SubseqMembers(t.ss, x2.ss);
    assert forall z :: z in t.ss ==> z in ["x", "y"];
    SortedSetsEqual(t.ss, ["x"]);
  }

  /** After `trim()`, `(x + y) - y` is identical to `x`. */
  lemma TrimIdenticalExample(ring: Ring)
    ensures IsIdentical(Trim(Sub(Add(Symbol(ring, "x"), Symbol(ring, "y")), Symbol(ring, "y"))), Symbol(ring, "x"))
  {
    var x, y := Symbol(ring, "x"), Symbol(ring, "y");
    var x2 := Sub(Add(x, y), y);
    TrimSymbolsExample(ring);
    AddSubCancel(x, y);
    TrimEqual(x2);
    EqualIffCoef(Trim(x2), x2);
    EqualIffCoef(x2, x);
    EqualIffCoef(Trim(x2), x);
    IdenticalIffEqual(Trim(x2), x);
  }

  // ---------------------------------------------------------------------------
  // Division
  // ---------------------------------------------------------------------------

  /** Over the integers, `(2x + y) / 2 == x` and `(2x + 2y) / 3` is empty;
      dividing by zero throws, whatever the series. */
  lemma DivExamples()
    ensures DivScalar(Add(MulScalar(Symbol(Integers, "x"), 2.0), Symbol(Integers, "y")), 2.0).Ok?
    ensures Equal(DivScalar(Add(MulScalar(Symbol(Integers, "x"), 2.0), Symbol(Integers, "y")), 2.0).value, Symbol(Integers, "x"))
    ensures DivScalar(Add(MulScalar(Symbol(Integers, "x"), 2.0), MulScalar(Symbol(Integers, "y"), 2.0)), 3.0).Ok?
    ensures IsZero(DivScalar(Add(MulScalar(Symbol(Integers, "x"), 2.0), MulScalar(Symbol(Integers, "y"), 2.0)), 3.0).value)
    ensures DivScalar(Zero(Integers, []), 0.0) == Err(ZeroDivisionError)
  {
    var x, y := Symbol(Integers, "x"), Symbol(Integers, "y");
    assert IsIntegral(2.0) && IsIntegral(3.0);
    var p := Add(MulScalar(x, 2.0), y);
    var q := DivScalar(p, 2.0).value;
    forall e ensures Coef(q, e) == Coef(x, e) {
      HalvedAt(e);
    }
    EqualIffCoef(q, x);
    var p2 := Add(MulScalar(x, 2.0), MulScalar(y, 2.0));
    var q2 := DivScalar(p2, 3.0).value;
    forall e ensures Coef(q2, e) == 0.0 {
      ThirdAt(e);
    }
    IsZeroIff(q2);
  }

  /** `DivExamples` for `(2x + y) / 2` at one monomial. */
  lemma HalvedAt(e: map<string, int>)
    ensures var p := Add(MulScalar(Symbol(Integers, "x"), 2.0), Symbol(Integers, "y"));
            DivScalar(p, 2.0).Ok? && Coef(DivScalar(p, 2.0).value, e) == Coef(Symbol(Integers, "x"), e)
  {
    var x, y := Symbol(Integers, "x"), Symbol(Integers, "y");
    assert IsIntegral(2.0);
    var p := Add(MulScalar(x, 2.0), y);
    DivScalarCoef(p, 2.0, e);
    AddCoef(MulScalar(x, 2.0), y, e);
    MulScalarCoef(x, 2.0, e);
    SymbolCoef(Integers, "x", e);
    SymbolCoef(Integers, "y", e);
    SymbolsDiffer(Integers, "x", "y", e);
    TruncatedDivision(Coef(DivScalar(p, 2.0).value, e), Coef(p, e), Coef(x, e), Coef(y, e), 2.0, Coef(x, e));
  }

  /** `DivExamples` for `(2x + 2y) / 3` at one monomial. */
  lemma ThirdAt(e: map<string, int>)
    ensures var p := Add(MulScalar(Symbol(Integers, "x"), 2.0), MulScalar(Symbol(Integers, "y"), 2.0));
            DivScalar(p, 3.0).Ok? && Coef(DivScalar(p, 3.0).value, e) == 0.0
  {
    var x, y := Symbol(Integers, "x"), Symbol(Integers, "y");
    assert IsIntegral(2.0) && IsIntegral(3.0);
    var p := Add(MulScalar(x, 2.0), MulScalar(y, 2.0));
    DivScalarCoef(p, 3.0, e);
    AddCoef(MulScalar(x, 2.0), MulScalar(y, 2.0), e);
    MulScalarCoef(x, 2.0, e);
    MulScalarCoef(y, 2.0, e);
    SymbolCoef(Integers, "x", e);
    SymbolCoef(Integers, "y", e);
    SymbolsDiffer(Integers, "x", "y", e);
    TruncatedDivision(Coef(DivScalar(p, 3.0).value, e), Coef(p, e), Coef(x, e), IntegerMath.RMul(Coef(y, e), 2.0), 3.0, 0.0);
  }

  /** The truncated quotient of `2a + b` by `d`, for 0/1 values `a` and `b`
      that are not both 1 and the divisor 2 or 3. */
  lemma TruncatedDivision(q: real, p: real, a: real, b: real, d: real, r: real)
    requires d == 2.0 || d == 3.0
    requires q == CfDiv(Integers, p, d) && p == IntegerMath.RMul(a, 2.0) + b
    requires a == 0.0 || a == 1.0
    requires b == 0.0 || b == 1.0 || b == 2.0
    requires a == 0.0 || b == 0.0
    requires d == 2.0 ==> b != 2.0 && r == a
    requires d == 3.0 ==> r == 0.0
    ensures q == r
  {
    assert IntegerMath.TruncDiv(2, 2) == 1 && IntegerMath.TruncDiv(1, 2) == 0 && IntegerMath.TruncDiv(0, 2) == 0;
    assert IntegerMath.TruncDiv(2, 3) == 0 && IntegerMath.TruncDiv(0, 3) == 0;
  }

  // ---------------------------------------------------------------------------
  // Queries
  // ---------------------------------------------------------------------------

  /** `is_single_coefficient` holds for the empty series and the constant 1
      and fails for `x`, `3x` and `1 + x`; `is_zero` holds for the empty
      series and for 0 and fails for 1. */
  lemma QueryExamples(ring: Ring)
    ensures IsSingleCoefficient(Zero(ring, [])) && IsSingleCoefficient(Constant(ring, 1.0))
    ensures !IsSingleCoefficient(Symbol(ring, "x"))
    ensures !IsSingleCoefficient(MulScalar(Symbol(ring, "x"), 3.0))
    ensures !IsSingleCoefficient(Add(Constant(ring, 1.0), Symbol(ring, "x")))
    ensures IsZero(Zero(ring, [])) && IsZero(Constant(ring, 0.0)) && !IsZero(Constant(ring, 1.0))
  {
    var x := Symbol(ring, "x");
    var ex := map["x" := 1];
    SymbolCoef(ring, "x", ex);
    assert !IsConstantMonomial(ex);
    SingleCoefficientIff(x);
    MulScalarCoef(x, 3.0, ex);
    SingleCoefficientIff(MulScalar(x, 3.0));
    AddCoef(Constant(ring, 1.0), x, ex);
    SingleCoefficientIff(Add(Constant(ring, 1.0), x));
  }
}
