/** Evaluation of a polynomial at given values of its symbols, and
    `ipow_subs`: replacing every factor `x^n` of every term by a number. */
module Substitution {
  import opened Wrappers
  import IntegerMath
  import opened SymbolUtils
  import opened Terms
  import opened Series
  import Monomial

  // ---------------------------------------------------------------------------
  // Values of terms
  // ---------------------------------------------------------------------------

  /** The value of a monomial at `vals`, one value per symbol; 0 stands in
      where the evaluation throws. */
  function MonoValue(m: Key, vals: seq<real>): real
    requires |m| == |vals|
  {
    var r := Monomial.EvalProduct(m, vals);
    if r.Ok? then r.value else 0.0
  }

  /** The sum of coefficient times monomial value over a container. */
  function TermsValue(ts: seq<T>, vals: seq<real>): real
    requires Arity(|vals|, ts)
    decreases |ts|
  {
    if ts == [] then 0.0
    else IntegerMath.RMul(ts[0].cf, MonoValue(ts[0].key, vals)) + TermsValue(ts[1..], vals)
  }

  lemma RMulAddLeft(a: real, b: real, c: real)
    ensures IntegerMath.RMul(a + b, c) == IntegerMath.RMul(a, c) + IntegerMath.RMul(b, c)
  {
  }

  /** Inserting `(c, k)` adds `c` times the value of `k`. */
  lemma {:induction false} InsertValue(ts: seq<T>, k: Key, c: real, vals: seq<real>)
    requires Arity(|vals|, ts) && |k| == |vals|
    ensures Arity(|vals|, Insert(ts, k, c))
    ensures TermsValue(Insert(ts, k, c), vals) == TermsValue(ts, vals) + IntegerMath.RMul(c, MonoValue(k, vals))
    decreases |ts|
  {
    var r := Insert(ts, k, c);
    if ts == [] {
    } else if ts[0].key == k {
      RMulAddLeft(ts[0].cf, c, MonoValue(k, vals));
      if ts[0].cf + c != 0.0 {
        assert r[1..] == ts[1..];
      }
    } else {
      InsertValue(ts[1..], k, c, vals);
      assert r[1..] == Insert(ts[1..], k, c);
    }
  }

  /** Accumulating adds the values. */
  lemma {:induction false} AccumulateValue(ts: seq<T>, us: seq<T>, vals: seq<real>)
    requires Arity(|vals|, ts) && Arity(|vals|, us)
    ensures Arity(|vals|, Accumulate(ts, us))
    ensures TermsValue(Accumulate(ts, us), vals) == TermsValue(ts, vals) + TermsValue(us, vals)
    decreases |us|
  {
    if us != [] {
      InsertValue(ts, us[0].key, us[0].cf, vals);
      AccumulateValue(Insert(ts, us[0].key, us[0].cf), us[1..], vals);
    }
  }

  // ---------------------------------------------------------------------------
  // Evaluation
  // ---------------------------------------------------------------------------

  /** Every symbol of the set has a value. */
  predicate Defined(ss: seq<string>, point: map<string, real>)
  {
    forall i :: 0 <= i < |ss| ==> ss[i] in point
  }

  /** The values of the symbols of the set, in the order of the set. */
  function Values(ss: seq<string>, point: map<string, real>): (vals: seq<real>)
    requires Defined(ss, point)
    ensures |vals| == |ss| && forall i :: 0 <= i < |ss| ==> vals[i] == point[ss[i]]
  {
    seq(|ss|, i requires 0 <= i < |ss| => point[ss[i]])
  }

  /** Some term puts a negative exponent on a symbol whose value is zero. */
  predicate Singular(s: Series, point: map<string, real>)
    requires Valid(s) && Defined(s.ss, point)
  {
    exists i, j :: 0 <= i < |s.terms| && 0 <= j < |s.ss| && s.terms[i].key[j] < 0 && point[s.ss[j]] == 0.0
  }

  /** `evaluate(s, point)`: the sum of every coefficient times the value of
      its monomial. A symbol without a value throws `invalid_argument`; a
      zero value under a negative exponent throws `zero_division_error`. */
  function Evaluate(s: Series, point: map<string, real>): (r: Result<real>)
    requires Valid(s)
    ensures r.Err? && r.error == InvalidArgument <==> !Defined(s.ss, point)
    ensures r.Err? && r.error == ZeroDivisionError <==> Defined(s.ss, point) && Singular(s, point)
    ensures r.Err? ==> r.error == InvalidArgument || r.error == ZeroDivisionError
    ensures r.Ok? ==> r.value == TermsValue(s.terms, Values(s.ss, point))
  {
    if !Defined(s.ss, point) then Err(InvalidArgument)
    else
      var vals := Values(s.ss, point);
      if exists i :: 0 <= i < |s.terms| && Monomial.EvalProduct(s.terms[i].key, vals).Err? then
        var i :| 0 <= i < |s.terms| && Monomial.EvalProduct(s.terms[i].key, vals).Err?;
        Monomial.EvalProductFails(s.terms[i].key, vals);
        Err(ZeroDivisionError)
      else
        assert !Singular(s, point) by {
          forall i | 0 <= i < |s.terms| ensures forall j :: 0 <= j < |s.ss| ==> !(s.terms[i].key[j] < 0 && point[s.ss[j]] == 0.0) {
            Monomial.EvalProductFails(s.terms[i].key, vals);
          }
        }
        Ok(TermsValue(s.terms, vals))
  }

  // ---------------------------------------------------------------------------
  // Powers
  // ---------------------------------------------------------------------------

  /** Powers of an integer are integers. */
  lemma {:induction false} PowerIntegral(v: real, q: nat)
    requires IsIntegral(v)
    ensures IsIntegral(IntegerMath.RealPower(v, q))
    decreases q
  {
    if q > 0 {
      PowerIntegral(v, q - 1);
      IntegralClosed(v, IntegerMath.RealPower(v, q - 1));
      assert IntegerMath.RealPower(v, q) == IntegerMath.RMul(v, IntegerMath.RealPower(v, q - 1));
    }
  }

  /** `x^(n*q) == (x^n)^q` on a nonzero base, for any integer `n`. */
  lemma {:induction false} RatPowMul(x: real, n: int, q: nat)
    requires x != 0.0
    ensures IntegerMath.RatPow(x, n).Ok? && IntegerMath.RatPow(x, q * n).Ok?
    ensures IntegerMath.RatPow(x, q * n).value == IntegerMath.RealPower(IntegerMath.RatPow(x, n).value, q)
    decreases q
  {
    IntegerMath.RatPowAdd(x, n, 0);
    if q > 0 {
      var m := (q - 1) * n;
      RatPowMul(x, n, q - 1);
      assert q * n == n + m;
      IntegerMath.RatPowAdd(x, n, m);
      PowerStep(IntegerMath.RatPow(x, n + m).value, IntegerMath.RatPow(x, m).value, IntegerMath.RatPow(x, n).value, q);
    }
  }

  /** One more factor `p` on `p^(q-1)` gives `p^q`. */
  lemma PowerStep(c: real, b: real, p: real, q: nat)
    requires q > 0 && c == IntegerMath.RMul(p, b) && b == IntegerMath.RealPower(p, q - 1)
    ensures c == IntegerMath.RealPower(p, q)
  {
  }

  /** A monomial with one nonzero exponent is worth that power of the
      corresponding value. */
  lemma {:induction false} SingleExponent(vals: seq<real>, p: nat, c: int)
    requires p < |vals| && forall i :: 0 <= i < |vals| ==> vals[i] != 0.0
    ensures IntegerMath.RatPow(vals[p], c).Ok?
    ensures Monomial.EvalProduct(Monomial.Zeros(|vals|)[p := c], vals) == Ok(IntegerMath.RatPow(vals[p], c).value)
    decreases |vals|
  {
    var d := Monomial.Zeros(|vals|)[p := c];
    IntegerMath.RatPowAdd(vals[p], c, 0);
    if p == 0 {
      assert d[1..] == Monomial.Zeros(|vals| - 1);
      OnlyZeros(vals[1..]);
    } else {
      SingleExponent(vals[1..], p - 1, c);
      assert d[1..] == Monomial.Zeros(|vals| - 1)[p - 1 := c];
      IntegerMath.RatPowAdd(vals[0], 0, 0);
    }
  }

  /** The monomial 1 is worth 1. */
  lemma {:induction false} OnlyZeros(vals: seq<real>)
    ensures Monomial.EvalProduct(Monomial.Zeros(|vals|), vals) == Ok(1.0)
    decreases |vals|
  {
    if vals != [] {
      assert Monomial.Zeros(|vals|)[1..] == Monomial.Zeros(|vals| - 1);
      OnlyZeros(vals[1..]);
    }
  }

  // ---------------------------------------------------------------------------
  // Substitution of a power
  // ---------------------------------------------------------------------------

  /** Each term sent through the monomial's `ipow_subs`: the coefficient
      times the factor it returns, over the key it returns. */
  function SubsTerms(ts: seq<T>, p: nat, n: int, v: real, ss: seq<string>): (r: seq<T>)
    requires n != 0 && Arity(|ss|, ts)
    ensures |r| == |ts| && Arity(|ss|, r)
    decreases |ts|
  {
    if ts == [] then []
    else
      var d := Monomial.IpowSubs(ts[0].key, p, n, v, ss).value;
      var rest := SubsTerms(ts[1..], p, n, v, ss);
      var r := [Term(IntegerMath.RMul(ts[0].cf, d.0), d.1)] + rest;
      assert forall i :: 1 <= i < |r| ==> r[i] == rest[i - 1];
      r
  }

  lemma {:induction false} SubsTermsInRing(ring: Ring, ts: seq<T>, p: nat, n: int, v: real, ss: seq<string>)
    requires n != 0 && Arity(|ss|, ts) && forall i :: 0 <= i < |ts| ==> InRing(ring, ts[i].cf)
    ensures forall i :: 0 <= i < |ts| ==> InRing(ResultRing(ring, v), SubsTerms(ts, p, n, v, ss)[i].cf)
    decreases |ts|
  {
    if ts != [] {
      SubsTermsInRing(ring, ts[1..], p, n, v, ss);
      assert SubsTerms(ts, p, n, v, ss)[1..] == SubsTerms(ts[1..], p, n, v, ss);
      var d := Monomial.IpowSubs(ts[0].key, p, n, v, ss).value;
      if ResultRing(ring, v) == Integers {
        if p < |ts[0].key| && IntegerMath.TruncDiv(ts[0].key[p], n) >= 1 {
          PowerIntegral(v, IntegerMath.TruncDiv(ts[0].key[p], n));
        }
        assert IsIntegral(d.0);
        IntegralClosed(ts[0].cf, d.0);
      }
    }
  }

  /** `ipow_subs(s, x, n, v)`: in every term the largest power `x^(q*n)`,
      `q >= 1`, is replaced by `v^q`, and the results are inserted, with
      accumulation, over the same symbol set (which keeps `x`). A zero
      factor erases the term. `n == 0` throws `invalid_argument` from the
      first term; a rational `v` makes the coefficients rational. */
  function IpowSubs(s: Series, x: string, n: int, v: real): (r: Result<Series>)
    requires Valid(s)
    ensures r.Err? <==> n == 0 && s.terms != []
    ensures r.Err? ==> r.error == InvalidArgument
    ensures r.Ok? ==> Valid(r.value) && r.value.ss == s.ss && r.value.ring == ResultRing(s.ring, v)
  {
    var ring := ResultRing(s.ring, v);
    if s.terms == [] then Ok(Series(ring, s.ss, []))
    else if n == 0 then Err(InvalidArgument)
    else
      var us := SubsTerms(s.terms, IndexOf(s.ss, x), n, v, s.ss);
      SubsTermsInRing(s.ring, s.terms, IndexOf(s.ss, x), n, v, s.ss);
      AccumulateValid(ring, |s.ss|, [], us);
      Ok(Series(ring, s.ss, Accumulate([], us)))
  }

  /** At values where `x^n` is worth `v`, substituting does not change a
      term's value. */
  lemma SubsTermValue(m: Key, p: nat, n: int, v: real, ss: seq<string>, vals: seq<real>)
    requires |m| == |ss| == |vals| && n != 0
    requires forall i :: 0 <= i < |vals| ==> vals[i] != 0.0
    requires p < |vals| ==> IntegerMath.RatPow(vals[p], n) == Ok(v)
    ensures var d := Monomial.IpowSubs(m, p, n, v, ss).value;
            IntegerMath.RMul(d.0, MonoValue(d.1, vals)) == MonoValue(m, vals)
  {
    if p < |m| && IntegerMath.TruncDiv(m[p], n) >= 1 {
      var q: nat := IntegerMath.TruncDiv(m[p], n);
      assert Monomial.IpowSubs(m, p, n, v, ss).value == (IntegerMath.RealPower(v, q), m[p := m[p] - q * n]);
      PowerSplit(m, p, n, q, v, vals);
    }
  }

  /** Taking `x^(q*n)` out of a monomial takes `v^q` out of its value, where
      `x^n` is worth `v`. */
  lemma PowerSplit(m: Key, p: nat, n: int, q: nat, v: real, vals: seq<real>)
    requires |m| == |vals| && p < |m|
    requires forall i :: 0 <= i < |vals| ==> vals[i] != 0.0
    requires IntegerMath.RatPow(vals[p], n) == Ok(v)
    ensures MonoValue(m, vals) == IntegerMath.RMul(IntegerMath.RealPower(v, q), MonoValue(m[p := m[p] - q * n], vals))
  {
    var c := q * n;
    var rest := m[p := m[p] - c];
    var single := Monomial.Zeros(|m|)[p := c];
    KeySplit(m, p, c);
    Monomial.EvalProductAdd(rest, single, vals);
    SingleExponent(vals, p, c);
    RatPowMul(vals[p], n, q);
    var a := Monomial.EvalProduct(rest, vals).value;
    var b := IntegerMath.RealPower(v, q);
    assert Monomial.EvalProduct(single, vals).value == b;
    assert MonoValue(m, vals) == IntegerMath.RMul(a, b);
    assert IntegerMath.RMul(a, b) == IntegerMath.RMul(b, a);
  }

  lemma KeySplit(m: Key, p: nat, c: int)
    requires p < |m|
    ensures m == Monomial.Add(m[p := m[p] - c], Monomial.Zeros(|m|)[p := c])
  {
    var r := Monomial.Add(m[p := m[p] - c], Monomial.Zeros(|m|)[p := c]);
    assert forall i :: 0 <= i < |m| ==> r[i] == m[i];
  }

  lemma RMulAssoc(a: real, b: real, c: real)
    ensures IntegerMath.RMul(IntegerMath.RMul(a, b), c) == IntegerMath.RMul(a, IntegerMath.RMul(b, c))
  {
    assert (a * b) * c == a * (b * c);
  }

  lemma {:induction false} SubsTermsValue(ts: seq<T>, p: nat, n: int, v: real, ss: seq<string>, vals: seq<real>)
    requires n != 0 && Arity(|ss|, ts) && |vals| == |ss|
    requires forall i :: 0 <= i < |vals| ==> vals[i] != 0.0
    requires p < |vals| ==> IntegerMath.RatPow(vals[p], n) == Ok(v)
    ensures TermsValue(SubsTerms(ts, p, n, v, ss), vals) == TermsValue(ts, vals)
    decreases |ts|
  {
    if ts != [] {
      var r := SubsTerms(ts, p, n, v, ss);
      SubsTermsValue(ts[1..], p, n, v, ss, vals);
      assert r[1..] == SubsTerms(ts[1..], p, n, v, ss);
      var d := Monomial.IpowSubs(ts[0].key, p, n, v, ss).value;
      SubsTermValue(ts[0].key, p, n, v, ss, vals);
      RMulAssoc(ts[0].cf, d.0, MonoValue(d.1, vals));
    }
  }

  /** What the substitution means: wherever `x^n` takes the value `v` (and
      no value is zero) the substituted series evaluates to the same number
      as the original, which is what substituting the power back
      restores. */
  lemma IpowSubsKeepsValue(s: Series, x: string, n: int, v: real, point: map<string, real>)
    requires Valid(s) && n != 0 && Defined(s.ss, point)
    requires forall i :: 0 <= i < |s.ss| ==> point[s.ss[i]] != 0.0
    requires x in s.ss ==> IntegerMath.RatPow(point[x], n) == Ok(v)
    ensures IpowSubs(s, x, n, v).Ok? && Evaluate(s, point).Ok?
    ensures Evaluate(IpowSubs(s, x, n, v).value, point) == Evaluate(s, point)
  {
    var vals := Values(s.ss, point);
    var p := IndexOf(s.ss, x);
    var r := IpowSubs(s, x, n, v).value;
    if s.terms != [] {
      var us := SubsTerms(s.terms, p, n, v, s.ss);
      AccumulateValue([], us, vals);
      SubsTermsValue(s.terms, p, n, v, s.ss, vals);
    }
    assert !Singular(r, point);
    assert !Singular(s, point);
  }

  /** A term `ipow_subs` leaves alone: `x` absent or of a power below `n`. */
  predicate Untouched(m: Key, p: nat, n: int)
    requires n != 0
  {
    p >= |m| || IntegerMath.TruncDiv(m[p], n) < 1
  }

  lemma {:induction false} SubsTermsUntouched(ts: seq<T>, p: nat, n: int, v: real, ss: seq<string>)
    requires n != 0 && Arity(|ss|, ts)
    requires forall i :: 0 <= i < |ts| ==> Untouched(ts[i].key, p, n)
    ensures SubsTerms(ts, p, n, v, ss) == ts
    decreases |ts|
  {
    if ts != [] {
      SubsTermsUntouched(ts[1..], p, n, v, ss);
      assert [ts[0]] + ts[1..] == ts;
    }
  }

  /** When no term holds a power `x^n` the substitution gives back the same
      terms over the same symbols. */
  lemma IpowSubsUntouched(s: Series, x: string, n: int, v: real)
    requires Valid(s) && n != 0
    requires forall i :: 0 <= i < |s.terms| ==> Untouched(s.terms[i].key, IndexOf(s.ss, x), n)
    ensures IpowSubs(s, x, n, v).Ok? && IsIdentical(IpowSubs(s, x, n, v).value, s)
  {
    var r := IpowSubs(s, x, n, v).value;
    if s.terms != [] {
      SubsTermsUntouched(s.terms, IndexOf(s.ss, x), n, v, s.ss);
      forall k ensures Coeff(r.terms, k) == Coeff(s.terms, k) {
        AccumulateCoeff([], s.terms, k);
      }
      SameTermsIffCoeff(|s.ss|, r.terms, s.terms);
    }
  }

  /** `x^-5` with `x^-2 = 5` is `25 x^-1`. */
  lemma IpowSubsNegativeExample()
    ensures IpowSubs(Series(Integers, ["x"], [Term(1.0, [-5])]), "x", -2, 5.0)
            == Ok(Series(Integers, ["x"], [Term(25.0, [-1])]))
  {
    assert IntegerMath.TruncDiv(-5, -2) == 2 by { IntegerMath.TruncDivUnique(-5, -2, 2); }
    assert IntegerMath.RealPower(5.0, 2) == 25.0;
    assert [-5][0 := -5 - 2 * -2] == [-1];
    assert IndexOf(["x"], "x") == 0;
  }

  /** `x + y` with `x = 2` is `2 + y`. */
  lemma IpowSubsLinearExample()
    ensures IpowSubs(Series(Integers, ["x", "y"], [Term(1.0, [1, 0]), Term(1.0, [0, 1])]), "x", 1, 2.0)
            == Ok(Series(Integers, ["x", "y"], [Term(2.0, [0, 0]), Term(1.0, [0, 1])]))
  {
    assert IntegerMath.TruncDiv(1, 1) == 1 by { IntegerMath.TruncDivUnique(1, 1, 1); }
    assert IntegerMath.TruncDiv(0, 1) == 0 by { IntegerMath.TruncDivUnique(0, 1, 0); }
    assert IntegerMath.RealPower(2.0, 1) == 2.0;
    assert [1, 0][0 := 1 - 1 * 1] == [0, 0];
    assert IndexOf(["x", "y"], "x") == 0;
    var ts := [Term(1.0, [1, 0]), Term(1.0, [0, 1])];
    var us := SubsTerms(ts, 0, 1, 2.0, ["x", "y"]);
    assert us[1..] == SubsTerms(ts[1..], 0, 1, 2.0, ["x", "y"]);
    assert us == [Term(2.0, [0, 0]), Term(1.0, [0, 1])];
    assert Insert([Term(2.0, [0, 0])], [0, 1], 1.0) == [Term(2.0, [0, 0]), Term(1.0, [0, 1])];
  }

  /** `3x + y^2/7` with `y = 2/5` is `3x + 4/175`: the coefficients become
      rational. */
  lemma IpowSubsRationalExample()
    ensures IpowSubs(Series(Rationals, ["x", "y"], [Term(3.0, [1, 0]), Term(1.0 / 7.0, [0, 2])]), "y", 1, 2.0 / 5.0)
            == Ok(Series(Rationals, ["x", "y"], [Term(3.0, [1, 0]), Term(4.0 / 175.0, [0, 0])]))
  {
    assert IntegerMath.TruncDiv(2, 1) == 2 by { IntegerMath.TruncDivUnique(2, 1, 2); }
    assert IntegerMath.TruncDiv(0, 1) == 0 by { IntegerMath.TruncDivUnique(0, 1, 0); }
    assert IntegerMath.RealPower(2.0 / 5.0, 2) == 4.0 / 25.0;
    assert [0, 2][1 := 2 - 2 * 1] == [0, 0];
    assert IndexOf(["x", "y"], "y") == 1;
    var ts := [Term(3.0, [1, 0]), Term(1.0 / 7.0, [0, 2])];
    var us := SubsTerms(ts, 1, 1, 2.0 / 5.0, ["x", "y"]);
    assert us[1..] == SubsTerms(ts[1..], 1, 1, 2.0 / 5.0, ["x", "y"]);
    assert us == [Term(3.0, [1, 0]), Term(4.0 / 175.0, [0, 0])];
    assert Insert([Term(3.0, [1, 0])], [0, 0], 4.0 / 175.0) == [Term(3.0, [1, 0]), Term(4.0 / 175.0, [0, 0])];
  }

  /** `x^6 + x^2 y + z` with `x^3 = 0`: the first term vanishes and is
      erased. */
  lemma IpowSubsZeroExample()
    ensures IpowSubs(Series(Integers, ["x", "y", "z"], [Term(1.0, [6, 0, 0]), Term(1.0, [2, 1, 0]), Term(1.0, [0, 0, 1])]), "x", 3, 0.0)
            == Ok(Series(Integers, ["x", "y", "z"], [Term(1.0, [2, 1, 0]), Term(1.0, [0, 0, 1])]))
  {
    assert IntegerMath.TruncDiv(6, 3) == 2 by { IntegerMath.TruncDivUnique(6, 3, 2); }
    assert IntegerMath.TruncDiv(2, 3) == 0 by { IntegerMath.TruncDivUnique(2, 3, 0); }
    assert IntegerMath.TruncDiv(0, 3) == 0 by { IntegerMath.TruncDivUnique(0, 3, 0); }
    assert IntegerMath.RealPower(0.0, 2) == 0.0;
    assert IndexOf(["x", "y", "z"], "x") == 0;
    var ss := ["x", "y", "z"];
    var ts := [Term(1.0, [6, 0, 0]), Term(1.0, [2, 1, 0]), Term(1.0, [0, 0, 1])];
    var us := SubsTerms(ts, 0, 3, 0.0, ss);
    assert us[1..] == SubsTerms(ts[1..], 0, 3, 0.0, ss);
    assert us[2..] == SubsTerms(ts[2..], 0, 3, 0.0, ss);
    assert [6, 0, 0][0 := 6 - 2 * 3] == [0, 0, 0];
    assert us[0] == Term(IntegerMath.RMul(1.0, 0.0), [0, 0, 0]);
    assert us[1] == ts[1] && us[2] == ts[2];
    assert us == [Term(0.0, [0, 0, 0]), Term(1.0, [2, 1, 0]), Term(1.0, [0, 0, 1])];
    assert Insert([Term(1.0, [2, 1, 0])], [0, 0, 1], 1.0) == [Term(1.0, [2, 1, 0]), Term(1.0, [0, 0, 1])];
  }

  /** `x + 2y + 3z` at `x = 3, y = 1, z = 2` is 11. */
  lemma EvaluateExample()
    ensures Evaluate(Series(Integers, ["x", "y", "z"], [Term(1.0, [1, 0, 0]), Term(2.0, [0, 1, 0]), Term(3.0, [0, 0, 1])]),
                     map["x" := 3.0, "y" := 1.0, "z" := 2.0]) == Ok(11.0)
  {
    var point := map["x" := 3.0, "y" := 1.0, "z" := 2.0];
    var ss := ["x", "y", "z"];
    assert Values(ss, point) == [3.0, 1.0, 2.0];
    assert Monomial.EvalProduct([1, 0, 0], [3.0, 1.0, 2.0]) == Ok(3.0);
    assert Monomial.EvalProduct([0, 1, 0], [3.0, 1.0, 2.0]) == Ok(1.0);
    assert Monomial.EvalProduct([0, 0, 1], [3.0, 1.0, 2.0]) == Ok(2.0);
  }
}
