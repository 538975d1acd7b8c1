/** The compound assignments of `series` (`+=`, `-=`, `*=`, `/=`), which
    update the symbol set and the term container of the series in place. */
module SeriesAssign {
  import opened Wrappers
  import opened SymbolUtils
  import opened Terms
  import opened Series
  import S = Series
  import opened IntegerMath
  import Monomial
  import SeriesExamples

  /** Accumulating one more term is inserting it. */
  lemma AccumulateStep(acc: seq<T>, us: seq<T>, i: nat)
    requires i < |us|
    ensures Accumulate(acc, us[..i + 1]) == Insert(Accumulate(acc, us[..i]), us[i].key, us[i].cf)
  {
    assert us[..i + 1] == us[..i] + [us[i]];
    AccumulateAppend(acc, us[..i], [us[i]]);
    assert [us[i]][1..] == [];
  }

  /** Products of the first `i + 1` terms are those of the first `i` followed
      by the row of the next one. */
  lemma CrossStep(n: nat, xs: seq<T>, ys: seq<T>, i: nat)
    requires Arity(n, xs) && Arity(n, ys) && i < |xs|
    ensures Cross(n, xs[..i + 1], ys) == Cross(n, xs[..i], ys) + Row(xs[i], ys)
  {
    assert xs[..i + 1] == xs[..i] + [xs[i]];
    CrossSnoc(n, xs[..i], xs[i], ys, xs[..i + 1]);
  }

  /** The products of `pre + [x]` are those of `pre` followed by the row of `x`. */
  lemma CrossSnoc(n: nat, pre: seq<T>, x: T, ys: seq<T>, whole: seq<T>)
    requires Arity(n, pre) && |x.key| == n && Arity(n, ys) && whole == pre + [x]
    ensures Arity(n, whole) && Cross(n, whole, ys) == Cross(n, pre, ys) + Row(x, ys)
  {
    CrossSingle(n, x, ys);
    CrossAppend(n, pre, [x], ys);
  }

  /** The products of one term are its row. */
  lemma CrossSingle(n: nat, x: T, ys: seq<T>)
    requires |x.key| == n && Arity(n, ys)
    ensures Arity(n, [x]) && Cross(n, [x], ys) == Row(x, ys)
  {
    assert [x][1..] == [];
    assert Cross(n, [x], ys) == Row(x, ys) + [];
  }

  /** One more product of the row of `a1[i]` is one more insertion. */
  lemma RowStep(n: nat, a1: seq<T>, b1: seq<T>, i: nat, j: nat, acc: seq<T>)
    requires Arity(n, a1) && Arity(n, b1) && i < |a1| && j < |b1|
    requires acc == Accumulate(Accumulate([], Cross(n, a1[..i], b1)), Row(a1[i], b1[..j]))
    ensures Insert(acc, Monomial.Add(a1[i].key, b1[j].key), RMul(a1[i].cf, b1[j].cf))
              == Accumulate(Accumulate([], Cross(n, a1[..i], b1)), Row(a1[i], b1[..j + 1]))
  {
    var row := Row(a1[i], b1[..j + 1]);
    assert row[..j] == Row(a1[i], b1[..j]);
    assert row[j] == Term(RMul(a1[i].cf, b1[j].cf), Monomial.Add(a1[i].key, b1[j].key));
    AccumulateStep(Accumulate([], Cross(n, a1[..i], b1)), row, j);
    assert row[..j + 1] == row;
  }

  /** A finished row extends the products to one more term of `a1`. */
  lemma RowDone(n: nat, a1: seq<T>, b1: seq<T>, i: nat)
    requires Arity(n, a1) && Arity(n, b1) && i < |a1|
    ensures Accumulate(Accumulate([], Cross(n, a1[..i], b1)), Row(a1[i], b1[..|b1|]))
              == Accumulate([], Cross(n, a1[..i + 1], b1))
  {
    assert b1[..|b1|] == b1;
    CrossStep(n, a1, b1, i);
    AccumulateAppend([], Cross(n, a1[..i], b1), Row(a1[i], b1));
  }

  lemma {:induction false} MapCfAppend(ts: seq<T>, us: seq<T>, f: real -> real)
    ensures MapCf(ts + us, f) == MapCf(ts, f) + MapCf(us, f)
    decreases |ts|
  {
    if ts == [] {
      assert ts + us == us;
    } else {
      assert (ts + us)[0] == ts[0] && (ts + us)[1..] == ts[1..] + us;
      MapCfAppend(ts[1..], us, f);
    }
  }

  /** The insertion loop: every term of `us` inserted, in order, into
      `acc`. */
  method InsertAll(acc: seq<T>, us: seq<T>) returns (r: seq<T>)
    ensures r == Accumulate(acc, us)
  {
    r := acc;
    var i := 0;
    while i < |us|
      invariant 0 <= i <= |us|
      invariant r == Accumulate(acc, us[..i])
    {
      AccumulateStep(acc, us, i);
      r := Insert(r, us[i].key, us[i].cf);
      i := i + 1;
    }
    assert us[..i] == us;
  }

  /** The multiplication loop: for every term of `xs`, every product with a
      term of `ys` inserted into a container that starts empty. */
  method MultiplyAll(n: nat, xs: seq<T>, ys: seq<T>) returns (acc: seq<T>)
    requires Arity(n, xs) && Arity(n, ys)
    ensures acc == Accumulate([], Cross(n, xs, ys))
  {
    acc := [];
    var i := 0;
    while i < |xs|
      invariant 0 <= i <= |xs|
      invariant acc == Accumulate([], Cross(n, xs[..i], ys))
    {
      var j := 0;
      while j < |ys|
        invariant 0 <= j <= |ys|
        invariant acc == Accumulate(Accumulate([], Cross(n, xs[..i], ys)), Row(xs[i], ys[..j]))
      {
        RowStep(n, xs, ys, i, j, acc);
        acc := Insert(acc, Monomial.Add(xs[i].key, ys[j].key), RMul(xs[i].cf, ys[j].cf));
        j := j + 1;
      }
      RowDone(n, xs, ys, i);
      i := i + 1;
    }
    assert xs[..i] == xs;
  }

  /** The division loop: every coefficient sent through `f`, keeping the
      terms whose new coefficient is nonzero. */
  method MapAll(ts: seq<T>, f: real -> real) returns (acc: seq<T>)
    ensures acc == MapCf(ts, f)
  {
    acc := [];
    var i := 0;
    while i < |ts|
      invariant 0 <= i <= |ts|
      invariant acc == MapCf(ts[..i], f)
    {
      assert ts[..i + 1] == ts[..i] + [ts[i]];
      MapCfAppend(ts[..i], [ts[i]], f);
      assert [ts[i]][1..] == [];
      var q := f(ts[i].cf);
      if q != 0.0 {
        acc := acc + [Term(q, ts[i].key)];
      }
      i := i + 1;
    }
    assert ts[..i] == ts;
  }

  /** A series object: its symbol set and its term container are fields
      that the compound assignments overwrite. */
  class MutableSeries {
    var ring: Ring
    var ss: seq<string>
    var terms: seq<T>

    function Value(): Series
      reads this
    {
      Series(ring, ss, terms)
    }

    predicate Valid()
      reads this
    {
      S.Valid(Value())
    }

    constructor (s: Series)
      requires S.Valid(s)
      ensures Valid() && Value() == s
    {
      ring, ss, terms := s.ring, s.ss, s.terms;
    }

    /** The container computed in a wider coefficient type, converted back
        to the own one when that is narrower. */
    method Narrow(ts: seq<T>, wide: Ring) returns (r: seq<T>)
      requires SortedSet(ss) && TermsValid(wide, |ss|, ts)
      ensures r == ConvertTo(Series(wide, ss, ts), ring).terms
    {
      if ring == Integers && wide == Rationals {
        r := MapAll(ts, x => Truncate(x) as real);
      } else {
        r := ts;
      }
    }

    /** `*this += other`: the own keys re-encoded over the merged symbol set,
        then every term of `other`, re-encoded too, inserted in turn. The
        series keeps its coefficient type: with an integer receiver and a
        rational operand the sum is converted back to integers. */
    method AddAssign(other: Series)
      requires Valid() && S.Valid(other)
      modifies this
      ensures Valid() && ring == old(ring)
      ensures Value() == ConvertTo(Add(old(Value()), other), old(ring))
      ensures Common(old(ring), other.ring) == old(ring) ==> Value() == Add(old(Value()), other)
    {
      var v := Value();
      var u := Merge(v.ss, other.ss);
      var r := InsertAll(ExtendTo(v, u).terms, ExtendTo(other, u).terms);
      ghost var sum := Add(v, other);
      assert sum.ss == u && sum.terms == r;
      ss := u;
      terms := Narrow(r, Common(v.ring, other.ring));
      assert Value() == ConvertTo(sum, v.ring);
    }

    /** `*this -= other`: adding the negated operand. */
    method SubAssign(other: Series)
      requires Valid() && S.Valid(other)
      modifies this
      ensures Valid() && ring == old(ring)
      ensures Value() == ConvertTo(Sub(old(Value()), other), old(ring))
      ensures Common(old(ring), other.ring) == old(ring) ==> Value() == Sub(old(Value()), other)
    {
      AddAssign(Neg(other));
    }

    /** `*this *= other`: every product of an own term by a term of `other`
        inserted into a fresh container, which then replaces the own one,
        converted back to the own coefficient type as for `+=`. */
    method MulAssign(other: Series)
      requires Valid() && S.Valid(other)
      modifies this
      ensures Valid() && ring == old(ring)
      ensures Value() == ConvertTo(Mul(old(Value()), other), old(ring))
      ensures Common(old(ring), other.ring) == old(ring) ==> Value() == Mul(old(Value()), other)
    {
      var v := Value();
      var u := Merge(v.ss, other.ss);
      var r := MultiplyAll(|u|, ExtendTo(v, u).terms, ExtendTo(other, u).terms);
      ghost var product := Mul(v, other);
      assert product.ss == u && product.terms == r;
      ss := u;
      terms := Narrow(r, Common(v.ring, other.ring));
      assert Value() == ConvertTo(product, v.ring);
    }

    /** `*this /= c`: dividing by zero throws `zero_division_error` and
        leaves the series empty; otherwise every coefficient is divided and
        the terms whose quotient is zero are erased. */
    method DivAssign(c: real) returns (outcome: Outcome)
      requires Valid() && InRing(ring, c)
      modifies this
      ensures Valid() && ring == old(ring) && ss == old(ss)
      ensures c == 0.0 ==> outcome == Fail(ZeroDivisionError) && terms == []
      ensures c != 0.0 ==> outcome == Pass && Value() == DivScalar(old(Value()), c).value
    {
      if c == 0.0 {
        terms := [];
        return Fail(ZeroDivisionError);
      }
      var v := Value();
      var r := v.ring;
      var q := MapAll(v.terms, x => CfDiv(r, x, c));
      ghost var quotient := DivScalar(v, c).value;
      assert quotient.ring == r && quotient.ss == v.ss && quotient.terms == q;
      terms := q;
      assert Value() == quotient;
      outcome := Pass;
    }
  }

  /** An integer series `y` with a rational `x` added in place stays an
      integer series, now over `x` and `y`, giving each coefficient 1. */
  method MixedAddAssignExample() returns (r: Series)
    ensures r.ring == Integers && r.ss == ["x", "y"]
    ensures Coef(r, map["x" := 1]) == 1.0 && Coef(r, map["y" := 1]) == 1.0
  {
    var x, y := Symbol(Rationals, "x"), Symbol(Integers, "y");
    var tmp3 := new MutableSeries(y);
    tmp3.AddAssign(x);
    r := tmp3.Value();
    SeriesExamples.MixedAddExample(x, y);
    ConvertCoef(Add(y, x), Integers, map["x" := 1]);
    ConvertCoef(Add(y, x), Integers, map["y" := 1]);
  }
}
