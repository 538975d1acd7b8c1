/** Differentiation and integration of a polynomial with respect to one
    symbol, term by term through the monomial's own `partial` and
    `integrate`, and the Poisson bracket built from them. */
module Calculus {
  import opened Wrappers
  import IntegerMath
  import opened SymbolUtils
  import opened Terms
  import opened Series
  import Monomial

  // ---------------------------------------------------------------------------
  // Keys
  // ---------------------------------------------------------------------------

  /** Lowering the exponent at `p` by one hits `k` exactly from the key with
      that exponent one higher. */
  lemma Lowered(m: Key, k: Key, p: nat)
    requires |m| == |k| && p < |m|
    ensures m[p := m[p] - 1] == k <==> m == k[p := k[p] + 1]
  {
    if m == k[p := k[p] + 1] {
      assert m[p := m[p] - 1] == k;
    }
    if m[p := m[p] - 1] == k {
      assert m == k[p := k[p] + 1];
    }
  }

  /** Raising the exponent at `p` by one hits `k` exactly from the key with
      that exponent one lower. */
  lemma Raised(m: Key, k: Key, p: nat)
    requires |m| == |k| && p < |m|
    ensures m[p := m[p] + 1] == k <==> m == k[p := k[p] - 1]
  {
    Lowered(k, m, p);
  }

  /** Inserting an exponent 1 at `p` hits `k` exactly from `k` without its
      entry at `p`, when that entry is 1. */
  lemma Inserted(m: Key, k: Key, p: nat)
    requires |k| == |m| + 1 && p <= |m|
    ensures m[..p] + [1] + m[p..] == k <==> k[p] == 1 && m == k[..p] + k[p + 1..]
  {
    var u := m[..p] + [1] + m[p..];
    assert forall i :: 0 <= i < p ==> u[i] == m[i];
    assert forall i :: p < i < |u| ==> u[i] == m[i - 1];
    if u == k {
      assert m == k[..p] + k[p + 1..];
    }
    if k[p] == 1 && m == k[..p] + k[p + 1..] {
      assert u == k;
    }
  }

  lemma RMulAdd(a: real, b: real, c: real)
    ensures IntegerMath.RMul(a, b + c) == IntegerMath.RMul(a, b) + IntegerMath.RMul(a, c)
  {
  }

  /** `(n * c) / n == c` and `n * (c / n) == c` for a nonzero `n`. */
  lemma Cancel(n: real, c: real)
    requires n != 0.0
    ensures IntegerMath.RMul(n, c / n) == c
  {
  }

  /** The coefficient of a monomial depends only on the exponent it gives
      each symbol. */
  lemma CoefByExponents(s: Series, e1: map<string, int>, e2: map<string, int>)
    requires forall y :: ExpOf(e1, y) == ExpOf(e2, y)
    ensures Coef(s, e1) == Coef(s, e2)
  {
    assert Supported(e1, s.ss) <==> Supported(e2, s.ss) by {
      forall y | ExpOf(e1, y) != 0 ensures y in e1 && e1[y] != 0 { }
      forall y | ExpOf(e2, y) != 0 ensures y in e2 && e2[y] != 0 { }
    }
    assert KeyOf(e1, s.ss) == KeyOf(e2, s.ss);
  }

  // ---------------------------------------------------------------------------
  // Differentiation
  // ---------------------------------------------------------------------------

  /** Each term sent through the monomial's `partial` at position `p`: the
      coefficient times the old exponent, and the exponent lowered by one. A
      term without the symbol gets the coefficient zero. */
  function PartialTerms(ts: seq<T>, p: nat, ss: seq<string>): (r: seq<T>)
    requires Arity(|ss|, ts)
    ensures |r| == |ts| && Arity(|ss|, r)
    decreases |ts|
  {
    if ts == [] then []
    else
      var d := Monomial.Partial(Monomial.Unbounded, ts[0].key, p, ss).value;
      var rest := PartialTerms(ts[1..], p, ss);
      var r := [Term(IntegerMath.RMul(ts[0].cf, d.0 as real), d.1)] + rest;
      assert forall i :: 1 <= i < |r| ==> r[i] == rest[i - 1];
      r
  }

  /** The coefficient of `k` after differentiating is `k[p] + 1` times the
      coefficient of `k` with that exponent one higher; nothing survives when
      the position is not a symbol of the set. */
  lemma {:induction false} PartialTermsCoeff(ts: seq<T>, p: nat, ss: seq<string>, k: Key)
    requires Arity(|ss|, ts) && |k| == |ss|
    ensures p < |ss| ==> Coeff(PartialTerms(ts, p, ss), k) == IntegerMath.RMul((k[p] + 1) as real, Coeff(ts, k[p := k[p] + 1]))
    ensures p >= |ss| ==> Coeff(PartialTerms(ts, p, ss), k) == 0.0
    decreases |ts|
  {
    if ts != [] {
      PartialTermsCoeff(ts[1..], p, ss, k);
      PartialTermsStep(ts, p, ss, k);
    }
  }

  /** The inductive step of `PartialTermsCoeff`: the first term's
      contribution added to that of the rest. */
  lemma PartialTermsStep(ts: seq<T>, p: nat, ss: seq<string>, k: Key)
    requires Arity(|ss|, ts) && |k| == |ss| && ts != []
    requires p < |ss| ==> Coeff(PartialTerms(ts[1..], p, ss), k) == IntegerMath.RMul((k[p] + 1) as real, Coeff(ts[1..], k[p := k[p] + 1]))
    requires p >= |ss| ==> Coeff(PartialTerms(ts[1..], p, ss), k) == 0.0
    ensures p < |ss| ==> Coeff(PartialTerms(ts, p, ss), k) == IntegerMath.RMul((k[p] + 1) as real, Coeff(ts, k[p := k[p] + 1]))
    ensures p >= |ss| ==> Coeff(PartialTerms(ts, p, ss), k) == 0.0
  {
    var r := PartialTerms(ts, p, ss);
    assert r[1..] == PartialTerms(ts[1..], p, ss);
    PartialHead(ts[0], p, ss, k);
    var h := if r[0].key == k then r[0].cf else 0.0;
    assert Coeff(r, k) == h + Coeff(r[1..], k);
    if p < |ss| {
      var up := k[p := k[p] + 1];
      var hit := ts[0].key == up;
      assert Coeff(ts, up) == (if hit then ts[0].cf else 0.0) + Coeff(ts[1..], up);
      HeadPlusRest(Coeff(r, k), h, Coeff(r[1..], k), (k[p] + 1) as real,
                   Coeff(ts, up), if hit then ts[0].cf else 0.0, Coeff(ts[1..], up), ts[0].cf, hit);
    }
  }

  /** What the differentiated first term adds to the coefficient of `k`:
      its coefficient times `k[p] + 1` when it is the key `k` with entry `p`
      raised. */
  lemma PartialHead(t: T, p: nat, ss: seq<string>, k: Key)
    requires |t.key| == |ss| && |k| == |ss|
    ensures var d := Monomial.Partial(Monomial.Unbounded, t.key, p, ss).value;
            (if d.1 == k then IntegerMath.RMul(t.cf, d.0 as real) else 0.0) ==
            (if p < |ss| && t.key == k[p := k[p] + 1] then IntegerMath.RMul((k[p] + 1) as real, t.cf) else 0.0)
  {
    var m := t.key;
    if p < |ss| {
      Lowered(m, k, p);
    }
  }

  /** `c * sum`, for `sum == hs + rs`, split into the first term's share and the rest's. */
  lemma HeadPlusRest(x: real, h: real, rr: real, c: real, sum: real, hs: real, rs: real, cf: real, hit: bool)
    requires x == h + rr && rr == IntegerMath.RMul(c, rs) && sum == hs + rs
    requires h == (if hit then IntegerMath.RMul(c, cf) else 0.0) && hs == (if hit then cf else 0.0)
    ensures x == IntegerMath.RMul(c, sum)
  {
    RMulAdd(c, hs, rs);
  }

  lemma {:induction false} PartialTermsInRing(ring: Ring, ts: seq<T>, p: nat, ss: seq<string>)
    requires Arity(|ss|, ts) && forall i :: 0 <= i < |ts| ==> InRing(ring, ts[i].cf)
    ensures forall i :: 0 <= i < |ts| ==> InRing(ring, PartialTerms(ts, p, ss)[i].cf)
    decreases |ts|
  {
    if ts != [] {
      PartialTermsInRing(ring, ts[1..], p, ss);
      var d := Monomial.Partial(Monomial.Unbounded, ts[0].key, p, ss).value;
      assert IsIntegral(d.0 as real);
      RingClosed(ring, ts[0].cf, d.0 as real);
      assert PartialTerms(ts, p, ss)[1..] == PartialTerms(ts[1..], p, ss);
    }
  }

  /** `partial(s, x)`: every term differentiated and the results inserted,
      with accumulation, over the same symbol set. For a name outside the set
      the monomial's `partial` gives every term the factor zero, so nothing
      is left. */
  function Partial(s: Series, x: string): (r: Series)
    requires Valid(s)
    ensures Valid(r) && r.ring == s.ring && r.ss == s.ss
  {
    var us := PartialTerms(s.terms, IndexOf(s.ss, x), s.ss);
    PartialTermsInRing(s.ring, s.terms, IndexOf(s.ss, x), s.ss);
    AccumulateValid(s.ring, |s.ss|, [], us);
    Series(s.ring, s.ss, Accumulate([], us))
  }

  /** What differentiation means: the coefficient of `e` in the derivative
      is `(n + 1)` times the coefficient, in `s`, of `e` with the exponent
      `n` of `x` raised by one. */
  lemma PartialCoef(s: Series, x: string, e: map<string, int>)
    requires Valid(s)
    ensures var n := ExpOf(e, x);
            Coef(Partial(s, x), e) == IntegerMath.RMul((n + 1) as real, Coef(s, e[x := n + 1]))
  {
    var n := ExpOf(e, x);
    var p := IndexOf(s.ss, x);
    var k := KeyOf(e, s.ss);
    PartialKeyCoeff(s.terms, p, s.ss, k);
    if x in s.ss {
      UpdatedKey(e, s.ss, x, n + 1, p);
      assert k[p] == n;
      ScaledCases(Coef(Partial(s, x), e), Coef(s, e[x := n + 1]), Coeff(Partial(s, x).terms, k),
                  Coeff(s.terms, k[p := n + 1]), (n + 1) as real, Supported(e, s.ss));
    } else {
      OutsideRaised(s, x, e);
    }
  }

  /** The accumulated derivative's coefficient of a key: the stored
      coefficient of the key with entry `p` raised, times the raised
      exponent; nothing when `p` is past the end of the set. */
  lemma PartialKeyCoeff(ts: seq<T>, p: nat, ss: seq<string>, k: Key)
    requires Arity(|ss|, ts) && |k| == |ss|
    ensures Coeff(Accumulate([], PartialTerms(ts, p, ss)), k) ==
              if p < |ss| then IntegerMath.RMul((k[p] + 1) as real, Coeff(ts, k[p := k[p] + 1])) else 0.0
  {
    AccumulateCoeff([], PartialTerms(ts, p, ss), k);
    PartialTermsCoeff(ts, p, ss, k);
  }

  /** Setting the exponent of a symbol `x = ss[p]` of the set sets entry `p`
      of the key, and keeps the monomial supported by the set. */
  lemma UpdatedKey(e: map<string, int>, ss: seq<string>, x: string, v: int, p: nat)
    requires SortedSet(ss) && p < |ss| && ss[p] == x
    ensures Supported(e[x := v], ss) <==> Supported(e, ss)
    ensures KeyOf(e[x := v], ss) == KeyOf(e, ss)[p := v]
  {
    var e1, k1 := e[x := v], KeyOf(e, ss)[p := v];
    forall i | 0 <= i < |ss| ensures KeyOf(e1, ss)[i] == k1[i] {
      if i != p {
        IndexOfSorted(ss, i);
        IndexOfSorted(ss, p);
      }
    }
  }

  /** Two coefficients that are zero together, and otherwise in the ratio
      `m`, are in the ratio `m`. */
  lemma ScaledCases(a: real, b: real, ca: real, cb: real, m: real, present: bool)
    requires a == (if present then ca else 0.0) && b == (if present then cb else 0.0)
    requires ca == IntegerMath.RMul(m, cb)
    ensures a == IntegerMath.RMul(m, b)
  {
  }

  /** For a name outside the set, raising its exponent gives a monomial the
      series has no term for, unless the exponent becomes zero, where the
      factor `n + 1` is zero. */
  lemma OutsideRaised(s: Series, x: string, e: map<string, int>)
    requires x !in s.ss
    ensures var n := ExpOf(e, x);
            IntegerMath.RMul((n + 1) as real, Coef(s, e[x := n + 1])) == 0.0
  {
    var n := ExpOf(e, x);
    if n + 1 != 0 {
      assert !Supported(e[x := n + 1], s.ss);
    }
  }

  // ---------------------------------------------------------------------------
  // Integration
  // ---------------------------------------------------------------------------

  /** The symbol set after integrating with respect to `x`: `x` inserted at
      its sorted position when it is new. */
  function IntegratedSymbols(ss: seq<string>, x: string): (u: seq<string>)
    requires SortedSet(ss)
    ensures SortedSet(u) && |u| == |ss| + (if x in ss then 0 else 1)
    ensures forall y :: y in u <==> y in ss || y == x
    ensures Monomial.InsertPos(ss, x) < |u| && u[Monomial.InsertPos(ss, x)] == x
  {
    if x in ss then ss
    else
      Monomial.InsertKeepsSorted(ss, x);
      var p := Monomial.InsertPos(ss, x);
      ss[..p] + [x] + ss[p..]
  }

  /** Some term has the exponent -1 for `x`, which cannot be integrated. */
  predicate HasInverse(ts: seq<T>, x: string, ss: seq<string>)
    requires SortedSet(ss) && Arity(|ss|, ts)
  {
    x in ss && exists i :: 0 <= i < |ts| && ts[i].key[Monomial.InsertPos(ss, x)] == -1
  }

  /** Each term sent through the monomial's `integrate`, its coefficient
      divided by the divisor the monomial returns; the first term the
      monomial refuses makes the whole operation throw. */
  function IntegrateTerms(ring: Ring, ts: seq<T>, x: string, ss: seq<string>): (r: Result<seq<T>>)
    requires SortedSet(ss) && Arity(|ss|, ts)
    ensures r.Err? <==> HasInverse(ts, x, ss)
    ensures r.Err? ==> r.error == InvalidArgument
    ensures r.Ok? ==> |r.value| == |ts| && Arity(|IntegratedSymbols(ss, x)|, r.value)
    ensures r.Ok? ==> forall i :: 0 <= i < |ts| ==> InRing(ring, r.value[i].cf)
    decreases |ts|
  {
    if ts == [] then Ok([])
    else
      var d := Monomial.Integrate(Monomial.Unbounded, ts[0].key, x, ss);
      IntegrateHead(ts[0].key, x, ss);
      HasInverseCons(ts, x, ss);
      var rest := IntegrateTerms(ring, ts[1..], x, ss);
      if d.Err? then Err(d.error)
      else if rest.Err? then rest
      else
        var t := Term(CfDiv(ring, ts[0].cf, d.value.0 as real), d.value.1);
        ConsTerms(ring, |IntegratedSymbols(ss, x)|, t, rest.value);
        Ok([t] + rest.value)
  }

  /** A term of arity `n` with a coefficient of the ring in front of terms
      that have both. */
  lemma ConsTerms(ring: Ring, n: nat, t: T, rest: seq<T>)
    requires |t.key| == n && InRing(ring, t.cf)
    requires Arity(n, rest) && forall i :: 0 <= i < |rest| ==> InRing(ring, rest[i].cf)
    ensures Arity(n, [t] + rest) && forall i :: 0 <= i < |[t] + rest| ==> InRing(ring, ([t] + rest)[i].cf)
  {
    var r := [t] + rest;
    forall i | 1 <= i < |r| ensures r[i] == rest[i - 1] { }
  }

  /** What the monomial's `integrate` does to a key of the right size, with
      unbounded exponents. */
  lemma IntegrateHead(m: Key, x: string, ss: seq<string>)
    requires SortedSet(ss) && |m| == |ss|
    ensures var d := Monomial.Integrate(Monomial.Unbounded, m, x, ss);
            (d.Err? <==> x in ss && m[Monomial.InsertPos(ss, x)] == -1) &&
            (d.Err? ==> d.error == InvalidArgument) &&
            (d.Ok? ==> d.value.0 != 0 && |d.value.1| == |IntegratedSymbols(ss, x)|)
  {
  }

  lemma HasInverseCons(ts: seq<T>, x: string, ss: seq<string>)
    requires SortedSet(ss) && Arity(|ss|, ts) && ts != []
    ensures HasInverse(ts, x, ss) <==>
              (x in ss && ts[0].key[Monomial.InsertPos(ss, x)] == -1) || HasInverse(ts[1..], x, ss)
  {
    assert forall i :: 1 <= i < |ts| ==> ts[i] == ts[1..][i - 1];
  }

  /** The key of `ss` that integration sends to the key `k` of the new
      symbol set, and the divisor it used; a divisor of zero means no key is
      sent to `k`. */
  function Source(k: Key, x: string, ss: seq<string>): (Key, int)
    requires SortedSet(ss) && |k| == |IntegratedSymbols(ss, x)|
  {
    var p := Monomial.InsertPos(ss, x);
    if x in ss then (k[p := k[p] - 1], k[p])
    else if k[p] == 1 then (k[..p] + k[p + 1..], 1)
    else (k, 0)
  }

  /** The coefficient of `k` after integrating: the coefficient of its
      source divided by the divisor, and zero where there is no source. */
  lemma {:induction false} IntegrateTermsCoeff(ring: Ring, ts: seq<T>, x: string, ss: seq<string>, k: Key)
    requires SortedSet(ss) && Arity(|ss|, ts) && DistinctKeys(ts)
    requires IntegrateTerms(ring, ts, x, ss).Ok? && |k| == |IntegratedSymbols(ss, x)|
    ensures var (j, n) := Source(k, x, ss);
            Coeff(IntegrateTerms(ring, ts, x, ss).value, k) == if n == 0 then 0.0 else CfDiv(ring, Coeff(ts, j), n as real)
    decreases |ts|
  {
    if ts != [] {
      HasInverseCons(ts, x, ss);
      DistinctTail(ts);
      IntegrateTermsCoeff(ring, ts[1..], x, ss, k);
      IntegrateTermsStep(ring, ts, x, ss, k);
    }
  }

  /** The inductive step of `IntegrateTermsCoeff`: the first term's
      contribution added to that of the rest. */
  lemma IntegrateTermsStep(ring: Ring, ts: seq<T>, x: string, ss: seq<string>, k: Key)
    requires SortedSet(ss) && Arity(|ss|, ts) && DistinctKeys(ts) && ts != []
    requires IntegrateTerms(ring, ts, x, ss).Ok? && |k| == |IntegratedSymbols(ss, x)|
    requires IntegrateTerms(ring, ts[1..], x, ss).Ok?
    requires var (j, n) := Source(k, x, ss);
             Coeff(IntegrateTerms(ring, ts[1..], x, ss).value, k) == if n == 0 then 0.0 else CfDiv(ring, Coeff(ts[1..], j), n as real)
    ensures var (j, n) := Source(k, x, ss);
            Coeff(IntegrateTerms(ring, ts, x, ss).value, k) == if n == 0 then 0.0 else CfDiv(ring, Coeff(ts, j), n as real)
  {
    var (j, n) := Source(k, x, ss);
    var r := IntegrateTerms(ring, ts, x, ss).value;
    var m := ts[0].key;
    DistinctTail(ts);
    assert r[1..] == IntegrateTerms(ring, ts[1..], x, ss).value;
    HeadContribution(ring, ts[0], x, ss, k);
    assert Coeff(r, k) == (if r[0].key == k then r[0].cf else 0.0) + Coeff(r[1..], k);
    assert Coeff(ts, j) == (if m == j then ts[0].cf else 0.0) + Coeff(ts[1..], j);
    if m == j && n != 0 {
      CoeffAbsent(ts[1..], j);
    }
  }

  /** What the integrated first term adds to the coefficient of `k`: its
      divided coefficient when it comes from the source of `k`. */
  lemma HeadContribution(ring: Ring, t: T, x: string, ss: seq<string>, k: Key)
    requires SortedSet(ss) && |t.key| == |ss| && |k| == |IntegratedSymbols(ss, x)|
    requires Monomial.Integrate(Monomial.Unbounded, t.key, x, ss).Ok?
    ensures var d := Monomial.Integrate(Monomial.Unbounded, t.key, x, ss).value;
            var (j, n) := Source(k, x, ss);
            (if d.1 == k then CfDiv(ring, t.cf, d.0 as real) else 0.0) ==
            (if n == 0 || t.key != j then 0.0 else CfDiv(ring, t.cf, n as real))
  {
    var p := Monomial.InsertPos(ss, x);
    if x in ss {
      Raised(t.key, k, p);
    } else {
      Inserted(t.key, k, p);
    }
  }

  /** `integrate(s, x)`: every term integrated and the results inserted,
      with accumulation, over the symbol set extended by `x`. A term with
      exponent -1 for `x` throws `invalid_argument`. On integer coefficients
      the division truncates; the terms whose quotient is zero are
      dropped. */
  function Integrate(s: Series, x: string): (r: Result<Series>)
    requires Valid(s)
    ensures r.Err? <==> HasInverse(s.terms, x, s.ss)
    ensures r.Err? ==> r.error == InvalidArgument
    ensures r.Ok? ==> Valid(r.value) && r.value.ring == s.ring && r.value.ss == IntegratedSymbols(s.ss, x)
  {
    var us := IntegrateTerms(s.ring, s.terms, x, s.ss);
    if us.Err? then Err(us.error)
    else
      var u := IntegratedSymbols(s.ss, x);
      AccumulateValid(s.ring, |u|, [], us.value);
      Ok(Series(s.ring, u, Accumulate([], us.value)))
  }

  /** What integration means: the coefficient of `e` in the antiderivative
      is the coefficient, in `s`, of `e` with the exponent `n` of `x`
      lowered by one, divided by `n`; it is zero when `x` does not occur in
      `e`. */
  lemma IntegrateCoef(s: Series, x: string, e: map<string, int>)
    requires Valid(s) && Integrate(s, x).Ok?
    ensures var n := ExpOf(e, x);
            Coef(Integrate(s, x).value, e) == if n == 0 then 0.0 else CfDiv(s.ring, Coef(s, e[x := n - 1]), n as real)
  {
    var n := ExpOf(e, x);
    var e1 := e[x := n - 1];
    var u := IntegratedSymbols(s.ss, x);
    var k := KeyOf(e, u);
    var p := Monomial.InsertPos(s.ss, x);
    var us := IntegrateTerms(s.ring, s.terms, x, s.ss).value;
    AccumulateCoeff([], us, k);
    IntegrateTermsCoeff(s.ring, s.terms, x, s.ss, k);
    assert k[p] == n;
    if !Supported(e, u) {
      if n != 0 {
        var y :| y in e && e[y] != 0 && y !in u;
        assert y in e1 && e1[y] != 0 && y !in s.ss;
      }
    } else if x in s.ss {
      if n != 0 {
        LoweredKey(s.ss, x, e);
      }
    } else if n == 1 {
      DroppedKey(s.ss, x, e);
    } else if n != 0 {
      assert !Supported(e1, s.ss);
    }
  }

  /** For a symbol `x` of the set, lowering its exponent in the monomial
      lowers the entry at its position in the key. */
  lemma LoweredKey(ss: seq<string>, x: string, e: map<string, int>)
    requires SortedSet(ss) && x in ss && Supported(e, ss)
    ensures var n := ExpOf(e, x);
            var p := Monomial.InsertPos(ss, x);
            Supported(e[x := n - 1], ss) && KeyOf(e[x := n - 1], ss) == KeyOf(e, ss)[p := n - 1]
  {
    UpdatedKey(e, ss, x, ExpOf(e, x) - 1, Monomial.InsertPos(ss, x));
  }

  /** For a new symbol `x` with exponent 1, the monomial without `x` has, over
      the old set, the key over the new set with the entry of `x` removed. */
  lemma DroppedKey(ss: seq<string>, x: string, e: map<string, int>)
    requires SortedSet(ss) && x !in ss && Supported(e, IntegratedSymbols(ss, x)) && ExpOf(e, x) == 1
    ensures var p := Monomial.InsertPos(ss, x);
            var k := KeyOf(e, IntegratedSymbols(ss, x));
            Supported(e[x := 0], ss) && KeyOf(e[x := 0], ss) == k[..p] + k[p + 1..]
  {
    var u := IntegratedSymbols(ss, x);
    var p := Monomial.InsertPos(ss, x);
    assert u == ss[..p] + [x] + ss[p..];
    DroppedEntries(ss, x, e, u, p, KeyOf(e, u));
  }

  /** `DroppedKey` with the enlarged set written out around position `p`. */
  lemma DroppedEntries(ss: seq<string>, x: string, e: map<string, int>, u: seq<string>, p: nat, k: Key)
    requires p <= |ss| && x !in ss && u == ss[..p] + [x] + ss[p..] && Supported(e, u)
    requires k == KeyOf(e, u)
    ensures Supported(e[x := 0], ss) && KeyOf(e[x := 0], ss) == k[..p] + k[p + 1..]
  {
    var e1, r := e[x := 0], k[..p] + k[p + 1..];
    forall i | 0 <= i < |ss| ensures KeyOf(e1, ss)[i] == r[i] {
      if i < p {
        assert u[i] == ss[i] && r[i] == k[i];
      } else {
        assert u[i + 1] == ss[i] && r[i] == k[i + 1];
      }
    }
  }

  /** Over the rationals, differentiating the antiderivative with respect to
      the same symbol gives back the series. */
  lemma PartialOfIntegrate(s: Series, x: string)
    requires Valid(s) && s.ring == Rationals && Integrate(s, x).Ok?
    ensures Equal(Partial(Integrate(s, x).value, x), s)
  {
    var d := Partial(Integrate(s, x).value, x);
    forall e ensures Coef(d, e) == Coef(s, e) {
      IntegrateRaised(s, x, e);
      PartialOfIntegrateAt(s, Integrate(s, x).value, x, e);
    }
    EqualIffCoef(d, s);
  }

  /** `PartialOfIntegrate` at one monomial, for any series `i` whose
      coefficient of `e` with the exponent of `x` raised, times the raised
      exponent, is the coefficient of `e` in `s`. */
  lemma PartialOfIntegrateAt(s: Series, i: Series, x: string, e: map<string, int>)
    requires Valid(i)
    requires var n := ExpOf(e, x);
             IntegerMath.RMul((n + 1) as real, Coef(i, e[x := n + 1])) == Coef(s, e)
    ensures Coef(Partial(i, x), e) == Coef(s, e)
  {
    PartialCoef(i, x, e);
  }

  /** The antiderivative's coefficient of `e` with the exponent of `x`
      raised by one, times the raised exponent, is the coefficient of `e`;
      where that exponent is zero the coefficient is zero too. */
  lemma IntegrateRaised(s: Series, x: string, e: map<string, int>)
    requires Valid(s) && s.ring == Rationals && Integrate(s, x).Ok?
    ensures var n := ExpOf(e, x);
            IntegerMath.RMul((n + 1) as real, Coef(Integrate(s, x).value, e[x := n + 1])) == Coef(s, e)
  {
    var i := Integrate(s, x).value;
    var e1 := e[x := ExpOf(e, x) + 1];
    IntegrateCoef(s, x, e1);
    RaisedOf(s, i, x, e, e1);
  }

  /** The step of `IntegrateRaised` on a series `i` whose coefficients are
      given by `IntegrateCoef`. */
  lemma RaisedOf(s: Series, i: Series, x: string, e: map<string, int>, e1: map<string, int>)
    requires Valid(s) && s.ring == Rationals && !HasInverse(s.terms, x, s.ss)
    requires e1 == e[x := ExpOf(e, x) + 1]
    requires var m := ExpOf(e1, x);
             Coef(i, e1) == if m == 0 then 0.0 else CfDiv(s.ring, Coef(s, e1[x := m - 1]), m as real)
    ensures IntegerMath.RMul((ExpOf(e, x) + 1) as real, Coef(i, e1)) == Coef(s, e)
  {
    var n := ExpOf(e, x);
    RaisedLowered(s, x, e);
    Undivided(Coef(i, e1), Coef(s, e1[x := n]), Coef(s, e), (n + 1) as real);
  }

  /** Raising the exponent of `x` and lowering it again gives back the
      coefficient; the exponent -1 gives none in a series that can be
      integrated. */
  lemma RaisedLowered(s: Series, x: string, e: map<string, int>)
    requires Valid(s) && !HasInverse(s.terms, x, s.ss)
    ensures var n := ExpOf(e, x);
            var e1 := e[x := n + 1];
            ExpOf(e1, x) == n + 1 && Coef(s, e1[x := n]) == Coef(s, e) && (n + 1 == 0 ==> Coef(s, e) == 0.0)
  {
    RestoredExponent(s, e, x);
    if ExpOf(e, x) + 1 == 0 {
      NoInverseTerm(s, x, e);
    }
  }

  /** Setting the exponent of `x` to something else and back again does not
      change the coefficient. */
  lemma RestoredExponent(s: Series, e: map<string, int>, x: string)
    ensures var n := ExpOf(e, x);
            ExpOf(e[x := n + 1], x) == n + 1 && Coef(s, e[x := n + 1][x := n]) == Coef(s, e)
  {
    var n := ExpOf(e, x);
    CoefByExponents(s, e[x := n + 1][x := n], e);
  }

  /** Multiplying back by `m` what was divided by `m` gives the original
      value, and a zero factor meets a zero value. */
  lemma Undivided(b: real, c: real, q: real, m: real)
    requires b == (if m == 0.0 then 0.0 else CfDiv(Rationals, c, m))
    requires c == q && (m == 0.0 ==> q == 0.0)
    ensures IntegerMath.RMul(m, b) == q
  {
    if m != 0.0 {
      Cancel(m, q);
    }
  }

  /** A series that can be integrated with respect to `x` gives no monomial
      with exponent -1 for `x` a coefficient. */
  lemma NoInverseTerm(s: Series, x: string, e: map<string, int>)
    requires Valid(s) && !HasInverse(s.terms, x, s.ss) && ExpOf(e, x) == -1
    ensures Coef(s, e) == 0.0
  {
    if Supported(e, s.ss) {
      var k := KeyOf(e, s.ss);
      var p := Monomial.InsertPos(s.ss, x);
      assert k[p] == -1;
      assert k !in Keys(s.terms) by {
        forall i | 0 <= i < |s.terms| ensures s.terms[i].key != k {
          assert s.terms[i].key[p] != -1;
        }
      }
      CoeffAbsent(s.terms, k);
    }
  }

  /** The test values over the rationals: the empty series integrates to
      itself over `{x}`, `x` to `x^2/2` and `y` to `x*y`. */
  lemma IntegrateExamples()
    ensures Integrate(Zero(Rationals, []), "x") == Ok(Series(Rationals, ["x"], []))
    ensures Integrate(Symbol(Rationals, "x"), "x") == Ok(Series(Rationals, ["x"], [Term(0.5, [2])]))
    ensures Integrate(Symbol(Rationals, "y"), "x") == Ok(Series(Rationals, ["x", "y"], [Term(1.0, [1, 1])]))
  {
    IntegrateZeroExample();
    IntegrateXExample();
    IntegrateYExample();
  }

  lemma IntegrateZeroExample()
    ensures Integrate(Zero(Rationals, []), "x") == Ok(Series(Rationals, ["x"], []))
  {
    assert Monomial.InsertPos([], "x") == 0;
    assert IntegratedSymbols([], "x") == ["x"];
  }

  lemma IntegrateXExample()
    ensures Integrate(Symbol(Rationals, "x"), "x") == Ok(Series(Rationals, ["x"], [Term(0.5, [2])]))
  {
    assert Monomial.InsertPos(["x"], "x") == 0;
    assert [1][0 := 2] == [2];
  }

  lemma IntegrateYExample()
    ensures Integrate(Symbol(Rationals, "y"), "x") == Ok(Series(Rationals, ["x", "y"], [Term(1.0, [1, 1])]))
  {
    assert Lt("x", "y");
    assert Monomial.InsertPos(["y"], "x") == 0;
    assert [1][..0] + [1] + [1][0..] == [1, 1];
    assert IntegratedSymbols(["y"], "x") == ["x", "y"];
  }

  /** More test values: the constant 4 integrates to `4*z` and `x^-1`
      cannot be integrated. */
  lemma IntegrateMoreExamples()
    ensures Integrate(Constant(Rationals, 4.0), "z") == Ok(Series(Rationals, ["z"], [Term(4.0, [1])]))
    ensures Integrate(Series(Rationals, ["x"], [Term(1.0, [-1])]), "x") == Err(InvalidArgument)
  {
    assert Monomial.InsertPos([], "z") == 0;
    var none: Key := [];
    assert none[..0] + [1] + none[0..] == [1];
    assert IntegratedSymbols([], "z") == ["z"];
    assert Monomial.InsertPos(["x"], "x") == 0;
  }

  /** `(x*y*z)^-5` integrates with respect to `x` to `-x^-4*(y*z)^-5/4`. */
  lemma IntegrateNegativeExample()
    ensures Integrate(Series(Rationals, ["x", "y", "z"], [Term(1.0, [-5, -5, -5])]), "x")
              == Ok(Series(Rationals, ["x", "y", "z"], [Term(-0.25, [-4, -5, -5])]))
  {
    var ss := ["x", "y", "z"];
    assert Lt("x", "y") && Lt("y", "z") && Lt("x", "z");
    assert SortedSet(ss);
    assert Monomial.InsertPos(ss, "x") == 0;
    assert IntegratedSymbols(ss, "x") == ss;
    var d := Monomial.Integrate(Monomial.Unbounded, [-5, -5, -5], "x", ss);
    assert [-5, -5, -5][0 := -4] == [-4, -5, -5];
    assert d == Ok((-4, [-4, -5, -5]));
    assert CfDiv(Rationals, 1.0, -4.0) == -0.25;
    var ts := [Term(1.0, [-5, -5, -5])];
    assert ts[1..] == [];
    assert IntegrateTerms(Rationals, ts[1..], "x", ss) == Ok([]);
    assert ts[0].key == [-5, -5, -5];
    assert (-4 as real) == -4.0;
    var r := IntegrateTerms(Rationals, ts, "x", ss);
    assert r.Ok?;
    assert |r.value| == 1;
    assert r.value[0] == Term(CfDiv(Rationals, 1.0, -4.0), [-4, -5, -5]);
    assert r.value == [r.value[0]];
  }

  /** There is nothing to differentiate with respect to a name outside the
      symbol set. */
  lemma PartialAbsent(s: Series, x: string)
    requires Valid(s) && x !in s.ss
    ensures IsZero(Partial(s, x))
  {
    forall e ensures Coef(Partial(s, x), e) == 0.0 {
      PartialCoef(s, x, e);
      var n := ExpOf(e, x);
      if n + 1 != 0 {
        assert !Supported(e[x := n + 1], s.ss);
      }
    }
    IsZeroIff(Partial(s, x));
  }

  // ---------------------------------------------------------------------------
  // Poisson bracket
  // ---------------------------------------------------------------------------

  predicate NoDuplicates(names: seq<string>)
  {
    forall i, j :: 0 <= i < j < |names| ==> names[i] != names[j]
  }

  /** The sum, over the first `|ps|` coordinate-momentum pairs in order, of
      `df/dq_i * dg/dp_i - df/dp_i * dg/dq_i`, starting from zero. */
  function Bracket(f: Series, g: Series, ps: seq<string>, qs: seq<string>): (r: Series)
    requires Valid(f) && Valid(g) && f.ring == g.ring && |ps| == |qs|
    ensures Valid(r) && r.ring == f.ring
    decreases |ps|
  {
    if ps == [] then Zero(f.ring, [])
    else
      var n := |ps| - 1;
      var acc := Bracket(f, g, ps[..n], qs[..n]);
      Sub(Add(acc, Mul(Partial(f, qs[n]), Partial(g, ps[n]))), Mul(Partial(f, ps[n]), Partial(g, qs[n])))
  }

  /** `pbracket(f, g, p_list, q_list)`: lists of different lengths, or a list
      naming a symbol twice, throw `invalid_argument`. */
  function Pbracket(f: Series, g: Series, ps: seq<string>, qs: seq<string>): (r: Result<Series>)
    requires Valid(f) && Valid(g) && f.ring == g.ring
    ensures r.Err? <==> |ps| != |qs| || !NoDuplicates(ps) || !NoDuplicates(qs)
    ensures r.Err? ==> r.error == InvalidArgument
    ensures r.Ok? ==> Valid(r.value) && r.value.ring == f.ring
  {
    if |ps| != |qs| then Err(InvalidArgument)
    else if !NoDuplicates(ps) || !NoDuplicates(qs) then Err(InvalidArgument)
    else Ok(Bracket(f, g, ps, qs))
  }

  lemma MulCoefCommutes(a: Series, b: Series, e: map<string, int>)
    requires Valid(a) && Valid(b)
    ensures Coef(Mul(a, b), e) == Coef(Mul(b, a), e)
  {
    MulCommutes(a, b);
    IdenticalIffEqual(Mul(a, b), Mul(b, a));
    EqualCoef(Mul(a, b), Mul(b, a));
  }

  /** The bracket is antisymmetric: swapping `f` and `g` negates every
      coefficient. */
  lemma {:induction false} BracketAntisymmetric(f: Series, g: Series, ps: seq<string>, qs: seq<string>, e: map<string, int>)
    requires Valid(f) && Valid(g) && f.ring == g.ring && |ps| == |qs|
    ensures Coef(Bracket(f, g, ps, qs), e) == -Coef(Bracket(g, f, ps, qs), e)
    decreases |ps|
  {
    if ps != [] {
      var n := |ps| - 1;
      BracketAntisymmetric(f, g, ps[..n], qs[..n], e);
      var a := Bracket(f, g, ps[..n], qs[..n]);
      var b := Bracket(g, f, ps[..n], qs[..n]);
      var m1 := Mul(Partial(f, qs[n]), Partial(g, ps[n]));
      var m2 := Mul(Partial(f, ps[n]), Partial(g, qs[n]));
      var m3 := Mul(Partial(g, qs[n]), Partial(f, ps[n]));
      var m4 := Mul(Partial(g, ps[n]), Partial(f, qs[n]));
      SubCoef(Add(a, m1), m2, e);
      AddCoef(a, m1, e);
      SubCoef(Add(b, m3), m4, e);
      AddCoef(b, m3, e);
      MulCoefCommutes(Partial(f, qs[n]), Partial(g, ps[n]), e);
      MulCoefCommutes(Partial(f, ps[n]), Partial(g, qs[n]), e);
    }
  }

  lemma PbracketAntisymmetric(f: Series, g: Series, ps: seq<string>, qs: seq<string>)
    requires Valid(f) && Valid(g) && f.ring == g.ring
    ensures Pbracket(f, g, ps, qs).Ok? <==> Pbracket(g, f, ps, qs).Ok?
    ensures Pbracket(f, g, ps, qs).Ok? ==> Equal(Pbracket(f, g, ps, qs).value, Neg(Pbracket(g, f, ps, qs).value))
  {
    if Pbracket(f, g, ps, qs).Ok? {
      var a := Bracket(f, g, ps, qs);
      var b := Bracket(g, f, ps, qs);
      forall e ensures Coef(a, e) == Coef(Neg(b), e) {
        BracketAntisymmetric(f, g, ps, qs, e);
        NegCoef(b, e);
      }
      EqualIffCoef(a, Neg(b));
    }
  }

  /** A product with a factor without terms has no terms. */
  lemma MulByZero(a: Series, b: Series)
    requires Valid(a) && Valid(b) && (IsZero(a) || IsZero(b))
    ensures IsZero(Mul(a, b))
  {
    var u := Merge(a.ss, b.ss);
    if IsZero(b) {
      CrossEmptyRight(|u|, ExtendTo(a, u).terms);
    }
  }

  /** When `f` has none of the names, every partial derivative of `f` is
      zero and so is the bracket. */
  lemma {:induction false} BracketOfConstant(f: Series, g: Series, ps: seq<string>, qs: seq<string>)
    requires Valid(f) && Valid(g) && f.ring == g.ring && |ps| == |qs|
    requires forall i :: 0 <= i < |ps| ==> ps[i] !in f.ss && qs[i] !in f.ss
    ensures IsZero(Bracket(f, g, ps, qs))
    decreases |ps|
  {
    if ps != [] {
      var n := |ps| - 1;
      BracketOfConstant(f, g, ps[..n], qs[..n]);
      var a := Bracket(f, g, ps[..n], qs[..n]);
      PartialAbsent(f, qs[n]);
      PartialAbsent(f, ps[n]);
      var m1 := Mul(Partial(f, qs[n]), Partial(g, ps[n]));
      var m2 := Mul(Partial(f, ps[n]), Partial(g, qs[n]));
      MulByZero(Partial(f, qs[n]), Partial(g, ps[n]));
      MulByZero(Partial(f, ps[n]), Partial(g, qs[n]));
      forall e ensures Coef(Bracket(f, g, ps, qs), e) == 0.0 {
        SubCoef(Add(a, m1), m2, e);
        AddCoef(a, m1, e);
        IsZeroIff(a);
        IsZeroIff(m1);
        IsZeroIff(m2);
      }
      IsZeroIff(Bracket(f, g, ps, qs));
    }
  }

  /** The test values: empty lists give zero; lists of different lengths or
      with a repeated name throw; names that occur nowhere give zero. */
  lemma PbracketExamples(ring: Ring)
    ensures var z := Zero(ring, []);
            Pbracket(z, z, [], []).Ok? && IsZero(Pbracket(z, z, [], []).value)
    ensures var z := Zero(ring, []);
            Pbracket(z, z, ["p"], []) == Err(InvalidArgument) &&
            Pbracket(z, z, ["p"], ["q", "r"]) == Err(InvalidArgument) &&
            Pbracket(z, z, ["p", "p"], ["q", "r"]) == Err(InvalidArgument) &&
            Pbracket(z, z, ["p", "q"], ["q", "q"]) == Err(InvalidArgument)
    ensures var z := Zero(ring, []);
            Pbracket(z, z, ["x", "y"], ["a", "b"]).Ok? && IsZero(Pbracket(z, z, ["x", "y"], ["a", "b"]).value)
  {
    var z := Zero(ring, []);
    assert "x" != "y" && "a" != "b";
    BracketOfConstant(z, z, ["x", "y"], ["a", "b"]);
    assert !NoDuplicates(["p", "p"]) by { assert ["p", "p"][0] == ["p", "p"][1]; }
    assert !NoDuplicates(["q", "q"]) by { assert ["q", "q"][0] == ["q", "q"][1]; }
  }
}
