/** `series`: a sorted symbol set together with a container of terms, each a
    nonzero coefficient and a key (an exponent vector over the symbol set),
    with no two terms sharing a key. Coefficients are exact: integers or
    rationals, both modelled as `real` under a tag saying which ring the
    series is over. */
module Series {
  import opened Wrappers
  import opened IntegerMath
  import opened SymbolUtils
  import opened Terms
  import Monomial

  // ---------------------------------------------------------------------------
  // Coefficients
  // ---------------------------------------------------------------------------

  /** The coefficient type: mp++ `integer` or `rational`. */
  datatype Ring = Integers | Rationals

  predicate IsIntegral(c: real)
  {
    c.Floor as real == c
  }

  /** `c` is a value of the coefficient type. */
  predicate InRing(ring: Ring, c: real)
  {
    ring == Rationals || IsIntegral(c)
  }

  /** Sums, negations and products of integers are integers. */
  lemma IntegralClosed(a: real, b: real)
    requires IsIntegral(a) && IsIntegral(b)
    ensures IsIntegral(a + b) && IsIntegral(-a) && IsIntegral(RMul(a, b))
  {
    IntegralSum(a.Floor, b.Floor);
    IntegralProduct(a.Floor, b.Floor);
  }

  lemma IntegralSum(x: int, y: int)
    ensures IsIntegral(x as real + y as real) && IsIntegral(-(x as real))
  {
    IntegralCast(x + y);
    IntegralCast(-x);
    assert x as real + y as real == (x + y) as real;
    assert -(x as real) == (-x) as real;
  }

  lemma IntegralCast(n: int)
    ensures IsIntegral(n as real)
  {
    assert (n as real).Floor == n;
  }

  lemma IntegralProduct(x: int, y: int)
    ensures IsIntegral(RMul(x as real, y as real))
  {
    CastMul(x, y);
  }

  lemma CastMul(x: int, y: int)
    ensures RMul(x as real, y as real) == (x * y) as real
  {
  }

  lemma RingClosed(ring: Ring, a: real, b: real)
    requires InRing(ring, a) && InRing(ring, b)
    ensures InRing(ring, a + b) && InRing(ring, -a) && InRing(ring, RMul(a, b))
  {
    if ring == Integers {
      IntegralClosed(a, b);
    }
  }

  /** The coefficient type of the result of a binary operation between two
      series: rational as soon as one operand is rational, since an mp++
      `integer` operand is promoted. */
  function Common(r1: Ring, r2: Ring): Ring
  {
    if r1 == Rationals || r2 == Rationals then Rationals else Integers
  }

  // ---------------------------------------------------------------------------
  // Term containers
  // ---------------------------------------------------------------------------

  type Key = seq<int>
  type T = Term<real, Key>

  function Keys(ts: seq<T>): set<Key>
  {
    set i | 0 <= i < |ts| :: ts[i].key
  }

  predicate DistinctKeys(ts: seq<T>)
  {
    forall i, j :: 0 <= i < j < |ts| ==> ts[i].key != ts[j].key
  }

  /** Distinct keys of arity `n` with nonzero coefficients: the container of
      a series over `n` symbols, whatever the coefficient ring. */
  predicate Normal(n: nat, ts: seq<T>)
  {
    DistinctKeys(ts) && forall i :: 0 <= i < |ts| ==> |ts[i].key| == n && ts[i].cf != 0.0
  }

  predicate TermsValid(ring: Ring, n: nat, ts: seq<T>)
  {
    Normal(n, ts) && forall i :: 0 <= i < |ts| ==> InRing(ring, ts[i].cf)
  }

  /** Integer coefficients are rational coefficients too. */
  lemma Widen(ring: Ring, n: nat, ts: seq<T>, other: Ring)
    requires TermsValid(ring, n, ts)
    ensures TermsValid(Common(ring, other), n, ts) && TermsValid(Common(other, ring), n, ts)
  {
  }

  /** The coefficient the container gives the key `k`: the sum of the
      coefficients stored under `k`, which is 0 when there is none. */
  function Coeff(ts: seq<T>, k: Key): real
    decreases |ts|
  {
    if ts == [] then 0.0 else (if ts[0].key == k then ts[0].cf else 0.0) + Coeff(ts[1..], k)
  }

  lemma {:induction false} CoeffAbsent(ts: seq<T>, k: Key)
    requires k !in Keys(ts)
    ensures Coeff(ts, k) == 0.0
    decreases |ts|
  {
    if ts != [] {
      assert Keys(ts[1..]) <= Keys(ts) by {
        forall x | x in Keys(ts[1..]) ensures x in Keys(ts) {
          var i :| 0 <= i < |ts[1..]| && ts[1..][i].key == x;
          assert ts[i + 1].key == x;
        }
      }
      assert ts[0].key in Keys(ts);
      CoeffAbsent(ts[1..], k);
    }
  }

  lemma {:induction false} CoeffAppend(a: seq<T>, b: seq<T>, k: Key)
    ensures Coeff(a + b, k) == Coeff(a, k) + Coeff(b, k)
    decreases |a|
  {
    if a != [] {
      assert (a + b)[0] == a[0] && (a + b)[1..] == a[1..] + b;
      CoeffAppend(a[1..], b, k);
    } else {
      assert a + b == b;
    }
  }

  lemma DistinctTail(ts: seq<T>)
    requires DistinctKeys(ts) && ts != []
    ensures DistinctKeys(ts[1..]) && ts[0].key !in Keys(ts[1..])
  {
    assert forall i :: 0 <= i < |ts| - 1 ==> ts[1..][i] == ts[i + 1];
  }

  lemma DistinctCons(t: T, ts: seq<T>)
    requires DistinctKeys(ts) && t.key !in Keys(ts)
    ensures DistinctKeys([t] + ts)
  {
    var r := [t] + ts;
    forall i, j | 0 <= i < j < |r| ensures r[i].key != r[j].key {
      assert r[j] == ts[j - 1];
      if i > 0 {
        assert r[i] == ts[i - 1];
      }
    }
  }

  /** With distinct keys, the coefficient of a stored key is the stored one. */
  lemma {:induction false} CoeffMember(ts: seq<T>, i: nat)
    requires DistinctKeys(ts) && i < |ts|
    ensures Coeff(ts, ts[i].key) == ts[i].cf
    decreases |ts|
  {
    DistinctTail(ts);
    if i == 0 {
      CoeffAbsent(ts[1..], ts[0].key);
    } else {
      assert ts[1..][i - 1] == ts[i];
      CoeffMember(ts[1..], i - 1);
    }
  }

  /** Keys of another arity have coefficient 0. */
  lemma CoeffWrongArity(n: nat, ts: seq<T>, k: Key)
    requires Normal(n, ts) && |k| != n
    ensures Coeff(ts, k) == 0.0
  {
    CoeffAbsent(ts, k);
  }

  // ---------------------------------------------------------------------------
  // Insertion with accumulation
  // ---------------------------------------------------------------------------

  /** `insert` of the term `(c, k)`: a zero coefficient is ignored, a new key
      is added, and for a key already present the coefficients are summed and
      the term is erased when the sum is zero. */
  function Insert(ts: seq<T>, k: Key, c: real): (r: seq<T>)
    ensures Keys(r) <= Keys(ts) + {k}
    decreases |ts|
  {
    if ts == [] then (if c == 0.0 then [] else [Term(c, k)])
    else if ts[0].key == k then
      InsertKeys(ts);
      ConsKeys(Term(ts[0].cf + c, k), ts[1..]);
      (if ts[0].cf + c == 0.0 then ts[1..] else [Term(ts[0].cf + c, k)] + ts[1..])
    else
      InsertKeys(ts);
      var rest := Insert(ts[1..], k, c);
      ConsKeys(ts[0], rest);
      [ts[0]] + rest
  }

  lemma ConsKeys(t: T, ts: seq<T>)
    ensures Keys([t] + ts) == {t.key} + Keys(ts)
  {
    assert ([t] + ts)[1..] == ts;
    InsertKeys([t] + ts);
  }

  lemma InsertKeys(ts: seq<T>)
    requires ts != []
    ensures Keys(ts) == {ts[0].key} + Keys(ts[1..])
  {
    forall x | x in Keys(ts) ensures x in {ts[0].key} + Keys(ts[1..]) {
      var i :| 0 <= i < |ts| && ts[i].key == x;
      if i > 0 {
        assert ts[1..][i - 1].key == x;
      }
    }
    forall x | x in Keys(ts[1..]) ensures x in Keys(ts) {
      var i :| 0 <= i < |ts[1..]| && ts[1..][i].key == x;
      assert ts[i + 1].key == x;
    }
  }

  /** Insertion adds `c` to the coefficient of `k` and nothing else, and the
      keys stay distinct. */
  lemma {:induction false} InsertCoeff(ts: seq<T>, k: Key, c: real, j: Key)
    requires DistinctKeys(ts)
    ensures DistinctKeys(Insert(ts, k, c))
    ensures Coeff(Insert(ts, k, c), j) == Coeff(ts, j) + (if j == k then c else 0.0)
    decreases |ts|
  {
    if ts != [] {
      DistinctTail(ts);
      InsertKeys(ts);
      if ts[0].key == k {
        CoeffAbsent(ts[1..], k);
        assert Coeff(ts, j) == (if j == k then ts[0].cf else 0.0) + Coeff(ts[1..], j);
        if ts[0].cf + c != 0.0 {
          DistinctCons(Term(ts[0].cf + c, k), ts[1..]);
          var r := [Term(ts[0].cf + c, k)] + ts[1..];
          assert r[1..] == ts[1..];
        }
      } else {
        InsertCoeff(ts[1..], k, c, j);
        DistinctCons(ts[0], Insert(ts[1..], k, c));
      }
    }
  }

  /** Insertion keeps a container valid when the new key has the right arity
      and the coefficient is in the ring. */
  lemma {:induction false} InsertValid(ring: Ring, n: nat, ts: seq<T>, k: Key, c: real)
    requires TermsValid(ring, n, ts) && |k| == n && InRing(ring, c)
    ensures TermsValid(ring, n, Insert(ts, k, c))
    decreases |ts|
  {
    InsertCoeff(ts, k, c, k);
    if ts != [] {
      var r := Insert(ts, k, c);
      assert forall i :: 0 <= i < |ts| - 1 ==> ts[1..][i] == ts[i + 1];
      assert TermsValid(ring, n, ts[1..]);
      if ts[0].key == k {
        RingClosed(ring, ts[0].cf, c);
      } else {
        InsertValid(ring, n, ts[1..], k, c);
        assert forall i :: 1 <= i < |r| ==> r[i] == Insert(ts[1..], k, c)[i - 1];
      }
    }
  }

  /** Insert every term of `us`, in order. */
  function Accumulate(ts: seq<T>, us: seq<T>): (r: seq<T>)
    decreases |us|
  {
    if us == [] then ts else Accumulate(Insert(ts, us[0].key, us[0].cf), us[1..])
  }

  /** Accumulating adds the coefficients of `us` to those of `ts`. */
  lemma {:induction false} AccumulateCoeff(ts: seq<T>, us: seq<T>, j: Key)
    requires DistinctKeys(ts)
    ensures DistinctKeys(Accumulate(ts, us))
    ensures Coeff(Accumulate(ts, us), j) == Coeff(ts, j) + Coeff(us, j)
    decreases |us|
  {
    if us != [] {
      InsertCoeff(ts, us[0].key, us[0].cf, j);
      AccumulateCoeff(Insert(ts, us[0].key, us[0].cf), us[1..], j);
    }
  }

  lemma {:induction false} AccumulateValid(ring: Ring, n: nat, ts: seq<T>, us: seq<T>)
    requires TermsValid(ring, n, ts)
    requires forall i :: 0 <= i < |us| ==> |us[i].key| == n && InRing(ring, us[i].cf)
    ensures TermsValid(ring, n, Accumulate(ts, us))
    decreases |us|
  {
    if us != [] {
      InsertValid(ring, n, ts, us[0].key, us[0].cf);
      assert forall i :: 0 <= i < |us| - 1 ==> us[1..][i] == us[i + 1];
      AccumulateValid(ring, n, Insert(ts, us[0].key, us[0].cf), us[1..]);
    }
  }

  /** Accumulating two lists one after the other is accumulating their
      concatenation. */
  lemma {:induction false} AccumulateAppend(ts: seq<T>, us: seq<T>, vs: seq<T>)
    ensures Accumulate(ts, us + vs) == Accumulate(Accumulate(ts, us), vs)
    decreases |us|
  {
    if us != [] {
      assert (us + vs)[0] == us[0] && (us + vs)[1..] == us[1..] + vs;
      AccumulateAppend(Insert(ts, us[0].key, us[0].cf), us[1..], vs);
    } else {
      assert us + vs == vs;
    }
  }

  // ---------------------------------------------------------------------------
  // Term-set equality
  // ---------------------------------------------------------------------------

  /** The two containers hold the same terms, in whatever order. */
  predicate SameTerms(a: seq<T>, b: seq<T>)
  {
    (forall t :: t in a ==> t in b) && (forall t :: t in b ==> t in a)
  }

  /** Two normal containers hold the same terms exactly when they give every
      key the same coefficient. */
  lemma SameTermsIffCoeff(n: nat, a: seq<T>, b: seq<T>)
    requires Normal(n, a) && Normal(n, b)
    ensures SameTerms(a, b) <==> forall k :: Coeff(a, k) == Coeff(b, k)
  {
    if SameTerms(a, b) {
      forall k ensures Coeff(a, k) == Coeff(b, k) {
        if k in Keys(a) {
          SameCoeff(a, b, k);
        } else if k in Keys(b) {
          SameCoeff(b, a, k);
        } else {
          CoeffAbsent(a, k);
          CoeffAbsent(b, k);
        }
      }
    } else {
      NotSameTermsCoeff(n, a, b);
    }
  }

  lemma NotSameTermsCoeff(n: nat, a: seq<T>, b: seq<T>)
    requires Normal(n, a) && Normal(n, b) && !SameTerms(a, b)
    ensures exists k :: Coeff(a, k) != Coeff(b, k)
  {
    if forall k :: Coeff(a, k) == Coeff(b, k) {
      CoeffEqualSameTerms(n, a, b);
    }
  }

  lemma CoeffEqualSameTerms(n: nat, a: seq<T>, b: seq<T>)
    requires Normal(n, a) && Normal(n, b)
    requires forall k :: Coeff(a, k) == Coeff(b, k)
    ensures SameTerms(a, b)
  {
    CoeffIncluded(n, a, b);
    CoeffIncluded(n, b, a);
  }

  lemma SameCoeff(a: seq<T>, b: seq<T>, k: Key)
    requires DistinctKeys(a) && DistinctKeys(b)
    requires forall t :: t in a ==> t in b
    requires k in Keys(a)
    ensures Coeff(a, k) == Coeff(b, k)
  {
    var i :| 0 <= i < |a| && a[i].key == k;
    assert a[i] in b;
    var j :| 0 <= j < |b| && b[j] == a[i];
    CoeffMember(a, i);
    CoeffMember(b, j);
  }

  lemma CoeffIncluded(n: nat, a: seq<T>, b: seq<T>)
    requires Normal(n, a) && Normal(n, b)
    requires forall k :: Coeff(a, k) == Coeff(b, k)
    ensures forall t :: t in a ==> t in b
  {
    forall t | t in a ensures t in b {
      var i :| 0 <= i < |a| && a[i] == t;
      CoeffMember(a, i);
      if t.key !in Keys(b) {
        CoeffAbsent(b, t.key);
      }
      var j :| 0 <= j < |b| && b[j].key == t.key;
      CoeffMember(b, j);
    }
  }

  // ---------------------------------------------------------------------------
  // Series
  // ---------------------------------------------------------------------------

  datatype Series = Series(ring: Ring, ss: seq<string>, terms: seq<T>)

  /** A sorted symbol set, and terms over it with distinct keys and nonzero
      coefficients of the ring. */
  predicate Valid(s: Series)
  {
    SortedSet(s.ss) && TermsValid(s.ring, |s.ss|, s.terms)
  }

  predicate Subset(s: seq<string>, u: seq<string>)
  {
    forall x :: x in s ==> x in u
  }

  /** The exponent a monomial given by name gives the symbol `x`. */
  function ExpOf(e: map<string, int>, x: string): int
  {
    if x in e then e[x] else 0
  }

  /** Every symbol with a nonzero exponent in `e` is one of `ss`. */
  predicate Supported(e: map<string, int>, ss: seq<string>)
  {
    forall x :: x in e && e[x] != 0 ==> x in ss
  }

  /** The key of the monomial `e` over the symbol set `ss`. */
  function KeyOf(e: map<string, int>, ss: seq<string>): (k: Key)
    ensures |k| == |ss| && forall i :: 0 <= i < |ss| ==> k[i] == ExpOf(e, ss[i])
  {
    seq(|ss|, i requires 0 <= i < |ss| => ExpOf(e, ss[i]))
  }

  /** The monomial, by name, that a key over `u` stands for. */
  function MonomialOf(k: Key, u: seq<string>): (e: map<string, int>)
    requires |k| == |u|
    ensures forall x :: x in e <==> x in u
  {
    map x | x in u :: k[IndexOf(u, x)]
  }

  lemma MonomialOfKey(k: Key, u: seq<string>)
    requires SortedSet(u) && |k| == |u|
    ensures Supported(MonomialOf(k, u), u) && KeyOf(MonomialOf(k, u), u) == k
  {
    forall i | 0 <= i < |u| ensures KeyOf(MonomialOf(k, u), u)[i] == k[i] {
      IndexOfSorted(u, i);
    }
  }

  /** The coefficient of the monomial `e` in the series: what the series
      means, independently of how many symbols its symbol set holds. */
  function Coef(s: Series, e: map<string, int>): real
  {
    if Supported(e, s.ss) then Coeff(s.terms, KeyOf(e, s.ss)) else 0.0
  }

  // ---------------------------------------------------------------------------
  // Symbol-set extension
  // ---------------------------------------------------------------------------

  /** Every key re-encoded from the symbol set `s` to the superset `u`. */
  function Rekey(ts: seq<T>, s: seq<string>, u: seq<string>): (r: seq<T>)
    requires forall i :: 0 <= i < |ts| ==> |ts[i].key| == |s|
    ensures |r| == |ts|
  {
    seq(|ts|, i requires 0 <= i < |ts| => Term(ts[i].cf, Monomial.Reencode(ts[i].key, s, u)))
  }

  lemma {:induction false} RekeyCoeff(ts: seq<T>, s: seq<string>, u: seq<string>, k: Key)
    requires SortedSet(s) && Subset(s, u) && |k| == |s|
    requires forall i :: 0 <= i < |ts| ==> |ts[i].key| == |s|
    ensures Coeff(Rekey(ts, s, u), Monomial.Reencode(k, s, u)) == Coeff(ts, k)
    decreases |ts|
  {
    if ts != [] {
      assert Rekey(ts, s, u)[1..] == Rekey(ts[1..], s, u);
      RekeyCoeff(ts[1..], s, u, k);
      if Monomial.Reencode(ts[0].key, s, u) == Monomial.Reencode(k, s, u) {
        Monomial.ReencodeInjective(ts[0].key, k, s, u);
      }
    }
  }

  /** A key with a nonzero exponent for a symbol outside `s` is not the
      re-encoding of anything. */
  lemma RekeyOutside(ts: seq<T>, s: seq<string>, u: seq<string>, j: Key, p: nat)
    requires forall i :: 0 <= i < |ts| ==> |ts[i].key| == |s|
    requires p < |u| && p < |j| && u[p] !in s && j[p] != 0
    ensures Coeff(Rekey(ts, s, u), j) == 0.0
  {
    var r := Rekey(ts, s, u);
    assert j !in Keys(r) by {
      forall i | 0 <= i < |r| ensures r[i].key != j {
        assert r[i].key[p] == 0;
      }
    }
    CoeffAbsent(r, j);
  }

  lemma RekeyValid(ring: Ring, ts: seq<T>, s: seq<string>, u: seq<string>)
    requires SortedSet(s) && Subset(s, u) && TermsValid(ring, |s|, ts)
    ensures TermsValid(ring, |u|, Rekey(ts, s, u))
  {
    var r := Rekey(ts, s, u);
    forall i, j | 0 <= i < j < |r| ensures r[i].key != r[j].key {
      if r[i].key == r[j].key {
        Monomial.ReencodeInjective(ts[i].key, ts[j].key, s, u);
      }
    }
  }

  /** The series re-encoded over a sorted superset of its symbols. */
  function ExtendTo(s: Series, u: seq<string>): (r: Series)
    requires Valid(s) && SortedSet(u) && Subset(s.ss, u)
    ensures Valid(r) && r.ring == s.ring && r.ss == u
  {
    RekeyValid(s.ring, s.terms, s.ss, u);
    Series(s.ring, u, Rekey(s.terms, s.ss, u))
  }

  lemma KeyOfReencode(e: map<string, int>, s: seq<string>, u: seq<string>)
    requires Supported(e, s)
    ensures Monomial.Reencode(KeyOf(e, s), s, u) == KeyOf(e, u)
  {
  }

  /** Extending the symbol set does not change what the series means. */
  lemma ExtendCoef(s: Series, u: seq<string>, e: map<string, int>)
    requires Valid(s) && SortedSet(u) && Subset(s.ss, u)
    ensures Coef(ExtendTo(s, u), e) == Coef(s, e)
  {
    if Supported(e, s.ss) {
      KeyOfReencode(e, s.ss, u);
      RekeyCoeff(s.terms, s.ss, u, KeyOf(e, s.ss));
    } else if Supported(e, u) {
      var x :| x in e && e[x] != 0 && x !in s.ss;
      var p := IndexOf(u, x);
      RekeyOutside(s.terms, s.ss, u, KeyOf(e, u), p);
    }
  }

  // ---------------------------------------------------------------------------
  // Construction
  // ---------------------------------------------------------------------------

  /** The series with no terms over the symbol set `ss`. */
  function Zero(ring: Ring, ss: seq<string>): (r: Series)
    requires SortedSet(ss)
    ensures Valid(r) && forall e :: Coef(r, e) == 0.0
  {
    Series(ring, ss, [])
  }

  /** The series constructed from a number: no symbols, and one term unless
      the number is zero. */
  function Constant(ring: Ring, c: real): (r: Series)
    requires InRing(ring, c)
    ensures Valid(r) && r.ss == []
    ensures forall e :: Coef(r, e) == (if Supported(e, []) then c else 0.0)
  {
    var r := Series(ring, [], if c == 0.0 then [] else [Term(c, [])]);
    assert forall e :: KeyOf(e, []) == [];
    assert Coeff(r.terms, []) == c;
    r
  }

  /** The series constructed from a name: the symbol with exponent 1. */
  function Symbol(ring: Ring, x: string): (r: Series)
    ensures Valid(r) && r.ss == [x] && r.terms == [Term(1.0, [1])]
  {
    Series(ring, [x], [Term(1.0, [1])])
  }

  // ---------------------------------------------------------------------------
  // Addition and subtraction
  // ---------------------------------------------------------------------------

  /** `operator+`: both operands are re-encoded over the union of their symbol
      sets, then the terms of the second are inserted into the first. */
  function Add(a: Series, b: Series): (r: Series)
    requires Valid(a) && Valid(b)
    ensures Valid(r) && r.ring == Common(a.ring, b.ring) && r.ss == Merge(a.ss, b.ss)
  {
    var u := Merge(a.ss, b.ss);
    var a1 := ExtendTo(a, u);
    var b1 := ExtendTo(b, u);
    var ring := Common(a.ring, b.ring);
    Widen(a.ring, |u|, a1.terms, b.ring);
    Widen(b.ring, |u|, b1.terms, a.ring);
    AccumulateValid(ring, |u|, a1.terms, b1.terms);
    Series(ring, u, Accumulate(a1.terms, b1.terms))
  }

  /** Every coefficient of the sum is the sum of the coefficients. */
  lemma AddCoef(a: Series, b: Series, e: map<string, int>)
    requires Valid(a) && Valid(b)
    ensures Coef(Add(a, b), e) == Coef(a, e) + Coef(b, e)
  {
    var u := Merge(a.ss, b.ss);
    ExtendCoef(a, u, e);
    ExtendCoef(b, u, e);
    AccumulateCoeff(ExtendTo(a, u).terms, ExtendTo(b, u).terms, KeyOf(e, u));
  }

  /** Every coefficient negated. */
  function Neg(s: Series): (r: Series)
    requires Valid(s)
    ensures Valid(r) && r.ring == s.ring && r.ss == s.ss
  {
    var ts := NegTerms(s.terms);
    forall i | 0 <= i < |ts| ensures InRing(s.ring, ts[i].cf) {
      RingClosed(s.ring, s.terms[i].cf, s.terms[i].cf);
    }
    Series(s.ring, s.ss, ts)
  }

  function NegTerms(ts: seq<T>): (r: seq<T>)
    ensures |r| == |ts| && forall i :: 0 <= i < |ts| ==> r[i] == Term(-ts[i].cf, ts[i].key)
  {
    seq(|ts|, i requires 0 <= i < |ts| => Term(-ts[i].cf, ts[i].key))
  }

  lemma {:induction false} NegCoeff(ts: seq<T>, k: Key)
    ensures Coeff(NegTerms(ts), k) == -Coeff(ts, k)
    decreases |ts|
  {
    if ts != [] {
      assert NegTerms(ts)[1..] == NegTerms(ts[1..]);
      NegCoeff(ts[1..], k);
    }
  }

  lemma NegCoef(s: Series, e: map<string, int>)
    requires Valid(s)
    ensures Coef(Neg(s), e) == -Coef(s, e)
  {
    NegCoeff(s.terms, KeyOf(e, s.ss));
  }

  /** `operator-`: the sum with the negated second operand. */
  function Sub(a: Series, b: Series): (r: Series)
    requires Valid(a) && Valid(b)
    ensures Valid(r) && r.ring == Common(a.ring, b.ring) && r.ss == Merge(a.ss, b.ss)
  {
    Add(a, Neg(b))
  }

  lemma SubCoef(a: Series, b: Series, e: map<string, int>)
    requires Valid(a) && Valid(b)
    ensures Coef(Sub(a, b), e) == Coef(a, e) - Coef(b, e)
  {
    AddCoef(a, Neg(b), e);
    NegCoef(b, e);
  }

  // ---------------------------------------------------------------------------
  // Comparison
  // ---------------------------------------------------------------------------

  /** `operator==`: over the union of the two symbol sets, the operands hold
      the same terms. */
  predicate Equal(a: Series, b: Series)
    requires Valid(a) && Valid(b)
  {
    var u := Merge(a.ss, b.ss);
    SameTerms(ExtendTo(a, u).terms, ExtendTo(b, u).terms)
  }

  /** Two series are equal exactly when they give every monomial the same
      coefficient, whatever their symbol sets. */
  lemma EqualIffCoef(a: Series, b: Series)
    requires Valid(a) && Valid(b)
    ensures Equal(a, b) <==> forall e :: Coef(a, e) == Coef(b, e)
  {
    if Equal(a, b) {
      EqualCoef(a, b);
    } else {
      NotEqualCoef(a, b);
    }
  }

  lemma EqualCoef(a: Series, b: Series)
    requires Valid(a) && Valid(b) && Equal(a, b)
    ensures forall e :: Coef(a, e) == Coef(b, e)
  {
    var u := Merge(a.ss, b.ss);
    var a1, b1 := ExtendTo(a, u), ExtendTo(b, u);
    SameTermsIffCoeff(|u|, a1.terms, b1.terms);
    forall e ensures Coef(a, e) == Coef(b, e) {
      ExtendCoef(a, u, e);
      ExtendCoef(b, u, e);
      assert Coeff(a1.terms, KeyOf(e, u)) == Coeff(b1.terms, KeyOf(e, u));
    }
  }

  lemma NotEqualCoef(a: Series, b: Series)
    requires Valid(a) && Valid(b) && !Equal(a, b)
    ensures exists e :: Coef(a, e) != Coef(b, e)
  {
    var u := Merge(a.ss, b.ss);
    var a1, b1 := ExtendTo(a, u), ExtendTo(b, u);
    NotSameTermsCoeff(|u|, a1.terms, b1.terms);
    var k :| Coeff(a1.terms, k) != Coeff(b1.terms, k);
    if |k| != |u| {
      CoeffWrongArity(|u|, a1.terms, k);
      CoeffWrongArity(|u|, b1.terms, k);
    }
    var e := MonomialOf(k, u);
    MonomialOfKey(k, u);
    ExtendCoef(a, u, e);
    ExtendCoef(b, u, e);
    assert Coef(a, e) != Coef(b, e);
  }

  /** `is_identical`: the same symbol set and the same terms. */
  predicate IsIdentical(a: Series, b: Series)
  {
    a.ss == b.ss && SameTerms(a.terms, b.terms)
  }

  /** Identical series are equal; equal series over the same symbol set are
      identical. */
  lemma IdenticalIffEqual(a: Series, b: Series)
    requires Valid(a) && Valid(b)
    ensures IsIdentical(a, b) ==> Equal(a, b)
    ensures a.ss == b.ss && Equal(a, b) ==> IsIdentical(a, b)
  {
    if IsIdentical(a, b) {
      SameTermsIffCoeff(|a.ss|, a.terms, b.terms);
      forall e ensures Coef(a, e) == Coef(b, e) {
        assert Coeff(a.terms, KeyOf(e, a.ss)) == Coeff(b.terms, KeyOf(e, a.ss));
      }
      EqualIffCoef(a, b);
    }
    if a.ss == b.ss && Equal(a, b) {
      EqualCoef(a, b);
      forall k ensures Coeff(a.terms, k) == Coeff(b.terms, k) {
        if |k| != |a.ss| {
          CoeffWrongArity(|a.ss|, a.terms, k);
          CoeffWrongArity(|a.ss|, b.terms, k);
        } else {
          MonomialOfKey(k, a.ss);
          assert Coef(a, MonomialOf(k, a.ss)) == Coef(b, MonomialOf(k, a.ss));
        }
      }
      CoeffEqualSameTerms(|a.ss|, a.terms, b.terms);
    }
  }

  // ---------------------------------------------------------------------------
  // Multiplication
  // ---------------------------------------------------------------------------

  predicate Arity(n: nat, ts: seq<T>)
  {
    forall i :: 0 <= i < |ts| ==> |ts[i].key| == n
  }

  /** The term `t` times every term of `ys`: coefficients multiply and
      exponents add. */
  function Row(t: T, ys: seq<T>): (r: seq<T>)
    requires Arity(|t.key|, ys)
    ensures |r| == |ys| && Arity(|t.key|, r)
    ensures forall j :: 0 <= j < |ys| ==> r[j] == Term(RMul(t.cf, ys[j].cf), Monomial.Add(t.key, ys[j].key))
  {
    seq(|ys|, j requires 0 <= j < |ys| => Term(RMul(t.cf, ys[j].cf), Monomial.Add(t.key, ys[j].key)))
  }

  /** Every product of a term of `xs` by a term of `ys`, before any
      accumulation: the plain schoolbook product. */
  function Cross(n: nat, xs: seq<T>, ys: seq<T>): (r: seq<T>)
    requires Arity(n, xs) && Arity(n, ys)
    ensures Arity(n, r)
    decreases |xs|
  {
    if xs == [] then []
    else
      var row := Row(xs[0], ys);
      var rest := Cross(n, xs[1..], ys);
      assert forall i :: |row| <= i < |row| + |rest| ==> (row + rest)[i] == rest[i - |row|];
      row + rest
  }

  lemma {:induction false} CrossInRing(ring: Ring, n: nat, xs: seq<T>, ys: seq<T>)
    requires Arity(n, xs) && Arity(n, ys)
    requires forall i :: 0 <= i < |xs| ==> InRing(ring, xs[i].cf)
    requires forall i :: 0 <= i < |ys| ==> InRing(ring, ys[i].cf)
    ensures forall i :: 0 <= i < |Cross(n, xs, ys)| ==> InRing(ring, Cross(n, xs, ys)[i].cf)
    decreases |xs|
  {
    if xs != [] {
      CrossInRing(ring, n, xs[1..], ys);
      var row := Row(xs[0], ys);
      forall j | 0 <= j < |ys| ensures InRing(ring, row[j].cf) {
        RingClosed(ring, xs[0].cf, ys[j].cf);
      }
      var rest := Cross(n, xs[1..], ys);
      assert forall i :: |row| <= i < |row| + |rest| ==> (row + rest)[i] == rest[i - |row|];
    }
  }

  /** Splitting the first operand splits the product. */
  lemma {:induction false} CrossAppend(n: nat, xs1: seq<T>, xs2: seq<T>, ys: seq<T>)
    requires Arity(n, xs1) && Arity(n, xs2) && Arity(n, ys)
    ensures Arity(n, xs1 + xs2)
    ensures Cross(n, xs1 + xs2, ys) == Cross(n, xs1, ys) + Cross(n, xs2, ys)
    decreases |xs1|
  {
    assert forall i :: |xs1| <= i < |xs1| + |xs2| ==> (xs1 + xs2)[i] == xs2[i - |xs1|];
    if xs1 == [] {
      assert xs1 + xs2 == xs2;
    } else {
      assert (xs1 + xs2)[0] == xs1[0] && (xs1 + xs2)[1..] == xs1[1..] + xs2;
      CrossAppend(n, xs1[1..], xs2, ys);
    }
  }

  /** `operator*`: both operands re-encoded over the union of their symbol
      sets, and every product of a term of the first by a term of the second
      inserted, with accumulation, into an empty container. */
  function Mul(a: Series, b: Series): (r: Series)
    requires Valid(a) && Valid(b)
    ensures Valid(r) && r.ring == Common(a.ring, b.ring) && r.ss == Merge(a.ss, b.ss)
  {
    var u := Merge(a.ss, b.ss);
    var a1 := ExtendTo(a, u);
    var b1 := ExtendTo(b, u);
    var c := Cross(|u|, a1.terms, b1.terms);
    var ring := Common(a.ring, b.ring);
    Widen(a.ring, |u|, a1.terms, b.ring);
    Widen(b.ring, |u|, b1.terms, a.ring);
    CrossInRing(ring, |u|, a1.terms, b1.terms);
    AccumulateValid(ring, |u|, [], c);
    Series(ring, u, Accumulate([], c))
  }

  lemma {:induction false} CrossEmptyRight(n: nat, ys: seq<T>)
    requires Arity(n, ys)
    ensures Cross(n, ys, []) == []
    decreases |ys|
  {
    if ys != [] {
      CrossEmptyRight(n, ys[1..]);
    }
  }

  lemma {:induction false} CrossConsRight(n: nat, ys: seq<T>, x: T, xs: seq<T>, k: Key)
    requires Arity(n, ys) && Arity(n, xs) && |x.key| == n
    ensures Arity(n, [x] + xs)
    ensures Coeff(Cross(n, ys, [x] + xs), k) == Coeff(Row(x, ys), k) + Coeff(Cross(n, ys, xs), k)
    decreases |ys|
  {
    var xs1 := [x] + xs;
    assert forall i :: 1 <= i < |xs1| ==> xs1[i] == xs[i - 1];
    if ys != [] {
      var y := ys[0];
      CrossConsRight(n, ys[1..], x, xs, k);
      var p := Term(RMul(y.cf, x.cf), Monomial.Add(y.key, x.key));
      assert RMul(y.cf, x.cf) == RMul(x.cf, y.cf);
      assert Monomial.Add(y.key, x.key) == Monomial.Add(x.key, y.key);
      assert Row(y, xs1) == [p] + Row(y, xs);
      assert Row(x, ys) == [p] + Row(x, ys[1..]);
      CoeffAppend(Row(y, xs1), Cross(n, ys[1..], xs1), k);
      CoeffAppend([p], Row(y, xs), k);
      CoeffAppend([p], Row(x, ys[1..]), k);
      CoeffAppend(Row(y, xs), Cross(n, ys[1..], xs), k);
    }
  }

  /** The schoolbook product gives every key the same coefficient whichever
      operand comes first. */
  lemma {:induction false} CrossCommutes(n: nat, xs: seq<T>, ys: seq<T>, k: Key)
    requires Arity(n, xs) && Arity(n, ys)
    ensures Coeff(Cross(n, xs, ys), k) == Coeff(Cross(n, ys, xs), k)
    decreases |xs|
  {
    if xs == [] {
      CrossEmptyRight(n, ys);
    } else {
      CrossCommutes(n, xs[1..], ys, k);
      CoeffAppend(Row(xs[0], ys), Cross(n, xs[1..], ys), k);
      assert xs == [xs[0]] + xs[1..];
      CrossConsRight(n, ys, xs[0], xs[1..], k);
    }
  }

  /** Multiplication is commutative: the two products are identical. */
  lemma MulCommutes(a: Series, b: Series)
    requires Valid(a) && Valid(b)
    ensures IsIdentical(Mul(a, b), Mul(b, a))
  {
    MergeCommutes(a.ss, b.ss);
    var u := Merge(a.ss, b.ss);
    var a1, b1 := ExtendTo(a, u).terms, ExtendTo(b, u).terms;
    var p, q := Mul(a, b), Mul(b, a);
    forall k ensures Coeff(p.terms, k) == Coeff(q.terms, k) {
      AccumulateCoeff([], Cross(|u|, a1, b1), k);
      AccumulateCoeff([], Cross(|u|, b1, a1), k);
      CrossCommutes(|u|, a1, b1, k);
    }
    CoeffEqualSameTerms(|u|, p.terms, q.terms);
  }

  // ---------------------------------------------------------------------------
  // Multi-threaded multiplication
  // ---------------------------------------------------------------------------

  function Flatten(blocks: seq<seq<T>>): seq<T>
    decreases |blocks|
  {
    if blocks == [] then [] else blocks[0] + Flatten(blocks[1..])
  }

  predicate AllArity(n: nat, blocks: seq<seq<T>>)
  {
    forall i :: 0 <= i < |blocks| ==> Arity(n, blocks[i])
  }

  lemma {:induction false} FlattenArity(n: nat, blocks: seq<seq<T>>)
    requires Arity(n, Flatten(blocks))
    ensures AllArity(n, blocks)
    decreases |blocks|
  {
    if blocks != [] {
      var f := Flatten(blocks[1..]);
      assert forall i :: 0 <= i < |f| ==> (blocks[0] + f)[|blocks[0]| + i] == f[i];
      assert forall i :: 0 <= i < |blocks[0]| ==> (blocks[0] + f)[i] == blocks[0][i];
      FlattenArity(n, blocks[1..]);
      assert forall i :: 1 <= i < |blocks| ==> blocks[i] == blocks[1..][i - 1];
    }
  }

  /** Consecutive blocks of `size` terms (the last one possibly shorter). */
  function Blocks(xs: seq<T>, size: nat): (r: seq<seq<T>>)
    requires size >= 1
    ensures Flatten(r) == xs
    decreases |xs|
  {
    if |xs| <= size then
      assert Flatten([xs]) == xs + [];
      [xs]
    else
      var rest := Blocks(xs[size..], size);
      assert ([xs[..size]] + rest)[1..] == rest;
      assert xs == xs[..size] + xs[size..];
      [xs[..size]] + rest
  }

  /** The threads' share of the work: every block's products accumulated in
      a container of its own, and those containers then merged in turn into
      `acc`. */
  function MergeBlocks(n: nat, blocks: seq<seq<T>>, ys: seq<T>, acc: seq<T>): seq<T>
    requires AllArity(n, blocks) && Arity(n, ys)
    decreases |blocks|
  {
    if blocks == [] then acc
    else MergeBlocks(n, blocks[1..], ys, Accumulate(acc, Accumulate([], Cross(n, blocks[0], ys))))
  }

  lemma {:induction false} MergeBlocksCoeff(n: nat, blocks: seq<seq<T>>, ys: seq<T>, acc: seq<T>, k: Key)
    requires AllArity(n, blocks) && Arity(n, ys) && Normal(n, acc)
    ensures Arity(n, Flatten(blocks))
    ensures Normal(n, MergeBlocks(n, blocks, ys, acc))
    ensures Coeff(MergeBlocks(n, blocks, ys, acc), k) == Coeff(acc, k) + Coeff(Cross(n, Flatten(blocks), ys), k)
    decreases |blocks|
  {
    if blocks != [] {
      var part := Accumulate([], Cross(n, blocks[0], ys));
      AccumulateValid(Rationals, n, [], Cross(n, blocks[0], ys));
      AccumulateValid(Rationals, n, acc, part);
      AccumulateCoeff([], Cross(n, blocks[0], ys), k);
      AccumulateCoeff(acc, part, k);
      MergeBlocksCoeff(n, blocks[1..], ys, Accumulate(acc, part), k);
      CrossAppend(n, blocks[0], Flatten(blocks[1..]), ys);
      CoeffAppend(Cross(n, blocks[0], ys), Cross(n, Flatten(blocks[1..]), ys), k);
    }
  }

  /** The product computed by `threads` threads, each multiplying a block of
      the first operand's terms by the whole second operand. */
  function MulThreads(a: Series, b: Series, threads: nat): (r: Series)
    requires Valid(a) && Valid(b) && threads >= 1
  {
    var u := Merge(a.ss, b.ss);
    var a1 := ExtendTo(a, u).terms;
    var b1 := ExtendTo(b, u).terms;
    var size := if |a1| <= threads then 1 else (|a1| + threads - 1) / threads;
    var blocks := Blocks(a1, size);
    FlattenArity(|u|, blocks);
    Series(Common(a.ring, b.ring), u, MergeBlocks(|u|, blocks, b1, []))
  }

  /** However the first operand is split between threads, the merged result
      holds exactly the terms of the single-threaded product. */
  lemma ParallelMulIsMul(a: Series, b: Series, blocks: seq<seq<T>>)
    requires Valid(a) && Valid(b)
    requires Flatten(blocks) == ExtendTo(a, Merge(a.ss, b.ss)).terms
    ensures AllArity(|Merge(a.ss, b.ss)|, blocks)
    ensures SameTerms(MergeBlocks(|Merge(a.ss, b.ss)|, blocks, ExtendTo(b, Merge(a.ss, b.ss)).terms, []),
                      Mul(a, b).terms)
  {
    var u := Merge(a.ss, b.ss);
    var a1, b1 := ExtendTo(a, u).terms, ExtendTo(b, u).terms;
    FlattenArity(|u|, blocks);
    var m := MergeBlocks(|u|, blocks, b1, []);
    forall k ensures Coeff(m, k) == Coeff(Mul(a, b).terms, k) {
      MergeBlocksCoeff(|u|, blocks, b1, [], k);
      AccumulateCoeff([], Cross(|u|, a1, b1), k);
    }
    MergeBlocksCoeff(|u|, blocks, b1, [], []);
    CoeffEqualSameTerms(|u|, m, Mul(a, b).terms);
  }

  /** The result does not depend on the number of threads. */
  lemma MulThreadsIsMul(a: Series, b: Series, threads: nat)
    requires Valid(a) && Valid(b) && threads >= 1
    ensures IsIdentical(MulThreads(a, b, threads), Mul(a, b))
  {
    var u := Merge(a.ss, b.ss);
    var a1 := ExtendTo(a, u).terms;
    var size := if |a1| <= threads then 1 else (|a1| + threads - 1) / threads;
    ParallelMulIsMul(a, b, Blocks(a1, size));
  }

  // ---------------------------------------------------------------------------
  // Multiplication and division by a number
  // ---------------------------------------------------------------------------

  /** Every coefficient sent through `f`, erasing the terms whose new
      coefficient is zero. */
  function MapCf(ts: seq<T>, f: real -> real): (r: seq<T>)
    ensures Keys(r) <= Keys(ts)
    ensures forall i :: 0 <= i < |r| ==> r[i].cf != 0.0
    ensures forall i :: 0 <= i < |r| ==> exists j :: 0 <= j < |ts| && r[i] == Term(f(ts[j].cf), ts[j].key)
    decreases |ts|
  {
    if ts == [] then []
    else
      var rest := MapCf(ts[1..], f);
      InsertKeys(ts);
      if f(ts[0].cf) == 0.0 then
        assert forall j :: 0 <= j < |ts| - 1 ==> ts[1..][j] == ts[j + 1];
        rest
      else
        var r := [Term(f(ts[0].cf), ts[0].key)] + rest;
        ConsKeys(r[0], rest);
        assert forall i :: 1 <= i < |r| ==> r[i] == rest[i - 1];
        assert forall j :: 0 <= j < |ts| - 1 ==> ts[1..][j] == ts[j + 1];
        r
  }

  /** With `f(0) == 0`, every coefficient of the result is `f` of the old
      one, and the keys stay distinct. */
  lemma {:induction false} MapCfCoeff(ts: seq<T>, f: real -> real, k: Key)
    requires DistinctKeys(ts) && f(0.0) == 0.0
    ensures DistinctKeys(MapCf(ts, f))
    ensures Coeff(MapCf(ts, f), k) == f(Coeff(ts, k))
    decreases |ts|
  {
    if ts != [] {
      DistinctTail(ts);
      MapCfCoeff(ts[1..], f, k);
      var rest := MapCf(ts[1..], f);
      if ts[0].key == k {
        CoeffAbsent(ts[1..], k);
        CoeffAbsent(rest, k);
      }
      if f(ts[0].cf) != 0.0 {
        DistinctCons(Term(f(ts[0].cf), ts[0].key), rest);
        assert ([Term(f(ts[0].cf), ts[0].key)] + rest)[1..] == rest;
      }
    }
  }

  lemma MapCfValid(ring: Ring, n: nat, ts: seq<T>, f: real -> real)
    requires Normal(n, ts) && f(0.0) == 0.0
    requires forall i :: 0 <= i < |ts| ==> InRing(ring, f(ts[i].cf))
    ensures TermsValid(ring, n, MapCf(ts, f))
  {
    MapCfCoeff(ts, f, []);
  }

  /** The ring of the result of combining a series with the number `c`:
      unchanged when `c` is in it, the rationals otherwise. */
  function ResultRing(ring: Ring, c: real): Ring
  {
    if InRing(ring, c) then ring else Rationals
  }

  /** `s * c` with a number `c`: every coefficient multiplied by `c`, terms
      that vanish erased, the symbol set kept. */
  function MulScalar(s: Series, c: real): (r: Series)
    requires Valid(s)
    ensures Valid(r) && r.ss == s.ss && r.ring == ResultRing(s.ring, c)
  {
    var ring := ResultRing(s.ring, c);
    var f := (x: real) => RMul(x, c);
    forall i | 0 <= i < |s.terms| ensures InRing(ring, f(s.terms[i].cf)) {
      RingClosed(ring, s.terms[i].cf, c);
    }
    MapCfValid(ring, |s.ss|, s.terms, f);
    Series(ring, s.ss, MapCf(s.terms, f))
  }

  lemma MulScalarCoef(s: Series, c: real, e: map<string, int>)
    requires Valid(s)
    ensures Coef(MulScalar(s, c), e) == RMul(Coef(s, e), c)
  {
    var f := (x: real) => RMul(x, c);
    assert f(0.0) == 0.0;
    MapCfCoeff(s.terms, f, KeyOf(e, s.ss));
  }

  /** The quotient of a coefficient by a nonzero number of the ring:
      truncated toward zero on integers (mp++ `tdiv_q`), exact on rationals. */
  function CfDiv(ring: Ring, a: real, c: real): (q: real)
    requires c != 0.0 && InRing(ring, c)
    ensures InRing(ring, q)
    ensures a == 0.0 ==> q == 0.0
  {
    if ring == Integers then
      TruncDivUnique(0, c.Floor, 0);
      TruncDiv(a.Floor, c.Floor) as real
    else
      a / c
  }

  /** `s / c` with a number `c`: dividing by zero throws
      `zero_division_error`, even for an empty series; otherwise every
      coefficient is divided and the terms whose quotient is zero are
      erased. */
  function DivScalar(s: Series, c: real): (r: Result<Series>)
    requires Valid(s)
    ensures r.Err? <==> c == 0.0
    ensures r.Err? ==> r.error == ZeroDivisionError
    ensures r.Ok? ==> Valid(r.value) && r.value.ss == s.ss && r.value.ring == ResultRing(s.ring, c)
  {
    if c == 0.0 then Err(ZeroDivisionError)
    else
      var ring := ResultRing(s.ring, c);
      var f := (x: real) => CfDiv(ring, x, c);
      MapCfValid(ring, |s.ss|, s.terms, f);
      Ok(Series(ring, s.ss, MapCf(s.terms, f)))
  }

  lemma DivScalarCoef(s: Series, c: real, e: map<string, int>)
    requires Valid(s) && c != 0.0
    ensures Coef(DivScalar(s, c).value, e) == CfDiv(ResultRing(s.ring, c), Coef(s, e), c)
  {
    var ring := ResultRing(s.ring, c);
    var f := (x: real) => CfDiv(ring, x, c);
    MapCfCoeff(s.terms, f, KeyOf(e, s.ss));
  }

  /** Over the rationals, multiplying the quotient back by the divisor gives
      the dividend. */
  lemma DivThenMulScalar(s: Series, c: real)
    requires Valid(s) && s.ring == Rationals && c != 0.0
    ensures Equal(MulScalar(DivScalar(s, c).value, c), s)
  {
    var q := DivScalar(s, c).value;
    forall e ensures Coef(MulScalar(q, c), e) == Coef(s, e) {
      MulScalarCoef(q, c, e);
      DivScalarCoef(s, c, e);
      DivMul(Coef(s, e), c);
    }
    EqualIffCoef(MulScalar(q, c), s);
  }

  lemma DivMul(a: real, c: real)
    requires c != 0.0
    ensures RMul(a / c, c) == a
  {
  }

  /** Over the integers, dividing by a nonzero integer undoes multiplying by
      it. */
  lemma MulThenDivScalar(s: Series, c: real)
    requires Valid(s) && s.ring == Integers && IsIntegral(c) && c != 0.0
    ensures Equal(DivScalar(MulScalar(s, c), c).value, s)
  {
    var m := MulScalar(s, c);
    forall e ensures Coef(DivScalar(m, c).value, e) == Coef(s, e) {
      MulScalarCoef(s, c, e);
      DivScalarCoef(m, c, e);
      var a := Coef(s, e);
      if Supported(e, s.ss) {
        assert InRing(s.ring, a) by {
          CoeffInRing(s.ring, |s.ss|, s.terms, KeyOf(e, s.ss));
        }
      }
      TruncMul(a, c);
    }
    EqualIffCoef(DivScalar(m, c).value, s);
  }

  lemma TruncMul(a: real, c: real)
    requires IsIntegral(a) && IsIntegral(c) && c != 0.0
    ensures TruncDiv(RMul(a, c).Floor, c.Floor) as real == a
  {
    var x, y := a.Floor, c.Floor;
    assert RMul(a, c) == (x * y) as real;
    TruncDivUnique(x * y, y, x);
  }

  /** Every coefficient of a valid container is in the ring. */
  lemma {:induction false} CoeffInRing(ring: Ring, n: nat, ts: seq<T>, k: Key)
    requires TermsValid(ring, n, ts)
    ensures InRing(ring, Coeff(ts, k))
  {
    if k in Keys(ts) {
      var i :| 0 <= i < |ts| && ts[i].key == k;
      CoeffMember(ts, i);
    } else {
      CoeffAbsent(ts, k);
    }
  }

  // ---------------------------------------------------------------------------
  // Conversion between coefficient types
  // ---------------------------------------------------------------------------

  /** mp++'s conversion of a rational to an integer: truncation toward zero. */
  function Truncate(x: real): (n: int)
    ensures IsIntegral(x) <==> n as real == x
    ensures 0.0 <= x ==> n as real <= x < n as real + 1.0
    ensures x < 0.0 ==> n as real - 1.0 < x <= n as real
  {
    if x >= 0.0 then x.Floor
    else
      var m := (-x).Floor;
      assert (-m) as real == -(m as real);
      assert IsIntegral(x) ==> m == -x.Floor by {
        if IsIntegral(x) {
          assert -x == (-x.Floor) as real;
        }
      }
      assert (-m) as real == x ==> IsIntegral(x) by {
        IntegralCast(-m);
      }
      -m
  }

  /** The value of `s` assigned to a series whose coefficient type is `ring`:
      rational coefficients converted to integers are truncated toward zero,
      and the terms that become zero are erased. Into the same or the wider
      type nothing changes. */
  function ConvertTo(s: Series, ring: Ring): (r: Series)
    requires Valid(s)
    ensures Valid(r) && r.ring == ring && r.ss == s.ss
    ensures ring == s.ring || ring == Rationals ==> r.terms == s.terms
  {
    if ring == Rationals || s.ring == Integers then Series(ring, s.ss, s.terms)
    else
      var f := (x: real) => Truncate(x) as real;
      forall i | 0 <= i < |s.terms| ensures InRing(ring, f(s.terms[i].cf)) {
        IntegralCast(Truncate(s.terms[i].cf));
      }
      MapCfValid(ring, |s.ss|, s.terms, f);
      Series(ring, s.ss, MapCf(s.terms, f))
  }

  /** Every coefficient of the converted series is the converted coefficient. */
  lemma ConvertCoef(s: Series, ring: Ring, e: map<string, int>)
    requires Valid(s)
    ensures Coef(ConvertTo(s, ring), e) == (if ring == Integers then Truncate(Coef(s, e)) as real else Coef(s, e))
  {
    if ring == Integers {
      if s.ring == Integers {
        CoeffInRing(s.ring, |s.ss|, s.terms, KeyOf(e, s.ss));
      } else {
        var f := (x: real) => Truncate(x) as real;
        MapCfCoeff(s.terms, f, KeyOf(e, s.ss));
      }
    }
  }

  /** Converting to integers loses nothing exactly when every coefficient is
      an integer. */
  lemma ConvertLossless(s: Series)
    requires Valid(s)
    ensures Equal(ConvertTo(s, Integers), s) <==> forall e :: IsIntegral(Coef(s, e))
  {
    var c := ConvertTo(s, Integers);
    forall e ensures Coef(c, e) == Truncate(Coef(s, e)) as real {
      ConvertCoef(s, Integers, e);
    }
    EqualIffCoef(c, s);
  }

  // ---------------------------------------------------------------------------
  // Hash
  // ---------------------------------------------------------------------------

  const HashModulus: int := 0x1_0000_0000_0000_0000

  /** The sum of the term hashes, each of which is the hash of the key. */
  function HashSum(keyHash: Key -> int, ts: seq<T>): int
    decreases |ts|
  {
    if ts == [] then 0 else TermHash(keyHash, ts[0]) + HashSum(keyHash, ts[1..])
  }

  /** `hash()`: the term hashes added up in the 64-bit `std::size_t`. */
  function Hash(keyHash: Key -> int, s: Series): int
  {
    HashSum(keyHash, s.terms) % HashModulus
  }

  lemma {:induction false} HashSumAppend(keyHash: Key -> int, a: seq<T>, b: seq<T>)
    ensures HashSum(keyHash, a + b) == HashSum(keyHash, a) + HashSum(keyHash, b)
    decreases |a|
  {
    if a == [] {
      assert a + b == b;
    } else {
      assert (a + b)[1..] == a[1..] + b;
      HashSumAppend(keyHash, a[1..], b);
    }
  }

  /** The loop computing the hash, one term at a time. */
  method ComputeHash(keyHash: Key -> int, s: Series) returns (h: int)
    ensures h == Hash(keyHash, s) && 0 <= h < HashModulus
  {
    var ts := s.terms;
    h := 0;
    var i := 0;
    while i < |ts|
      invariant 0 <= i <= |ts|
      invariant h == HashSum(keyHash, ts[..i]) % HashModulus
    {
      HashSumAppend(keyHash, ts[..i], [ts[i]]);
      assert ts[..i + 1] == ts[..i] + [ts[i]];
      assert [ts[i]][1..] == [];
      h := (h + TermHash(keyHash, ts[i])) % HashModulus;
      i := i + 1;
    }
    assert ts[..i] == ts;
  }

  /** The container with the term at `j` removed. */
  function RemoveAt(b: seq<T>, j: nat): (r: seq<T>)
    requires j < |b|
    ensures |r| == |b| - 1
    ensures forall p :: 0 <= p < |r| ==> r[p] == (if p < j then b[p] else b[p + 1])
  {
    b[..j] + b[j + 1..]
  }

  lemma HashSumRemove(keyHash: Key -> int, b: seq<T>, j: nat)
    requires j < |b|
    ensures HashSum(keyHash, b) == TermHash(keyHash, b[j]) + HashSum(keyHash, RemoveAt(b, j))
  {
    var x, y := b[..j], b[j + 1..];
    assert b == x + [b[j]] + y;
    HashSumAppend(keyHash, x + [b[j]], y);
    HashSumAppend(keyHash, x, [b[j]]);
    HashSumAppend(keyHash, x, y);
    HashSumSingle(keyHash, b[j]);
  }

  lemma HashSumSingle(keyHash: Key -> int, t: T)
    ensures HashSum(keyHash, [t]) == TermHash(keyHash, t)
  {
    assert [t][1..] == [];
  }

  lemma RemoveAtKeys(b: seq<T>, j: nat)
    requires DistinctKeys(b) && j < |b|
    ensures DistinctKeys(RemoveAt(b, j)) && Keys(RemoveAt(b, j)) == Keys(b) - {b[j].key}
  {
    RemoveAtDistinct(b, j);
    RemoveAtKeySet(b, j);
  }

  lemma RemoveAtDistinct(b: seq<T>, j: nat)
    requires DistinctKeys(b) && j < |b|
    ensures DistinctKeys(RemoveAt(b, j))
  {
    var r := RemoveAt(b, j);
    forall p, q | 0 <= p < q < |r| ensures r[p].key != r[q].key {
      var p0 := if p < j then p else p + 1;
      var q0 := if q < j then q else q + 1;
      assert r[p] == b[p0] && r[q] == b[q0];
    }
  }

  lemma RemoveAtKeySet(b: seq<T>, j: nat)
    requires DistinctKeys(b) && j < |b|
    ensures Keys(RemoveAt(b, j)) == Keys(b) - {b[j].key}
  {
    var r := RemoveAt(b, j);
    forall x | x in Keys(r) ensures x in Keys(b) - {b[j].key} {
      var p :| 0 <= p < |r| && r[p].key == x;
      var p0 := if p < j then p else p + 1;
      assert r[p] == b[p0];
    }
    forall x | x in Keys(b) - {b[j].key} ensures x in Keys(r) {
      var p :| 0 <= p < |b| && b[p].key == x;
      var p1 := if p < j then p else p - 1;
      assert r[p1] == b[p];
    }
  }

  /** The hash depends on the keys alone: containers with the same keys hash
      equally, whatever their coefficients and in whatever order. */
  lemma {:induction false} HashKeysOnly(keyHash: Key -> int, a: seq<T>, b: seq<T>)
    requires DistinctKeys(a) && DistinctKeys(b) && Keys(a) == Keys(b)
    ensures HashSum(keyHash, a) == HashSum(keyHash, b)
    decreases |a|
  {
    assert b != [] ==> b[0].key in Keys(b);
    if a != [] {
      assert a[0].key in Keys(a);
      var j :| 0 <= j < |b| && b[j].key == a[0].key;
      HashSumRemove(keyHash, b, j);
      RemoveAtKeys(b, j);
      DistinctTail(a);
      InsertKeys(a);
      HashKeysOnly(keyHash, a[1..], RemoveAt(b, j));
    }
  }

  /** Identical series have the same hash; the hash does not see the ring. */
  lemma HashOfIdentical(keyHash: Key -> int, a: Series, b: Series)
    requires Valid(a) && Valid(b) && IsIdentical(a, b)
    ensures Hash(keyHash, a) == Hash(keyHash, b)
  {
    assert Keys(a.terms) == Keys(b.terms) by {
      forall k | k in Keys(a.terms) ensures k in Keys(b.terms) {
        var i :| 0 <= i < |a.terms| && a.terms[i].key == k;
        assert a.terms[i] in b.terms;
      }
      forall k | k in Keys(b.terms) ensures k in Keys(a.terms) {
        var i :| 0 <= i < |b.terms| && b.terms[i].key == k;
        assert b.terms[i] in a.terms;
      }
    }
    HashKeysOnly(keyHash, a.terms, b.terms);
  }

  // ---------------------------------------------------------------------------
  // Queries
  // ---------------------------------------------------------------------------

  /** `is_zero`: the series has no terms. */
  predicate IsZero(s: Series)
  {
    s.terms == []
  }

  /** The monomial 1: no symbol has a nonzero exponent. */
  predicate IsConstantMonomial(e: map<string, int>)
  {
    forall x :: x in e ==> e[x] == 0
  }

  /** The monomial of a stored key, which the series gives the stored
      coefficient; it is not the monomial 1 when the key has a nonzero
      exponent. */
  lemma StoredMonomial(s: Series, j: nat)
    requires Valid(s) && j < |s.terms|
    ensures Coef(s, MonomialOf(s.terms[j].key, s.ss)) == s.terms[j].cf != 0.0
    ensures (exists i :: 0 <= i < |s.ss| && s.terms[j].key[i] != 0) ==> !IsConstantMonomial(MonomialOf(s.terms[j].key, s.ss))
  {
    var k := s.terms[j].key;
    MonomialOfKey(k, s.ss);
    CoeffMember(s.terms, j);
    if exists i :: 0 <= i < |s.ss| && k[i] != 0 {
      var i :| 0 <= i < |s.ss| && k[i] != 0;
      IndexOfSorted(s.ss, i);
      assert MonomialOf(k, s.ss)[s.ss[i]] != 0;
    }
  }

  /** A series is zero exactly when every coefficient is zero. */
  lemma IsZeroIff(s: Series)
    requires Valid(s)
    ensures IsZero(s) <==> forall e :: Coef(s, e) == 0.0
  {
    if !IsZero(s) {
      StoredMonomial(s, 0);
    }
  }

  /** `is_single_coefficient`: no terms, or one term whose exponents are all
      zero. */
  predicate IsSingleCoefficient(s: Series)
  {
    s.terms == [] || (|s.terms| == 1 && forall i :: 0 <= i < |s.terms[0].key| ==> s.terms[0].key[i] == 0)
  }

  /** A series is a single coefficient exactly when it gives every monomial
      other than 1 the coefficient zero. */
  lemma SingleCoefficientIff(s: Series)
    requires Valid(s)
    ensures IsSingleCoefficient(s) <==> forall e :: !IsConstantMonomial(e) ==> Coef(s, e) == 0.0
  {
    if IsSingleCoefficient(s) {
      forall e | !IsConstantMonomial(e) ensures Coef(s, e) == 0.0 {
        if s.terms != [] && Supported(e, s.ss) {
          var x :| x in e && e[x] != 0;
          var i := IndexOf(s.ss, x);
          var k := KeyOf(e, s.ss);
          assert i < |s.ss| && k[i] == e[x];
          assert |s.terms[0].key| == |s.ss| && s.terms[0].key[i] == 0;
          assert s.terms[0].key != k;
          assert s.terms[1..] == [];
          assert Coeff(s.terms, k) == 0.0 + Coeff([], k);
        }
      }
    } else {
      var j: nat := 0;
      if !(exists i :: 0 <= i < |s.ss| && s.terms[0].key[i] != 0) {
        j := 1;
        assert |s.terms| >= 2;
        assert s.terms[0].key != s.terms[1].key;
        assert exists i :: 0 <= i < |s.ss| && s.terms[1].key[i] != 0;
      }
      StoredMonomial(s, j);
    }
  }

  // ---------------------------------------------------------------------------
  // Iteration, filter and transform
  // ---------------------------------------------------------------------------

  type Pair = (real, Series)

  /** What the iterator yields for a term: its coefficient, and the series
      over the same symbols holding the key alone with coefficient 1. */
  function PairOf(s: Series, t: T): (p: Pair)
  {
    (t.cf, Series(s.ring, s.ss, [Term(1.0, t.key)]))
  }

  /** `begin()`..`end()`: one pair per term. */
  function Pairs(s: Series): (r: seq<Pair>)
    ensures |r| == |s.terms|
  {
    seq(|s.terms|, i requires 0 <= i < |s.terms| => PairOf(s, s.terms[i]))
  }

  /** The series of a pair gives its key coefficient 1 and every other
      monomial 0. */
  lemma PairCoef(s: Series, j: nat, e: map<string, int>)
    requires Valid(s) && j < |s.terms|
    ensures Valid(PairOf(s, s.terms[j]).1)
    ensures Coef(PairOf(s, s.terms[j]).1, e) == (if Supported(e, s.ss) && KeyOf(e, s.ss) == s.terms[j].key then 1.0 else 0.0)
  {
    var t := s.terms[j];
    var p := Series(s.ring, s.ss, [Term(1.0, t.key)]);
    assert p == PairOf(s, t).1;
    assert [Term(1.0, t.key)][1..] == [];
    var k := KeyOf(e, s.ss);
    assert Coeff(p.terms, k) == (if t.key == k then 1.0 else 0.0) + Coeff([], k);
  }

  function FilterTerms(s: Series, ts: seq<T>, pred: Pair -> bool): (r: seq<T>)
    ensures forall t :: t in r <==> t in ts && pred(PairOf(s, t))
    decreases |ts|
  {
    if ts == [] then []
    else
      var rest := FilterTerms(s, ts[1..], pred);
      assert forall t :: t in ts <==> t == ts[0] || t in ts[1..];
      if pred(PairOf(s, ts[0])) then [ts[0]] + rest else rest
  }

  /** Filtering with a predicate and with its negation splits the
      coefficients between the two results. */
  lemma {:induction false} FilterCoeff(s: Series, ts: seq<T>, pred: Pair -> bool, k: Key)
    requires DistinctKeys(ts)
    ensures DistinctKeys(FilterTerms(s, ts, pred))
    ensures Coeff(FilterTerms(s, ts, pred), k) + Coeff(FilterTerms(s, ts, p => !pred(p)), k) == Coeff(ts, k)
    decreases |ts|
  {
    if ts != [] {
      DistinctTail(ts);
      FilterCoeff(s, ts[1..], pred, k);
      var rest := FilterTerms(s, ts[1..], pred);
      var rest' := FilterTerms(s, ts[1..], p => !pred(p));
      if pred(PairOf(s, ts[0])) {
        forall i | 0 <= i < |rest| ensures rest[i].key != ts[0].key {
          assert rest[i] in ts[1..];
        }
        DistinctCons(ts[0], rest);
        assert ([ts[0]] + rest)[1..] == rest;
      } else {
        var nrest := FilterTerms(s, ts[1..], p => !pred(p));
        assert ([ts[0]] + nrest)[1..] == nrest;
      }
    }
  }

  /** `filter(pred)`: exactly the terms whose pair satisfies `pred`. */
  function Filter(s: Series, pred: Pair -> bool): (r: Series)
    requires Valid(s)
    ensures Valid(r) && r.ring == s.ring && r.ss == s.ss
    ensures forall t :: t in r.terms <==> t in s.terms && pred(PairOf(s, t))
  {
    var r := FilterTerms(s, s.terms, pred);
    FilterCoeff(s, s.terms, pred, []);
    assert forall i :: 0 <= i < |r| ==> r[i] in s.terms;
    Series(s.ring, s.ss, r)
  }

  /** What a predicate keeps and what it drops add up to the series. */
  lemma FilterSplits(s: Series, pred: Pair -> bool)
    requires Valid(s)
    ensures Equal(Add(Filter(s, pred), Filter(s, p => !pred(p))), s)
  {
    var a, b := Filter(s, pred), Filter(s, p => !pred(p));
    Monomial.ReencodeLaws([], [], [], []);
    assert Merge(s.ss, s.ss) == s.ss by {
      SortedSetsEqual(Merge(s.ss, s.ss), s.ss);
    }
    forall e ensures Coef(Add(a, b), e) == Coef(s, e) {
      AddCoef(a, b, e);
      FilterCoeff(s, s.terms, pred, KeyOf(e, s.ss));
    }
    EqualIffCoef(Add(a, b), s);
  }

  /** A transform may return a pair whose series is valid over the same ring
      and whose number is in that ring. */
  predicate TransformOk(s: Series, p: Pair)
  {
    Valid(p.1) && p.1.ring == s.ring && InRing(s.ring, p.0)
  }

  /** The first `n` transformed pairs, as products `p.second * p.first`,
      added up. */
  function TransformUpTo(s: Series, f: Pair -> Pair, n: nat): (r: Series)
    requires Valid(s) && n <= |s.terms|
    requires forall i :: 0 <= i < |s.terms| ==> TransformOk(s, f(PairOf(s, s.terms[i])))
    ensures Valid(r) && r.ring == s.ring
    decreases n
  {
    if n == 0 then Zero(s.ring, [])
    else
      var p := f(PairOf(s, s.terms[n - 1]));
      Add(TransformUpTo(s, f, n - 1), MulScalar(p.1, p.0))
  }

  /** `transform(f)`: every pair of the series sent through `f`, and the
      products of the results added up. */
  function Transform(s: Series, f: Pair -> Pair): (r: Series)
    requires Valid(s)
    requires forall i :: 0 <= i < |s.terms| ==> TransformOk(s, f(PairOf(s, s.terms[i])))
    ensures Valid(r) && r.ring == s.ring
  {
    TransformUpTo(s, f, |s.terms|)
  }

  /** One more pair adds the coefficient of its product. */
  lemma TransformStep(s: Series, f: Pair -> Pair, n: nat, e: map<string, int>)
    requires Valid(s) && 0 < n <= |s.terms|
    requires forall i :: 0 <= i < |s.terms| ==> TransformOk(s, f(PairOf(s, s.terms[i])))
    ensures Coef(TransformUpTo(s, f, n), e) == Coef(TransformUpTo(s, f, n - 1), e)
              + RMul(Coef(f(PairOf(s, s.terms[n - 1])).1, e), f(PairOf(s, s.terms[n - 1])).0)
  {
    var p := f(PairOf(s, s.terms[n - 1]));
    AddCoef(TransformUpTo(s, f, n - 1), MulScalar(p.1, p.0), e);
    MulScalarCoef(p.1, p.0, e);
  }

  lemma PrefixCoeff(ts: seq<T>, n: nat, k: Key)
    requires 0 < n <= |ts|
    ensures Coeff(ts[..n], k) == Coeff(ts[..n - 1], k) + (if ts[n - 1].key == k then ts[n - 1].cf else 0.0)
  {
    assert ts[..n] == ts[..n - 1] + [ts[n - 1]];
    CoeffAppend(ts[..n - 1], [ts[n - 1]], k);
    assert [ts[n - 1]][1..] == [];
  }

  lemma ScaleStep(r: real, a: real, p: real, p': real, q: real, x: real, cf: real, c: real, hit: bool)
    requires r == a + RMul(q, x) && x == RMul(cf, c)
    requires a == RMul(p, c) && q == (if hit then 1.0 else 0.0) && p' == p + (if hit then cf else 0.0)
    ensures r == RMul(p', c)
  {
  }

  /** With a transform that scales each coefficient by `c` and keeps the
      series of the pair, the partial sums are the scaled prefixes. */
  lemma {:induction false} TransformUpToScales(s: Series, f: Pair -> Pair, c: real, n: nat, e: map<string, int>)
    requires Valid(s) && n <= |s.terms| && Supported(e, s.ss)
    requires forall i :: 0 <= i < |s.terms| ==> f(PairOf(s, s.terms[i])) == (RMul(s.terms[i].cf, c), PairOf(s, s.terms[i]).1)
    requires forall i :: 0 <= i < |s.terms| ==> TransformOk(s, f(PairOf(s, s.terms[i])))
    ensures Coef(TransformUpTo(s, f, n), e) == RMul(Coeff(s.terms[..n], KeyOf(e, s.ss)), c)
    decreases n
  {
    if n > 0 {
      TransformUpToScales(s, f, c, n - 1, e);
      ScalesStep(s, f, c, n, e);
    }
  }

  lemma ScalesStep(s: Series, f: Pair -> Pair, c: real, n: nat, e: map<string, int>)
    requires Valid(s) && 0 < n <= |s.terms| && Supported(e, s.ss)
    requires forall i :: 0 <= i < |s.terms| ==> f(PairOf(s, s.terms[i])) == (RMul(s.terms[i].cf, c), PairOf(s, s.terms[i]).1)
    requires forall i :: 0 <= i < |s.terms| ==> TransformOk(s, f(PairOf(s, s.terms[i])))
    requires Coef(TransformUpTo(s, f, n - 1), e) == RMul(Coeff(s.terms[..n - 1], KeyOf(e, s.ss)), c)
    ensures Coef(TransformUpTo(s, f, n), e) == RMul(Coeff(s.terms[..n], KeyOf(e, s.ss)), c)
  {
    var t := s.terms[n - 1];
    var p := f(PairOf(s, t));
    assert p == (RMul(t.cf, c), PairOf(s, t).1);
    TransformStep(s, f, n, e);
    PairCoef(s, n - 1, e);
    PrefixCoeff(s.terms, n, KeyOf(e, s.ss));
    ScaleStep(Coef(TransformUpTo(s, f, n), e), Coef(TransformUpTo(s, f, n - 1), e),
      Coeff(s.terms[..n - 1], KeyOf(e, s.ss)), Coeff(s.terms[..n], KeyOf(e, s.ss)),
      Coef(p.1, e), p.0, t.cf, c, t.key == KeyOf(e, s.ss));
  }

  /** A transform that keeps the series of every pair adds up series over
      the symbols of `s` only. */
  lemma {:induction false} TransformUpToSymbols(s: Series, f: Pair -> Pair, n: nat)
    requires Valid(s) && n <= |s.terms|
    requires forall i :: 0 <= i < |s.terms| ==> f(PairOf(s, s.terms[i])).1 == PairOf(s, s.terms[i]).1
    requires forall i :: 0 <= i < |s.terms| ==> TransformOk(s, f(PairOf(s, s.terms[i])))
    ensures Subset(TransformUpTo(s, f, n).ss, s.ss)
    decreases n
  {
    if n > 0 {
      var prev := TransformUpTo(s, f, n - 1);
      TransformUpToSymbols(s, f, n - 1);
      assert forall x :: x in prev.ss ==> x in s.ss;
      SymbolsStep(s, f, n);
    }
  }

  lemma SymbolsStep(s: Series, f: Pair -> Pair, n: nat)
    requires Valid(s) && 0 < n <= |s.terms|
    requires forall i :: 0 <= i < |s.terms| ==> f(PairOf(s, s.terms[i])).1 == PairOf(s, s.terms[i]).1
    requires forall i :: 0 <= i < |s.terms| ==> TransformOk(s, f(PairOf(s, s.terms[i])))
    requires Subset(TransformUpTo(s, f, n - 1).ss, s.ss)
    ensures Subset(TransformUpTo(s, f, n).ss, s.ss)
  {
    var p := f(PairOf(s, s.terms[n - 1]));
    AddWithin(TransformUpTo(s, f, n - 1), MulScalar(p.1, p.0), s.ss);
  }

  /** Adding a series over `u` to one over a subset of `u` stays within `u`. */
  lemma AddWithin(a: Series, b: Series, u: seq<string>)
    requires Valid(a) && Valid(b) && Subset(a.ss, u) && b.ss == u
    ensures Subset(Add(a, b).ss, u)
  {
  }

  lemma TransformUpToOutside(s: Series, f: Pair -> Pair, n: nat, e: map<string, int>)
    requires Valid(s) && n <= |s.terms| && !Supported(e, s.ss)
    requires forall i :: 0 <= i < |s.terms| ==> f(PairOf(s, s.terms[i])).1 == PairOf(s, s.terms[i]).1
    requires forall i :: 0 <= i < |s.terms| ==> TransformOk(s, f(PairOf(s, s.terms[i])))
    ensures Coef(TransformUpTo(s, f, n), e) == 0.0
  {
    TransformUpToSymbols(s, f, n);
  }

  /** A transform that multiplies every coefficient by `c` gives the series
      times `c`. */
  lemma TransformScales(s: Series, f: Pair -> Pair, c: real)
    requires Valid(s) && InRing(s.ring, c)
    requires forall i :: 0 <= i < |s.terms| ==> f(PairOf(s, s.terms[i])) == (RMul(s.terms[i].cf, c), PairOf(s, s.terms[i]).1)
    requires forall i :: 0 <= i < |s.terms| ==> TransformOk(s, f(PairOf(s, s.terms[i])))
    ensures Equal(Transform(s, f), MulScalar(s, c))
  {
    forall e ensures Coef(Transform(s, f), e) == Coef(MulScalar(s, c), e) {
      if Supported(e, s.ss) {
        TransformUpToScales(s, f, c, |s.terms|, e);
      } else {
        TransformUpToOutside(s, f, |s.terms|, e);
      }
      assert s.terms[..|s.terms|] == s.terms;
      MulScalarCoef(s, c, e);
    }
    EqualIffCoef(Transform(s, f), MulScalar(s, c));
  }

  /** Summing the products of the pairs the iteration yields rebuilds the
      series: the identity transform gives back an equal series. */
  lemma TransformIdentity(s: Series)
    requires Valid(s)
    ensures forall i :: 0 <= i < |s.terms| ==> TransformOk(s, PairOf(s, s.terms[i]))
    ensures Equal(Transform(s, p => p), s)
  {
    forall i | 0 <= i < |s.terms| ensures TransformOk(s, PairOf(s, s.terms[i])) {
      PairCoef(s, i, map[]);
    }
    TransformScales(s, p => p, 1.0);
    forall e ensures Coef(MulScalar(s, 1.0), e) == Coef(s, e) {
      MulScalarCoef(s, 1.0, e);
    }
    EqualIffCoef(MulScalar(s, 1.0), s);
    EqualIffCoef(Transform(s, p => p), MulScalar(s, 1.0));
    EqualIffCoef(Transform(s, p => p), s);
  }

  // ---------------------------------------------------------------------------
  // Trim
  // ---------------------------------------------------------------------------

  /** The mask `trim()` computes: a symbol is marked when its exponent is zero
      in every term. */
  function TrimMask(s: Series): (mask: seq<bool>)
    requires Valid(s)
    ensures |mask| == |s.ss|
  {
    seq(|s.ss|, i requires 0 <= i < |s.ss| => forall j :: 0 <= j < |s.terms| ==> s.terms[j].key[i] == 0)
  }

  /** The exponents at the marked places are all zero. */
  predicate ZeroWhereMasked(m: seq<int>, mask: seq<bool>)
  {
    |m| == |mask| && forall i :: 0 <= i < |m| && mask[i] ==> m[i] == 0
  }

  lemma {:induction false} KeepLength(m: seq<int>, ss: seq<string>, mask: seq<bool>)
    requires |m| == |ss| == |mask|
    ensures |Monomial.KeepExponents(m, mask)| == |Keep(ss, mask)|
    decreases |m|
  {
    if m != [] {
      KeepLength(m[1..], ss[1..], mask[1..]);
    }
  }

  /** Dropping the marked exponents of a monomial's key gives its key over
      the symbols that are kept. */
  lemma {:induction false} KeepKeyOf(e: map<string, int>, ss: seq<string>, mask: seq<bool>)
    requires |mask| == |ss|
    ensures Monomial.KeepExponents(KeyOf(e, ss), mask) == KeyOf(e, Keep(ss, mask))
    decreases |ss|
  {
    if ss != [] {
      assert KeyOf(e, ss)[1..] == KeyOf(e, ss[1..]);
      KeepKeyOf(e, ss[1..], mask[1..]);
      assert KeyOf(e, Keep(ss, mask)) == (if mask[0] then [] else [ExpOf(e, ss[0])]) + KeyOf(e, Keep(ss[1..], mask[1..]));
    }
  }

  /** On keys that are zero at the marked places, dropping those places loses
      nothing. */
  lemma {:induction false} KeepInjective(m1: seq<int>, m2: seq<int>, mask: seq<bool>)
    requires ZeroWhereMasked(m1, mask) && ZeroWhereMasked(m2, mask)
    requires Monomial.KeepExponents(m1, mask) == Monomial.KeepExponents(m2, mask)
    ensures m1 == m2
    decreases |m1|
  {
    if m1 != [] {
      var h1 := if mask[0] then [] else [m1[0]];
      var h2 := if mask[0] then [] else [m2[0]];
      var r1, r2 := Monomial.KeepExponents(m1[1..], mask[1..]), Monomial.KeepExponents(m2[1..], mask[1..]);
      assert h1 + r1 == h2 + r2;
      if mask[0] {
        assert h1 + r1 == r1 && h2 + r2 == r2;
      } else {
        assert (h1 + r1)[0] == m1[0] && (h2 + r2)[0] == m2[0];
        assert (h1 + r1)[1..] == r1 && (h2 + r2)[1..] == r2;
      }
      KeepInjective(m1[1..], m2[1..], mask[1..]);
      assert m1 == [m1[0]] + m1[1..] && m2 == [m2[0]] + m2[1..];
    }
  }

  /** Every key with its marked exponents dropped. */
  function TrimTerms(ts: seq<T>, mask: seq<bool>): (r: seq<T>)
    requires forall j :: 0 <= j < |ts| ==> |ts[j].key| == |mask|
    ensures |r| == |ts|
    ensures forall j :: 0 <= j < |ts| ==> r[j] == Term(ts[j].cf, Monomial.KeepExponents(ts[j].key, mask))
  {
    seq(|ts|, j requires 0 <= j < |ts| => Term(ts[j].cf, Monomial.KeepExponents(ts[j].key, mask)))
  }

  lemma {:induction false} TrimCoeff(ts: seq<T>, mask: seq<bool>, k: Key)
    requires forall j :: 0 <= j < |ts| ==> |ts[j].key| == |mask| && ZeroWhereMasked(ts[j].key, mask)
    requires ZeroWhereMasked(k, mask)
    ensures Coeff(TrimTerms(ts, mask), Monomial.KeepExponents(k, mask)) == Coeff(ts, k)
    decreases |ts|
  {
    if ts != [] {
      assert TrimTerms(ts, mask)[1..] == TrimTerms(ts[1..], mask);
      TrimCoeff(ts[1..], mask, k);
      if Monomial.KeepExponents(ts[0].key, mask) == Monomial.KeepExponents(k, mask) {
        KeepInjective(ts[0].key, k, mask);
      }
    }
  }

  /** `trim()`: the symbols marked by the mask are removed from the symbol set
      and every key. */
  function Trim(s: Series): (r: Series)
    requires Valid(s)
    ensures Valid(r) && r.ring == s.ring && r.ss == Keep(s.ss, TrimMask(s))
  {
    var mask := TrimMask(s);
    var ts := TrimTerms(s.terms, mask);
    SubseqSorted(Keep(s.ss, mask), s.ss);
    forall j | 0 <= j < |ts| ensures |ts[j].key| == |Keep(s.ss, mask)| {
      KeepLength(s.terms[j].key, s.ss, mask);
    }
    forall i, j | 0 <= i < j < |ts| ensures ts[i].key != ts[j].key {
      if ts[i].key == ts[j].key {
        KeepInjective(s.terms[i].key, s.terms[j].key, mask);
      }
    }
    Series(s.ring, Keep(s.ss, mask), ts)
  }

  /** Trimming does not change what the series means. */
  lemma TrimCoef(s: Series, e: map<string, int>)
    requires Valid(s)
    ensures Coef(Trim(s), e) == Coef(s, e)
  {
    var mask := TrimMask(s);
    var kept := Keep(s.ss, mask);
    var k := KeyOf(e, s.ss);
    SubseqMembers(kept, s.ss);
    if Supported(e, s.ss) {
      if ZeroWhereMasked(k, mask) {
        KeepKeyOf(e, s.ss, mask);
        TrimCoeff(s.terms, mask, k);
        forall x | x in e && e[x] != 0 ensures x in kept {
          var i := IndexOf(s.ss, x);
          assert k[i] != 0;
        }
      } else {
        var i :| 0 <= i < |k| && mask[i] && k[i] != 0;
        assert k !in Keys(s.terms) by {
          forall j | 0 <= j < |s.terms| ensures s.terms[j].key != k {
            assert s.terms[j].key[i] == 0;
          }
        }
        CoeffAbsent(s.terms, k);
        assert s.ss[i] !in kept by {
          forall i' | 0 <= i' < |s.ss| && s.ss[i'] == s.ss[i] ensures mask[i'] {
            IndexOfSorted(s.ss, i);
            IndexOfSorted(s.ss, i');
          }
        }
        assert !Supported(e, kept);
      }
    }
  }

  lemma TrimEqual(s: Series)
    requires Valid(s)
    ensures Equal(Trim(s), s)
  {
    forall e ensures Coef(Trim(s), e) == Coef(s, e) {
      TrimCoef(s, e);
    }
    EqualIffCoef(Trim(s), s);
  }

  /** After trimming, the symbol set holds exactly the symbols that occur with
      a nonzero exponent in a monomial with a nonzero coefficient. */
  lemma TrimSymbols(s: Series, x: string)
    requires Valid(s)
    ensures x in Trim(s).ss <==> x in s.ss && exists e :: Coef(s, e) != 0.0 && ExpOf(e, x) != 0
  {
    var mask := TrimMask(s);
    SubseqMembers(Keep(s.ss, mask), s.ss);
    if x in Trim(s).ss {
      var i :| 0 <= i < |s.ss| && s.ss[i] == x && !mask[i];
      var j :| 0 <= j < |s.terms| && s.terms[j].key[i] != 0;
      StoredMonomial(s, j);
      IndexOfSorted(s.ss, i);
      var e := MonomialOf(s.terms[j].key, s.ss);
      assert Coef(s, e) != 0.0 && ExpOf(e, x) != 0;
    }
    if x in s.ss && exists e :: Coef(s, e) != 0.0 && ExpOf(e, x) != 0 {
      var e :| Coef(s, e) != 0.0 && ExpOf(e, x) != 0;
      var k := KeyOf(e, s.ss);
      if k !in Keys(s.terms) {
        CoeffAbsent(s.terms, k);
      }
      var j :| 0 <= j < |s.terms| && s.terms[j].key == k;
      var i := IndexOf(s.ss, x);
      assert s.terms[j].key[i] != 0;
      assert !mask[i];
    }
  }
}
