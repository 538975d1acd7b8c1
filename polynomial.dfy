/** `polynomial`: a series whose keys are monomials, with what polynomials add
    to series: the total and partial degree and low degree, degree truncation,
    coefficient lookup by exponent vector, integral linear combinations, and
    exponentiation and inversion. */
module Polynomial {
  import opened Wrappers
  import IntegerMath
  import opened SymbolUtils
  import opened Terms
  import opened Series
  import Monomial
  import MachineInt

  // ---------------------------------------------------------------------------
  // Degree
  // ---------------------------------------------------------------------------

  /** The largest value `f` takes on the keys of `ts`, 0 when there is no
      term. */
  function MaxOver(ts: seq<T>, f: Key -> int): (d: int)
    ensures ts == [] ==> d == 0
    ensures forall i :: 0 <= i < |ts| ==> f(ts[i].key) <= d
    ensures ts != [] ==> exists i :: 0 <= i < |ts| && f(ts[i].key) == d
    decreases |ts|
  {
    if ts == [] then 0
    else if |ts| == 1 then f(ts[0].key)
    else
      var rest := MaxOver(ts[1..], f);
      assert forall i :: 1 <= i < |ts| ==> ts[i] == ts[1..][i - 1];
      assert exists i :: 1 <= i < |ts| && f(ts[i].key) == rest by {
        var j :| 0 <= j < |ts[1..]| && f(ts[1..][j].key) == rest;
        assert ts[j + 1] == ts[1..][j];
      }
      if f(ts[0].key) >= rest then f(ts[0].key) else rest
  }

  /** The smallest value `f` takes on the keys of `ts`, 0 when there is no
      term. */
  function MinOver(ts: seq<T>, f: Key -> int): (d: int)
    ensures ts == [] ==> d == 0
    ensures forall i :: 0 <= i < |ts| ==> d <= f(ts[i].key)
    ensures ts != [] ==> exists i :: 0 <= i < |ts| && f(ts[i].key) == d
    decreases |ts|
  {
    if ts == [] then 0
    else if |ts| == 1 then f(ts[0].key)
    else
      var rest := MinOver(ts[1..], f);
      assert forall i :: 1 <= i < |ts| ==> ts[i] == ts[1..][i - 1];
      assert exists i :: 1 <= i < |ts| && f(ts[i].key) == rest by {
        var j :| 0 <= j < |ts[1..]| && f(ts[1..][j].key) == rest;
        assert ts[j + 1] == ts[1..][j];
      }
      if f(ts[0].key) <= rest then f(ts[0].key) else rest
  }

  /** The degree of a monomial: the sum of its exponents. */
  function KeyDegree(k: Key): int
  {
    Monomial.Sum(k)
  }

  /** The exponents of `k` at the positions whose symbol is one of `names`,
      summed: names outside the symbol set count for nothing, and a name
      listed twice counts once. */
  function PartialSum(k: Key, ss: seq<string>, names: seq<string>): int
    decreases |k|
  {
    if k == [] || ss == [] then 0
    else (if ss[0] in names then k[0] else 0) + PartialSum(k[1..], ss[1..], names)
  }

  /** `degree()`: the largest total degree of a term, 0 for the empty
      series. */
  function Degree(s: Series): (d: int)
    ensures s.terms == [] ==> d == 0
    ensures forall i :: 0 <= i < |s.terms| ==> KeyDegree(s.terms[i].key) <= d
    ensures s.terms != [] ==> exists i :: 0 <= i < |s.terms| && KeyDegree(s.terms[i].key) == d
  {
    MaxOver(s.terms, KeyDegree)
  }

  /** `ldegree()`: the smallest total degree of a term, 0 for the empty
      series. */
  function LDegree(s: Series): (d: int)
    ensures s.terms == [] ==> d == 0
    ensures forall i :: 0 <= i < |s.terms| ==> d <= KeyDegree(s.terms[i].key)
    ensures s.terms != [] ==> exists i :: 0 <= i < |s.terms| && KeyDegree(s.terms[i].key) == d
  {
    MinOver(s.terms, KeyDegree)
  }

  /** `degree(names)`: the largest partial degree of a term over `names`. */
  function PartialDegree(s: Series, names: seq<string>): (d: int)
    ensures s.terms == [] ==> d == 0
    ensures forall i :: 0 <= i < |s.terms| ==> PartialSum(s.terms[i].key, s.ss, names) <= d
    ensures s.terms != [] ==> exists i :: 0 <= i < |s.terms| && PartialSum(s.terms[i].key, s.ss, names) == d
  {
    MaxOver(s.terms, k => PartialSum(k, s.ss, names))
  }

  /** `ldegree(names)`: the smallest partial degree of a term over `names`. */
  function PartialLDegree(s: Series, names: seq<string>): (d: int)
    ensures s.terms == [] ==> d == 0
    ensures forall i :: 0 <= i < |s.terms| ==> d <= PartialSum(s.terms[i].key, s.ss, names)
    ensures s.terms != [] ==> exists i :: 0 <= i < |s.terms| && PartialSum(s.terms[i].key, s.ss, names) == d
  {
    MinOver(s.terms, k => PartialSum(k, s.ss, names))
  }

  /** Over names that include every symbol, the partial degree of a key is its
      total degree; over names that include none, it is 0. */
  lemma {:induction false} PartialSumCases(k: Key, ss: seq<string>, names: seq<string>)
    requires |k| == |ss|
    ensures (forall i :: 0 <= i < |ss| ==> ss[i] in names) ==> PartialSum(k, ss, names) == KeyDegree(k)
    ensures (forall i :: 0 <= i < |ss| ==> ss[i] !in names) ==> PartialSum(k, ss, names) == 0
    decreases |k|
  {
    if k != [] {
      assert forall i :: 1 <= i < |ss| ==> ss[i] == ss[1..][i - 1];
      PartialSumCases(k[1..], ss[1..], names);
      Monomial.SumCons(k[0], k[1..]);
      assert [k[0]] + k[1..] == k;
    }
  }

  /** Only which names are listed matters, not their order or repetitions. */
  lemma {:induction false} PartialSumNamesAsSet(k: Key, ss: seq<string>, names: seq<string>, names': seq<string>)
    requires forall x :: x in names <==> x in names'
    ensures PartialSum(k, ss, names) == PartialSum(k, ss, names')
    decreases |k|
  {
    if k != [] && ss != [] {
      PartialSumNamesAsSet(k[1..], ss[1..], names, names');
    }
  }

  /** The degree is the largest degree among the monomials the series gives a
      nonzero coefficient, and the low degree the smallest. */
  lemma DegreeOfCoefficients(s: Series)
    requires Valid(s)
    ensures forall e :: Coef(s, e) != 0.0 ==>
              LDegree(s) <= KeyDegree(KeyOf(e, s.ss)) <= Degree(s)
    ensures s.terms != [] ==> exists e :: Coef(s, e) != 0.0 && KeyDegree(KeyOf(e, s.ss)) == Degree(s)
    ensures s.terms != [] ==> exists e :: Coef(s, e) != 0.0 && KeyDegree(KeyOf(e, s.ss)) == LDegree(s)
  {
    forall e | Coef(s, e) != 0.0 ensures LDegree(s) <= KeyDegree(KeyOf(e, s.ss)) <= Degree(s) {
      var k := KeyOf(e, s.ss);
      if k !in Keys(s.terms) {
        CoeffAbsent(s.terms, k);
      }
      var i :| 0 <= i < |s.terms| && s.terms[i].key == k;
    }
    if s.terms != [] {
      var i :| 0 <= i < |s.terms| && KeyDegree(s.terms[i].key) == Degree(s);
      StoredMonomial(s, i);
      MonomialOfKey(s.terms[i].key, s.ss);
      var j :| 0 <= j < |s.terms| && KeyDegree(s.terms[j].key) == LDegree(s);
      StoredMonomial(s, j);
      MonomialOfKey(s.terms[j].key, s.ss);
    }
  }

  /** Over names listing every symbol the partial degrees are the total ones;
      over names listing none of them they are 0. */
  lemma PartialDegreeCases(s: Series, names: seq<string>)
    requires Valid(s)
    ensures (forall x :: x in s.ss ==> x in names) ==>
              PartialDegree(s, names) == Degree(s) && PartialLDegree(s, names) == LDegree(s)
    ensures (forall x :: x in s.ss ==> x !in names) ==>
              PartialDegree(s, names) == 0 && PartialLDegree(s, names) == 0
  {
    if forall x :: x in s.ss ==> x in names {
      PartialDegreeAll(s, names);
    }
    if forall x :: x in s.ss ==> x !in names {
      PartialDegreeNone(s, names);
    }
  }

  /** Names listing every symbol. */
  lemma PartialDegreeAll(s: Series, names: seq<string>)
    requires Valid(s) && forall x :: x in s.ss ==> x in names
    ensures PartialDegree(s, names) == Degree(s) && PartialLDegree(s, names) == LDegree(s)
  {
    PartialSumsAll(s, names);
    if s.terms != [] {
      PartialMaxAll(s, names);
      PartialMinAll(s, names);
    }
  }

  /** Over names listing every symbol, each term's partial degree is its total one. */
  lemma PartialSumsAll(s: Series, names: seq<string>)
    requires Valid(s) && forall x :: x in s.ss ==> x in names
    ensures forall i :: 0 <= i < |s.terms| ==> PartialSum(s.terms[i].key, s.ss, names) == KeyDegree(s.terms[i].key)
  {
    forall i | 0 <= i < |s.terms|
      ensures PartialSum(s.terms[i].key, s.ss, names) == KeyDegree(s.terms[i].key)
    {
      PartialSumCases(s.terms[i].key, s.ss, names);
    }
  }

  /** The largest partial degree then is the largest total one. */
  lemma PartialMaxAll(s: Series, names: seq<string>)
    requires forall i :: 0 <= i < |s.terms| ==> PartialSum(s.terms[i].key, s.ss, names) == KeyDegree(s.terms[i].key)
    requires s.terms != []
    ensures PartialDegree(s, names) == Degree(s)
  {
    var i :| 0 <= i < |s.terms| && KeyDegree(s.terms[i].key) == Degree(s);
    var j :| 0 <= j < |s.terms| && PartialSum(s.terms[j].key, s.ss, names) == PartialDegree(s, names);
  }

  /** And the smallest partial degree the smallest total one. */
  lemma PartialMinAll(s: Series, names: seq<string>)
    requires forall i :: 0 <= i < |s.terms| ==> PartialSum(s.terms[i].key, s.ss, names) == KeyDegree(s.terms[i].key)
    requires s.terms != []
    ensures PartialLDegree(s, names) == LDegree(s)
  {
    var i :| 0 <= i < |s.terms| && KeyDegree(s.terms[i].key) == LDegree(s);
    var j :| 0 <= j < |s.terms| && PartialSum(s.terms[j].key, s.ss, names) == PartialLDegree(s, names);
  }

  /** Names listing none of the symbols. */
  lemma PartialDegreeNone(s: Series, names: seq<string>)
    requires Valid(s) && forall x :: x in s.ss ==> x !in names
    ensures PartialDegree(s, names) == 0 && PartialLDegree(s, names) == 0
  {
    forall i | 0 <= i < |s.terms|
      ensures PartialSum(s.terms[i].key, s.ss, names) == 0
    {
      PartialSumCases(s.terms[i].key, s.ss, names);
    }
    if s.terms != [] {
      var j :| 0 <= j < |s.terms| && PartialSum(s.terms[j].key, s.ss, names) == PartialDegree(s, names);
      var j' :| 0 <= j' < |s.terms| && PartialSum(s.terms[j'].key, s.ss, names) == PartialLDegree(s, names);
    }
  }

  // ---------------------------------------------------------------------------
  // Degree truncation
  // ---------------------------------------------------------------------------

  /** The series of a pair holds one key: its degree is that key's degree. */
  lemma PairDegree(s: Series, t: T, names: seq<string>)
    ensures Degree(PairOf(s, t).1) == KeyDegree(t.key)
    ensures PartialDegree(PairOf(s, t).1, names) == PartialSum(t.key, s.ss, names)
  {
    var p := PairOf(s, t).1;
    assert p.terms == [Term(1.0, t.key)];
  }

  /** `truncate_degree(d)`: `filter` keeping the terms of degree at most
      `d`; the bound may be a rational. */
  function TruncateDegree(s: Series, d: real): (r: Series)
    requires Valid(s)
    ensures Valid(r) && r.ring == s.ring && r.ss == s.ss
    ensures forall t :: t in r.terms <==> t in s.terms && KeyDegree(t.key) as real <= d
  {
    forall t: T ensures Degree(PairOf(s, t).1) == KeyDegree(t.key) {
      PairDegree(s, t, []);
    }
    Filter(s, (p: Pair) => Degree(p.1) as real <= d)
  }

  /** `truncate_degree(d, names)`: `filter` keeping the terms whose partial
      degree over `names` is at most `d`. */
  function TruncatePartialDegree(s: Series, d: real, names: seq<string>): (r: Series)
    requires Valid(s)
    ensures Valid(r) && r.ring == s.ring && r.ss == s.ss
    ensures forall t :: t in r.terms <==> t in s.terms && PartialSum(t.key, s.ss, names) as real <= d
  {
    forall t: T ensures PartialDegree(PairOf(s, t).1, names) == PartialSum(t.key, s.ss, names) {
      PairDegree(s, t, names);
    }
    Filter(s, (p: Pair) => PartialDegree(p.1, names) as real <= d)
  }

  /** A normal container holding exactly the terms of another whose key passes
      `keep` gives a passing key the same coefficient and every other key 0. */
  lemma KeptCoeff(a: seq<T>, b: seq<T>, keep: Key -> bool, k: Key)
    requires DistinctKeys(a) && DistinctKeys(b)
    requires forall t :: t in a <==> t in b && keep(t.key)
    ensures Coeff(a, k) == if keep(k) then Coeff(b, k) else 0.0
  {
    if k in Keys(b) {
      var j :| 0 <= j < |b| && b[j].key == k;
      CoeffMember(b, j);
      if keep(k) {
        assert b[j] in a;
        var i :| 0 <= i < |a| && a[i] == b[j];
        CoeffMember(a, i);
      } else {
        assert k !in Keys(a) by {
          forall i | 0 <= i < |a| ensures a[i].key != k {
            assert a[i] in a;
          }
        }
        CoeffAbsent(a, k);
      }
    } else {
      assert k !in Keys(a) by {
        forall i | 0 <= i < |a| ensures a[i].key != k {
          assert a[i] in a;
          var j :| 0 <= j < |b| && b[j] == a[i];
        }
      }
      CoeffAbsent(a, k);
      CoeffAbsent(b, k);
    }
  }

  /** Truncation keeps the coefficient of every monomial of degree at most `d`
      and zeroes every other. */
  lemma TruncateDegreeCoef(s: Series, d: real, e: map<string, int>)
    requires Valid(s)
    ensures Coef(TruncateDegree(s, d), e) ==
              if KeyDegree(KeyOf(e, s.ss)) as real <= d then Coef(s, e) else 0.0
  {
    KeptCoeff(TruncateDegree(s, d).terms, s.terms, k => KeyDegree(k) as real <= d, KeyOf(e, s.ss));
  }

  /** Partial truncation keeps the coefficient of every monomial whose partial
      degree is at most `d` and zeroes every other. */
  lemma TruncatePartialDegreeCoef(s: Series, d: real, names: seq<string>, e: map<string, int>)
    requires Valid(s)
    ensures Coef(TruncatePartialDegree(s, d, names), e) ==
              if PartialSum(KeyOf(e, s.ss), s.ss, names) as real <= d then Coef(s, e) else 0.0
  {
    KeptCoeff(TruncatePartialDegree(s, d, names).terms, s.terms,
              k => PartialSum(k, s.ss, names) as real <= d, KeyOf(e, s.ss));
  }

  /** A bound at or above the degree keeps the whole series. */
  lemma TruncateAboveDegree(s: Series, d: real)
    requires Valid(s) && Degree(s) as real <= d
    ensures IsIdentical(TruncateDegree(s, d), s)
  {
    forall t | t in s.terms ensures KeyDegree(t.key) as real <= d {
      var i :| 0 <= i < |s.terms| && s.terms[i] == t;
    }
  }

  /** Names none of which is a symbol of the series give every term partial
      degree 0, so a bound of 0 or more keeps the whole series; names that
      include every symbol truncate by total degree. */
  lemma TruncatePartialCases(s: Series, d: real, names: seq<string>)
    requires Valid(s)
    ensures (forall x :: x in s.ss ==> x !in names) && 0.0 <= d ==>
              IsIdentical(TruncatePartialDegree(s, d, names), s)
    ensures (forall x :: x in s.ss ==> x in names) ==>
              IsIdentical(TruncatePartialDegree(s, d, names), TruncateDegree(s, d))
  {
    forall t | t in s.terms
      ensures (forall x :: x in s.ss ==> x in names) ==> PartialSum(t.key, s.ss, names) == KeyDegree(t.key)
      ensures (forall x :: x in s.ss ==> x !in names) ==> PartialSum(t.key, s.ss, names) == 0
    {
      var i :| 0 <= i < |s.terms| && s.terms[i] == t;
      PartialSumCases(t.key, s.ss, names);
    }
  }

  // ---------------------------------------------------------------------------
  // Coefficient lookup
  // ---------------------------------------------------------------------------

  /** `find_cf(exps)`: the coefficient stored for the monomial with the given
      exponents, 0 when there is none. The key constructor throws
      `invalid_argument` when the vector's length differs from the number of
      symbols, and a value the exponent type cannot hold throws too. */
  function FindCf(s: Series, exps: seq<int>, et: Monomial.ExpoType): (r: Result<real>)
    requires Valid(s)
    ensures r.Err? <==> |exps| != |s.ss| || !Monomial.Valid(et, exps)
    ensures r.Err? ==> IsInvalidArgument(r.error)
    ensures r.Ok? ==> (r.value != 0.0 <==> exps in Keys(s.terms))
    ensures r.Ok? ==> forall i :: 0 <= i < |s.terms| && s.terms[i].key == exps ==> r.value == s.terms[i].cf
  {
    if |exps| != |s.ss| then Err(InvalidArgument)
    else if !Monomial.Valid(et, exps) then Err(SafeCastFailure)
    else
      CoeffLookup(s.terms, exps);
      Ok(Coeff(s.terms, exps))
  }

  /** In a container with distinct keys and nonzero coefficients, a key's
      coefficient is nonzero exactly when the key is stored, and it is then
      the stored one. */
  lemma CoeffLookup(ts: seq<T>, k: Key)
    requires DistinctKeys(ts) && forall i :: 0 <= i < |ts| ==> ts[i].cf != 0.0
    ensures Coeff(ts, k) != 0.0 <==> k in Keys(ts)
    ensures forall i :: 0 <= i < |ts| && ts[i].key == k ==> Coeff(ts, k) == ts[i].cf
  {
    if k in Keys(ts) {
      var i :| 0 <= i < |ts| && ts[i].key == k;
      CoeffMember(ts, i);
    } else {
      CoeffAbsent(ts, k);
    }
  }

  /** Looking up the key of a monomial gives the coefficient the series gives
      that monomial. */
  lemma FindCfCoef(s: Series, e: map<string, int>, et: Monomial.ExpoType)
    requires Valid(s) && Supported(e, s.ss) && Monomial.Valid(et, KeyOf(e, s.ss))
    ensures FindCf(s, KeyOf(e, s.ss), et) == Ok(Coef(s, e))
  {
  }

  /** The test values beside `3x + 4y` (see `FindCfPair`): the empty series
      over no symbol gives 0 for `{}` and throws for `{1}`; and a `long`
      maximum (or any value past the `int` maximum) does not fit an `int`
      exponent. */
  lemma FindCfExamples(ring: Ring)
    ensures FindCf(Series(ring, [], []), [], Monomial.Fixed(MachineInt.Int)) == Ok(0.0)
    ensures FindCf(Series(ring, [], []), [1], Monomial.Fixed(MachineInt.Int)) == Err(InvalidArgument)
    ensures FindCf(Series(ring, ["x"], [Term(1.0, [1])]), [MachineInt.Max(MachineInt.Int) + 1],
                   Monomial.Fixed(MachineInt.Int)) == Err(SafeCastFailure)
  {
    assert Valid(Series(ring, ["x"], [Term(1.0, [1])]));
  }

  /** On `a*x + b*y` (such as `3x + 4y`), the lookups of `x` and `y` give `a`
      and `b`, that of `x*y` gives 0, and a vector of the wrong length
      throws. */
  lemma FindCfPair(p: Series, a: real, b: real)
    requires p == Series(p.ring, ["x", "y"], [Term(a, [1, 0]), Term(b, [0, 1])])
    requires a != 0.0 && b != 0.0 && InRing(p.ring, a) && InRing(p.ring, b)
    ensures Valid(p) &&
            FindCf(p, [1, 0], Monomial.Fixed(MachineInt.Int)) == Ok(a) &&
            FindCf(p, [0, 1], Monomial.Fixed(MachineInt.Int)) == Ok(b) &&
            FindCf(p, [1, 1], Monomial.Fixed(MachineInt.Int)) == Ok(0.0) &&
            FindCf(p, [2], Monomial.Fixed(MachineInt.Int)) == Err(InvalidArgument)
  {
    assert Lt("x", "y");
    assert Valid(p);
    assert p.terms[0].key == [1, 0] && p.terms[1].key == [0, 1];
    CoeffAbsent(p.terms, [1, 1]);
  }

  // ---------------------------------------------------------------------------
  // Integral linear combinations
  // ---------------------------------------------------------------------------

  /** The term is a single symbol to the first power with an integral
      coefficient. */
  predicate IntegralLinear(t: T)
  {
    (exists j :: 0 <= j < |t.key| && Monomial.LinearAt(t.key, j)) && IsIntegral(t.cf)
  }

  /** The map the terms `ts` over the symbols `ss` give: the symbol of each
      term's key, to its coefficient as an integer. A key that is not a
      single symbol throws `invalid_argument`; a coefficient that is not an
      integer fails the `safe_cast` to `integer`. */
  function Combination(ss: seq<string>, ts: seq<T>): (r: Result<map<string, int>>)
    requires forall i :: 0 <= i < |ts| ==> |ts[i].key| == |ss|
    ensures r.Ok? <==> forall i :: 0 <= i < |ts| ==> IntegralLinear(ts[i])
    ensures r.Err? ==> IsInvalidArgument(r.error)
    ensures r.Ok? ==> forall x :: x in r.value ==>
              exists i, j: nat :: 0 <= i < |ts| && Monomial.LinearAt(ts[i].key, j) && ss[j] == x
    decreases |ts|
  {
    if ts == [] then Ok(map[])
    else
      var lin := Monomial.IsLinear(ts[0].key, ss);
      assert forall i :: 1 <= i < |ts| ==> ts[i] == ts[1..][i - 1];
      if !lin.value.0 then Err(InvalidArgument)
      else if !IsIntegral(ts[0].cf) then Err(SafeCastFailure)
      else
        var rest := Combination(ss, ts[1..]);
        if rest.Err? then rest
        else
          var j := lin.value.1;
          var r := rest.value[ss[j] := ts[0].cf.Floor];
          assert forall x :: x in r ==> exists i, j: nat :: 0 <= i < |ts| && Monomial.LinearAt(ts[i].key, j) && ss[j] == x by {
            forall x | x in r ensures exists i, j: nat :: 0 <= i < |ts| && Monomial.LinearAt(ts[i].key, j) && ss[j] == x {
              if x != ss[lin.value.1] {
                var i, j: nat :| 0 <= i < |ts[1..]| && Monomial.LinearAt(ts[1..][i].key, j) && ss[j] == x;
                assert ts[i + 1] == ts[1..][i];
              }
            }
          }
          Ok(r)
  }

  /** A key that is a single symbol is that symbol at one position only, and
      two such keys of one length at the same position are equal. */
  lemma LinearSame(m1: seq<int>, m2: seq<int>, j1: nat, j2: nat)
    requires |m1| == |m2| && Monomial.LinearAt(m1, j1) && Monomial.LinearAt(m2, j2)
    ensures m1 == m2 ==> j1 == j2
    ensures j1 == j2 ==> m1 == m2
  {
    if j1 == j2 {
      assert forall p :: 0 <= p < |m1| ==> m1[p] == m2[p];
    }
  }

  /** Every term's symbol is in the map, with the term's coefficient. */
  lemma {:induction false} CombinationEntries(ss: seq<string>, ts: seq<T>, i: nat, j: nat)
    requires SortedSet(ss) && DistinctKeys(ts)
    requires forall i :: 0 <= i < |ts| ==> |ts[i].key| == |ss|
    requires Combination(ss, ts).Ok? && i < |ts| && Monomial.LinearAt(ts[i].key, j)
    ensures ss[j] in Combination(ss, ts).value
    ensures Combination(ss, ts).value[ss[j]] as real == ts[i].cf
    decreases |ts|
  {
    var lin := Monomial.IsLinear(ts[0].key, ss);
    var j0 := lin.value.1;
    assert Monomial.LinearAt(ts[0].key, j0);
    var rest := Combination(ss, ts[1..]);
    assert Combination(ss, ts) == Ok(rest.value[ss[j0] := ts[0].cf.Floor]);
    if i == 0 {
      LinearSame(ts[0].key, ts[0].key, j0, j);
    } else {
      assert ts[i] == ts[1..][i - 1];
      DistinctTail(ts);
      CombinationEntries(ss, ts[1..], i - 1, j);
      LinearSame(ts[0].key, ts[i].key, j0, j);
      assert ts[0].key != ts[i].key;
      IndexOfSorted(ss, j);
      IndexOfSorted(ss, j0);
    }
  }

  /** `integral_combination()`: the map from each symbol to its integer
      coefficient, when the polynomial is a linear combination of symbols with
      integral coefficients and no constant term; `invalid_argument`
      otherwise. */
  function IntegralCombination(s: Series): (r: Result<map<string, int>>)
    requires Valid(s)
    ensures r.Ok? <==> forall i :: 0 <= i < |s.terms| ==> IntegralLinear(s.terms[i])
    ensures r.Err? ==> IsInvalidArgument(r.error)
  {
    Combination(s.ss, s.terms)
  }

  /** The key over `ss` of the symbol `x` to the first power. */
  lemma UnitKey(x: string, ss: seq<string>, k: Key, j: nat)
    requires SortedSet(ss) && |k| == |ss| && Monomial.LinearAt(k, j)
    ensures (KeyOf(map[x := 1], ss) == k) <==> ss[j] == x
  {
    var u := KeyOf(map[x := 1], ss);
    if ss[j] == x {
      forall i | 0 <= i < |ss| ensures u[i] == k[i] {
        if i != j {
          assert ss[i] != ss[j] by { IndexOfSorted(ss, i); IndexOfSorted(ss, j); }
        }
      }
    } else {
      assert u[j] == 0;
    }
  }

  /** What the map means: every symbol it holds has that coefficient in the
      polynomial, and every other symbol has coefficient 0. */
  lemma IntegralCombinationCoef(s: Series, x: string)
    requires Valid(s) && IntegralCombination(s).Ok?
    ensures var m := IntegralCombination(s).value;
            Coef(s, map[x := 1]) == if x in m then m[x] as real else 0.0
  {
    var m := IntegralCombination(s).value;
    var k := KeyOf(map[x := 1], s.ss);
    if x in m {
      var i, j: nat :| 0 <= i < |s.terms| && Monomial.LinearAt(s.terms[i].key, j) && s.ss[j] == x;
      CombinationEntries(s.ss, s.terms, i, j);
      UnitKey(x, s.ss, s.terms[i].key, j);
      CoeffMember(s.terms, i);
    } else {
      assert k !in Keys(s.terms) by {
        forall i | 0 <= i < |s.terms| ensures s.terms[i].key != k {
          NotInCombination(s, x, i);
        }
      }
      CoeffAbsent(s.terms, k);
    }
  }

  lemma NotInCombination(s: Series, x: string, i: nat)
    requires Valid(s) && IntegralCombination(s).Ok? && i < |s.terms|
    requires x !in IntegralCombination(s).value
    ensures s.terms[i].key != KeyOf(map[x := 1], s.ss)
  {
    assert IntegralLinear(s.terms[i]);
    var j :| 0 <= j < |s.terms[i].key| && Monomial.LinearAt(s.terms[i].key, j);
    CombinationEntries(s.ss, s.terms, i, j);
    UnitKey(x, s.ss, s.terms[i].key, j);
  }

  /** No monomial other than a single symbol of the map has a nonzero
      coefficient: the polynomial is the linear combination the map gives. */
  lemma IntegralCombinationOnlySymbols(s: Series, e: map<string, int>)
    requires Valid(s) && IntegralCombination(s).Ok?
    ensures var m := IntegralCombination(s).value;
            Coef(s, e) != 0.0 ==> exists y :: y in m && KeyOf(e, s.ss) == KeyOf(map[y := 1], s.ss)
  {
    if Coef(s, e) != 0.0 {
      var ke := KeyOf(e, s.ss);
      if ke !in Keys(s.terms) {
        CoeffAbsent(s.terms, ke);
      }
      var i :| 0 <= i < |s.terms| && s.terms[i].key == ke;
      assert IntegralLinear(s.terms[i]);
      var j :| 0 <= j < |s.terms[i].key| && Monomial.LinearAt(s.terms[i].key, j);
      CombinationEntries(s.ss, s.terms, i, j);
      UnitKey(s.ss[j], s.ss, ke, j);
    }
  }

  // ---------------------------------------------------------------------------
  // Exponentiation and inversion
  // ---------------------------------------------------------------------------

  /** `pow(c, n)` of a coefficient of the ring: mp++ integer power (a
      negative exponent gives 1, -1 or 0) or rational power. */
  function CfPow(ring: Ring, c: real, n: int): (r: Result<real>)
    requires InRing(ring, c)
    ensures r.Err? <==> c == 0.0 && n < 0
    ensures r.Err? ==> r.error == ZeroDivisionError
    ensures r.Ok? ==> InRing(ring, r.value)
    ensures n >= 0 ==> r == Ok(IntegerMath.RealPower(c, n))
    ensures ring == Rationals ==> r == IntegerMath.RatPow(c, n)
  {
    if ring == Integers then
      var p := IntegerMath.Pow(c.Floor, n);
      if p.Err? then Err(ZeroDivisionError)
      else
        assert n >= 0 ==> IntegerMath.RealPower(c, n) == (p.value as real) by {
          if n >= 0 { IntegerPower(c, n); }
        }
        Ok(p.value as real)
    else IntegerMath.RatPow(c, n)
  }

  lemma {:induction false} IntegerPower(c: real, n: nat)
    requires IsIntegral(c)
    ensures IntegerMath.RealPower(c, n) == IntegerMath.Power(c.Floor, n) as real
  {
    if n > 0 {
      IntegerPower(c, n - 1);
      assert IntegerMath.Power(c.Floor, n) == c.Floor * IntegerMath.Power(c.Floor, n - 1);
      assert (c.Floor * IntegerMath.Power(c.Floor, n - 1)) as real == c * (IntegerMath.Power(c.Floor, n - 1) as real);
    }
  }

  /** `s` multiplied by itself `n` times, starting from 1: the loop of
      repeated multiplications `pow` runs for a natural exponent. */
  function PowNat(s: Series, n: nat): (r: Series)
    requires Valid(s)
    ensures Valid(r) && r.ring == s.ring
  {
    if n == 0 then Constant(s.ring, 1.0) else Mul(PowNat(s, n - 1), s)
  }

  /** `pow(n)`. A single term raises its coefficient to `n` and multiplies its
      exponents by `n`, for any sign of `n`; the zero series is `pow(0, n)` as
      a constant, so a negative `n` throws `zero_division_error`; any other
      series takes a natural `n` by repeated multiplication and throws
      `invalid_argument` for a negative one. */
  function Pow(s: Series, n: int): (r: Result<Series>)
    requires Valid(s)
    ensures r.Err? <==> n < 0 && |s.terms| != 1
    ensures r.Err? && s.terms == [] ==> r.error == ZeroDivisionError
    ensures r.Err? && |s.terms| >= 2 ==> r.error == InvalidArgument
    ensures r.Ok? ==> Valid(r.value) && r.value.ring == s.ring
  {
    if |s.terms| == 1 then
      var t := s.terms[0];
      var c := CfPow(s.ring, t.cf, n).value;
      var k := Monomial.Scale(t.key, n);
      Ok(Series(s.ring, s.ss, if c == 0.0 then [] else [Term(c, k)]))
    else if s.terms == [] then
      var c := CfPow(s.ring, 0.0, n);
      if c.Err? then Err(ZeroDivisionError) else Ok(Constant(s.ring, c.value))
    else if n < 0 then Err(InvalidArgument)
    else Ok(PowNat(s, n))
  }

  /** The power of a single term `c * k` is `c^n * k^n`: the series gives the
      scaled key the coefficient `c^n` and every other monomial 0. */
  lemma PowSingleTerm(s: Series, n: int, e: map<string, int>)
    requires Valid(s) && |s.terms| == 1
    ensures Coef(Pow(s, n).value, e) ==
              if Supported(e, s.ss) && KeyOf(e, s.ss) == Monomial.Scale(s.terms[0].key, n)
              then CfPow(s.ring, s.terms[0].cf, n).value else 0.0
  {
    var c := CfPow(s.ring, s.terms[0].cf, n).value;
    var k := Monomial.Scale(s.terms[0].key, n);
    var ts := if c == 0.0 then [] else [Term(c, k)];
    assert Pow(s, n).value == Series(s.ring, s.ss, ts);
    if c != 0.0 {
      var j := KeyOf(e, s.ss);
      assert ts[1..] == [];
      assert Coeff(ts, j) == (if k == j then c else 0.0) + Coeff([], j);
    }
  }

  /** Every series to the power 0 is 1, and the zero series to a positive
      power is 0. */
  lemma PowZero(s: Series, n: nat)
    requires Valid(s)
    ensures Pow(s, 0).Ok? && Equal(Pow(s, 0).value, Constant(s.ring, 1.0))
    ensures s.terms == [] && n > 0 ==> Pow(s, n).Ok? && IsZero(Pow(s, n).value)
  {
    var r := Pow(s, 0).value;
    var one := Constant(s.ring, 1.0);
    forall e ensures Coef(r, e) == Coef(one, e) {
      if |s.terms| == 1 {
        PowSingleTerm(s, 0, e);
        var k := Monomial.Scale(s.terms[0].key, 0);
        assert forall i :: 0 <= i < |k| ==> k[i] == 0;
        if Supported(e, s.ss) && !Supported(e, []) {
          var x :| x in e && e[x] != 0;
          var i := IndexOf(s.ss, x);
          assert KeyOf(e, s.ss)[i] != 0;
        }
        if Supported(e, []) {
          assert KeyOf(e, s.ss) == k;
        }
      }
    }
    EqualIffCoef(r, one);
  }

  /** `1 * s` is `s` itself when `s` is a single term. */
  lemma OneTimesSingle(s: Series)
    requires Valid(s) && |s.terms| == 1
    ensures Mul(Constant(s.ring, 1.0), s).ss == s.ss
    ensures Mul(Constant(s.ring, 1.0), s).terms == s.terms
  {
    var u := s.ss;
    var t := s.terms[0];
    var one := Constant(s.ring, 1.0);
    assert Merge([], u) == u by {
      SortedSetsEqual(Merge([], u), u);
    }
    Monomial.ReencodeLaws(t.key, u, u, u);
    assert ExtendTo(s, u).terms == s.terms;
    var z := Monomial.Reencode([], [], u);
    assert ExtendTo(one, u).terms == [Term(1.0, z)];
    assert Monomial.Add(z, t.key) == t.key;
    var row := Row(Term(1.0, z), s.terms);
    assert |row| == 1 && row[0] == t;
    assert [Term(1.0, z)][1..] == [];
    assert Cross(|u|, [Term(1.0, z)], s.terms) == row + Cross(|u|, [], s.terms);
    assert Accumulate([], row) == Accumulate(Insert([], t.key, t.cf), []);
  }

  /** The repeated product of a single term `c * k`, for `n >= 1`, is the
      single term `c^n * k^n` over the same symbols. */
  lemma {:induction false} PowNatSingle(s: Series, n: nat)
    requires Valid(s) && |s.terms| == 1 && n >= 1
    ensures PowNat(s, n).ss == s.ss
    ensures PowNat(s, n).terms == [Term(IntegerMath.RealPower(s.terms[0].cf, n), Monomial.Scale(s.terms[0].key, n))]
  {
    var t := s.terms[0];
    PowerStep(t.cf, t.key, n);
    if n == 1 {
      OneTimesSingle(s);
    } else {
      PowNatSingle(s, n - 1);
      MulByLast(PowNat(s, n - 1), s);
    }
  }

  /** One more factor multiplies the coefficient by `c` and adds `k` to the
      exponents. */
  lemma PowerStep(c: real, k: seq<int>, n: nat)
    requires n >= 1
    ensures IntegerMath.RMul(IntegerMath.RealPower(c, n - 1), c) == IntegerMath.RealPower(c, n)
    ensures Monomial.Add(Monomial.Scale(k, n - 1), k) == Monomial.Scale(k, n)
    ensures IntegerMath.RealPower(c, 1) == c && Monomial.Scale(k, 1) == k
  {
  }

  /** A single term times a single term over the same symbols, as one step of
      the repeated product. */
  lemma MulByLast(p: Series, s: Series)
    requires Valid(p) && Valid(s) && p.ss == s.ss && |p.terms| == 1 && |s.terms| == 1
    ensures Mul(p, s).ss == s.ss
    ensures Mul(p, s).terms == [Term(IntegerMath.RMul(p.terms[0].cf, s.terms[0].cf), Monomial.Add(p.terms[0].key, s.terms[0].key))]
  {
    assert p.terms[0].cf != 0.0 && s.terms[0].cf != 0.0;
    MulSingleTerms(p, s);
  }

  /** For a single term and a natural exponent, `pow` is the repeated
      product `s * s * ... * s`: equal for every `n`, and the very same
      series once `n >= 1`. */
  lemma PowSingleIsProduct(s: Series, n: nat)
    requires Valid(s) && |s.terms| == 1
    ensures Pow(s, n).Ok? && Equal(Pow(s, n).value, PowNat(s, n))
    ensures n >= 1 ==> Pow(s, n).value == PowNat(s, n)
  {
    if n == 0 {
      PowZero(s, 0);
    } else {
      PowNatSingle(s, n);
      assert PowNat(s, n).terms[0].cf != 0.0;
      assert Pow(s, n).value == PowNat(s, n);
      EqualIffCoef(PowNat(s, n), PowNat(s, n));
    }
  }

  /** `invert()` of a polynomial is `pow(-1)`. */
  function Invert(s: Series): (r: Result<Series>)
    requires Valid(s)
    ensures r == Pow(s, -1)
    ensures r.Err? <==> |s.terms| != 1
    ensures r.Err? && s.terms == [] ==> r.error == ZeroDivisionError
    ensures r.Err? && |s.terms| >= 2 ==> r.error == InvalidArgument
  {
    Pow(s, -1)
  }

  /** Over the rationals the inverse of a single term is its reciprocal: the
      product of the two is 1. */
  lemma InvertIsInverse(s: Series)
    requires Valid(s) && s.ring == Rationals && |s.terms| == 1
    ensures Equal(Mul(Invert(s).value, s), Constant(Rationals, 1.0))
  {
    var t := s.terms[0];
    var c := CfPow(Rationals, t.cf, -1).value;
    var k := Monomial.Scale(t.key, -1);
    assert IntegerMath.RealPower(t.cf, 1) == t.cf;
    assert IntegerMath.RMul(c, t.cf) == 1.0;
    var inv := Invert(s).value;
    assert inv == Series(Rationals, s.ss, [Term(c, k)]);
    MulSingleTerms(inv, s);
    var zero := Monomial.Add(k, t.key);
    assert forall i :: 0 <= i < |zero| ==> zero[i] == 0;
    ConstantOver(Rationals, s.ss, 1.0, zero);
  }

  /** Two single-term series over the same symbols multiply to the single
      term of the product of the coefficients and the sum of the exponents. */
  lemma MulSingleTerms(a: Series, b: Series)
    requires Valid(a) && Valid(b) && a.ss == b.ss
    requires |a.terms| == 1 && |b.terms| == 1
    requires IntegerMath.RMul(a.terms[0].cf, b.terms[0].cf) != 0.0
    ensures Mul(a, b).ss == a.ss
    ensures Mul(a, b).terms == [Term(IntegerMath.RMul(a.terms[0].cf, b.terms[0].cf), Monomial.Add(a.terms[0].key, b.terms[0].key))]
  {
    var u := a.ss;
    Monomial.ReencodeLaws(a.terms[0].key, u, u, u);
    Monomial.ReencodeLaws(b.terms[0].key, u, u, u);
    assert Merge(u, u) == u by {
      SortedSetsEqual(Merge(u, u), u);
    }
    assert ExtendTo(a, u).terms == a.terms;
    assert ExtendTo(b, u).terms == b.terms;
    var cross := Cross(|u|, a.terms, b.terms);
    var row := Row(a.terms[0], b.terms);
    var prod := Term(IntegerMath.RMul(a.terms[0].cf, b.terms[0].cf), Monomial.Add(a.terms[0].key, b.terms[0].key));
    assert |row| == 1 && row[0] == prod;
    assert a.terms[1..] == [];
    assert cross == row + Cross(|u|, [], b.terms);
    assert cross == [prod];
    assert Accumulate([], cross) == Accumulate(Insert([], prod.key, prod.cf), []);
  }

  /** A single term with all exponents zero is the constant it holds,
      whatever the symbol set. */
  lemma ConstantOver(ring: Ring, ss: seq<string>, c: real, k: Key)
    requires SortedSet(ss) && |k| == |ss| && c != 0.0 && InRing(ring, c)
    requires forall i :: 0 <= i < |k| ==> k[i] == 0
    ensures Valid(Series(ring, ss, [Term(c, k)]))
    ensures Equal(Series(ring, ss, [Term(c, k)]), Constant(ring, c))
  {
    var p := Series(ring, ss, [Term(c, k)]);
    var one := Constant(ring, c);
    assert Valid(p);
    forall e ensures Coef(p, e) == Coef(one, e) {
      var j := KeyOf(e, ss);
      assert p.terms[1..] == [];
      assert Coeff(p.terms, j) == (if k == j then c else 0.0) + Coeff([], j);
      if Supported(e, ss) && !Supported(e, []) {
        var x :| x in e && e[x] != 0;
        var i := IndexOf(ss, x);
        assert j[i] != 0;
      }
      if Supported(e, []) {
        assert j == k;
      }
    }
    EqualIffCoef(p, one);
  }

  /** The test values: over the integers 1 inverts to 1, 2 to 0 and 0 throws
      `zero_division_error`; over the rationals 2 inverts to 1/2; and `x + y`
      cannot be inverted. */
  lemma InvertExamples()
    ensures Invert(Constant(Integers, 1.0)) == Ok(Series(Integers, [], [Term(1.0, [])]))
    ensures Invert(Constant(Integers, 2.0)) == Ok(Series(Integers, [], []))
    ensures Invert(Constant(Integers, 0.0)) == Err(ZeroDivisionError)
    ensures Invert(Constant(Rationals, 2.0)) == Ok(Series(Rationals, [], [Term(0.5, [])]))
    ensures var xy := Series(Rationals, ["x", "y"], [Term(1.0, [1, 0]), Term(1.0, [0, 1])]);
            Valid(xy) && Invert(xy) == Err(InvalidArgument)
  {
    assert IntegerMath.Pow(1, -1) == Ok(1);
    assert IntegerMath.Pow(2, -1) == Ok(0);
    assert Monomial.Scale([], -1) == [];
    assert IntegerMath.RatPow(2.0, -1) == Ok(0.5);
    assert Lt("x", "y");
  }
}
