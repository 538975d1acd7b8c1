/** `monomial<T>`: a vector of exponents, one per symbol of the sorted symbol
    set it is interpreted against. The exponent type is a C++ integral type
    (with every overflow checked) or the unbounded mp++ integer. */
module Monomial {
  import opened Wrappers
  import opened MachineInt
  import opened IntegerMath
  import opened SymbolUtils
  import opened Terms

  /** The value type of the exponents (or of a degree accumulator). */
  datatype ExpoType = Fixed(t: IntType) | Unbounded

  predicate Fits(e: ExpoType, x: int)
  {
    e.Fixed? ==> InRange(e.t, x)
  }

  /** Every exponent is a value of the exponent type. */
  predicate Valid(e: ExpoType, m: seq<int>)
  {
    forall i :: 0 <= i < |m| ==> Fits(e, m[i])
  }

  /** `safe_int_add` for fixed types, plain addition for mp++ integers. */
  function CheckedAdd(e: ExpoType, a: int, b: int): (r: Result<int>)
    requires Fits(e, a) && Fits(e, b)
    ensures r.Ok? <==> Fits(e, a + b)
    ensures r.Ok? ==> r.value == a + b
    ensures r.Err? ==> r.error == OverflowError
  {
    match e
    case Fixed(t) => SafeIntAdd(t, a, b)
    case Unbounded => Ok(a + b)
  }

  // ---------------------------------------------------------------------------
  // Construction and simple queries
  // ---------------------------------------------------------------------------

  /** The constructor from a range and a symbol set: the range becomes the
      exponent vector, and its length must match the number of symbols. */
  function FromRange(v: seq<int>, ss: seq<string>): (r: Result<seq<int>>)
    ensures r.Err? <==> |v| != |ss|
    ensures r.Err? ==> r.error == InvalidArgument
    ensures r.Ok? ==> r.value == v && |r.value| == |ss|
  {
    if |v| != |ss| then Err(InvalidArgument) else Ok(v)
  }

  /** A vector of `n` zero exponents. */
  function Zeros(n: nat): (r: seq<int>)
    ensures |r| == n && forall i :: 0 <= i < n ==> r[i] == 0
  {
    seq(n, i => 0)
  }

  /** The constructor from a symbol set: one zero exponent per symbol. */
  function FromSymbols(ss: seq<string>): (r: seq<int>)
    ensures |r| == |ss| && forall i :: 0 <= i < |r| ==> r[i] == 0
  {
    Zeros(|ss|)
  }

  /** The generic constructor used by series, from a key and a symbol set: the
      sizes must agree. */
  function FromKey(m: seq<int>, ss: seq<string>): (r: Result<seq<int>>)
    ensures r.Err? <==> |m| != |ss|
    ensures r.Ok? ==> r.value == m
  {
    FromRange(m, ss)
  }

  /** `is_compatible(args)`: the monomial has one exponent per symbol. */
  predicate IsCompatible(m: seq<int>, ss: seq<string>)
  {
    |m| == |ss|
  }

  /** Whether every exponent is zero, scanning from the front. */
  function AllZero(m: seq<int>): (b: bool)
    ensures b <==> forall i :: 0 <= i < |m| ==> m[i] == 0
  {
    if m == [] then true
    else if m[0] != 0 then false
    else
      var rest := AllZero(m[1..]);
      assert forall i :: 1 <= i < |m| ==> m[i] == m[1..][i - 1];
      rest
  }

  /** `key_is_one(m, args)`: the monomial is the unit exactly when every
      exponent is zero; a size mismatch with the symbol set throws. */
  function KeyIsOne(m: seq<int>, ss: seq<string>): (r: Result<bool>)
    ensures r.Err? <==> |m| != |ss|
    ensures r.Err? ==> r.error == InvalidArgument
    ensures r.Ok? ==> (r.value <==> forall i :: 0 <= i < |m| ==> m[i] == 0)
  {
    if |m| != |ss| then Err(InvalidArgument) else Ok(AllZero(m))
  }

  /** `key_is_zero`: a monomial is never zero. */
  function KeyIsZero(m: seq<int>, ss: seq<string>): (r: bool)
    ensures !r
  {
    false
  }

  // ---------------------------------------------------------------------------
  // Degree
  // ---------------------------------------------------------------------------

  /** The sum of a vector, accumulated from the left. */
  function Sum(s: seq<int>): int
  {
    if s == [] then 0 else Sum(s[..|s| - 1]) + s[|s| - 1]
  }

  /** Every running total of the left-to-right accumulation is a value of the
      accumulator type, so no checked addition throws along the way. */
  predicate PrefixSumsFit(e: ExpoType, s: seq<int>)
  {
    forall k :: 0 <= k <= |s| ==> Fits(e, PrefixSum(s, k))
  }

  /** The running total after the first `k` exponents. */
  function PrefixSum(s: seq<int>, k: nat): int
    requires k <= |s|
  {
    Sum(s[..k])
  }

  /** The outcome of summing `s` with checked additions into an accumulator of
      type `e`. */
  function CheckedSum(e: ExpoType, s: seq<int>): Result<int>
  {
    if PrefixSumsFit(e, s) then Ok(Sum(s)) else Err(OverflowError)
  }

  /** The accumulation loop shared by the total and the partial degree:
      starting from zero, each exponent is added with an overflow check. */
  method Accumulate(e: ExpoType, s: seq<int>) returns (r: Result<int>)
    requires Valid(e, s)
    ensures r == CheckedSum(e, s)
  {
    var d := 0;
    var i := 0;
    assert s[..0] == [];
    while i < |s|
      invariant 0 <= i <= |s|
      invariant d == Sum(s[..i])
      invariant forall k :: 0 <= k <= i ==> Fits(e, PrefixSum(s, k))
    {
      assert s[..i + 1][..i] == s[..i];
      assert PrefixSum(s, i) == d;
      var next := CheckedAdd(e, d, s[i]);
      if next.Err? {
        assert !Fits(e, PrefixSum(s, i + 1));
        return Err(OverflowError);
      }
      d := next.value;
      i := i + 1;
      assert forall k :: 0 <= k <= i ==> Fits(e, PrefixSum(s, k));
    }
    assert s[..|s|] == s;
    return Ok(d);
  }

  /** `key_degree(m, args)` (and `key_ldegree`, which is the same for a
      monomial): the sum of the exponents, accumulated in type `acc` (the
      exponent type promoted to at least `int`). */
  method Degree(acc: ExpoType, m: seq<int>, ss: seq<string>) returns (r: Result<int>)
    requires Valid(acc, m)
    ensures r.Err? && r.error == InvalidArgument <==> |m| != |ss|
    ensures |m| == |ss| ==> r == CheckedSum(acc, m)
  {
    if |m| != |ss| {
      return Err(InvalidArgument);
    }
    r := Accumulate(acc, m);
  }

  /** The exponents at the given positions. */
  function Select(m: seq<int>, p: seq<nat>): (r: seq<int>)
    requires forall i :: 0 <= i < |p| ==> p[i] < |m|
    ensures |r| == |p| && forall i :: 0 <= i < |p| ==> r[i] == m[p[i]]
  {
    seq(|p|, i requires 0 <= i < |p| => m[p[i]])
  }

  /** A `symbol_idx_fset`: strictly ascending positions. */
  predicate Ascending(p: seq<nat>)
  {
    forall i, j :: 0 <= i < j < |p| ==> p[i] < p[j]
  }

  lemma AscendingLast(p: seq<nat>)
    requires Ascending(p) && p != []
    ensures forall i :: 0 <= i < |p| ==> p[i] <= p[|p| - 1]
  {
  }

  /** The partial `key_degree(m, p, args)`: the sum of the exponents at the
      positions `p`. The symbol set must match the monomial, and the largest
      position must lie inside it. */
  method PartialDegree(acc: ExpoType, m: seq<int>, p: seq<nat>, ss: seq<string>) returns (r: Result<int>)
    requires Valid(acc, m) && Ascending(p)
    ensures r.Err? && r.error == InvalidArgument
        <==> |m| != |ss| || (p != [] && p[|p| - 1] >= |m|)
    ensures |m| == |ss| && (p == [] || p[|p| - 1] < |m|) ==>
              (forall i :: 0 <= i < |p| ==> p[i] < |m|) && r == CheckedSum(acc, Select(m, p))
  {
    if |m| != |ss| {
      return Err(InvalidArgument);
    }
    if p != [] && p[|p| - 1] >= |m| {
      return Err(InvalidArgument);
    }
    if p != [] {
      AscendingLast(p);
    }
    r := Accumulate(acc, Select(m, p));
  }

  function Range(n: nat): (p: seq<nat>)
    ensures |p| == n && forall i :: 0 <= i < n ==> p[i] == i
  {
    seq(n, i => i)
  }

  /** The partial degree over every position is the total degree. */
  lemma PartialDegreeOverAll(acc: ExpoType, m: seq<int>)
    ensures Ascending(Range(|m|))
    ensures CheckedSum(acc, Select(m, Range(|m|))) == CheckedSum(acc, m)
  {
    assert Select(m, Range(|m|)) == m;
  }

  lemma {:induction false} SumAppend(a: seq<int>, b: seq<int>)
    ensures Sum(a + b) == Sum(a) + Sum(b)
    decreases |b|
  {
    if b != [] {
      assert (a + b)[..|a + b| - 1] == a + b[..|b| - 1];
      SumAppend(a, b[..|b| - 1]);
    } else {
      assert a + b == a;
    }
  }

  /** The sum of a vector, accumulated from the right, equals the left fold. */
  lemma {:induction false} SumCons(x: int, s: seq<int>)
    ensures Sum([x] + s) == x + Sum(s)
  {
    SumAppend([x], s);
    assert Sum([x]) == Sum([x][..0]) + x;
  }

  /** With an unbounded accumulator the degree never overflows. */
  lemma UnboundedNeverOverflows(s: seq<int>)
    ensures CheckedSum(Unbounded, s) == Ok(Sum(s))
  {
  }

  /** The overflow cases of the degree with `int` exponents: `{max, 1}` and
      `{min, -1}` overflow, while `{min, 1}` gives `min + 1`. */
  lemma DegreeOverflowCases()
    ensures CheckedSum(Fixed(Int), [Max(Int), 1]) == Err(OverflowError)
    ensures CheckedSum(Fixed(Int), [Min(Int), -1]) == Err(OverflowError)
    ensures CheckedSum(Fixed(Int), [Min(Int), 1]) == Ok(Min(Int) + 1)
  {
    RangeNonEmpty(Int);
    var a, b, c := [Max(Int), 1], [Min(Int), -1], [Min(Int), 1];
    assert a[..2] == a && b[..2] == b && c[..2] == c;
    assert a[..1] == [Max(Int)] && b[..1] == [Min(Int)] && c[..1] == [Min(Int)];
    assert a[..0] == [] && b[..0] == [] && c[..0] == [];
    SumPair(Max(Int), 1);
    SumPair(Min(Int), -1);
    SumPair(Min(Int), 1);
    assert PrefixSum(a, 2) == Max(Int) + 1 && PrefixSum(b, 2) == Min(Int) - 1;
    assert forall k :: 0 <= k <= 2 ==> Fits(Fixed(Int), PrefixSum(c, k));
  }

  lemma SumPair(x: int, y: int)
    ensures Sum([x]) == x && Sum([x, y]) == x + y
  {
    assert [x][..0] == [];
    assert [x, y][..1] == [x];
  }

  // ---------------------------------------------------------------------------
  // Multiplication and exponentiation
  // ---------------------------------------------------------------------------

  /** The component-wise sum of two exponent vectors of equal size. */
  function Add(a: seq<int>, b: seq<int>): (r: seq<int>)
    requires |a| == |b|
    ensures |r| == |a| && forall i :: 0 <= i < |a| ==> r[i] == a[i] + b[i]
  {
    seq(|a|, i requires 0 <= i < |a| => a[i] + b[i])
  }

  /** The component-wise difference of two vectors of equal size. */
  function Sub(a: seq<int>, b: seq<int>): (r: seq<int>)
    requires |a| == |b|
    ensures |r| == |a| && forall i :: 0 <= i < |a| ==> r[i] == a[i] - b[i]
  {
    seq(|a|, i requires 0 <= i < |a| => a[i] - b[i])
  }

  /** The degree of a product is the sum of the degrees. */
  lemma {:induction false} SumAdd(a: seq<int>, b: seq<int>)
    requires |a| == |b|
    ensures Sum(Add(a, b)) == Sum(a) + Sum(b)
    decreases |a|
  {
    if a != [] {
      var n := |a| - 1;
      assert Add(a, b)[..n] == Add(a[..n], b[..n]);
      SumAdd(a[..n], b[..n]);
    }
  }

  /** `monomial::multiply(res, t1, t2, args)`: writes into `res[0]` the term
      whose coefficient is the key-level product and whose exponents are the
      component-wise sums. A symbol set whose size differs from the first
      monomial, or a second monomial of another size, throws
      `invalid_argument` before anything is written. The caller (the series
      multiplier) has checked beforehand that no sum overflows. */
  method Multiply(e: ExpoType, res: array<Term<Cf, seq<int>>>, t1: Term<Cf, seq<int>>,
                  t2: Term<Cf, seq<int>>, ss: seq<string>) returns (outcome: Outcome)
    requires res.Length == 1
    requires Canonical(t1.cf) && Canonical(t2.cf) && SameKind(t1.cf, t2.cf)
    requires |t1.key| == |t2.key| ==> Valid(e, Add(t1.key, t2.key))
    modifies res
    ensures outcome.Fail? <==> |ss| != |t1.key| || |t2.key| != |t1.key|
    ensures outcome.Fail? ==> outcome.error == InvalidArgument && res[0] == old(res[0])
    ensures outcome.Pass? ==> res[0] == Term(KeyProduct(t1.cf, t2.cf), Add(t1.key, t2.key))
  {
    if |ss| != |t1.key| || |t2.key| != |t1.key| {
      return Fail(InvalidArgument);
    }
    res[0] := Term(KeyProduct(t1.cf, t2.cf), Add(t1.key, t2.key));
    return Pass;
  }

  /** Every exponent multiplied by `n`. */
  function Scale(m: seq<int>, n: int): (r: seq<int>)
    ensures |r| == |m| && forall i :: 0 <= i < |m| ==> r[i] == m[i] * n
  {
    seq(|m|, i requires 0 <= i < |m| => m[i] * n)
  }

  /** `pow(n, args)`: every exponent multiplied by the integer `n`; a symbol
      set of another size throws `invalid_argument` and a product outside the
      exponent type throws `overflow_error`. */
  function Pow(e: ExpoType, m: seq<int>, n: int, ss: seq<string>): (r: Result<seq<int>>)
    ensures r.Err? && r.error == InvalidArgument <==> |m| != |ss|
    ensures r.Err? && r.error == OverflowError <==> |m| == |ss| && !Valid(e, Scale(m, n))
    ensures r.Ok? ==> r.value == Scale(m, n) && Valid(e, r.value)
  {
    if |m| != |ss| then Err(InvalidArgument)
    else if !Valid(e, Scale(m, n)) then Err(OverflowError)
    else Ok(Scale(m, n))
  }

  lemma {:induction false} SumScale(m: seq<int>, n: int)
    ensures Sum(Scale(m, n)) == n * Sum(m)
    decreases |m|
  {
    if m != [] {
      var k := |m| - 1;
      assert Scale(m, n)[..k] == Scale(m[..k], n);
      SumScale(m[..k], n);
    }
  }

  /** Raising to the power `a` and then `b` is raising to `a * b`; the first
      power is the identity, and the degree is multiplied by the power. */
  lemma PowLaws(m: seq<int>, a: int, b: int, ss: seq<string>)
    requires |m| == |ss|
    ensures Pow(Unbounded, m, 1, ss) == Ok(m)
    ensures Pow(Unbounded, Pow(Unbounded, m, a, ss).value, b, ss) == Pow(Unbounded, m, a * b, ss)
    ensures Sum(Pow(Unbounded, m, a, ss).value) == a * Sum(m)
  {
    assert Scale(m, 1) == m;
    assert forall i :: 0 <= i < |m| ==> m[i] * a * b == m[i] * (a * b);
    assert Scale(Scale(m, a), b) == Scale(m, a * b);
    SumScale(m, a);
  }

  /** With `int` exponents, `{2}` raised to the largest `int` overflows. */
  lemma PowOverflowCase(ss: seq<string>)
    requires |ss| == 1
    ensures Pow(Fixed(Int), [2], Max(Int), ss) == Err(OverflowError)
  {
    RangeNonEmpty(Int);
    assert Scale([2], Max(Int))[0] == 2 * Max(Int);
  }

  // ---------------------------------------------------------------------------
  // Differentiation and integration
  // ---------------------------------------------------------------------------

  /** `partial(p, args)`: the derivative with respect to the symbol at position
      `p`, as (factor, monomial). A zero exponent, or a position outside the
      monomial, gives the zero factor with the unit monomial; decrementing the
      smallest exponent of a fixed type throws `overflow_error`. */
  function Partial(e: ExpoType, m: seq<int>, p: nat, ss: seq<string>): (r: Result<(int, seq<int>)>)
    requires Valid(e, m)
    ensures r.Err? && r.error == InvalidArgument <==> |m| != |ss|
    ensures r.Err? && r.error == OverflowError <==>
              |m| == |ss| && p < |m| && m[p] != 0 && !Fits(e, m[p] - 1)
    ensures r.Ok? && (p >= |m| || m[p] == 0) ==> r.value == (0, Zeros(|m|))
    ensures r.Ok? && p < |m| && m[p] != 0 ==> r.value == (m[p], m[p := m[p] - 1])
    ensures r.Ok? ==> Valid(e, r.value.1)
  {
    if |m| != |ss| then Err(InvalidArgument)
    else if p >= |m| || m[p] == 0 then Ok((0, Zeros(|m|)))
    else if !Fits(e, m[p] - 1) then Err(OverflowError)
    else Ok((m[p], m[p := m[p] - 1]))
  }

  /** The number of symbols of `ss` that sort before `s`: where `s` sits, or
      would be inserted, in the sorted set. */
  function InsertPos(ss: seq<string>, s: string): (j: nat)
    requires SortedSet(ss)
    ensures j <= |ss|
    ensures forall i :: 0 <= i < j ==> Lt(ss[i], s)
    ensures forall i :: j <= i < |ss| ==> !Lt(ss[i], s)
    ensures s in ss ==> j < |ss| && ss[j] == s
  {
    if ss == [] then 0
    else if !Lt(ss[0], s) then
      NoneBelow(ss, s);
      0
    else
      SortedTail(ss);
      LtIrreflexive(s);
      assert s in ss ==> s in ss[1..];
      var j := InsertPos(ss[1..], s);
      assert forall i :: 1 <= i < |ss| ==> ss[i] == ss[1..][i - 1];
      1 + j
  }

  lemma NoneBelow(ss: seq<string>, s: string)
    requires SortedSet(ss) && ss != [] && !Lt(ss[0], s)
    ensures forall i :: 0 <= i < |ss| ==> !Lt(ss[i], s)
    ensures s in ss ==> ss[0] == s
  {
    forall i | 0 < i < |ss| ensures !Lt(ss[i], s) {
      if Lt(ss[i], s) {
        LtTransitive(ss[0], ss[i], s);
      }
    }
    if s in ss {
      var i :| 0 <= i < |ss| && ss[i] == s;
      if i > 0 {
        assert Lt(ss[0], ss[i]);
      }
    }
  }

  /** Inserting a new symbol at its insertion position keeps the set sorted
      and adds exactly that symbol. */
  lemma InsertKeepsSorted(ss: seq<string>, s: string)
    requires SortedSet(ss) && s !in ss
    ensures SortedSet(ss[..InsertPos(ss, s)] + [s] + ss[InsertPos(ss, s)..])
    ensures forall x :: x in ss[..InsertPos(ss, s)] + [s] + ss[InsertPos(ss, s)..] <==> x in ss || x == s
  {
    var j := InsertPos(ss, s);
    var u := ss[..j] + [s] + ss[j..];
    forall a, b | 0 <= a < b < |u| ensures Lt(u[a], u[b]) {
      if b == j {
        assert u[a] == ss[a];
      } else if a == j {
        assert u[b] == ss[b - 1];
        LtTotal(ss[b - 1], s);
      } else if a < j && b > j {
        assert u[a] == ss[a] && u[b] == ss[b - 1];
        LtTotal(ss[b - 1], s);
        LtTransitive(ss[a], s, ss[b - 1]);
      } else if b < j {
        assert u[a] == ss[a] && u[b] == ss[b];
      } else {
        assert u[a] == ss[a - 1] && u[b] == ss[b - 1];
      }
    }
    assert ss == ss[..j] + ss[j..];
  }

  /** `integrate(s, args)`: the antiderivative with respect to the symbol `s`,
      as (divisor, monomial). For a symbol of the set with exponent `n` it is
      `(n + 1, m with n + 1)`; an exponent of -1 throws `invalid_argument` and
      the largest exponent of a fixed type throws `overflow_error`. A symbol
      outside the set is inserted at its sorted position with exponent 1. */
  function Integrate(e: ExpoType, m: seq<int>, s: string, ss: seq<string>): (r: Result<(int, seq<int>)>)
    requires SortedSet(ss) && Valid(e, m) && Fits(e, 1)
    ensures r.Err? && r.error == InvalidArgument <==>
              |m| != |ss| || (s in ss && m[InsertPos(ss, s)] == -1)
    ensures r.Err? && r.error == OverflowError <==>
              |m| == |ss| && s in ss && m[InsertPos(ss, s)] != -1 && !Fits(e, m[InsertPos(ss, s)] + 1)
    ensures r.Ok? && s in ss ==>
              var j := InsertPos(ss, s);
              ss[j] == s && r.value == (m[j] + 1, m[j := m[j] + 1])
    ensures r.Ok? && s !in ss ==>
              var j := InsertPos(ss, s);
              r.value == (1, m[..j] + [1] + m[j..])
    ensures r.Ok? ==> r.value.0 != 0 && Valid(e, r.value.1)
  {
    if |m| != |ss| then Err(InvalidArgument)
    else
      var j := InsertPos(ss, s);
      if j < |ss| && ss[j] == s then
        if m[j] == -1 then Err(InvalidArgument)
        else if !Fits(e, m[j] + 1) then Err(OverflowError)
        else Ok((m[j] + 1, m[j := m[j] + 1]))
      else
        assert s !in ss by {
          forall i | 0 <= i < |ss| ensures ss[i] != s {
            if i < j { LtIrreflexive(s); } else if i > j { LtIrreflexive(s); }
          }
        }
        Ok((1, m[..j] + [1] + m[j..]))
  }

  /** Differentiating the antiderivative with respect to the same symbol gives
      back the divisor and the original exponents (with a zero exponent for a
      symbol that the integration added). */
  lemma PartialOfIntegrate(e: ExpoType, m: seq<int>, s: string, ss: seq<string>)
    requires SortedSet(ss) && Valid(e, m) && Fits(e, 1) && Fits(e, 0)
    requires Integrate(e, m, s, ss).Ok?
    ensures var (n, k) := Integrate(e, m, s, ss).value;
            var j := InsertPos(ss, s);
            var ss' := if s in ss then ss else ss[..j] + [s] + ss[j..];
            Partial(e, k, j, ss') == Ok((n, if s in ss then m else m[..j] + [0] + m[j..]))
  {
    var j := InsertPos(ss, s);
    var k := Integrate(e, m, s, ss).value.1;
    if s in ss {
      assert j < |ss| && ss[j] == s;
      assert k[j := k[j] - 1] == m;
    } else {
      assert k[j] == 1;
      assert k[j := 0] == m[..j] + [0] + m[j..];
    }
  }

  // ---------------------------------------------------------------------------
  // Substitution and evaluation
  // ---------------------------------------------------------------------------

  /** `ipow_subs(p, n, v, args)`: substitute `v` for `x^n`, `x` being the
      symbol at position `p`. With `q` the truncated quotient of `x`'s
      exponent by `n`, a `q >= 1` gives `(v^q, exponent - q*n)`; otherwise, or
      for a position outside the monomial, the factor is 1 and the monomial is
      unchanged. A symbol set of another size, or `n == 0`, throws. */
  function IpowSubs(m: seq<int>, p: nat, n: int, v: real, ss: seq<string>): (r: Result<(real, seq<int>)>)
    ensures r.Err? <==> |m| != |ss| || n == 0
    ensures r.Err? ==> r.error == InvalidArgument
    ensures r.Ok? && p < |m| && TruncDiv(m[p], n) >= 1 ==>
              var q := TruncDiv(m[p], n);
              r.value == (RealPower(v, q), m[p := m[p] - q * n])
    ensures r.Ok? && (p >= |m| || TruncDiv(m[p], n) < 1) ==> r.value == (1.0, m)
  {
    if |m| != |ss| then Err(InvalidArgument)
    else if n == 0 then Err(InvalidArgument)
    else if p >= |m| then Ok((1.0, m))
    else
      var q := TruncDiv(m[p], n);
      if q >= 1 then Ok((RealPower(v, q), m[p := m[p] - q * n])) else Ok((1.0, m))
  }

  /** After a substitution the remaining exponent has the sign of the original
      and a magnitude below `|n|`, so no further `x^n` factor can be taken out. */
  lemma IpowSubsLeavesRemainder(m: seq<int>, p: nat, n: int, v: real, ss: seq<string>)
    requires |m| == |ss| && n != 0 && p < |m|
    ensures var k := IpowSubs(m, p, n, v, ss).value.1;
            TruncDiv(m[p], n) >= 1 ==> AbsInt(k[p]) < AbsInt(n) && TruncDiv(k[p], n) < 1
  {
    var q := TruncDiv(m[p], n);
    if q >= 1 {
      var rem := m[p] - q * n;
      var q' := TruncDiv(rem, n);
      if q' >= 1 {
        // `q' * n` would have a magnitude of at least |n|, more than the remainder.
        MulAtLeast(q', n);
      }
    }
  }

  /** The test values: with exponents `{-7, 2}`, substituting for `x^-3` gives
      `(v^2, {-1, 2})`, and for `x^4` leaves the monomial alone. */
  lemma IpowSubsCases(v: real)
    ensures IpowSubs([-7, 2], 0, -3, v, ["x", "y"]) == Ok((v * v, [-1, 2]))
    ensures IpowSubs([-7, 2], 0, 4, v, ["x", "y"]) == Ok((1.0, [-7, 2]))
    ensures IpowSubs([7, 2], 0, 3, v, ["x", "y"]) == Ok((v * v, [1, 2]))
  {
    assert TruncDiv(-7, -3) == 2 by { TruncDivUnique(-7, -3, 2); }
    assert TruncDiv(-7, 4) == -1 by { TruncDivUnique(-7, 4, -1); }
    assert TruncDiv(7, 3) == 2 by { TruncDivUnique(7, 3, 2); }
    assert RealPower(v, 1) == v;
    assert RealPower(v, 2) == v * v;
    assert [-7, 2][0 := -7 - 2 * -3] == [-1, 2];
    assert [7, 2][0 := 7 - 2 * 3] == [1, 2];
  }

  /** The product of `vals[i]^m[i]` over all positions. */
  function EvalProduct(m: seq<int>, vals: seq<real>): (r: Result<real>)
    requires |vals| == |m|
    ensures r.Err? ==> r.error == ZeroDivisionError
  {
    if m == [] then Ok(1.0)
    else
      var head := RatPow(vals[0], m[0]);
      var rest := EvalProduct(m[1..], vals[1..]);
      if head.Err? || rest.Err? then Err(ZeroDivisionError)
      else Ok(RMul(head.value, rest.value))
  }

  /** The evaluation fails exactly when a zero value meets a negative exponent. */
  lemma {:induction false} EvalProductFails(m: seq<int>, vals: seq<real>)
    requires |vals| == |m|
    ensures EvalProduct(m, vals).Err? <==> exists i :: 0 <= i < |m| && m[i] < 0 && vals[i] == 0.0
  {
    if m != [] {
      EvalProductFails(m[1..], vals[1..]);
      if EvalProduct(m[1..], vals[1..]).Err? {
        var i :| 0 <= i < |m| - 1 && m[1..][i] < 0 && vals[1..][i] == 0.0;
        assert m[i + 1] < 0 && vals[i + 1] == 0.0;
      }
      if exists i :: 0 <= i < |m| && m[i] < 0 && vals[i] == 0.0 {
        var i :| 0 <= i < |m| && m[i] < 0 && vals[i] == 0.0;
        if i > 0 {
          assert m[1..][i - 1] < 0 && vals[1..][i - 1] == 0.0;
        }
      }
    }
  }

  lemma EvalProductUnfold(m: seq<int>, vals: seq<real>)
    requires |vals| == |m| && m != []
    requires RatPow(vals[0], m[0]).Ok? && EvalProduct(m[1..], vals[1..]).Ok?
    ensures EvalProduct(m, vals) == Ok(RMul(RatPow(vals[0], m[0]).value, EvalProduct(m[1..], vals[1..]).value))
  {
  }

  /** `evaluate(vals, args)`: the value of the monomial at the given values,
      one per symbol. A symbol set, or a value vector, of another size throws
      `invalid_argument`; a zero value under a negative exponent throws
      `zero_division_error`. */
  function Evaluate(m: seq<int>, vals: seq<real>, ss: seq<string>): (r: Result<real>)
    ensures r.Err? && r.error == InvalidArgument <==> |m| != |ss| || |vals| != |m|
    ensures |m| == |ss| && |vals| == |m| ==> r == EvalProduct(m, vals)
  {
    if |m| != |ss| then Err(InvalidArgument)
    else if |vals| != |m| then Err(InvalidArgument)
    else EvalProduct(m, vals)
  }

  /** Evaluation turns the product of monomials into the product of their
      values, at any nonzero values. */
  lemma {:induction false} EvalProductAdd(a: seq<int>, b: seq<int>, vals: seq<real>)
    requires |a| == |b| == |vals|
    requires forall i :: 0 <= i < |vals| ==> vals[i] != 0.0
    ensures EvalProduct(a, vals).Ok? && EvalProduct(b, vals).Ok?
    ensures EvalProduct(Add(a, b), vals) == Ok(RMul(EvalProduct(a, vals).value, EvalProduct(b, vals).value))
    decreases |a|
  {
    if a != [] {
      var c := Add(a, b);
      assert c[1..] == Add(a[1..], b[1..]);
      assert c[0] == a[0] + b[0];
      EvalProductAdd(a[1..], b[1..], vals[1..]);
      RatPowAdd(vals[0], a[0], b[0]);
      var x, y := RatPow(vals[0], a[0]).value, RatPow(vals[0], b[0]).value;
      var u, w := EvalProduct(a[1..], vals[1..]).value, EvalProduct(b[1..], vals[1..]).value;
      EvalProductUnfold(a, vals);
      EvalProductUnfold(b, vals);
      assert RatPow(vals[0], c[0]).value == RMul(x, y);
      assert EvalProduct(c[1..], vals[1..]) == Ok(RMul(u, w));
      EvalProductUnfold(c, vals);
      RMulShuffle(x, y, u, w);
    }
  }

  lemma RMulShuffle(x: real, y: real, u: real, w: real)
    ensures RMul(RMul(x, y), RMul(u, w)) == RMul(RMul(x, u), RMul(y, w))
  {
    assert (x * y) * (u * w) == (x * u) * (y * w);
  }

  /** The value `smap` gives position `i`, raised to the exponent there, for
      each substituted position. */
  function SubsProduct(m: seq<int>, smap: map<nat, real>, from: nat): (r: Result<real>)
    requires from <= |m|
    ensures r.Err? <==> exists i :: from <= i < |m| && i in smap && m[i] < 0 && smap[i] == 0.0
    ensures r.Err? ==> r.error == ZeroDivisionError
    decreases |m| - from
  {
    if from == |m| then Ok(1.0)
    else
      var rest := SubsProduct(m, smap, from + 1);
      var head := if from in smap then RatPow(smap[from], m[from]) else Ok(1.0);
      if head.Err? then Err(ZeroDivisionError)
      else if rest.Err? then Err(ZeroDivisionError)
      else Ok(RMul(head.value, rest.value))
  }

  /** `subs(smap, args)`: substitute the values of the map (keyed by position)
      for their symbols. The result holds one pair: the product of the
      substituted powers, and the monomial with those exponents zeroed. A
      symbol set of another size, or a position past the end, throws
      `invalid_argument`. */
  function Subs(m: seq<int>, smap: map<nat, real>, ss: seq<string>): (r: Result<seq<(real, seq<int>)>>)
    ensures r.Err? && r.error == InvalidArgument <==>
              |m| != |ss| || exists i :: i in smap && i >= |m|
    ensures r.Ok? ==> |r.value| == 1 && SubsProduct(m, smap, 0).Ok?
    ensures r.Ok? ==> r.value[0].0 == SubsProduct(m, smap, 0).value
    ensures r.Ok? ==> var k := r.value[0].1;
              |k| == |m| && forall i :: 0 <= i < |m| ==> k[i] == (if i in smap then 0 else m[i])
  {
    if |m| != |ss| then Err(InvalidArgument)
    else if exists i :: i in smap && i >= |m| then Err(InvalidArgument)
    else
      var f := SubsProduct(m, smap, 0);
      if f.Err? then Err(ZeroDivisionError)
      else Ok([(f.value, seq(|m|, i requires 0 <= i < |m| => if i in smap then 0 else m[i]))])
  }

  /** With an empty substitution map the factor is 1 and the monomial is kept. */
  lemma {:induction false} SubsNothing(m: seq<int>, from: nat)
    requires from <= |m|
    ensures SubsProduct(m, map[], from) == Ok(1.0)
    decreases |m| - from
  {
    if from < |m| {
      SubsNothing(m, from + 1);
    }
  }

  // ---------------------------------------------------------------------------
  // Linearity, ordering, symbol merging and trimming
  // ---------------------------------------------------------------------------

  /** The monomial is the single symbol at position `i`. */
  predicate LinearAt(m: seq<int>, i: nat)
  {
    i < |m| && m[i] == 1 && forall j :: 0 <= j < |m| && j != i ==> m[j] == 0
  }

  /** Scan for the one unit exponent among zeros, from position `from`. */
  function FindLinear(m: seq<int>, from: nat): (r: Option<nat>)
    requires from <= |m|
    requires forall j :: 0 <= j < from ==> m[j] == 0
    ensures r.Some? <==> exists i :: from <= i < |m| && LinearAt(m, i)
    ensures r.Some? ==> LinearAt(m, r.value)
    decreases |m| - from
  {
    if from == |m| then None
    else if m[from] == 0 then FindLinear(m, from + 1)
    else if m[from] == 1 && AllZero(m[from + 1..]) then
      assert forall j :: from < j < |m| ==> m[j] == m[from + 1..][j - from - 1];
      assert LinearAt(m, from);
      Some(from)
    else
      assert forall i :: from < i < |m| ==> !LinearAt(m, i);
      NotLinearHere(m, from);
      None
  }

  lemma NotLinearHere(m: seq<int>, from: nat)
    requires from < |m| && m[from] != 0
    requires !(m[from] == 1 && AllZero(m[from + 1..]))
    ensures !LinearAt(m, from)
  {
    if m[from] == 1 {
      var j :| 0 <= j < |m[from + 1..]| && m[from + 1..][j] != 0;
      assert m[from + 1 + j] != 0;
    }
  }

  /** `is_linear(args)`: whether the monomial is a single symbol to the first
      power, and that symbol's position. A symbol set of another size throws. */
  function IsLinear(m: seq<int>, ss: seq<string>): (r: Result<(bool, nat)>)
    ensures r.Err? <==> |m| != |ss|
    ensures r.Ok? ==> (r.value.0 <==> exists i :: LinearAt(m, i))
    ensures r.Ok? && r.value.0 ==> LinearAt(m, r.value.1)
  {
    if |m| != |ss| then Err(InvalidArgument)
    else
      var f := FindLinear(m, 0);
      if f.Some? then Ok((true, f.value)) else Ok((false, 0))
  }

  /** Lexicographic comparison of equal-size exponent vectors. */
  predicate LexLess(a: seq<int>, b: seq<int>)
    requires |a| == |b|
  {
    a != [] && (a[0] < b[0] || (a[0] == b[0] && LexLess(a[1..], b[1..])))
  }

  /** `operator<`: lexicographic on the exponents; monomials of different sizes
      cannot be compared and throw `invalid_argument`. */
  function Less(a: seq<int>, b: seq<int>): (r: Result<bool>)
    ensures r.Err? <==> |a| != |b|
    ensures r.Err? ==> r.error == InvalidArgument
    ensures r.Ok? ==> (r.value <==> exists k :: 0 <= k < |a| && a[..k] == b[..k] && a[k] < b[k])
  {
    if |a| != |b| then Err(InvalidArgument)
    else
      LexLessFirstDifference(a, b);
      Ok(LexLess(a, b))
  }

  /** The lexicographic order is decided at the first differing position. */
  lemma {:induction false} LexLessFirstDifference(a: seq<int>, b: seq<int>)
    requires |a| == |b|
    ensures LexLess(a, b) <==> exists k :: 0 <= k < |a| && a[..k] == b[..k] && a[k] < b[k]
    decreases |a|
  {
    if a != [] {
      LexLessFirstDifference(a[1..], b[1..]);
      if LexLess(a, b) && a[0] == b[0] && !(a[0] < b[0]) {
        var k :| 0 <= k < |a| - 1 && a[1..][..k] == b[1..][..k] && a[1..][k] < b[1..][k];
        assert a[..k + 1] == [a[0]] + a[1..][..k];
        assert b[..k + 1] == [b[0]] + b[1..][..k];
      }
      if exists k :: 0 <= k < |a| && a[..k] == b[..k] && a[k] < b[k] {
        var k :| 0 <= k < |a| && a[..k] == b[..k] && a[k] < b[k];
        if k > 0 {
          assert a[0] == a[..k][0] == b[..k][0] == b[0];
          assert a[1..][..k - 1] == a[..k][1..] == b[..k][1..] == b[1..][..k - 1];
          assert a[1..][k - 1] < b[1..][k - 1];
        }
      }
    }
  }

  /** The order is a strict total order on monomials of one size. */
  lemma {:induction false} LexLessStrictTotal(a: seq<int>, b: seq<int>, c: seq<int>)
    requires |a| == |b| == |c|
    ensures !LexLess(a, a)
    ensures LexLess(a, b) && LexLess(b, c) ==> LexLess(a, c)
    ensures a == b || LexLess(a, b) || LexLess(b, a)
    decreases |a|
  {
    if a != [] {
      LexLessStrictTotal(a[1..], b[1..], c[1..]);
      if a[1..] == b[1..] && a[0] == b[0] {
        assert a == [a[0]] + a[1..] && b == [b[0]] + b[1..];
      }
    }
  }

  /** Insert, before exponent `i`, one zero per symbol the insertion map
      assigns to position `i` (and at the end for position `|m|`). */
  function InsertZeros(m: seq<int>, im: map<nat, seq<string>>, from: nat): (r: seq<int>)
    requires from <= |m|
    decreases |m| - from
  {
    var z := if from in im then Zeros(|im[from]|) else [];
    if from == |m| then z else z + [m[from]] + InsertZeros(m, im, from + 1)
  }

  /** The exponents of `InsertZeros` sum to the same degree. */
  lemma {:induction false} InsertZerosKeepsSum(m: seq<int>, im: map<nat, seq<string>>, from: nat)
    requires from <= |m|
    ensures Sum(InsertZeros(m, im, from)) == Sum(m[from..])
    decreases |m| - from
  {
    var z := if from in im then Zeros(|im[from]|) else [];
    assert Sum(z) == 0 by { ZerosSum(|z|); assert z == Zeros(|z|); }
    if from == |m| {
    } else {
      InsertZerosKeepsSum(m, im, from + 1);
      SumAppend(z + [m[from]], InsertZeros(m, im, from + 1));
      SumAppend(z, [m[from]]);
      assert m[from..] == [m[from]] + m[from + 1..];
      SumCons(m[from], m[from + 1..]);
      assert Sum([m[from]]) == Sum([m[from]][..0]) + m[from];
    }
  }

  lemma {:induction false} ZerosSum(n: nat)
    ensures Sum(Zeros(n)) == 0
  {
    if n > 0 {
      assert Zeros(n)[..n - 1] == Zeros(n - 1);
      ZerosSum(n - 1);
    }
  }

  /** `merge_symbols(ins_map, args)`: re-encode the monomial for a larger
      symbol set by inserting zero exponents where the insertion map places new
      symbols. A symbol set of another size, an empty map, or a map whose last
      position is past the end throws `invalid_argument`. */
  function MergeSymbols(m: seq<int>, im: map<nat, seq<string>>, ss: seq<string>): (r: Result<seq<int>>)
    ensures r.Err? <==> |m| != |ss| || |im| == 0 || exists i :: i in im && i > |m|
    ensures r.Ok? ==> r.value == InsertZeros(m, im, 0) && Sum(r.value) == Sum(m)
  {
    if |m| != |ss| then Err(InvalidArgument)
    else if |im| == 0 then Err(InvalidArgument)
    else if exists i :: i in im && i > |m| then Err(InvalidArgument)
    else
      InsertZerosKeepsSum(m, im, 0);
      assert m[0..] == m;
      Ok(InsertZeros(m, im, 0))
  }

  /** The exponents of `m`, read against the symbol set `s`, laid out against
      a superset `u`: every symbol of `u` takes its exponent in `m`, and the
      symbols that `s` lacks take 0. This is what `merge_symbols` computes when
      given the insertion map of `s` in `u` (see `MergeSymbolsIsReencode`). */
  function Reencode(m: seq<int>, s: seq<string>, u: seq<string>): (r: seq<int>)
    requires |m| == |s|
    ensures |r| == |u|
  {
    seq(|u|, i requires 0 <= i < |u| => if u[i] in s then m[IndexOf(s, u[i])] else 0)
  }

  /** Each exponent of `m` can be read back from the re-encoded vector at the
      position of its symbol in `u`, so re-encoding is injective. */
  lemma ReencodeInverse(m: seq<int>, s: seq<string>, u: seq<string>, j: nat)
    requires SortedSet(s) && |m| == |s| && j < |s| && s[j] in u
    ensures IndexOf(u, s[j]) < |u| && Reencode(m, s, u)[IndexOf(u, s[j])] == m[j]
  {
    IndexOfSorted(s, j);
  }

  lemma ReencodeInjective(m1: seq<int>, m2: seq<int>, s: seq<string>, u: seq<string>)
    requires SortedSet(s) && |m1| == |s| && |m2| == |s|
    requires forall x :: x in s ==> x in u
    requires Reencode(m1, s, u) == Reencode(m2, s, u)
    ensures m1 == m2
  {
    forall j | 0 <= j < |s| ensures m1[j] == m2[j] {
      ReencodeInverse(m1, s, u, j);
      ReencodeInverse(m2, s, u, j);
    }
  }

  /** Re-encoding against the same set changes nothing, and re-encoding in two
      steps is re-encoding in one. */
  lemma ReencodeLaws(m: seq<int>, s: seq<string>, u: seq<string>, w: seq<string>)
    requires SortedSet(s) && SortedSet(u) && |m| == |s|
    requires forall x :: x in s ==> x in u
    ensures Reencode(m, s, s) == m
    ensures Reencode(Reencode(m, s, u), u, w) == Reencode(m, s, w)
  {
    forall j | 0 <= j < |s| ensures Reencode(m, s, s)[j] == m[j] {
      IndexOfSorted(s, j);
    }
    var r := Reencode(m, s, u);
    forall i | 0 <= i < |w| ensures Reencode(r, u, w)[i] == Reencode(m, s, w)[i] {
      if w[i] in u {
        var k := IndexOf(u, w[i]);
        assert u[k] == w[i];
      }
    }
  }

  /** Re-encoding commutes with the exponent-wise sum. */
  lemma ReencodeAdd(a: seq<int>, b: seq<int>, s: seq<string>, u: seq<string>)
    requires |a| == |s| && |b| == |s|
    ensures Reencode(Add(a, b), s, u) == Add(Reencode(a, s, u), Reencode(b, s, u))
  {
  }

  /** `g[i]` zeros before each exponent `m[i]`, and `g[|m|]` zeros at the end. */
  function ZeroInterleave(m: seq<int>, g: seq<seq<string>>): (r: seq<int>)
    requires |g| == |m| + 1
    decreases |m|
  {
    if m == [] then Zeros(|g[0]|) else Zeros(|g[0]|) + [m[0]] + ZeroInterleave(m[1..], g[1..])
  }

  lemma {:induction false} InsertZerosInterleaves(m: seq<int>, s: seq<string>, u: seq<string>, from: nat)
    requires IsSubseq(s, u) && |m| == |s| && from <= |m|
    ensures InsertZeros(m, InsertionMap(s, u), from) == ZeroInterleave(m[from..], Gaps(s, u)[from..])
    decreases |m| - from
  {
    var g := Gaps(s, u);
    var im := InsertionMap(s, u);
    if from !in im {
      assert g[from] == [] && Zeros(0) == [];
    }
    if from < |m| {
      InsertZerosInterleaves(m, s, u, from + 1);
      assert m[from..][1..] == m[from + 1..] && g[from..][1..] == g[from + 1..];
    }
  }

  lemma {:induction false} InterleaveIsReencode(m: seq<int>, s: seq<string>, u: seq<string>)
    requires SortedSet(s) && SortedSet(u) && IsSubseq(s, u) && |m| == |s|
    ensures ZeroInterleave(m, Gaps(s, u)) == Reencode(m, s, u)
    decreases |u|
  {
    if s == [] {
    } else if s[0] == u[0] {
      SortedTail(s);
      SortedTail(u);
      InterleaveIsReencode(m[1..], s[1..], u[1..]);
      assert Zeros(0) == [];
      ReencodeHead(m, s, u);
    } else {
      SortedTail(u);
      InterleaveIsReencode(m, s, u[1..]);
      InterleaveSkip(m, s, u);
      ReencodeSkip(m, s, u);
    }
  }

  lemma InterleaveSkip(m: seq<int>, s: seq<string>, u: seq<string>)
    requires IsSubseq(s, u) && |m| == |s| && s != [] && s[0] != u[0]
    ensures ZeroInterleave(m, Gaps(s, u)) == [0] + ZeroInterleave(m, Gaps(s, u[1..]))
  {
    var rest := Gaps(s, u[1..]);
    assert Gaps(s, u) == [[u[0]] + rest[0]] + rest[1..];
    InterleaveOneMore(m, u[0], rest);
  }

  /** One more name in the first gap puts one more zero in front. */
  lemma InterleaveOneMore(m: seq<int>, x: string, g: seq<seq<string>>)
    requires |g| == |m| + 1 && m != []
    ensures ZeroInterleave(m, [[x] + g[0]] + g[1..]) == [0] + ZeroInterleave(m, g)
  {
    var h := [[x] + g[0]] + g[1..];
    assert h[1..] == g[1..];
    assert Zeros(|h[0]|) == [0] + Zeros(|g[0]|);
  }

  lemma ReencodeHead(m: seq<int>, s: seq<string>, u: seq<string>)
    requires SortedSet(s) && SortedSet(u) && |m| == |s| && s != [] && u != [] && s[0] == u[0]
    ensures Reencode(m, s, u) == [m[0]] + Reencode(m[1..], s[1..], u[1..])
  {
    forall i | 0 < i < |u| ensures Reencode(m, s, u)[i] == Reencode(m[1..], s[1..], u[1..])[i - 1] {
      SortedHead(u, u[i]);
      LtIrreflexive(u[i]);
      assert u[i] in s <==> u[i] in s[1..];
    }
  }

  lemma ReencodeSkip(m: seq<int>, s: seq<string>, u: seq<string>)
    requires SortedSet(u) && |m| == |s| && u != [] && IsSubseq(s, u[1..])
    ensures Reencode(m, s, u) == [0] + Reencode(m, s, u[1..])
  {
    assert u[0] !in s by {
      SubseqMembers(s, u[1..]);
      if u[0] in s {
        SortedHead(u, u[0]);
        LtIrreflexive(u[0]);
      }
    }
  }

  /** `merge_symbols` with the insertion map of `s` in a sorted superset `u`
      is the name-by-name re-encoding, and keeps the degree. */
  lemma MergeSymbolsIsReencode(m: seq<int>, s: seq<string>, u: seq<string>)
    requires SortedSet(s) && SortedSet(u) && IsSubseq(s, u) && |m| == |s|
    ensures InsertZeros(m, InsertionMap(s, u), 0) == Reencode(m, s, u)
    ensures Sum(Reencode(m, s, u)) == Sum(m)
  {
    InsertZerosInterleaves(m, s, u, 0);
    assert m[0..] == m && Gaps(s, u)[0..] == Gaps(s, u);
    InterleaveIsReencode(m, s, u);
    InsertZerosKeepsSum(m, InsertionMap(s, u), 0);
  }

  /** The exponents whose mask entry is false, in order. */
  function KeepExponents(m: seq<int>, mask: seq<bool>): (r: seq<int>)
    requires |mask| == |m|
  {
    if m == [] then [] else (if mask[0] then [] else [m[0]]) + KeepExponents(m[1..], mask[1..])
  }

  /** `trim_identify(mask, args)`: clear, in place, the mask entry of every
      symbol whose exponent is nonzero, so that the mask ends up marking the
      symbols that can be trimmed. A mask or symbol set of another size throws
      `invalid_argument` and leaves the mask alone. */
  method TrimIdentify(mask: array<bool>, m: seq<int>, ss: seq<string>) returns (outcome: Outcome)
    modifies mask
    ensures outcome.Fail? <==> mask.Length != |m| || |m| != |ss|
    ensures outcome.Fail? ==> outcome.error == InvalidArgument && mask[..] == old(mask[..])
    ensures outcome.Pass? ==> forall i :: 0 <= i < mask.Length ==>
              mask[i] == (old(mask[i]) && m[i] == 0)
  {
    if mask.Length != |m| || |m| != |ss| {
      return Fail(InvalidArgument);
    }
    var i := 0;
    while i < mask.Length
      invariant 0 <= i <= mask.Length
      invariant forall k :: 0 <= k < i ==> mask[k] == (old(mask[k]) && m[k] == 0)
      invariant forall k :: i <= k < mask.Length ==> mask[k] == old(mask[k])
    {
      if m[i] != 0 {
        mask[i] := false;
      }
      i := i + 1;
    }
    return Pass;
  }

  /** `trim(mask, args)`: drop the exponents whose mask entry is set. A mask or
      symbol set of another size throws `invalid_argument`. */
  function Trim(m: seq<int>, mask: seq<bool>, ss: seq<string>): (r: Result<seq<int>>)
    ensures r.Err? <==> |mask| != |m| || |m| != |ss|
    ensures r.Ok? ==> r.value == KeepExponents(m, mask)
  {
    if |mask| != |m| || |m| != |ss| then Err(InvalidArgument) else Ok(KeepExponents(m, mask))
  }

  /** Trimming only positions whose exponent is zero keeps the degree. */
  lemma {:induction false} TrimKeepsDegree(m: seq<int>, mask: seq<bool>)
    requires |mask| == |m|
    requires forall i :: 0 <= i < |m| && mask[i] ==> m[i] == 0
    ensures Sum(KeepExponents(m, mask)) == Sum(m)
    decreases |m|
  {
    if m != [] {
      TrimKeepsDegree(m[1..], mask[1..]);
      var h := if mask[0] then [] else [m[0]];
      SumAppend(h, KeepExponents(m[1..], mask[1..]));
      assert m == [m[0]] + m[1..];
      SumCons(m[0], m[1..]);
      if !mask[0] {
        assert Sum(h) == Sum(h[..0]) + m[0];
      }
    }
  }
}
