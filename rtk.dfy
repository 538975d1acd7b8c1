/** `real_trigonometric_kronecker_monomial<T>`: a vector of integer
    multipliers, packed by the same Kronecker codec as `kronecker_monomial`,
    and a flavour telling whether the monomial is the cosine (`true`) or the
    sine (`false`) of the linear combination of the symbols the multipliers
    describe. The canonical form of an argument has its first nonzero
    multiplier positive, which is what `cos(-a) == cos(a)` and
    `sin(-a) == -sin(a)` allow. */
module RealTrigKronecker {
  import opened Wrappers
  import opened MachineInt
  import opened IntegerMath
  import opened SymbolUtils
  import opened Terms
  import Monomial
  import Kronecker

  /** A monomial as a value: the packed multipliers and the flavour. */
  datatype RtKey = RtKey(code: int, flavour: bool)

  /** The default key, `cos(0)`, which is the unit. */
  const One: RtKey := RtKey(0, true)

  // ---------------------------------------------------------------------------
  // Canonical arguments
  // ---------------------------------------------------------------------------

  /** The sign of the first nonzero multiplier, 0 when there is none. */
  function LeadingSign(v: seq<int>): (s: int)
    ensures -1 <= s <= 1
  {
    if v == [] then 0
    else if v[0] > 0 then 1
    else if v[0] < 0 then -1
    else LeadingSign(v[1..])
  }

  function Negated(v: seq<int>): (r: seq<int>)
    ensures |r| == |v| && forall i :: 0 <= i < |v| ==> r[i] == -v[i]
  {
    seq(|v|, i requires 0 <= i < |v| => -v[i])
  }

  /** The canonical form of an argument, and whether it had to be negated to
      reach it. */
  function CanonicalForm(v: seq<int>): (seq<int>, bool)
  {
    if LeadingSign(v) < 0 then (Negated(v), true) else (v, false)
  }

  /** The leading sign is decided by the first nonzero entry and is zero
      exactly for the zero vector. */
  lemma {:induction false} LeadingSignAt(v: seq<int>, i: nat)
    requires i <= |v| && forall k :: 0 <= k < i ==> v[k] == 0
    ensures i == |v| ==> LeadingSign(v) == 0
    ensures i < |v| && v[i] > 0 ==> LeadingSign(v) == 1
    ensures i < |v| && v[i] < 0 ==> LeadingSign(v) == -1
    decreases i
  {
    if i > 0 {
      assert forall k :: 0 <= k < i - 1 ==> v[1..][k] == 0 by {
        forall k | 0 <= k < i - 1 ensures v[1..][k] == 0 {
          assert v[1..][k] == v[k + 1];
        }
      }
      LeadingSignAt(v[1..], i - 1);
    }
  }

  lemma {:induction false} LeadingSignZero(v: seq<int>)
    ensures LeadingSign(v) == 0 <==> forall i :: 0 <= i < |v| ==> v[i] == 0
    decreases |v|
  {
    if v != [] {
      LeadingSignZero(v[1..]);
      if forall i :: 0 <= i < |v[1..]| ==> v[1..][i] == 0 {
        assert forall i :: 1 <= i < |v| ==> v[i] == v[1..][i - 1];
      }
    }
  }

  /** Negation flips the leading sign. */
  lemma {:induction false} LeadingSignNegated(v: seq<int>)
    ensures LeadingSign(Negated(v)) == -LeadingSign(v)
    decreases |v|
  {
    if v != [] {
      assert Negated(v)[1..] == Negated(v[1..]);
      LeadingSignNegated(v[1..]);
    }
  }

  lemma NegatedTwice(v: seq<int>)
    ensures Negated(Negated(v)) == v
  {
  }

  /** The canonical form has a non-negative leading sign, is reached by
      negating exactly when the leading sign is negative, is a fixed point,
      and is shared by an argument and its negation. */
  lemma CanonicalFormProperties(v: seq<int>)
    ensures LeadingSign(CanonicalForm(v).0) >= 0
    ensures CanonicalForm(v).1 <==> LeadingSign(v) < 0
    ensures CanonicalForm(v).0 == v || CanonicalForm(v).0 == Negated(v)
    ensures CanonicalForm(CanonicalForm(v).0) == (CanonicalForm(v).0, false)
    ensures CanonicalForm(Negated(v)).0 == CanonicalForm(v).0
  {
    LeadingSignNegated(v);
    var w := CanonicalForm(v).0;
    assert LeadingSign(w) >= 0;
    if LeadingSign(v) == 0 {
      LeadingSignZero(v);
      assert Negated(v) == v;
    } else if LeadingSign(v) > 0 {
      assert CanonicalForm(Negated(v)).0 == Negated(Negated(v));
      NegatedTwice(v);
    }
  }

  /** The limits are symmetric, so the negation of a packable vector is
      packable. */
  lemma NegatedEncodable(k: Kronecker.Codec, v: seq<int>)
    requires Kronecker.Encodable(k, v)
    ensures Kronecker.Encodable(k, Negated(v))
  {
  }

  // ---------------------------------------------------------------------------
  // The monomial object
  // ---------------------------------------------------------------------------

  /** A `real_trigonometric_kronecker_monomial` object: the packed integer and
      the flavour, both overwritten in place by the setters and by
      `canonicalise`. */
  class RtkMonomial {
    var value: int
    var flavour: bool

    /** The default constructor: the code 0 with the cosine flavour. */
    constructor ()
      ensures value == 0 && flavour
    {
      value := 0;
      flavour := true;
    }

    /** The constructor from an integer and a flavour. */
    constructor FromKey(key: RtKey)
      ensures value == key.code && flavour == key.flavour
    {
      value := key.code;
      flavour := key.flavour;
    }

    function Key(): RtKey
      reads this
    {
      RtKey(value, flavour)
    }

    method SetInt(n: int)
      modifies this
      ensures value == n && flavour == old(flavour)
    {
      value := n;
    }

    method SetFlavour(f: bool)
      modifies this
      ensures flavour == f && value == old(value)
    {
      flavour := f;
    }

    /** `canonicalise(args)`: once the first nonzero multiplier is found to be
        negative, every multiplier from there on is negated; the result says
        whether anything changed. A code that does not unpack against the
        symbol set throws `invalid_argument` and leaves the object alone. */
    method Canonicalise(k: Kronecker.Codec, ss: seq<string>) returns (r: Result<bool>)
      modifies this
      ensures flavour == old(flavour)
      ensures r.Err? <==> !Kronecker.CodeFits(k, old(value), |ss|)
      ensures r.Err? ==> r.error == InvalidArgument && value == old(value)
      ensures r.Ok? ==>
                var u := Kronecker.Unpack(k, old(value), |ss|).value;
                r.value == CanonicalForm(u).1
                && Kronecker.Unpack(k, value, |ss|) == Ok(CanonicalForm(u).0)
    {
      var unpacked := Kronecker.Unpack(k, value, |ss|);
      if unpacked.Err? {
        return Err(InvalidArgument);
      }
      ghost var u := unpacked.value;
      var v := unpacked.value;
      var changed := false;
      var i := 0;
      while i < |v|
        invariant 0 <= i <= |v| && |v| == |u|
        invariant value == old(value) && flavour == old(flavour)
        invariant !changed ==> v == u && forall j :: 0 <= j < i ==> u[j] == 0
        invariant changed ==> LeadingSign(u) < 0
        invariant changed ==> forall j :: 0 <= j < i ==> v[j] == -u[j]
        invariant forall j :: i <= j < |v| ==> v[j] == u[j]
      {
        if changed || v[i] < 0 {
          if !changed {
            LeadingSignAt(u, i);
          }
          changed := true;
          v := v[i := -v[i]];
        } else if v[i] > 0 {
          LeadingSignAt(u, i);
          break;
        }
        i := i + 1;
      }
      if !changed && i == |v| {
        LeadingSignAt(u, i);
      }
      if changed {
        assert v == Negated(u);
        NegatedEncodable(k, u);
        Kronecker.PackUnpack(k, v);
        value := Kronecker.Pack(k, v).value;
      }
      return Ok(changed);
    }
  }

  // ---------------------------------------------------------------------------
  // Construction and queries
  // ---------------------------------------------------------------------------

  /** The constructor from a range of multipliers, a flavour and a symbol set:
      the range is packed as given, without canonicalisation, so a range whose
      first nonzero entry is negative yields an incompatible key. */
  function FromRange(k: Kronecker.Codec, v: seq<int>, flavour: bool, ss: seq<string>): (r: Result<RtKey>)
    ensures r.Err? <==> |v| != |ss| || !Kronecker.Encodable(k, v)
    ensures r.Err? ==> r.error == InvalidArgument
    ensures r.Ok? ==> r.value.flavour == flavour && Kronecker.Unpack(k, r.value.code, |ss|) == Ok(v)
  {
    var c :- Kronecker.FromRange(k, v, ss);
    Ok(RtKey(c, flavour))
  }

  /** `is_compatible(args)`: the code unpacks against the symbol set and the
      argument it holds is canonical. */
  predicate IsCompatible(k: Kronecker.Codec, key: RtKey, ss: seq<string>)
  {
    Kronecker.CodeFits(k, key.code, |ss|)
    && LeadingSign(Kronecker.Unpack(k, key.code, |ss|).value) >= 0
  }

  /** With no symbols only the code 0 is compatible; the largest value of `T`
      never is from two symbols on; a packed range is compatible exactly when
      its first nonzero multiplier is positive (or there is none); and
      canonicalising makes any unpackable code compatible. */
  lemma IsCompatibleCases(k: Kronecker.Codec, key: RtKey, v: seq<int>, ss: seq<string>)
    requires Kronecker.WellFormed(k)
    ensures ss == [] ==> (IsCompatible(k, key, ss) <==> key.code == 0)
    ensures |ss| >= 2 ==> !IsCompatible(k, RtKey(Max(k.t), key.flavour), ss)
    ensures FromRange(k, v, key.flavour, ss).Ok? ==>
              (IsCompatible(k, FromRange(k, v, key.flavour, ss).value, ss) <==> LeadingSign(v) >= 0)
    ensures Kronecker.CodeFits(k, key.code, |ss|) ==>
              var w := CanonicalForm(Kronecker.Unpack(k, key.code, |ss|).value).0;
              IsCompatible(k, RtKey(Kronecker.Pack(k, w).value, key.flavour), ss)
  {
    Kronecker.IsCompatibleCases(k, key.code, ss);
    Kronecker.IsCompatibleCases(k, Max(k.t), ss);
    if Kronecker.CodeFits(k, key.code, |ss|) {
      var u := Kronecker.Unpack(k, key.code, |ss|).value;
      var w := CanonicalForm(u).0;
      CanonicalFormProperties(u);
      NegatedEncodable(k, u);
      Kronecker.PackUnpack(k, w);
    }
  }

  /** `key_is_zero`: the sine of the null argument, which is zero. */
  predicate KeyIsZero(key: RtKey)
  {
    key.code == 0 && !key.flavour
  }

  /** `key_is_one`: the cosine of the null argument, which is one. */
  predicate KeyIsOne(key: RtKey)
  {
    key.code == 0 && key.flavour
  }

  /** For a key that unpacks, zero means a sine of all-zero multipliers and
      one a cosine of all-zero multipliers; no key is both, and the default
      key is one. */
  lemma KeyIsZeroOneCases(k: Kronecker.Codec, key: RtKey, n: nat)
    requires Kronecker.CodeFits(k, key.code, n)
    ensures KeyIsZero(key) <==> !key.flavour && forall i :: 0 <= i < n ==> Kronecker.Unpack(k, key.code, n).value[i] == 0
    ensures KeyIsOne(key) <==> key.flavour && forall i :: 0 <= i < n ==> Kronecker.Unpack(k, key.code, n).value[i] == 0
    ensures !(KeyIsZero(key) && KeyIsOne(key))
    ensures KeyIsOne(One) && !KeyIsZero(One)
  {
    Kronecker.KeyIsOneAllZero(k, key.code, n);
  }

  // ---------------------------------------------------------------------------
  // Trigonometric degree and order
  // ---------------------------------------------------------------------------

  /** `t_degree(args)`: the sum of the multipliers, which the limits keep
      inside `T`. The flavour plays no part. */
  function TDegree(k: Kronecker.Codec, key: RtKey, ss: seq<string>): (r: Result<int>)
    requires Kronecker.WellFormed(k)
    ensures r.Err? <==> !Kronecker.CodeFits(k, key.code, |ss|)
    ensures r.Err? ==> r.error == InvalidArgument
    ensures r.Ok? ==> Monomial.CheckedSum(Monomial.Fixed(k.t), Kronecker.Unpack(k, key.code, |ss|).value) == r
  {
    Kronecker.Degree(k, key.code, ss)
  }

  /** `t_degree(p, args)`: the sum of the multipliers at the ascending
      positions `p`; a last position outside the monomial throws
      `invalid_argument`. */
  function PartialTDegree(k: Kronecker.Codec, key: RtKey, p: seq<nat>, ss: seq<string>): (r: Result<int>)
    requires Kronecker.WellFormed(k) && Monomial.Ascending(p)
    ensures r.Err? <==> !Kronecker.CodeFits(k, key.code, |ss|) || (p != [] && p[|p| - 1] >= |ss|)
    ensures r.Err? ==> r.error == InvalidArgument
    ensures r.Ok? ==>
              Monomial.CheckedSum(Monomial.Fixed(k.t), Monomial.Select(Kronecker.Unpack(k, key.code, |ss|).value, p)) == r
  {
    Kronecker.PartialDegree(k, key.code, p, ss)
  }

  /** The vector of the magnitudes of the multipliers. */
  function Magnitudes(v: seq<int>): (r: seq<int>)
    ensures |r| == |v| && forall i :: 0 <= i < |v| ==> r[i] == AbsInt(v[i])
  {
    seq(|v|, i requires 0 <= i < |v| => AbsInt(v[i]))
  }

  lemma MagnitudesFit(l: nat, v: seq<int>)
    requires Kronecker.DigitsFit(l, v)
    ensures Kronecker.DigitsFit(l, Magnitudes(v)) && Monomial.Valid(Monomial.Unbounded, v)
  {
  }

  /** `t_order(args)`: the sum of the magnitudes of the multipliers, which
      cannot overflow `T` either. */
  function TOrder(k: Kronecker.Codec, key: RtKey, ss: seq<string>): (r: Result<int>)
    requires Kronecker.WellFormed(k)
    ensures r.Err? <==> !Kronecker.CodeFits(k, key.code, |ss|)
    ensures r.Err? ==> r.error == InvalidArgument
    ensures r.Ok? ==>
              Monomial.CheckedSum(Monomial.Fixed(k.t), Magnitudes(Kronecker.Unpack(k, key.code, |ss|).value)) == r
  {
    var u :- Kronecker.Unpack(k, key.code, |ss|);
    MagnitudesFit(k.limits[|ss|], u);
    Kronecker.DegreeFits(k, Magnitudes(u), |ss|);
    Ok(Monomial.Sum(Magnitudes(u)))
  }

  /** `t_order(p, args)`: the sum of the magnitudes at the positions `p`. */
  function PartialTOrder(k: Kronecker.Codec, key: RtKey, p: seq<nat>, ss: seq<string>): (r: Result<int>)
    requires Kronecker.WellFormed(k) && Monomial.Ascending(p)
    ensures r.Err? <==> !Kronecker.CodeFits(k, key.code, |ss|) || (p != [] && p[|p| - 1] >= |ss|)
    ensures r.Err? ==> r.error == InvalidArgument
    ensures r.Ok? ==>
              (forall i :: 0 <= i < |p| ==> p[i] < |ss|)
              && Monomial.CheckedSum(Monomial.Fixed(k.t),
                                     Magnitudes(Monomial.Select(Kronecker.Unpack(k, key.code, |ss|).value, p))) == r
  {
    var u :- Kronecker.Unpack(k, key.code, |ss|);
    if p != [] && p[|p| - 1] >= |ss| then Err(InvalidArgument)
    else
      Kronecker.PositionsBelow(p, |ss|);
      var s := Magnitudes(Monomial.Select(u, p));
      assert Kronecker.DigitsFit(k.limits[|ss|], s);
      Kronecker.DegreeFits(k, s, |ss|);
      Ok(Monomial.Sum(s))
  }

  lemma {:induction false} SumBelowMagnitudes(v: seq<int>)
    ensures AbsInt(Monomial.Sum(v)) <= Monomial.Sum(Magnitudes(v))
    decreases |v|
  {
    if v != [] {
      var w := v[..|v| - 1];
      assert v == w + [v[|v| - 1]];
      assert Magnitudes(v) == Magnitudes(w) + [AbsInt(v[|v| - 1])];
      Monomial.SumAppend(w, [v[|v| - 1]]);
      Monomial.SumAppend(Magnitudes(w), [AbsInt(v[|v| - 1])]);
      Monomial.SumPair(0, v[|v| - 1]);
      Monomial.SumPair(0, AbsInt(v[|v| - 1]));
      SumBelowMagnitudes(w);
    }
  }

  /** The order bounds the magnitude of the degree, and it is the same for an
      argument and its canonical form. */
  lemma OrderBoundsDegree(k: Kronecker.Codec, key: RtKey, ss: seq<string>)
    requires Kronecker.WellFormed(k) && Kronecker.CodeFits(k, key.code, |ss|)
    ensures AbsInt(TDegree(k, key, ss).value) <= TOrder(k, key, ss).value
    ensures Magnitudes(CanonicalForm(Kronecker.Unpack(k, key.code, |ss|).value).0)
         == Magnitudes(Kronecker.Unpack(k, key.code, |ss|).value)
  {
    var u := Kronecker.Unpack(k, key.code, |ss|).value;
    SumBelowMagnitudes(u);
    Kronecker.DegreeFits(k, u, |ss|);
    CanonicalMagnitudes(u);
  }

  /** Canonicalising an argument keeps the magnitudes of its multipliers. */
  lemma CanonicalMagnitudes(v: seq<int>)
    ensures Magnitudes(CanonicalForm(v).0) == Magnitudes(v)
  {
    if LeadingSign(v) < 0 {
      assert forall i :: 0 <= i < |v| ==> Magnitudes(Negated(v))[i] == Magnitudes(v)[i];
    }
  }

  // ---------------------------------------------------------------------------
  // Multiplication
  // ---------------------------------------------------------------------------

  /** The coefficient `n1 * n2` (numerators for rationals), negated on
      request. */
  function SignedProduct(c1: Cf, c2: Cf, negative: bool): (r: Cf)
    requires Canonical(c1) && Canonical(c2) && SameKind(c1, c2)
    ensures SameKind(r, c1) && Canonical(r) && Denominator(r) == 1
    ensures Numerator(r) == (if negative then -(Numerator(c1) * Numerator(c2)) else Numerator(c1) * Numerator(c2))
  {
    var n := if negative then -(Numerator(c1) * Numerator(c2)) else Numerator(c1) * Numerator(c2);
    if c1.IntegerCf? then IntegerCf(n)
    else
      GcdWithZero(n);
      assert Gcd(n, 1) == 1 by { GcdSymmetric(n, 1); GcdOne(n); }
      RationalCf(n, 1)
  }

  /** The product-to-sum identities, with `a` the argument of the first
      factor and `b` that of the second:
        cos a cos b = (cos(a+b) + cos(a-b)) / 2
        sin a sin b = (-cos(a+b) + cos(a-b)) / 2
        sin a cos b = (sin(a+b) + sin(a-b)) / 2
        cos a sin b = (sin(a+b) - sin(a-b)) / 2
      The term with argument `a+b` is negative only for two sines, the term
      with argument `a-b` only for a cosine times a sine. */
  predicate PlusNegative(f1: bool, f2: bool)
  {
    !f1 && !f2
  }

  predicate MinusNegative(f1: bool, f2: bool)
  {
    f1 && !f2
  }

  /** One term of the product: argument `w` before canonicalisation, the
      flavour of the product, and the sign the identity gives. A sine whose
      argument is negated changes sign; a cosine does not. */
  function ProductTerm(k: Kronecker.Codec, c1: Cf, c2: Cf, w: seq<int>, flavour: bool, negative: bool): (r: Result<Term<Cf, RtKey>>)
    requires Canonical(c1) && Canonical(c2) && SameKind(c1, c2)
    ensures r.Err? <==> !Kronecker.Encodable(k, w)
    ensures r.Err? ==> r.error == InvalidArgument
    ensures r.Ok? ==>
              r.value.key.flavour == flavour
              && Kronecker.Unpack(k, r.value.key.code, |w|) == Ok(CanonicalForm(w).0)
              && Canonical(r.value.cf) && SameKind(r.value.cf, c1)
              && r.value.cf == SignedProduct(c1, c2, negative != (!flavour && CanonicalForm(w).1))
  {
    var (v, flipped) := CanonicalForm(w);
    CanonicalFormProperties(w);
    if Kronecker.Encodable(k, w) then
      NegatedEncodable(k, w);
      Kronecker.PackUnpack(k, v);
      Ok(Term(SignedProduct(c1, c2, negative != (!flavour && flipped)), RtKey(Kronecker.Pack(k, v).value, flavour)))
    else
      Err(InvalidArgument)
  }

  /** The two terms of the product of two terms, the one with argument `a+b`
      first. The multipliers of both keys are unpacked against the symbol
      set; a key that does not unpack, or a sum or difference the table cannot
      pack, throws `invalid_argument`. */
  function Product(k: Kronecker.Codec, t1: Term<Cf, RtKey>, t2: Term<Cf, RtKey>, ss: seq<string>): (r: Result<(Term<Cf, RtKey>, Term<Cf, RtKey>)>)
    requires Canonical(t1.cf) && Canonical(t2.cf) && SameKind(t1.cf, t2.cf)
    ensures r.Err? ==> r.error == InvalidArgument
    ensures r.Ok? <==>
              Kronecker.CodeFits(k, t1.key.code, |ss|) && Kronecker.CodeFits(k, t2.key.code, |ss|)
              && Kronecker.Encodable(k, Monomial.Add(Kronecker.Unpack(k, t1.key.code, |ss|).value, Kronecker.Unpack(k, t2.key.code, |ss|).value))
              && Kronecker.Encodable(k, Monomial.Sub(Kronecker.Unpack(k, t1.key.code, |ss|).value, Kronecker.Unpack(k, t2.key.code, |ss|).value))
    ensures r.Ok? ==>
              var a, b := Kronecker.Unpack(k, t1.key.code, |ss|).value, Kronecker.Unpack(k, t2.key.code, |ss|).value;
              var f := t1.key.flavour == t2.key.flavour;
              r.value.0.key.flavour == f && r.value.1.key.flavour == f
              && Kronecker.Unpack(k, r.value.0.key.code, |ss|) == Ok(CanonicalForm(Monomial.Add(a, b)).0)
              && Kronecker.Unpack(k, r.value.1.key.code, |ss|) == Ok(CanonicalForm(Monomial.Sub(a, b)).0)
              && r.value.0.cf == SignedProduct(t1.cf, t2.cf,
                   PlusNegative(t1.key.flavour, t2.key.flavour) != (!f && CanonicalForm(Monomial.Add(a, b)).1))
              && r.value.1.cf == SignedProduct(t1.cf, t2.cf,
                   MinusNegative(t1.key.flavour, t2.key.flavour) != (!f && CanonicalForm(Monomial.Sub(a, b)).1))
  {
    var a :- Kronecker.Unpack(k, t1.key.code, |ss|);
    var b :- Kronecker.Unpack(k, t2.key.code, |ss|);
    var f1, f2 := t1.key.flavour, t2.key.flavour;
    var plus :- ProductTerm(k, t1.cf, t2.cf, Monomial.Add(a, b), f1 == f2, PlusNegative(f1, f2));
    var minus :- ProductTerm(k, t1.cf, t2.cf, Monomial.Sub(a, b), f1 == f2, MinusNegative(f1, f2));
    Ok((plus, minus))
  }

  /** `multiply(res, t1, t2, args)`: write the two terms of the product into
      `res[0]` (argument `a+b`) and `res[1]` (argument `a-b`). On failure
      nothing is written. */
  method Multiply(k: Kronecker.Codec, res: array<Term<Cf, RtKey>>, t1: Term<Cf, RtKey>, t2: Term<Cf, RtKey>, ss: seq<string>)
    returns (outcome: Outcome)
    requires res.Length == 2
    requires Canonical(t1.cf) && Canonical(t2.cf) && SameKind(t1.cf, t2.cf)
    modifies res
    ensures outcome.Fail? <==> Product(k, t1, t2, ss).Err?
    ensures outcome.Fail? ==> outcome.error == InvalidArgument && res[..] == old(res[..])
    ensures outcome.Pass? ==> res[0] == Product(k, t1, t2, ss).value.0 && res[1] == Product(k, t1, t2, ss).value.1
  {
    var p := Product(k, t1, t2, ss);
    if p.Err? {
      return Fail(p.error);
    }
    res[0] := p.value.0;
    res[1] := p.value.1;
    return Pass;
  }

  lemma SignedProductSwap(c1: Cf, c2: Cf, negative: bool)
    requires Canonical(c1) && Canonical(c2) && SameKind(c1, c2)
    ensures SignedProduct(c2, c1, negative) == SignedProduct(c1, c2, negative)
  {
    assert Numerator(c2) * Numerator(c1) == Numerator(c1) * Numerator(c2);
  }

  /** Swapping the factors leaves `a+b` alone and negates `a-b`, which has the
      same canonical form, reached by the opposite choice unless `a == b`. */
  lemma SwappedArguments(a: seq<int>, b: seq<int>)
    requires |a| == |b|
    ensures Monomial.Add(b, a) == Monomial.Add(a, b)
    ensures Monomial.Sub(b, a) == Negated(Monomial.Sub(a, b))
    ensures CanonicalForm(Monomial.Sub(b, a)).0 == CanonicalForm(Monomial.Sub(a, b)).0
    ensures LeadingSign(Monomial.Sub(a, b)) != 0 ==> CanonicalForm(Monomial.Sub(b, a)).1 != CanonicalForm(Monomial.Sub(a, b)).1
    ensures LeadingSign(Monomial.Sub(a, b)) == 0 ==> !CanonicalForm(Monomial.Sub(b, a)).1 && !CanonicalForm(Monomial.Sub(a, b)).1
  {
    var d := Monomial.Sub(a, b);
    assert Monomial.Sub(b, a) == Negated(d);
    CanonicalFormProperties(d);
    LeadingSignNegated(d);
  }

  /** Both terms of a product are compatible keys, and the product commutes:
      swapping the factors gives the same two terms, except that for a sine
      times a cosine of one argument the `a-b` term is the zero key `sin(0)`,
      whose coefficient then carries either sign. */
  lemma ProductCommutes(k: Kronecker.Codec, t1: Term<Cf, RtKey>, t2: Term<Cf, RtKey>, ss: seq<string>)
    requires Canonical(t1.cf) && Canonical(t2.cf) && SameKind(t1.cf, t2.cf)
    requires Product(k, t1, t2, ss).Ok?
    ensures Product(k, t2, t1, ss).Ok?
    ensures IsCompatible(k, Product(k, t1, t2, ss).value.0.key, ss)
    ensures IsCompatible(k, Product(k, t1, t2, ss).value.1.key, ss)
    ensures Product(k, t2, t1, ss).value.0 == Product(k, t1, t2, ss).value.0
    ensures Product(k, t2, t1, ss).value.1 == Product(k, t1, t2, ss).value.1
            || KeyIsZero(Product(k, t1, t2, ss).value.1.key)
  {
    var n := |ss|;
    var a, b := Kronecker.Unpack(k, t1.key.code, n).value, Kronecker.Unpack(k, t2.key.code, n).value;
    SwappedArguments(a, b);
    NegatedEncodable(k, Monomial.Sub(a, b));
    CanonicalFormProperties(Monomial.Add(a, b));
    CanonicalFormProperties(Monomial.Sub(a, b));
    PlusTermSwap(k, t1, t2, ss);
    MinusTermSwap(k, t1, t2, ss);
  }

  /** `ProductCommutes` for the `a+b` term. */
  lemma PlusTermSwap(k: Kronecker.Codec, t1: Term<Cf, RtKey>, t2: Term<Cf, RtKey>, ss: seq<string>)
    requires Canonical(t1.cf) && Canonical(t2.cf) && SameKind(t1.cf, t2.cf)
    requires Product(k, t1, t2, ss).Ok? && Product(k, t2, t1, ss).Ok?
    ensures Product(k, t2, t1, ss).value.0 == Product(k, t1, t2, ss).value.0
  {
    var n := |ss|;
    var a, b := Kronecker.Unpack(k, t1.key.code, n).value, Kronecker.Unpack(k, t2.key.code, n).value;
    SwappedArguments(a, b);
    var p, q := Product(k, t1, t2, ss).value, Product(k, t2, t1, ss).value;
    Kronecker.UnpackInjective(k, p.0.key.code, q.0.key.code, n);
    SignedProductSwap(t1.cf, t2.cf, PlusNegative(t1.key.flavour, t2.key.flavour));
  }

  /** `ProductCommutes` for the `a-b` term. */
  lemma MinusTermSwap(k: Kronecker.Codec, t1: Term<Cf, RtKey>, t2: Term<Cf, RtKey>, ss: seq<string>)
    requires Canonical(t1.cf) && Canonical(t2.cf) && SameKind(t1.cf, t2.cf)
    requires Product(k, t1, t2, ss).Ok? && Product(k, t2, t1, ss).Ok?
    ensures Product(k, t2, t1, ss).value.1 == Product(k, t1, t2, ss).value.1
            || KeyIsZero(Product(k, t1, t2, ss).value.1.key)
  {
    var n := |ss|;
    var a, b := Kronecker.Unpack(k, t1.key.code, n).value, Kronecker.Unpack(k, t2.key.code, n).value;
    SwappedArguments(a, b);
    var p, q := Product(k, t1, t2, ss).value, Product(k, t2, t1, ss).value;
    CanonicalFormProperties(Monomial.Sub(a, b));
    Kronecker.UnpackInjective(k, p.1.key.code, q.1.key.code, n);
    var sign := MinusNegative(t1.key.flavour, t2.key.flavour) != (t1.key.flavour != t2.key.flavour && CanonicalForm(Monomial.Sub(a, b)).1);
    SignedProductSwap(t1.cf, t2.cf, sign);
    if LeadingSign(Monomial.Sub(a, b)) == 0 {
      LeadingSignZero(Monomial.Sub(a, b));
      Kronecker.KeyIsOneAllZero(k, p.1.key.code, n);
    }
  }

  // ---------------------------------------------------------------------------
  // Symbol set changes
  // ---------------------------------------------------------------------------

  /** `merge_symbols(ins_map, args)`: the multipliers are merged as the
      Kronecker monomial merges its exponents, and the flavour is kept. */
  function MergeSymbols(k: Kronecker.Codec, key: RtKey, im: map<nat, seq<string>>, ss: seq<string>): (r: Result<RtKey>)
    ensures r.Err? ==> r.error == InvalidArgument
    ensures r.Ok? <==> Kronecker.MergeSymbols(k, key.code, im, ss).Ok?
    ensures r.Ok? ==>
              r.value.flavour == key.flavour
              && var m := Monomial.InsertZeros(Kronecker.Unpack(k, key.code, |ss|).value, im, 0);
                 Kronecker.Unpack(k, r.value.code, |m|) == Ok(m)
  {
    var c :- Kronecker.MergeSymbols(k, key.code, im, ss);
    Ok(RtKey(c, key.flavour))
  }

  /** `trim(mask, args)`: drop the masked multipliers and keep the flavour.
      The shorter argument is not canonicalised again. */
  function Trim(k: Kronecker.Codec, key: RtKey, mask: seq<bool>, ss: seq<string>): (r: Result<RtKey>)
    requires Kronecker.WellFormed(k)
    ensures r.Err? <==> |mask| != |ss| || !Kronecker.CodeFits(k, key.code, |ss|)
    ensures r.Err? ==> r.error == InvalidArgument
    ensures r.Ok? ==>
              r.value.flavour == key.flavour
              && var m := Monomial.KeepExponents(Kronecker.Unpack(k, key.code, |ss|).value, mask);
                 Kronecker.Unpack(k, r.value.code, |m|) == Ok(m)
  {
    var c :- Kronecker.Trim(k, key.code, mask, ss);
    Ok(RtKey(c, key.flavour))
  }

  /** Trimming away the leading multiplier of a canonical argument can leave
      a key that is not canonical: `{1, 0, -1}` with the first symbol masked
      becomes `{0, -1}`, whose first nonzero multiplier is negative. */
  lemma TrimMayBreakCanonicity()
    ensures LeadingSign([1, 0, -1]) == 1
    ensures Monomial.KeepExponents([1, 0, -1], [true, false, false]) == [0, -1]
    ensures LeadingSign([0, -1]) == -1
  {
    assert [1, 0, -1][1..] == [0, -1];
    assert [0, -1][1..] == [-1];
    assert [true, false, false][1..] == [false, false];
    assert [false, false][1..] == [false];
    assert [-1][1..] == [];
    assert [0, -1][1..][1..] == [];
  }

  // ---------------------------------------------------------------------------
  // Calculus
  // ---------------------------------------------------------------------------

  /** `partial(p, args)`: `d/dx cos(n x + ...) = -n sin(n x + ...)` and
      `d/dx sin(n x + ...) = n cos(n x + ...)`, for `x` the symbol at position
      `p`; a zero multiplier or a position past the end gives the factor 0
      and the default key. A code that does not unpack throws
      `invalid_argument`. */
  function Partial(k: Kronecker.Codec, key: RtKey, p: nat, ss: seq<string>): (r: Result<(int, RtKey)>)
    ensures r.Err? <==> !Kronecker.CodeFits(k, key.code, |ss|)
    ensures r.Err? ==> r.error == InvalidArgument
    ensures r.Ok? && (p >= |ss| || Kronecker.Unpack(k, key.code, |ss|).value[p] == 0) ==> r.value == (0, One)
    ensures r.Ok? && p < |ss| && Kronecker.Unpack(k, key.code, |ss|).value[p] != 0 ==>
              var n := Kronecker.Unpack(k, key.code, |ss|).value[p];
              r.value.1 == RtKey(key.code, !key.flavour)
              && r.value.0 == (if key.flavour then -n else n)
  {
    var u :- Kronecker.Unpack(k, key.code, |ss|);
    if p >= |ss| || u[p] == 0 then Ok((0, One))
    else if key.flavour then Ok((-u[p], RtKey(key.code, false)))
    else Ok((u[p], RtKey(key.code, true)))
  }

  /** `integrate(s, args)`: `cos(n x + ...)` integrates to `sin(n x + ...) / n`
      and `sin(n x + ...)` to `-cos(n x + ...) / n`; the first component of the
      result is the divisor. A symbol absent from the set, or a zero
      multiplier, gives 0 and the default key. */
  function Integrate(k: Kronecker.Codec, key: RtKey, s: string, ss: seq<string>): (r: Result<(int, RtKey)>)
    ensures r.Err? <==> !Kronecker.CodeFits(k, key.code, |ss|)
    ensures r.Err? ==> r.error == InvalidArgument
    ensures r.Ok? && (s !in ss || Kronecker.Unpack(k, key.code, |ss|).value[IndexOf(ss, s)] == 0) ==>
              r.value == (0, One)
    ensures r.Ok? && s in ss && Kronecker.Unpack(k, key.code, |ss|).value[IndexOf(ss, s)] != 0 ==>
              var n := Kronecker.Unpack(k, key.code, |ss|).value[IndexOf(ss, s)];
              r.value.1 == RtKey(key.code, !key.flavour)
              && r.value.0 == (if key.flavour then n else -n)
  {
    var u :- Kronecker.Unpack(k, key.code, |ss|);
    var j := IndexOf(ss, s);
    if j == |ss| || u[j] == 0 then Ok((0, One))
    else if key.flavour then Ok((u[j], RtKey(key.code, false)))
    else Ok((-u[j], RtKey(key.code, true)))
  }

  /** Differentiating the integral with respect to the same symbol gives the
      original key back, with a factor equal to the divisor of the integral,
      so the two cancel. */
  lemma PartialOfIntegrate(k: Kronecker.Codec, key: RtKey, s: string, ss: seq<string>)
    requires Kronecker.CodeFits(k, key.code, |ss|) && s in ss
    requires Integrate(k, key, s, ss).value.0 != 0
    ensures Partial(k, Integrate(k, key, s, ss).value.1, IndexOf(ss, s), ss)
         == Ok((Integrate(k, key, s, ss).value.0, key))
  {
  }

  /** Differentiating twice with respect to a symbol of multiplier `n` gives
      back the key with the factor `-n * n`. */
  lemma PartialTwice(k: Kronecker.Codec, key: RtKey, p: nat, ss: seq<string>)
    requires Kronecker.CodeFits(k, key.code, |ss|) && p < |ss|
    requires Kronecker.Unpack(k, key.code, |ss|).value[p] != 0
    ensures var n := Kronecker.Unpack(k, key.code, |ss|).value[p];
            var (f1, k1) := Partial(k, key, p, ss).value;
            var (f2, k2) := Partial(k, k1, p, ss).value;
            k2 == key && f1 * f2 == -(n * n)
  {
  }

  // ---------------------------------------------------------------------------
  // Ordering and hashing
  // ---------------------------------------------------------------------------

  /** `operator<`: by code, and between equal codes the sine first. */
  predicate Less(k1: RtKey, k2: RtKey)
  {
    k1.code < k2.code || (k1.code == k2.code && !k1.flavour && k2.flavour)
  }

  /** `operator<` is a strict total order on keys, consistent with
      equality. */
  lemma LessIsStrictTotalOrder(k1: RtKey, k2: RtKey, k3: RtKey)
    ensures !Less(k1, k1)
    ensures Less(k1, k2) ==> !Less(k2, k1)
    ensures Less(k1, k2) && Less(k2, k3) ==> Less(k1, k3)
    ensures k1 == k2 || Less(k1, k2) || Less(k2, k1)
  {
  }

  /** `hash()`: the Kronecker hash of the code; the flavour is not hashed. */
  function Hash(key: RtKey): (h: nat)
    ensures h < Kronecker.SizeRange
  {
    Kronecker.Hash(key.code)
  }

  /** Equal keys hash equally; the sine and the cosine of one argument
      collide, while distinct 64-bit codes never do. */
  lemma HashCases(k1: RtKey, k2: RtKey)
    ensures k1.code == k2.code ==> Hash(k1) == Hash(k2)
    ensures InRange(Long, k1.code) && InRange(Long, k2.code) && Hash(k1) == Hash(k2) ==> k1.code == k2.code
  {
    if InRange(Long, k1.code) && InRange(Long, k2.code) && Hash(k1) == Hash(k2) {
      Kronecker.HashInjective(k1.code, k2.code);
    }
  }

  // ---------------------------------------------------------------------------
  // Printing
  // ---------------------------------------------------------------------------

  function DigitChar(d: nat): char
    requires d < 10
  {
    "0123456789"[d]
  }

  function NatToString(n: nat): (s: string)
    ensures |s| >= 1
    decreases n
  {
    if n < 10 then [DigitChar(n)] else NatToString(n / 10) + [DigitChar(n % 10)]
  }

  function IntToString(n: int): string
  {
    if n < 0 then "-" + NatToString(-n) else NatToString(n)
  }

  /** One multiplier `n` of symbol `x`, nonzero: a `+` joins it to what came
      before when positive, a unit multiplier shows as `x` or `-x`, any other
      as `n*x`. */
  function Multiplier(n: int, x: string, first: bool): string
  {
    (if n > 0 && !first then "+" else "")
    + (if n == 1 then "" else if n == -1 then "-" else IntToString(n) + "*")
    + x
  }

  /** The argument from position `i` on, zero multipliers skipped. */
  function Argument(v: seq<int>, ss: seq<string>, i: nat, first: bool): string
    requires |v| == |ss| && i <= |v|
    decreases |v| - i
  {
    if i == |v| then ""
    else if v[i] == 0 then Argument(v, ss, i + 1, first)
    else Multiplier(v[i], ss[i], first) + Argument(v, ss, i + 1, false)
  }

  /** The text of a key with multipliers `v`: nothing for the null argument,
      otherwise `cos(...)` or `sin(...)`. */
  function Render(v: seq<int>, flavour: bool, ss: seq<string>): string
    requires |v| == |ss|
  {
    if LeadingSign(v) == 0 then ""
    else (if flavour then "cos(" else "sin(") + Argument(v, ss, 0, true) + ")"
  }

  /** `print(os, args)`: a code that does not unpack throws
      `invalid_argument`. */
  function Print(k: Kronecker.Codec, key: RtKey, ss: seq<string>): (r: Result<string>)
    ensures r.Err? <==> !Kronecker.CodeFits(k, key.code, |ss|)
    ensures r.Ok? ==>
              var u := Kronecker.Unpack(k, key.code, |ss|).value;
              (r.value == "" <==> forall i :: 0 <= i < |u| ==> u[i] == 0)
              && (r.value != "" ==> r.value == (if key.flavour then "cos(" else "sin(") + Argument(u, ss, 0, true) + ")")
  {
    var u :- Kronecker.Unpack(k, key.code, |ss|);
    LeadingSignZero(u);
    Ok(Render(u, key.flavour, ss))
  }

  /** The renderings of one-symbol keys. */
  lemma RenderSingle()
    ensures Render([1], true, ["x"]) == "cos(x)"
    ensures Render([1], false, ["x"]) == "sin(x)"
    ensures Render([0], true, ["x"]) == ""
  {
    assert [1][1..] == [] && [0][1..] == [];
  }

  /** Unit multipliers show no factor, and only a positive multiplier after
      the first printed one gets a `+`. */
  lemma RenderUnitPairs()
    ensures Render([1, -1], true, ["x", "y"]) == "cos(x-y)"
    ensures Render([1, 1], true, ["x", "y"]) == "cos(x+y)"
    ensures Render([0, 1], true, ["x", "y"]) == "cos(y)"
    ensures Render([0, -1], true, ["x", "y"]) == "cos(-y)"
  {
    assert [1, -1][1..] == [-1] && [1, 1][1..] == [1] && [0, 1][1..] == [1] && [0, -1][1..] == [-1];
  }

  /** Other multipliers show as a factor before a `*`. */
  lemma RenderFactorPairs()
    ensures Render([1, 2], false, ["x", "y"]) == "sin(x+2*y)"
    ensures Render([1, -2], true, ["x", "y"]) == "cos(x-2*y)"
    ensures Render([-1, -2], true, ["x", "y"]) == "cos(-x-2*y)"
    ensures Render([-2, 1], true, ["x", "y"]) == "cos(-2*x+y)"
  {
    TwoDigits();
    RenderPair(1, 2, false, "x", "y");
    RenderPair(1, -2, true, "x", "y");
    RenderPair(-1, -2, true, "x", "y");
    RenderPair(-2, 1, true, "x", "y");
  }

  /** The factors 2 and -2 as printed. */
  lemma TwoDigits()
    ensures Multiplier(2, "y", false) == "+2*y" && Multiplier(-2, "y", false) == "-2*y"
    ensures Multiplier(-2, "x", true) == "-2*x"
  {
    assert IntToString(2) == "2";
    assert IntToString(-2) == "-2";
  }

  /** A key of two nonzero multipliers shows both, the first one as the
      first printed. */
  lemma RenderPair(a: int, b: int, flavour: bool, x: string, y: string)
    requires a != 0 && b != 0
    ensures Render([a, b], flavour, [x, y]) ==
              (if flavour then "cos(" else "sin(") + Multiplier(a, x, true) + Multiplier(b, y, false) + ")"
  {
    var v := [a, b];
    assert v[1..] == [b];
    assert LeadingSign(v) != 0;
    assert Argument(v, [x, y], 2, false) == "";
    assert Argument(v, [x, y], 1, false) == Multiplier(b, y, false);
  }
}
