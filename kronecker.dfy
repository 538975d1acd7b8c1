/** `kronecker_monomial<T>`: an exponent vector packed into one signed integer
    of type `T` by a Kronecker substitution.

    The packing table (`kronecker_array<T>`) is a parameter of this model, a
    `Codec`: for every vector size `n` it gives a limit `limits[n]` on the
    magnitude of each component, and the code of a vector is its value in the
    balanced mixed radix `2 * limits[n] + 1` with the first component as the
    least significant digit. The one-element vector `[x]` is thus packed into
    `x` itself, the zero vector into `0`, and packing is additive, which is
    what lets `multiply` add two codes. */
module Kronecker {
  import opened Wrappers
  import opened MachineInt
  import opened IntegerMath
  import opened SymbolUtils
  import opened Terms
  import Monomial

  // ---------------------------------------------------------------------------
  // The balanced mixed-radix codec
  // ---------------------------------------------------------------------------

  function Radix(l: nat): nat
  {
    2 * l + 1
  }

  // The multiplication, quotient and remainder by the radix go through these
  // functions, so that no proof sees more nonlinear arithmetic than it needs.

  function Times(l: nat, x: int): int
  {
    Radix(l) * x
  }

  function Quot(l: nat, x: int): int
  {
    x / Radix(l)
  }

  function Rem(l: nat, x: int): (m: int)
    ensures 0 <= m < Radix(l)
  {
    x % Radix(l)
  }

  /** The largest magnitude of the code of a vector of `n` components, each in
      `[-l, l]`. */
  function Bound(l: nat, n: nat): int
  {
    if n == 0 then 0 else l + Times(l, Bound(l, n - 1))
  }

  /** Every component lies in `[-l, l]`. */
  predicate DigitsFit(l: nat, v: seq<int>)
  {
    forall i :: 0 <= i < |v| ==> -(l as int) <= v[i] <= l
  }

  function Encode(l: nat, v: seq<int>): int
  {
    if v == [] then 0 else v[0] + Times(l, Encode(l, v[1..]))
  }

  /** The least significant balanced digit of a code. */
  function Digit(l: nat, c: int): (d: int)
    ensures -(l as int) <= d <= l
  {
    Rem(l, c + l) - l
  }

  function Decode(l: nat, c: int, n: nat): (v: seq<int>)
    ensures |v| == n && DigitsFit(l, v)
    decreases n
  {
    if n == 0 then []
    else
      var d := Digit(l, c);
      var rest := Decode(l, Quot(l, c - d), n - 1);
      [d] + rest
  }

  lemma ScaleMonotone(l: nat, x: int, y: int)
    requires x < y
    ensures Times(l, x) + Radix(l) <= Times(l, y)
  {
    var r, k := Radix(l), y - x - 1;
    Distribute(r, x, k + 1);
    Distribute(r, 1, k);
    ProductNonNegative(r, k);
  }

  lemma Distribute(r: int, x: int, k: int)
    ensures r * (x + k) == r * x + r * k
  {
  }

  lemma ProductNonNegative(r: nat, k: nat)
    ensures r * k >= 0
  {
  }

  lemma TimesAdd(l: nat, x: int, y: int)
    ensures Times(l, x) + Times(l, y) == Times(l, x + y)
  {
  }

  lemma DivModOf(l: nat, q: int, m: int)
    requires 0 <= m < Radix(l)
    ensures Quot(l, Times(l, q) + m) == q && Rem(l, Times(l, q) + m) == m
  {
    var r := Radix(l);
    var x := r * q + m;
    var q', m' := x / r, x % r;
    assert r * q' + m' == x;
    if q' < q {
      ScaleMonotone(l, q', q);
    } else if q < q' {
      ScaleMonotone(l, q, q');
    }
  }

  /** The digit and the remaining code of `d + r * k` are `d` and `k`. */
  lemma DigitOf(l: nat, d: int, k: int)
    requires -(l as int) <= d <= l
    ensures Digit(l, d + Times(l, k)) == d
    ensures Quot(l, d + Times(l, k) - d) == k
  {
    DivModOf(l, k, d + l);
    DivModOf(l, k, 0);
    assert d + Times(l, k) + l == Times(l, k) + (d + l);
  }

  lemma {:induction false} BoundNonNegative(l: nat, n: nat)
    ensures Bound(l, n) >= 0
  {
    if n > 0 {
      BoundNonNegative(l, n - 1);
      if Bound(l, n - 1) > 0 {
        ScaleMonotone(l, 0, Bound(l, n - 1));
      }
    }
  }

  /** The code of a vector with components in `[-l, l]` lies in
      `[-Bound(l, |v|), Bound(l, |v|)]`. */
  lemma {:induction false} EncodeBound(l: nat, v: seq<int>)
    requires DigitsFit(l, v)
    ensures -Bound(l, |v|) <= Encode(l, v) <= Bound(l, |v|)
  {
    if v != [] {
      DigitsFitTail(l, v);
      EncodeBound(l, v[1..]);
      var e, b := Encode(l, v[1..]), Bound(l, |v| - 1);
      assert Encode(l, v) == v[0] + Times(l, e);
      assert Bound(l, |v|) == l + Times(l, b);
      ScaledBetween(l, e, b);
    }
  }

  /** Scaling by the radix keeps `-b <= e <= b`. */
  lemma ScaledBetween(l: nat, e: int, b: int)
    requires -b <= e <= b
    ensures -Times(l, b) <= Times(l, e) <= Times(l, b)
  {
    if e < b {
      ScaleMonotone(l, e, b);
    }
    if -b < e {
      ScaleMonotone(l, -b, e);
    }
    Distribute(Radix(l), b, -b);
  }

  /** Decoding the code of a vector gives the vector back. */
  lemma {:induction false} DecodeEncode(l: nat, v: seq<int>)
    requires DigitsFit(l, v)
    ensures Decode(l, Encode(l, v), |v|) == v
  {
    if v != [] {
      var d, w := v[0], v[1..];
      var e := Encode(l, w);
      DigitsFitTail(l, v);
      DecodeEncode(l, w);
      DecodeCons(l, d, e, |w|);
      assert v == [d] + w;
    }
  }

  lemma DigitsFitTail(l: nat, v: seq<int>)
    requires v != [] && DigitsFit(l, v)
    ensures DigitsFit(l, v[1..])
  {
    forall i | 0 <= i < |v| - 1 ensures -(l as int) <= v[1..][i] <= l {
      assert v[1..][i] == v[i + 1];
    }
  }

  /** A code `d + r * e` decodes to `d` followed by the decoding of `e`. */
  lemma DecodeCons(l: nat, d: int, e: int, n: nat)
    requires -(l as int) <= d <= l
    ensures Decode(l, d + Times(l, e), n + 1) == [d] + Decode(l, e, n)
  {
    DigitOf(l, d, e);
  }

  /** Every code within the bound is the code of its decoding. */
  lemma {:induction false} EncodeDecode(l: nat, c: int, n: nat)
    requires -Bound(l, n) <= c <= Bound(l, n)
    ensures Encode(l, Decode(l, c, n)) == c
    decreases n
  {
    if n > 0 {
      var d := Digit(l, c);
      var q := Quot(l, c + l);
      assert c + l == Times(l, q) + (d + l);
      DivModOf(l, q, 0);
      assert c - d == Times(l, q) + 0;
      assert Quot(l, c - d) == q;
      var b := Bound(l, n - 1);
      if q > b {
        ScaleMonotone(l, b, q);
        assert false;
      }
      assert Times(l, -b) == -Times(l, b);
      if q < -b {
        ScaleMonotone(l, q, -b);
        assert false;
      }
      EncodeDecode(l, q, n - 1);
      var v := Decode(l, c, n);
      assert v[0] == d && v[1..] == Decode(l, q, n - 1);
    }
  }

  /** Codes are additive: the sum of two codes is the code of the sum. */
  lemma {:induction false} EncodeAdd(l: nat, a: seq<int>, b: seq<int>)
    requires |a| == |b|
    ensures Encode(l, a) + Encode(l, b) == Encode(l, Monomial.Add(a, b))
  {
    if a != [] {
      assert Monomial.Add(a, b)[1..] == Monomial.Add(a[1..], b[1..]);
      EncodeAdd(l, a[1..], b[1..]);
      TimesAdd(l, Encode(l, a[1..]), Encode(l, b[1..]));
    }
  }

  lemma {:induction false} EncodeZeros(l: nat, n: nat)
    ensures Encode(l, Monomial.Zeros(n)) == 0
  {
    if n > 0 {
      assert Monomial.Zeros(n)[1..] == Monomial.Zeros(n - 1);
      EncodeZeros(l, n - 1);
    }
  }

  /** Comparing vectors of one size from their last component down to the
      first: the order of their codes. */
  predicate RevLexLess(a: seq<int>, b: seq<int>)
    requires |a| == |b|
  {
    a != [] && if a[1..] == b[1..] then a[0] < b[0] else RevLexLess(a[1..], b[1..])
  }

  /** Codes are ordered as their vectors are, last component most significant. */
  lemma {:induction false} EncodeOrder(l: nat, a: seq<int>, b: seq<int>)
    requires |a| == |b| && DigitsFit(l, a) && DigitsFit(l, b)
    ensures Encode(l, a) < Encode(l, b) <==> RevLexLess(a, b)
  {
    if a != [] {
      assert DigitsFit(l, a[1..]) && DigitsFit(l, b[1..]) by {
        forall i | 0 <= i < |a| - 1
          ensures -(l as int) <= a[1..][i] <= l && -(l as int) <= b[1..][i] <= l
        {
          assert a[1..][i] == a[i + 1] && b[1..][i] == b[i + 1];
        }
      }
      var x, y := Encode(l, a[1..]), Encode(l, b[1..]);
      if a[1..] != b[1..] {
        EncodeOrder(l, a[1..], b[1..]);
        DecodeEncode(l, a[1..]);
        DecodeEncode(l, b[1..]);
        if x < y {
          ScaleMonotone(l, x, y);
        } else {
          assert x != y;
          ScaleMonotone(l, y, x);
        }
      }
    }
  }

  // ---------------------------------------------------------------------------
  // The packing table
  // ---------------------------------------------------------------------------

  /** The packing table for one signed type `T`: `limits[n]` bounds the
      magnitude of each component of a vector of size `n`; vectors of size
      `|limits|` or more cannot be packed. */
  datatype Codec = Codec(t: IntType, limits: seq<nat>)

  /** The table fits its type: every code of every size it admits is a value of
      `T`, short of the maximum from two components on, and the limits shrink
      as the size grows. */
  predicate WellFormed(k: Codec)
  {
    k.t.signed && |k.limits| >= 2
    && (forall n :: 1 <= n < |k.limits| ==> 1 <= k.limits[n] && Bound(k.limits[n], n) <= Max(k.t))
    && (forall n :: 2 <= n < |k.limits| ==> Bound(k.limits[n], n) < Max(k.t))
    && (forall m, n :: 1 <= m <= n < |k.limits| ==> k.limits[n] <= k.limits[m])
  }

  /** A table for `signed char` meeting these conditions. */
  lemma SignedCharTable()
    ensures WellFormed(Codec(SignedChar, [0, 126, 7, 2, 1, 1]))
  {
    var k := Codec(SignedChar, [0, 126, 7, 2, 1, 1]);
    assert Max(SignedChar) == 127 by {
      assert Pow2(7) == 128;
    }
    assert Bound(126, 1) == 126;
    assert Bound(7, 2) == 7 + 15 * 7;
    assert Bound(2, 3) == 2 + 5 * (2 + 5 * 2);
    assert Bound(1, 4) == 1 + 3 * (1 + 3 * (1 + 3 * 1));
    assert Bound(1, 5) == 1 + 3 * Bound(1, 4);
  }

  /** A vector the table can pack: its size is in the table and its components
      are within the limit for that size. */
  predicate Encodable(k: Codec, v: seq<int>)
  {
    |v| < |k.limits| && DigitsFit(k.limits[|v|], v)
  }

  /** A code the table can unpack into `n` components. For `n == 0` only the
      code 0 qualifies. */
  predicate CodeFits(k: Codec, c: int, n: nat)
  {
    n < |k.limits| && -Bound(k.limits[n], n) <= c <= Bound(k.limits[n], n)
  }

  lemma CodeInRange(k: Codec, c: int, n: nat)
    requires WellFormed(k) && CodeFits(k, c, n)
    ensures InRange(k.t, c)
  {
    RangeNonEmpty(k.t);
  }

  /** `kronecker_array::encode`: a vector of unsupported size, or with a
      component out of bounds, throws `invalid_argument`. */
  function Pack(k: Codec, v: seq<int>): (r: Result<int>)
    ensures r.Err? <==> !Encodable(k, v)
    ensures r.Err? ==> r.error == InvalidArgument
    ensures r.Ok? ==> CodeFits(k, r.value, |v|)
    ensures r.Ok? && WellFormed(k) ==> InRange(k.t, r.value)
  {
    if !Encodable(k, v) then Err(InvalidArgument)
    else
      EncodeBound(k.limits[|v|], v);
      if WellFormed(k) then
        CodeInRange(k, Encode(k.limits[|v|], v), |v|);
        Ok(Encode(k.limits[|v|], v))
      else
        Ok(Encode(k.limits[|v|], v))
  }

  /** `kronecker_array::decode` into `n` components: a code the table cannot
      decode at that size (any nonzero code for size 0) throws
      `invalid_argument`; otherwise the components are within the limits and
      pack back into the code. */
  function Unpack(k: Codec, c: int, n: nat): (r: Result<seq<int>>)
    ensures r.Err? <==> !CodeFits(k, c, n)
    ensures r.Err? ==> r.error == InvalidArgument
    ensures r.Ok? ==> |r.value| == n && Encodable(k, r.value) && Pack(k, r.value) == Ok(c)
  {
    if !CodeFits(k, c, n) then Err(InvalidArgument)
    else
      EncodeDecode(k.limits[n], c, n);
      Ok(Decode(k.limits[n], c, n))
  }

  /** Unpacking a packed vector gives the vector back. */
  lemma PackUnpack(k: Codec, v: seq<int>)
    requires Pack(k, v).Ok?
    ensures Unpack(k, Pack(k, v).value, |v|) == Ok(v)
  {
    DecodeEncode(k.limits[|v|], v);
  }

  /** Two codes that unpack at one size are equal exactly when their vectors
      are. */
  lemma UnpackInjective(k: Codec, c1: int, c2: int, n: nat)
    requires CodeFits(k, c1, n) && CodeFits(k, c2, n)
    ensures Unpack(k, c1, n) == Unpack(k, c2, n) <==> c1 == c2
  {
  }

  /** The zero vector of every supported size packs into 0. */
  lemma PackZeros(k: Codec, n: nat)
    requires n < |k.limits|
    ensures Pack(k, Monomial.Zeros(n)) == Ok(0)
    ensures Unpack(k, 0, n) == Ok(Monomial.Zeros(n))
  {
    EncodeZeros(k.limits[n], n);
    PackUnpack(k, Monomial.Zeros(n));
  }

  /** A one-element vector packs into its own component. */
  lemma PackSingle(k: Codec, x: int)
    requires 1 < |k.limits| && -(k.limits[1] as int) <= x <= k.limits[1]
    ensures Pack(k, [x]) == Ok(x)
  {
    var l := k.limits[1];
    assert [x][1..] == [];
    assert Encode(l, []) == 0;
    assert Times(l, 0) == 0;
    assert Encode(l, [x]) == x;
  }

  // ---------------------------------------------------------------------------
  // The monomial
  // ---------------------------------------------------------------------------

  /** A `kronecker_monomial` object. The packed integer is its only state, and
      `set_int` overwrites it. */
  class KMonomial {
    var value: int

    /** The default constructor: the code 0, the unit monomial. */
    constructor ()
      ensures value == 0
    {
      value := 0;
    }

    /** The constructor from an integer: the code itself. */
    constructor FromInt(n: int)
      ensures value == n
    {
      value := n;
    }

    function GetInt(): int
      reads this
    {
      value
    }

    method SetInt(n: int)
      modifies this
      ensures value == n
    {
      value := n;
    }
  }

  /** The constructor from a range and a symbol set: the range must have one
      component per symbol, and it is packed. */
  function FromRange(k: Codec, v: seq<int>, ss: seq<string>): (r: Result<int>)
    ensures r.Err? <==> |v| != |ss| || !Encodable(k, v)
    ensures r.Err? ==> r.error == InvalidArgument
    ensures r.Ok? ==> Unpack(k, r.value, |ss|) == Ok(v)
  {
    if |v| != |ss| then Err(InvalidArgument)
    else
      var c :- Pack(k, v);
      PackUnpack(k, v);
      Ok(c)
  }

  /** The constructor from a symbol set: the code 0, which unpacks into zero
      exponents whenever the table supports the size. */
  function FromSymbols(k: Codec, ss: seq<string>): (c: int)
    ensures |ss| < |k.limits| ==> Unpack(k, c, |ss|) == Ok(Monomial.Zeros(|ss|))
  {
    if |ss| < |k.limits| then PackZeros(k, |ss|); 0 else 0
  }

  /** `is_compatible(args)`: the code unpacks into one exponent per symbol. */
  predicate IsCompatible(k: Codec, c: int, ss: seq<string>)
  {
    CodeFits(k, c, |ss|)
  }

  /** Compatibility is exactly what unpacking needs; with no symbols only 0 is
      compatible, sizes past the table never are, and the largest value of `T`
      never is either. */
  lemma IsCompatibleCases(k: Codec, c: int, ss: seq<string>)
    requires WellFormed(k)
    ensures IsCompatible(k, c, ss) <==> Unpack(k, c, |ss|).Ok?
    ensures ss == [] ==> (IsCompatible(k, c, ss) <==> c == 0)
    ensures |ss| >= |k.limits| ==> !IsCompatible(k, c, ss)
    ensures |ss| >= 2 ==> !IsCompatible(k, Max(k.t), ss)
    ensures 1 <= |ss| < |k.limits| ==> IsCompatible(k, -1, ss)
  {
    if 1 <= |ss| < |k.limits| {
      var l := k.limits[|ss|];
      BoundNonNegative(l, |ss| - 1);
      if Bound(l, |ss| - 1) > 0 {
        ScaleMonotone(l, 0, Bound(l, |ss| - 1));
      }
      assert Bound(l, |ss|) >= 1;
    }
  }

  /** `key_is_one`: the code is 0. */
  predicate KeyIsOne(c: int)
  {
    c == 0
  }

  /** The code is 0 exactly when every unpacked exponent is zero. */
  lemma KeyIsOneAllZero(k: Codec, c: int, n: nat)
    requires CodeFits(k, c, n)
    ensures KeyIsOne(c) <==> forall i :: 0 <= i < n ==> Unpack(k, c, n).value[i] == 0
  {
    PackZeros(k, n);
    var u := Unpack(k, c, n).value;
    if forall i :: 0 <= i < n ==> u[i] == 0 {
      assert u == Monomial.Zeros(n);
    }
  }

  // ---------------------------------------------------------------------------
  // Degree
  // ---------------------------------------------------------------------------

  lemma TimesAtLeast(l: nat, x: int)
    requires x >= 0
    ensures Times(l, x) >= x
  {
    assert Radix(l) * x == x + (2 * l) * x;
  }

  /** `n` components in `[-l, l]` never sum past the bound of their codes. */
  lemma {:induction false} BoundAtLeast(l: nat, n: nat)
    ensures n * l <= Bound(l, n)
  {
    if n > 0 {
      BoundAtLeast(l, n - 1);
      BoundNonNegative(l, n - 1);
      TimesAtLeast(l, Bound(l, n - 1));
      assert n * l == (n - 1) * l + l;
    }
  }

  lemma {:induction false} SumBound(l: nat, v: seq<int>)
    requires DigitsFit(l, v)
    ensures -(|v| * l) <= Monomial.Sum(v) <= |v| * l
    decreases |v|
  {
    if v != [] {
      var w := v[..|v| - 1];
      assert DigitsFit(l, w) by {
        forall i | 0 <= i < |w| ensures -(l as int) <= w[i] <= l {
          assert w[i] == v[i];
        }
      }
      SumBound(l, w);
      assert |v| * l == |w| * l + l;
    }
  }

  lemma ProductBelow(i: nat, n: nat, l: nat)
    requires i <= n
    ensures i * l <= n * l
  {
    assert n * l == i * l + (n - i) * l;
  }

  /** A running total of components within the limit for size `n` stays
      within the bound of that size. */
  lemma PrefixBound(l: nat, s: seq<int>, i: nat, n: nat)
    requires DigitsFit(l, s) && i <= |s| <= n
    ensures -Bound(l, n) <= Monomial.Sum(s[..i]) <= Bound(l, n)
  {
    assert DigitsFit(l, s[..i]) by {
      forall j | 0 <= j < i ensures -(l as int) <= s[..i][j] <= l {
        assert s[..i][j] == s[j];
      }
    }
    SumBound(l, s[..i]);
    ProductBelow(i, n, l);
    BoundAtLeast(l, n);
  }

  /** Every code bound admitted by a well-formed table, and its negation, are
      values of `T`. */
  lemma BoundInRange(k: Codec, n: nat)
    requires WellFormed(k) && n < |k.limits|
    ensures InRange(k.t, Bound(k.limits[n], n)) && InRange(k.t, -Bound(k.limits[n], n))
  {
    RangeNonEmpty(k.t);
    BoundNonNegative(k.limits[n], n);
  }

  /** Summing at most `n` components within the limit for size `n`, every
      running total is a value of `T`: the degree of a packed monomial cannot
      overflow. */
  lemma DegreeFits(k: Codec, s: seq<int>, n: nat)
    requires WellFormed(k) && n < |k.limits| && |s| <= n && DigitsFit(k.limits[n], s)
    ensures Monomial.CheckedSum(Monomial.Fixed(k.t), s) == Ok(Monomial.Sum(s))
  {
    var l := k.limits[n];
    BoundInRange(k, n);
    forall i | 0 <= i <= |s| ensures Monomial.Fits(Monomial.Fixed(k.t), Monomial.Sum(s[..i])) {
      PrefixBound(l, s, i, n);
    }
  }

  /** `key_degree(k, args)`: the degree of the unpacked exponents, which is
      their checked sum in `T` and never overflows. A code that does not
      unpack against the symbol set throws `invalid_argument`. */
  function Degree(k: Codec, c: int, ss: seq<string>): (r: Result<int>)
    requires WellFormed(k)
    ensures r.Err? <==> !CodeFits(k, c, |ss|)
    ensures r.Err? ==> r.error == InvalidArgument
    ensures r.Ok? ==> Monomial.CheckedSum(Monomial.Fixed(k.t), Unpack(k, c, |ss|).value) == r
  {
    var u :- Unpack(k, c, |ss|);
    DegreeFits(k, u, |ss|);
    Ok(Monomial.Sum(u))
  }

  lemma {:induction false} AscendingAtLeast(p: seq<nat>, i: nat)
    requires Monomial.Ascending(p) && i < |p|
    ensures p[i] >= i
  {
    if i > 0 {
      AscendingAtLeast(p, i - 1);
    }
  }

  /** The positions of a set whose last element is below `n` are all below
      `n`, and there are at most `n` of them. */
  lemma PositionsBelow(p: seq<nat>, n: nat)
    requires Monomial.Ascending(p) && (p == [] || p[|p| - 1] < n)
    ensures (forall i :: 0 <= i < |p| ==> p[i] < n) && |p| <= n
  {
    if p != [] {
      Monomial.AscendingLast(p);
      AscendingAtLeast(p, |p| - 1);
    }
  }

  /** The partial `key_degree(k, p, args)`: the degree over the positions
      `p`. A code that does not unpack, or a last position outside the
      monomial, throws `invalid_argument`. */
  function PartialDegree(k: Codec, c: int, p: seq<nat>, ss: seq<string>): (r: Result<int>)
    requires WellFormed(k) && Monomial.Ascending(p)
    ensures r.Err? <==> !CodeFits(k, c, |ss|) || (p != [] && p[|p| - 1] >= |ss|)
    ensures r.Err? ==> r.error == InvalidArgument
    ensures r.Ok? ==>
              (forall i :: 0 <= i < |p| ==> p[i] < |ss|)
              && Monomial.CheckedSum(Monomial.Fixed(k.t), Monomial.Select(Unpack(k, c, |ss|).value, p)) == r
  {
    var u :- Unpack(k, c, |ss|);
    if p != [] && p[|p| - 1] >= |ss| then Err(InvalidArgument)
    else
      PositionsBelow(p, |ss|);
      var s := Monomial.Select(u, p);
      assert DigitsFit(k.limits[|ss|], s);
      DegreeFits(k, s, |ss|);
      Ok(Monomial.Sum(s))
  }

  // ---------------------------------------------------------------------------
  // Multiplication
  // ---------------------------------------------------------------------------

  /** `multiply(res, t1, t2, args)`: the coefficient product (numerators for
      rationals) and the sum of the two codes, written to `res[0]`. The codes
      are added without a check: the series multiplier has verified
      beforehand that the sum stays inside the range of `T`. */
  method Multiply(res: array<Term<Cf, int>>, t1: Term<Cf, int>, t2: Term<Cf, int>, ss: seq<string>, ghost k: Codec)
    requires res.Length == 1
    requires Canonical(t1.cf) && Canonical(t2.cf) && SameKind(t1.cf, t2.cf)
    requires InRange(k.t, t1.key + t2.key)
    modifies res
    ensures res[0] == Term(KeyProduct(t1.cf, t2.cf), t1.key + t2.key)
  {
    res[0] := Term(KeyProduct(t1.cf, t2.cf), t1.key + t2.key);
  }

  /** The sum of two codes unpacks into the sum of their exponent vectors,
      whenever that sum is within the limits. */
  lemma MultiplyAddsExponents(k: Codec, c1: int, c2: int, n: nat)
    requires CodeFits(k, c1, n) && CodeFits(k, c2, n)
    requires Encodable(k, Monomial.Add(Unpack(k, c1, n).value, Unpack(k, c2, n).value))
    ensures Unpack(k, c1 + c2, n) == Ok(Monomial.Add(Unpack(k, c1, n).value, Unpack(k, c2, n).value))
  {
    AddsExponents(k, c1, c2, n, Unpack(k, c1, n).value, Unpack(k, c2, n).value);
  }

  lemma AddsExponents(k: Codec, c1: int, c2: int, n: nat, u1: seq<int>, u2: seq<int>)
    requires CodeFits(k, c1, n) && CodeFits(k, c2, n)
    requires Unpack(k, c1, n) == Ok(u1) && Unpack(k, c2, n) == Ok(u2)
    requires Encodable(k, Monomial.Add(u1, u2))
    ensures Unpack(k, c1 + c2, n) == Ok(Monomial.Add(u1, u2))
  {
    EncodeAdd(k.limits[n], u1, u2);
    PackUnpack(k, Monomial.Add(u1, u2));
  }

  /** The degree of the product is the sum of the degrees. */
  lemma MultiplyAddsDegrees(k: Codec, c1: int, c2: int, ss: seq<string>)
    requires WellFormed(k) && CodeFits(k, c1, |ss|) && CodeFits(k, c2, |ss|)
    requires Encodable(k, Monomial.Add(Unpack(k, c1, |ss|).value, Unpack(k, c2, |ss|).value))
    ensures Degree(k, c1 + c2, ss) == Ok(Degree(k, c1, ss).value + Degree(k, c2, ss).value)
  {
    MultiplyAddsExponents(k, c1, c2, |ss|);
    DegreeOfAdded(k, c1, c2, ss);
  }

  /** A code that unpacks into the sum of two unpacked vectors has the sum of
      their degrees. */
  lemma DegreeOfAdded(k: Codec, c1: int, c2: int, ss: seq<string>)
    requires WellFormed(k) && CodeFits(k, c1, |ss|) && CodeFits(k, c2, |ss|)
    requires Unpack(k, c1 + c2, |ss|) == Ok(Monomial.Add(Unpack(k, c1, |ss|).value, Unpack(k, c2, |ss|).value))
    ensures Degree(k, c1 + c2, ss) == Ok(Degree(k, c1, ss).value + Degree(k, c2, ss).value)
  {
    var n := |ss|;
    var u1, u2 := Unpack(k, c1, n).value, Unpack(k, c2, n).value;
    Monomial.SumAdd(u1, u2);
    DegreeOfSum(k, c1, c2, c1 + c2, ss, u1, u2, Monomial.Add(u1, u2));
  }

  /** A code whose exponents sum to the sums of two others has the sum of
      their degrees. */
  lemma DegreeOfSum(k: Codec, c1: int, c2: int, c: int, ss: seq<string>, u1: seq<int>, u2: seq<int>, u: seq<int>)
    requires WellFormed(k) && Unpack(k, c1, |ss|) == Ok(u1) && Unpack(k, c2, |ss|) == Ok(u2)
    requires Unpack(k, c, |ss|) == Ok(u) && Monomial.Sum(u) == Monomial.Sum(u1) + Monomial.Sum(u2)
    ensures Degree(k, c, ss) == Ok(Degree(k, c1, ss).value + Degree(k, c2, ss).value)
  {
    DegreeOfUnpacked(k, c1, ss, u1);
    DegreeOfUnpacked(k, c2, ss, u2);
    DegreeOfUnpacked(k, c, ss, u);
    OkSum(Degree(k, c, ss), Degree(k, c1, ss), Degree(k, c2, ss), Monomial.Sum(u), Monomial.Sum(u1), Monomial.Sum(u2));
  }

  lemma OkSum(r: Result<int>, r1: Result<int>, r2: Result<int>, a: int, a1: int, a2: int)
    requires r == Ok(a) && r1 == Ok(a1) && r2 == Ok(a2) && a == a1 + a2
    ensures r1.Ok? && r2.Ok? && r == Ok(r1.value + r2.value)
  {
  }

  lemma DegreeOfUnpacked(k: Codec, c: int, ss: seq<string>, u: seq<int>)
    requires WellFormed(k) && Unpack(k, c, |ss|) == Ok(u)
    ensures Degree(k, c, ss) == Ok(Monomial.Sum(u))
  {
  }

  // ---------------------------------------------------------------------------
  // Symbol set changes
  // ---------------------------------------------------------------------------

  /** `merge_symbols(ins_map, args)`: unpack, insert the zero exponents as the
      monomial does, and pack again. Every failure is `invalid_argument`: a
      code that does not unpack, an empty map, a position past the end, or a
      merged vector the table cannot pack. */
  function MergeSymbols(k: Codec, c: int, im: map<nat, seq<string>>, ss: seq<string>): (r: Result<int>)
    ensures r.Err? ==> r.error == InvalidArgument
    ensures r.Ok? <==> CodeFits(k, c, |ss|) && |im| != 0 && (forall i :: i in im ==> i <= |ss|)
                       && Encodable(k, Monomial.InsertZeros(Unpack(k, c, |ss|).value, im, 0))
    ensures r.Ok? ==>
              var m := Monomial.InsertZeros(Unpack(k, c, |ss|).value, im, 0);
              Unpack(k, r.value, |m|) == Ok(m) && Monomial.Sum(m) == Monomial.Sum(Unpack(k, c, |ss|).value)
  {
    var u :- Unpack(k, c, |ss|);
    var m :- Monomial.MergeSymbols(u, im, ss);
    var code :- Pack(k, m);
    PackUnpack(k, m);
    Ok(code)
  }

  lemma {:induction false} KeepBounded(l: nat, m: seq<int>, mask: seq<bool>)
    requires |mask| == |m| && DigitsFit(l, m)
    ensures |Monomial.KeepExponents(m, mask)| <= |m| && DigitsFit(l, Monomial.KeepExponents(m, mask))
  {
    if m != [] {
      assert DigitsFit(l, m[1..]) by {
        forall i | 0 <= i < |m| - 1 ensures -(l as int) <= m[1..][i] <= l {
          assert m[1..][i] == m[i + 1];
        }
      }
      KeepBounded(l, m[1..], mask[1..]);
    }
  }

  /** What survives a trim is always packable, since limits only grow as the
      size shrinks. */
  lemma KeepEncodable(k: Codec, m: seq<int>, mask: seq<bool>)
    requires WellFormed(k) && Encodable(k, m) && |mask| == |m|
    ensures Encodable(k, Monomial.KeepExponents(m, mask))
  {
    var e := Monomial.KeepExponents(m, mask);
    KeepBounded(k.limits[|m|], m, mask);
    if e != [] {
      assert k.limits[|m|] <= k.limits[|e|];
    }
  }

  /** `trim(mask, args)`: drop the exponents whose mask entry is set and pack
      the rest. A mask of another size than the symbol set, or a code that
      does not unpack, throws `invalid_argument`. */
  function Trim(k: Codec, c: int, mask: seq<bool>, ss: seq<string>): (r: Result<int>)
    requires WellFormed(k)
    ensures r.Err? <==> |mask| != |ss| || !CodeFits(k, c, |ss|)
    ensures r.Err? ==> r.error == InvalidArgument
    ensures r.Ok? ==>
              var m := Monomial.KeepExponents(Unpack(k, c, |ss|).value, mask);
              Unpack(k, r.value, |m|) == Ok(m)
  {
    if |mask| != |ss| then Err(InvalidArgument)
    else
      var u :- Unpack(k, c, |ss|);
      var m := Monomial.KeepExponents(u, mask);
      KeepEncodable(k, u, mask);
      PackUnpack(k, m);
      Ok(Pack(k, m).value)
  }

  /** `trim_identify(mask, args)`: clear the mask entry of every symbol whose
      unpacked exponent is nonzero. A mask of another size than the symbol
      set, or a code that does not unpack, throws `invalid_argument` and leaves
      the mask alone. */
  method TrimIdentify(k: Codec, mask: array<bool>, c: int, ss: seq<string>) returns (outcome: Outcome)
    modifies mask
    ensures outcome.Fail? <==> mask.Length != |ss| || !CodeFits(k, c, |ss|)
    ensures outcome.Fail? ==> outcome.error == InvalidArgument && mask[..] == old(mask[..])
    ensures outcome.Pass? ==> forall i :: 0 <= i < mask.Length ==>
              mask[i] == (old(mask[i]) && Unpack(k, c, |ss|).value[i] == 0)
  {
    if mask.Length != |ss| {
      return Fail(InvalidArgument);
    }
    var u := Unpack(k, c, |ss|);
    if u.Err? {
      return Fail(InvalidArgument);
    }
    outcome := Monomial.TrimIdentify(mask, u.value, ss);
  }

  // ---------------------------------------------------------------------------
  // Operations carried out on the unpacked exponents
  // ---------------------------------------------------------------------------

  /** Unpacked exponents are values of `T`. */
  lemma UnpackedValid(k: Codec, c: int, n: nat)
    requires WellFormed(k) && CodeFits(k, c, n)
    ensures Monomial.Valid(Monomial.Fixed(k.t), Unpack(k, c, n).value)
  {
    var l, u := k.limits[n], Unpack(k, c, n).value;
    if n > 0 {
      BoundInRange(k, n);
      BoundAtLeast(l, n);
      ProductBelow(1, n, l);
      assert l <= Bound(l, n);
    }
    forall i | 0 <= i < n ensures Monomial.Fits(Monomial.Fixed(k.t), u[i]) {
      assert -(l as int) <= u[i] <= l;
    }
  }

  /** Decrementing an unpacked exponent stays inside `T`, as the limits leave
      room below. */
  lemma DecrementFits(k: Codec, c: int, n: nat, p: nat)
    requires WellFormed(k) && CodeFits(k, c, n)
    ensures p < n ==> InRange(k.t, Unpack(k, c, n).value[p] - 1)
  {
    if p < n {
      UnpackedValid(k, c, n);
      var l := k.limits[n];
      BoundInRange(k, n);
      BoundAtLeast(l, n);
      ProductBelow(1, n, l);
      assert -(l as int) <= Unpack(k, c, n).value[p];
    }
  }

  /** `pow(n, args)`: unpack, raise as the monomial does (an exponent outside
      `T` fails the safe cast, a product outside `T` throws `overflow_error`),
      and pack again, which throws `invalid_argument` when a component leaves
      the limits. */
  function Pow(k: Codec, c: int, n: int, ss: seq<string>): (r: Result<int>)
    requires WellFormed(k)
    ensures !CodeFits(k, c, |ss|) ==> r == Err(InvalidArgument)
    ensures CodeFits(k, c, |ss|) && !InRange(k.t, n) ==> r == Err(SafeCastFailure)
    ensures CodeFits(k, c, |ss|) && InRange(k.t, n) ==>
              var mp := Monomial.Pow(Monomial.Fixed(k.t), Unpack(k, c, |ss|).value, n, ss);
              (mp.Err? ==> r == Err(mp.error))
              && (mp.Ok? ==> (r.Ok? <==> Encodable(k, mp.value)))
              && (mp.Ok? && r.Err? ==> r.error == InvalidArgument)
              && (r.Ok? ==> mp.Ok? && Unpack(k, r.value, |ss|) == Ok(mp.value))
  {
    var u :- Unpack(k, c, |ss|);
    if !InRange(k.t, n) then Err(SafeCastFailure)
    else
      var m :- Monomial.Pow(Monomial.Fixed(k.t), u, n, ss);
      var code :- Pack(k, m);
      PackUnpack(k, m);
      Ok(code)
  }

  /** `partial(p, args)`: unpack, differentiate as the monomial does, and pack
      the resulting exponents (a component pushed below the limit throws
      `invalid_argument`). */
  function Partial(k: Codec, c: int, p: nat, ss: seq<string>): (r: Result<(int, int)>)
    requires WellFormed(k)
    ensures !CodeFits(k, c, |ss|) ==> r == Err(InvalidArgument)
    ensures r.Err? ==> r.error == InvalidArgument
    ensures CodeFits(k, c, |ss|) ==>
              Monomial.Valid(Monomial.Fixed(k.t), Unpack(k, c, |ss|).value) &&
              var md := Monomial.Partial(Monomial.Fixed(k.t), Unpack(k, c, |ss|).value, p, ss);
              md.Ok? && (r.Ok? <==> Encodable(k, md.value.1))
              && (r.Ok? ==> r.value.0 == md.value.0 && Unpack(k, r.value.1, |ss|) == Ok(md.value.1))
  {
    if !CodeFits(k, c, |ss|) then Err(InvalidArgument)
    else
      var u := Unpack(k, c, |ss|).value;
      UnpackedValid(k, c, |ss|);
      DecrementFits(k, c, |ss|, p);
      var md := Monomial.Partial(Monomial.Fixed(k.t), u, p, ss);
      match Pack(k, md.value.1)
      case Err(e) => Err(e)
      case Ok(code) =>
        PackUnpack(k, md.value.1);
        Ok((md.value.0, code))
  }

  /** `integrate(s, args)`: unpack, integrate as the monomial does (which may
      add the symbol), and pack the result against the new size. */
  function Integrate(k: Codec, c: int, s: string, ss: seq<string>): (r: Result<(int, int)>)
    requires WellFormed(k) && SortedSet(ss)
    ensures !CodeFits(k, c, |ss|) ==> r == Err(InvalidArgument)
    ensures CodeFits(k, c, |ss|) ==>
              Monomial.Valid(Monomial.Fixed(k.t), Unpack(k, c, |ss|).value) &&
              Monomial.Fits(Monomial.Fixed(k.t), 1) &&
              var mi := Monomial.Integrate(Monomial.Fixed(k.t), Unpack(k, c, |ss|).value, s, ss);
              (mi.Err? ==> r == Err(mi.error))
              && (mi.Ok? ==> (r.Ok? <==> Encodable(k, mi.value.1)))
              && (mi.Ok? && r.Err? ==> r.error == InvalidArgument)
              && (r.Ok? ==> mi.Ok? && r.value.0 == mi.value.0
                            && Unpack(k, r.value.1, |mi.value.1|) == Ok(mi.value.1))
  {
    var u :- Unpack(k, c, |ss|);
    UnpackedValid(k, c, |ss|);
    RangeNonEmpty(k.t);
    var (f, m) :- Monomial.Integrate(Monomial.Fixed(k.t), u, s, ss);
    var code :- Pack(k, m);
    PackUnpack(k, m);
    Ok((f, code))
  }

  // ---------------------------------------------------------------------------
  // Hashing and ordering
  // ---------------------------------------------------------------------------

  /** The number of values of `std::size_t` (64 bits). */
  const SizeRange: nat := 0x1_0000_0000_0000_0000

  /** `hash()`: the code converted to `std::size_t`, that is, reduced modulo
      2^64. */
  function Hash(c: int): (h: nat)
    ensures h < SizeRange
    ensures 0 <= c < SizeRange ==> h == c
    ensures -(SizeRange as int) <= c < 0 ==> h == c + SizeRange
  {
    c % SizeRange
  }

  /** Distinct codes of a 64-bit (or narrower) signed type hash differently. */
  lemma HashInjective(c1: int, c2: int)
    requires InRange(Long, c1) && InRange(Long, c2)
    requires Hash(c1) == Hash(c2)
    ensures c1 == c2
  {
    assert Pow2(63) == 0x8000_0000_0000_0000 by {
      assert Pow2(16) == 0x1_0000;
      assert Pow2(32) == 0x1_0000_0000 by { Pow2Add(16, 16); }
      assert Pow2(48) == 0x1_0000_0000_0000 by { Pow2Add(32, 16); }
      assert Pow2(63) == Pow2(48) * Pow2(15) by { Pow2Add(48, 15); }
    }
  }

  lemma {:induction false} Pow2Add(a: nat, b: nat)
    ensures Pow2(a + b) == Pow2(a) * Pow2(b)
    decreases b
  {
    if b > 0 {
      Pow2Add(a, b - 1);
      assert Pow2(a + b) == 2 * Pow2(a + b - 1);
    }
  }

  /** `operator<`: the codes compared as integers. */
  predicate Less(c1: int, c2: int)
  {
    c1 < c2
  }

  /** Ordering packed monomials of one size by their codes is the reverse
      lexicographic order of their exponents: the last exponent decides first. */
  lemma LessIsReverseLex(k: Codec, a: seq<int>, b: seq<int>)
    requires |a| == |b| && Pack(k, a).Ok? && Pack(k, b).Ok?
    ensures Less(Pack(k, a).value, Pack(k, b).value) <==> RevLexLess(a, b)
  {
    EncodeOrder(k.limits[|a|], a, b);
  }
}
