/** Series coefficients as the key-level multiplications see them, and the
    term, a (coefficient, key) pair whose identity is its key. */
module Terms {
  import opened IntegerMath

  /** An mp++ integer, or an mp++ rational kept in lowest terms with a positive
      denominator. */
  datatype Cf = IntegerCf(value: int) | RationalCf(num: int, den: int)

  predicate Canonical(c: Cf)
  {
    c.RationalCf? ==> c.den >= 1 && Gcd(c.num, c.den) == 1
  }

  function Numerator(c: Cf): int
  {
    if c.IntegerCf? then c.value else c.num
  }

  function Denominator(c: Cf): (d: int)
    requires Canonical(c)
    ensures d >= 1
  {
    if c.IntegerCf? then 1 else c.den
  }

  /** The number a canonical coefficient denotes. */
  function Value(c: Cf): real
    requires Canonical(c)
  {
    Numerator(c) as real / Denominator(c) as real
  }

  predicate SameKind(c1: Cf, c2: Cf)
  {
    c1.IntegerCf? == c2.IntegerCf?
  }

  /** The coefficient a key's `multiply` stores in its result term: the plain
      product for integers and, for rationals, the product of the numerators
      only (the series multiplier divides by the denominators afterwards). */
  function KeyProduct(c1: Cf, c2: Cf): (r: Cf)
    requires Canonical(c1) && Canonical(c2) && SameKind(c1, c2)
    ensures SameKind(r, c1) && Canonical(r)
    ensures Denominator(r) == 1
    ensures Numerator(r) == Numerator(c1) * Numerator(c2)
  {
    var n := Numerator(c1) * Numerator(c2);
    if c1.IntegerCf? then IntegerCf(n)
    else
      GcdWithZero(n);
      assert Gcd(n, 1) == Gcd(1, n) == 1 by { GcdSymmetric(n, 1); GcdOne(n); }
      RationalCf(n, 1)
  }

  lemma GcdOne(n: int)
    ensures Gcd(1, n) == 1
  {
    GcdDivides(1, n);
    DividesBound(Gcd(1, n), 1);
  }

  /** The stored product is the exact product scaled by both denominators, and
      for integer coefficients it is the exact product itself. */
  lemma KeyProductValue(c1: Cf, c2: Cf)
    requires Canonical(c1) && Canonical(c2) && SameKind(c1, c2)
    ensures Value(KeyProduct(c1, c2))
         == Value(c1) * Value(c2) * (Denominator(c1) * Denominator(c2)) as real
    ensures c1.IntegerCf? ==> Value(KeyProduct(c1, c2)) == Value(c1) * Value(c2)
  {
    var d1, d2 := Denominator(c1), Denominator(c2);
    var n1, n2 := Numerator(c1), Numerator(c2);
    ScaledProduct(n1, d1, n2, d2, Value(c1), Value(c2), Value(KeyProduct(c1, c2)));
  }

  /** `(n1 / d1) * (n2 / d2) * (d1 * d2) == n1 * n2` on positive denominators. */
  lemma ScaledProduct(n1: int, d1: int, n2: int, d2: int, v1: real, v2: real, p: real)
    requires d1 >= 1 && d2 >= 1
    requires v1 == n1 as real / d1 as real && v2 == n2 as real / d2 as real
    requires p == (n1 * n2) as real / 1 as real
    ensures p == v1 * v2 * (d1 * d2) as real
    ensures d1 == 1 && d2 == 1 ==> p == v1 * v2
  {
    assert v1 * d1 as real == n1 as real;
    assert v2 * d2 as real == n2 as real;
    assert (n1 * n2) as real == n1 as real * n2 as real;
    assert (d1 * d2) as real == d1 as real * d2 as real;
    assert v1 * v2 * (d1 as real * d2 as real) == (v1 * d1 as real) * (v2 * d2 as real);
  }

  /** `term<Cf, Key>`: a coefficient and a key. */
  datatype Term<C, K> = Term(cf: C, key: K)

  /** Term equality compares the keys only; the coefficients play no part. */
  predicate TermEq<C, K(==)>(t1: Term<C, K>, t2: Term<C, K>)
  {
    t1.key == t2.key
  }

  /** Term equality is an equivalence that ignores the coefficients, so at
      most one term per key can sit in a hash set of terms. */
  lemma TermEqIsKeyEquivalence<C, K>(t1: Term<C, K>, t2: Term<C, K>, t3: Term<C, K>, c: C)
    ensures TermEq(t1, t1)
    ensures TermEq(t1, t2) ==> TermEq(t2, t1)
    ensures TermEq(t1, t2) && TermEq(t2, t3) ==> TermEq(t1, t3)
    ensures TermEq(t1, Term(c, t1.key))
    ensures TermEq(t1, t2) <==> t1.key == t2.key
  {
  }

  /** `term::hash()`: the hash of the key. */
  function TermHash<C, K>(keyHash: K -> int, t: Term<C, K>): int
  {
    keyHash(t.key)
  }

  /** Equal terms hash equally, whatever their coefficients. */
  lemma TermHashRespectsEq<C, K>(keyHash: K -> int, t1: Term<C, K>, t2: Term<C, K>)
    requires TermEq(t1, t2)
    ensures TermHash(keyHash, t1) == TermHash(keyHash, t2)
  {
  }

  /** `term::is_zero(args)`: the key is zero (a sine of a null argument) or the
      coefficient is zero. */
  predicate TermIsZero<C, K>(cfIsZero: C -> bool, keyIsZero: K -> bool, t: Term<C, K>)
  {
    keyIsZero(t.key) || cfIsZero(t.cf)
  }

  predicate CfIsZero(c: Cf)
  {
    Numerator(c) == 0
  }

  /** The default-constructed coefficient, zero of either kind. */
  function DefaultCf(integral: bool): (c: Cf)
    ensures Canonical(c) && CfIsZero(c)
    ensures integral <==> c.IntegerCf?
  {
    if integral then IntegerCf(0)
    else
      GcdOne(0);
      GcdSymmetric(0, 1);
      RationalCf(0, 1)
  }

  /** A coefficient is zero exactly when the number it denotes is zero. */
  lemma CfIsZeroValue(c: Cf)
    requires Canonical(c)
    ensures CfIsZero(c) <==> Value(c) == 0.0
  {
  }

  /** A default term (zero coefficient) is zero, whatever the key, and a term
      with a nonzero coefficient is zero only through its key. */
  lemma TermIsZeroCases<K>(keyIsZero: K -> bool, k: K, c: Cf)
    ensures TermIsZero(CfIsZero, keyIsZero, Term(DefaultCf(true), k))
    ensures TermIsZero(CfIsZero, keyIsZero, Term(DefaultCf(false), k))
    ensures !CfIsZero(c) ==> (TermIsZero(CfIsZero, keyIsZero, Term(c, k)) <==> keyIsZero(k))
  {
  }

  /** `term::is_compatible(args)`: delegates to the key. */
  predicate TermIsCompatible<C, K, S>(keyIsCompatible: (K, S) -> bool, t: Term<C, K>, args: S)
  {
    keyIsCompatible(t.key, args)
  }
}
