/** C++ fixed-width integral types as value ranges, the overflow-checked
    addition and subtraction of `safe_integral_arith`, and the integral
    conversions `safe_convert` / `safe_cast`. */
module MachineInt {
  import opened Wrappers

  type Width = b: nat | b >= 2 witness 8

  /** A C++ integral type, described by its signedness and its width in bits. */
  datatype IntType = IntType(signed: bool, bits: Width)

  // The integral types the tests instantiate (LP64 data model, plain char signed).
  const SignedChar := IntType(true, 8)
  const UnsignedChar := IntType(false, 8)
  const Short := IntType(true, 16)
  const UnsignedShort := IntType(false, 16)
  const Int := IntType(true, 32)
  const Unsigned := IntType(false, 32)
  const Long := IntType(true, 64)
  const UnsignedLong := IntType(false, 64)

  function Pow2(n: nat): (r: nat)
    ensures r >= 1
  {
    if n == 0 then 1 else 2 * Pow2(n - 1)
  }

  /** `std::numeric_limits<T>::min()`. */
  function Min(t: IntType): int
  {
    if t.signed then -(Pow2(t.bits - 1) as int) else 0
  }

  /** `std::numeric_limits<T>::max()`. */
  function Max(t: IntType): int
  {
    if t.signed then Pow2(t.bits - 1) - 1 else Pow2(t.bits) - 1
  }

  predicate InRange(t: IntType, x: int)
  {
    Min(t) <= x <= Max(t)
  }

  lemma {:induction false} RangeNonEmpty(t: IntType)
    ensures Min(t) <= 0 < Max(t)
  {
    assert Pow2(t.bits - 1) == 2 * Pow2(t.bits - 2);
    assert Pow2(t.bits) == 2 * Pow2(t.bits - 1);
  }

  /** `safe_int_add(a, b)`: the sum, or `overflow_error` when the sum leaves the
      range of the operands' type. */
  function SafeIntAdd(t: IntType, a: int, b: int): (r: Result<int>)
    requires InRange(t, a) && InRange(t, b)
    ensures r.Ok? <==> InRange(t, a + b)
    ensures r.Ok? ==> r.value == a + b
    ensures r.Err? ==> r.error == OverflowError
  {
    if b > 0 && a > Max(t) - b then Err(OverflowError)
    else if b < 0 && a < Min(t) - b then Err(OverflowError)
    else Ok(a + b)
  }

  /** `safe_int_sub(a, b)`: the difference, or `overflow_error` when it leaves the
      range of the operands' type. */
  function SafeIntSub(t: IntType, a: int, b: int): (r: Result<int>)
    requires InRange(t, a) && InRange(t, b)
    ensures r.Ok? <==> InRange(t, a - b)
    ensures r.Ok? ==> r.value == a - b
    ensures r.Err? ==> r.error == OverflowError
  {
    if b > 0 && a < Min(t) + b then Err(OverflowError)
    else if b < 0 && a > Max(t) + b then Err(OverflowError)
    else Ok(a - b)
  }

  /** At both extremes of every type, adding or subtracting zero is exact, while
      one step past them overflows. */
  lemma {:induction false} SafeIntExtremes(t: IntType)
    ensures SafeIntAdd(t, Max(t), 0) == Ok(Max(t)) && SafeIntAdd(t, Min(t), 0) == Ok(Min(t))
    ensures SafeIntSub(t, Max(t), 0) == Ok(Max(t)) && SafeIntSub(t, Min(t), 0) == Ok(Min(t))
    ensures SafeIntAdd(t, Max(t), 1) == Err(OverflowError)
    ensures SafeIntSub(t, Min(t), 1) == Err(OverflowError)
    ensures t.signed ==> SafeIntAdd(t, Min(t), -1) == Err(OverflowError)
    ensures t.signed ==> SafeIntSub(t, Max(t), -1) == Err(OverflowError)
  {
    RangeNonEmpty(t);
  }

  /** The target of a conversion: a machine integral type or the unbounded
      mp++ integer. */
  datatype Target = Machine(t: IntType) | BigInteger

  predicate Representable(target: Target, x: int)
  {
    match target
    case Machine(t) => InRange(t, x)
    case BigInteger => true
  }

  /** `safe_convert(out, x)` between integral values: reports whether `x` is
      representable in the target and writes it to `out` when it is. On failure
      `out` keeps its previous value. */
  method SafeConvert(target: Target, out: int, x: int) returns (success: bool, written: int)
    ensures success <==> Representable(target, x)
    ensures written == if success then x else out
  {
    success := Representable(target, x);
    written := out;
    if success {
      written := x;
    }
  }

  /** `safe_convert(out, x)` from a floating-point value, taken here as the exact
      real number it denotes: it succeeds only for an integral value that is
      representable in the target. */
  method SafeConvertReal(target: Target, out: int, x: real) returns (success: bool, written: int)
    ensures success <==> (x == x.Floor as real && Representable(target, x.Floor))
    ensures success ==> written as real == x
    ensures !success ==> written == out
  {
    written := out;
    success := false;
    if x == x.Floor as real {
      success, written := SafeConvert(target, out, x.Floor);
    }
  }

  /** The default `safe_convert` between values of one and the same type is a
      plain assignment, which always succeeds. */
  method SafeConvertSame<T>(out: T, x: T) returns (success: bool, written: T)
    ensures success && written == x
  {
    written := out;
    written := x;
    success := true;
  }

  /** `safe_cast<To>(x)`: default-initialise a result, let `safe_convert` fill it,
      and return it; throw `safe_cast_failure` when the conversion fails. */
  method SafeCast(target: Target, x: int) returns (r: Result<int>)
    ensures r.Ok? <==> Representable(target, x)
    ensures r.Ok? ==> r.value == x
    ensures r.Err? ==> r.error == SafeCastFailure && IsInvalidArgument(r.error)
  {
    var retval := 0;
    var success;
    success, retval := SafeConvert(target, retval, x);
    if success {
      return Ok(retval);
    }
    return Err(SafeCastFailure);
  }

  /** `safe_cast<To>(x)` from a floating-point value (as an exact real). */
  method SafeCastReal(target: Target, x: real) returns (r: Result<int>)
    ensures r.Ok? <==> (x == x.Floor as real && Representable(target, x.Floor))
    ensures r.Ok? ==> r.value as real == x
    ensures r.Err? ==> r.error == SafeCastFailure
  {
    var retval := 0;
    var success;
    success, retval := SafeConvertReal(target, retval, x);
    if success {
      return Ok(retval);
    }
    return Err(SafeCastFailure);
  }

  /** The cast into a machine type fails exactly one step outside its range. */
  lemma {:induction false} SafeCastBoundaries(t: IntType)
    ensures Representable(Machine(t), Max(t)) && !Representable(Machine(t), Max(t) + 1)
    ensures Representable(Machine(t), Min(t)) && !Representable(Machine(t), Min(t) - 1)
    ensures !t.signed ==> !Representable(Machine(t), -5)
  {
    RangeNonEmpty(t);
  }

  /** `math::abs` on an integral value: the magnitude for signed types, the
      identity for unsigned ones. */
  function Abs(t: IntType, x: int): (r: int)
    requires InRange(t, x)
    ensures r >= 0 && (r == x || r == -x)
    ensures !t.signed ==> r == x
  {
    if x < 0 then -x else x
  }
}
