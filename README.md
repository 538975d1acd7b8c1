# Piranha core, modelled in Dafny

This project models the exact, integer-valued core of Piranha, a C++
library for sparse symbolic series. A series is a set of terms. Each term
is a coefficient times a key (a monomial or a trigonometric monomial),
and the keys are defined over a sorted set of symbol names. Almost none
of the implementation headers are part of this model. The behaviour
modelled is the one the library's unit tests pin down, together with
`safe_cast.hpp`. Each Dafny module follows one component of the library:

- `MachineInt`: machine-integer ranges, `safe_int_add`/`safe_int_sub`,
  `safe_convert` and `safe_cast`.
- `IntegerMath`: `gcd`, `gcd3`, integer `pow`, `binomial`, `factorial` and
  `invert`, the ternary primitives (`add3` … `div3`) and `sin`/`cos` of
  integers.
- `SymbolUtils`: operations on sorted symbol sets (`ss_merge` and its
  insertion maps, `ss_index_of`, `ss_trim`, `ss_intersect_idx`,
  `sm_intersect_idx`).
- `Terms`: terms whose equality and hash look only at the key.
- `Monomial`: the exponent-vector monomial.
- `Kronecker`: the Kronecker-packed monomial, with its codec as a parameter.
- `RealTrigKronecker`: the real trigonometric Kronecker monomial.
- `Containers`, `SmallVector`, `StaticVector`: `dynamic_storage`,
  `small_vector` and `static_vector`, as classes over arrays.
- `Series`, `SeriesAssign`, `SeriesExamples`: series arithmetic,
  accumulation and pruning, symbol merging, equality, hash, filter and
  transform, trim, and multiplication that does not depend on how the
  work is split between threads.
- `Polynomial`: degree, truncation, `integral_combination`, `find_cf`,
  `pow` and `invert` of polynomials.
- `Calculus`: `partial`, `integrate` and `pbracket`.
- `Substitution`: `evaluate` and series-level `ipow_subs`.
- `Divisor`: `invert` of an integral linear combination into a
  normalised divisor.
- `Lambdify`: `lambdify`, positional and extra symbols.
- `Settings`: `settings`, `tuning` and `thread_pool::use_threads`, as
  classes with validated setters.

Integers are Dafny `int`. Machine integers are ranges of `int` named by
signedness and width. Rational coefficients are `real`, a value tagged
with its ring; on the integer ring, division truncates toward zero as it
does in C++. Each error is one case of a `Result` datatype, named after
the exception the library throws.

## Model

| member | source | states |
|---|---|---|
| MachineInt.SafeIntAdd | tests/safe_integral_arith.cpp:58-87 | succeeds exactly when the sum is in the type's range, returns the mathematical sum, otherwise `overflow_error` |
| MachineInt.SafeIntSub | tests/safe_integral_arith.cpp:102-131 | succeeds exactly when the difference is in range, returns the mathematical difference, otherwise `overflow_error` |
| MachineInt.SafeIntExtremes | tests/safe_integral_arith.cpp:58-80 | adding or subtracting 0 at max and min is exact; max+1 and min−1 overflow; for signed types so do min+(−1) and max−(−1) |
| MachineInt.SafeConvert | tests/safe_convert.cpp:96-108 | integral conversion reports success exactly when the value is representable; on success the output holds the value, on failure it is left as it was |
| MachineInt.SafeConvertReal | tests/safe_convert.cpp:150-157 | a rational converts exactly when it is integral and representable (so a negative one never converts to unsigned); on success the output equals it |
| MachineInt.SafeConvertSame | tests/safe_convert.cpp:175-183 | same-type conversion always succeeds and copies the value |
| MachineInt.SafeCast | include/piranha/safe_cast.hpp:47-75 | returns the converted value when `safe_convert` succeeds; otherwise throws `safe_cast_failure`, which is an `invalid_argument` |
| MachineInt.SafeCastReal | include/piranha/safe_cast.hpp:66-75 | casting a rational succeeds exactly for integral representable values and returns that value; otherwise `safe_cast_failure` |
| MachineInt.SafeCastBoundaries | tests/integer_01.cpp:562-577 | max and min are representable, max+1 and min−1 are not, and −5 is not representable in an unsigned type |
| MachineInt.Abs | tests/math.cpp:278-299 | the magnitude of a signed value; the identity on unsigned ones |
| IntegerMath.Gcd | tests/gcd.cpp:160-162 | the gcd is non-negative and zero exactly when both operands are zero |
| IntegerMath.GcdDivides | tests/gcd.cpp:233-246 | a nonzero gcd divides both operands |
| IntegerMath.GcdGreatest | tests/gcd.cpp:233-246 | every positive common divisor divides the gcd |
| IntegerMath.IsReferenceGcd | tests/gcd.cpp:233-246 | the gcd is the reference greatest common divisor: non-negative, a common divisor, and a multiple of and at least every positive common divisor |
| IntegerMath.GcdWithZero | tests/gcd.cpp:160-162 | `gcd(0, n) = gcd(n, 0) = |n|` |
| IntegerMath.GcdSymmetric | tests/gcd.cpp:163-190 | `gcd(a, b) = gcd(b, a)` whatever the signs |
| IntegerMath.Gcd3 | tests/gcd.cpp:217-231 | `gcd3` writes exactly the value of `gcd` into its output, which divides both operands |
| IntegerMath.GcdBool | tests/gcd.cpp:192-196 | on bools the gcd is false only for two false operands, as the integer gcd of 0 and 1 |
| IntegerMath.GcdBoolInt | tests/gcd.cpp:197-200 | `gcd(true, n) = 1` and `gcd(false, n) = |n|`, in either order |
| IntegerMath.PowerAdd | tests/pow.cpp:185-192 | `b^(m+n) = b^m · b^n` for the exact integer power |
| IntegerMath.PowerMul | tests/pow.cpp:185-192 | `b^(m·n) = (b^m)^n` |
| IntegerMath.PowerMinusOne | tests/pow.cpp:166-194 | `(−1)^e` is 1 for even and −1 for odd `e` |
| IntegerMath.Pow | tests/pow.cpp:161-194 | a non-negative exponent gives the exact power (`n^0 = 1`, also for 0); a negative one throws `zero_division_error` exactly for a zero base |
| IntegerMath.PowNegativeExponent | tests/pow.cpp:166-194 | for a nonzero base, a negative power is 1 divided by the positive power, truncated: 1 for 1, ±1 for −1, 0 for |n| ≥ 2 |
| IntegerMath.RatPow | tests/polynomial_01.cpp:511-521 | the rational power: exact for non-negative exponents; for negative ones undefined exactly at 0 and otherwise the inverse of the positive power |
| IntegerMath.RatPowAdd | tests/polynomial_02.cpp:242-244 | for a nonzero base, `x^(a+b) = x^a · x^b` for all integer exponents |
| IntegerMath.PowerOne | tests/pow.cpp:166-170 | `1^e = 1` |
| IntegerMath.Binomial | tests/binomial.cpp:112-120 | the generalised binomial: 1 for `k = 0`, 0 for `0 ≤ n < k` |
| IntegerMath.PascalRule | tests/binomial.cpp:112-139 | Pascal's rule holds for every integer top argument, negative ones included |
| IntegerMath.BinomialExamples | tests/binomial.cpp:112-120 | `binomial(0,0) = 1`, `binomial(0,1) = 0`, `binomial(1,1) = 1`, `binomial(5,3) = 10`, `binomial(−5,4) = 70` |
| IntegerMath.Factorial | tests/integer_01.cpp:262-282 | succeeds exactly for `0 ≤ n ≤ 1000000` with `n!`; negative gives `domain_error`, above unsigned-long max `overflow_error`, in between `invalid_argument` |
| IntegerMath.FactIsFalling | tests/integer_01.cpp:262-273 | `n!` is the falling product `n·(n−1)·…·1` |
| IntegerMath.Invert | tests/invert.cpp:83-86 | integer `invert` is `pow(n, −1)`: 0 throws, ±1 give themselves, every other value gives 0 |
| IntegerMath.InvertRational | tests/invert.cpp:87-90 | rational `invert` is the reciprocal, and throws `zero_division_error` for 0 |
| IntegerMath.Negate | tests/integer_01.cpp:76-84 | the new value is the negation of the old |
| IntegerMath.MultiplyAccumulate | tests/math.cpp:134-141 | the value increases by exactly `y · z` |
| IntegerMath.Add3 | tests/math.cpp:576-590 | writes the sum of the last two arguments |
| IntegerMath.Sub3 | tests/integer_01.cpp:367-374 | writes the difference of the last two arguments |
| IntegerMath.Mul3 | tests/integer_01.cpp:367-376 | writes the product of the last two arguments |
| IntegerMath.Div3 | tests/integer_01.cpp:367-379 | writes the quotient truncated toward zero; a zero divisor throws `zero_division_error` and leaves the output alone |
| IntegerMath.TernaryExamples | tests/math.cpp:643-652 | `6/−2 = −3`, `6/3 = 2`, `−8/2 = −4`, and truncation for the other sign combinations |
| IntegerMath.TruncDiv | tests/integer_01.cpp:376-377 | the quotient truncated toward zero: the remainder is smaller than the divisor and has the dividend's sign |
| IntegerMath.TruncDivUnique | tests/integer_01.cpp:376-377 | only one quotient has that property |
| IntegerMath.Sin | tests/sincos.cpp:132-140 | `sin` of an integer is 0 exactly at 0 and otherwise throws `domain_error` |
| IntegerMath.Cos | tests/sincos.cpp:172-180 | `cos` of an integer is 1 exactly at 0 and otherwise throws `domain_error` |
| IntegerMath.PartialConstant | tests/math.cpp:172-175 | the partial derivative of a number is 0 whatever the name |
| IntegerMath.Promote | tests/integer_01.cpp:100-122 | `promote()` keeps the value and switches to dynamic storage |
| IntegerMath.PromoteKeepsTests | tests/integer_01.cpp:102-122 | `is_zero` and `is_one` give the same answer before and after `promote()` |
| SymbolUtils.LtIrreflexive | tests/symbol_utils.cpp:50-53 | the order on symbol names is irreflexive |
| SymbolUtils.LtTransitive | tests/symbol_utils.cpp:50-53 | the order on symbol names is transitive |
| SymbolUtils.LtTotal | tests/symbol_utils.cpp:50-53 | any two distinct names are ordered one way or the other |
| SymbolUtils.Merge | tests/symbol_utils.cpp:50-53 | the merge of two sorted sets is sorted and holds exactly the names of either |
| SymbolUtils.MergeCommutes | tests/symbol_utils.cpp:91-101 | the union does not depend on the operand order |
| SymbolUtils.SortedSubsetIsSubseq | tests/symbol_utils.cpp:100-113 | a sorted subset of a sorted set is a subsequence of it |
| SymbolUtils.InterleaveGaps | tests/symbol_utils.cpp:100-113 | putting back the gaps between a subsequence's names rebuilds the larger set |
| SymbolUtils.GapsOfSelf | tests/symbol_utils.cpp:54-58 | a set has no gaps inside itself |
| SymbolUtils.InsertionMap | tests/symbol_utils.cpp:65-76 | the insertion map sends `i` (up to the size, for an append) to the nonempty run of names inserted before the `i`-th name, and holds every nonempty run |
| SymbolUtils.ApplyInsertionMapRebuilds | tests/symbol_utils.cpp:100-113 | inserting the mapped names at the mapped positions rebuilds the union |
| SymbolUtils.SsMerge | tests/symbol_utils.cpp:42-113 | `ss_merge` returns the sorted union and, for each operand, the exact insertion map: a key for every nonempty gap of that operand in the union and for nothing else, which rebuilds the union |
| SymbolUtils.MergeWithSelf | tests/symbol_utils.cpp:44-58 | merging a set with itself gives the set and two empty maps |
| SymbolUtils.MergeWithEmpty | tests/symbol_utils.cpp:49-63 | merging with the empty set gives the set, an empty map for the set and `{0: set}` for the empty operand |
| SymbolUtils.IndexOf | tests/symbol_utils.cpp:116-122 | `ss_index_of` gives the first position of the name, or the size exactly when it is absent |
| SymbolUtils.IndexOfSorted | tests/symbol_utils.cpp:118-121 | in a sorted set, the index of the `j`-th name is `j` |
| SymbolUtils.SortedSetsEqual | tests/symbol_utils.cpp:50-53 | two sorted sets with the same names are equal |
| SymbolUtils.Keep | tests/symbol_utils.cpp:127-140 | the names whose mask entry is false, in order |
| SymbolUtils.SubseqSorted | tests/symbol_utils.cpp:127-140 | a subsequence of a sorted set is sorted |
| SymbolUtils.SsTrim | tests/symbol_utils.cpp:125-140 | `ss_trim` throws `invalid_argument` exactly on a mask of the wrong length; otherwise it keeps exactly the names whose mask entry is 0, still sorted |
| SymbolUtils.SsIntersectIdx | tests/symbol_utils.cpp:143-168 | ascending positions in the first set, exactly those of names also found in the second |
| SymbolUtils.SmIntersectIdx | tests/symbol_utils.cpp:171-205 | ascending positions in the set of the names found in the map, each with its mapped value, and every such position |
| Terms.KeyProduct | tests/monomial_01.cpp:499-541 | the coefficient a key multiplication writes: the product of the numerators, of the operands' kind (2/3 · −3 gives −6) |
| Terms.KeyProductValue | tests/monomial_01.cpp:499-541 | that product is the product of the values times both denominators, and the plain product for integers |
| Terms.TermEqIsKeyEquivalence | tests/term.cpp:105-107 | term equality is an equivalence that holds exactly when the keys are equal, whatever the coefficients |
| Terms.TermHashRespectsEq | tests/term.cpp:130-134 | equal terms have equal hashes: the hash is the key's |
| Terms.DefaultCf | tests/term.cpp:187-192 | the default coefficient is zero, of the requested kind |
| Terms.CfIsZeroValue | tests/term.cpp:187-192 | a canonical coefficient is zero exactly when its value is 0 |
| Terms.TermIsZeroCases | tests/term.cpp:187-192 | a default term is zero; with a nonzero coefficient, a term is zero exactly when its key is |
| Monomial.CheckedAdd | tests/monomial_01.cpp:1152-1160 | adding two fixed-width exponents succeeds exactly when the sum fits, with the sum; otherwise `overflow_error` |
| Monomial.FromRange | tests/monomial_01.cpp:106-140 | the range + symbol-set constructor keeps the range exactly when its length is the set's size, otherwise `invalid_argument` |
| Monomial.FromSymbols | tests/monomial_01.cpp:172-182 | the constructor from a symbol set gives one zero exponent per symbol |
| Monomial.FromKey | tests/monomial_01.cpp:183-215 | the generic constructor copies a key of the right size and throws on a size mismatch |
| Monomial.KeyIsOne | tests/monomial_01.cpp:314-343 | true exactly when every exponent is zero; `invalid_argument` on a symbol-set size mismatch |
| Monomial.KeyIsZero | tests/monomial_01.cpp:289-308 | a monomial is never zero |
| Monomial.Accumulate | tests/monomial_01.cpp:445-459 | the loop summing exponents returns the checked sum: the first partial sum that leaves the range gives `overflow_error` |
| Monomial.Degree | tests/monomial_01.cpp:349-452 | `invalid_argument` exactly on a size mismatch; otherwise the checked exponent sum |
| Monomial.PartialDegree | tests/monomial_01.cpp:377-459 | `invalid_argument` exactly on a size mismatch or a position past the end; otherwise the checked sum of the exponents at the listed positions |
| Monomial.PartialDegreeOverAll | tests/monomial_01.cpp:377-441 | the partial degree over every position is the degree |
| Monomial.UnboundedNeverOverflows | tests/monomial_01.cpp:349-441 | with unbounded exponents the degree is the plain sum |
| Monomial.DegreeOverflowCases | tests/monomial_01.cpp:445-452 | `[max, 1]` and `[min, −1]` overflow `int`; `[min, 1]` gives `min + 1` |
| Monomial.Add | tests/monomial_01.cpp:493-555 | the component-wise sum of two exponent vectors |
| Monomial.SumAdd | tests/monomial_01.cpp:493-555 | the degree of a product is the sum of the degrees |
| Monomial.Multiply | tests/monomial_01.cpp:493-555 | writes one term, with the exponent sum and the numerator product; a size mismatch throws `invalid_argument` and leaves the output alone |
| Monomial.Scale | tests/monomial_01.cpp:673-700 | each exponent times `n` |
| Monomial.Pow | tests/monomial_01.cpp:673-716 | `invalid_argument` exactly on a size mismatch, `overflow_error` exactly when a scaled exponent does not fit, otherwise every exponent times `n` |
| Monomial.SumScale | tests/monomial_01.cpp:673-700 | the degree of the `n`-th power is `n` times the degree |
| Monomial.PowLaws | tests/monomial_01.cpp:673-700 | `m^1 = m`, `(m^a)^b = m^(a·b)` |
| Monomial.PowOverflowCase | tests/monomial_01.cpp:701-705 | `x^2` raised to the int maximum overflows |
| Monomial.Partial | tests/monomial_01.cpp:792-850 | for a symbol absent or of exponent 0: factor 0 and the zero key; otherwise the exponent and the key with it decremented; `overflow_error` exactly when that decrement leaves the range; `invalid_argument` on a size mismatch |
| Monomial.InsertPos | tests/monomial_01.cpp:1091-1146 | the sorted position of a name: every name before it is smaller, none after it is, and a present name sits there |
| Monomial.InsertKeepsSorted | tests/monomial_01.cpp:1091-1146 | inserting a new name at that position keeps the set sorted and adds only that name |
| Monomial.Integrate | tests/monomial_01.cpp:1091-1172 | for a present symbol with exponent `e`, the pair `(e+1, key with e+1)`; for a new one `(1, key with 1 at the sorted position)`; `invalid_argument` for exponent −1 or a size mismatch; `overflow_error` when `e+1` does not fit |
| Monomial.PartialOfIntegrate | tests/monomial_01.cpp:1091-1146 | differentiating an integrated key by the same symbol gives back the original key (extended with a 0) and the same factor |
| Monomial.IpowSubs | tests/monomial_01.cpp:1178-1287 | with `q` the truncated `e / n`: if `q ≥ 1` the pair `(v^q, key with e − q·n)`, otherwise `(1, key)`; `invalid_argument` for `n = 0` or a size mismatch |
| Monomial.IpowSubsLeavesRemainder | tests/monomial_01.cpp:1232-1245 | after a substitution the remaining exponent is smaller than `n` in magnitude and can no longer be substituted |
| Monomial.IpowSubsCases | tests/monomial_01.cpp:1206-1245 | `x^−7` with `n = −3` leaves `x^−1`, with `n = 4` is untouched, and `x^7` with `n = 3` leaves `x` |
| Monomial.EvalProductFails | tests/monomial_01.cpp:856-923 | evaluation fails exactly when a zero value meets a negative exponent |
| Monomial.Evaluate | tests/monomial_01.cpp:856-923 | `invalid_argument` exactly when the value count or the set size differs from the monomial's; otherwise the product of the powers |
| Monomial.EvalProductAdd | tests/monomial_01.cpp:856-923 | at nonzero values, the value of a product of monomials is the product of their values |
| Monomial.SubsProduct | tests/monomial_01.cpp:936-1000 | the product of the substituted powers fails exactly when a zero replaces a symbol of negative exponent |
| Monomial.Subs | tests/monomial_01.cpp:936-1000 | one pair: the product of the substituted powers, and the key with the substituted exponents set to 0; `invalid_argument` on a size mismatch or an index past the end |
| Monomial.SubsNothing | tests/monomial_01.cpp:954-958 | substituting nothing gives factor 1 |
| Monomial.FindLinear | tests/monomial_01.cpp:621-671 | finds a position where the monomial is a single symbol to the power 1, exactly when there is one |
| Monomial.IsLinear | tests/monomial_01.cpp:621-671 | `is_linear` is true, with the symbol's position, exactly when the monomial is one symbol to the first power; `invalid_argument` on a size mismatch |
| Monomial.Less | tests/monomial_01.cpp:1344-1358 | `operator<` is lexicographic on exponents: true exactly at a first differing position where the left is smaller; `invalid_argument` for different sizes |
| Monomial.LexLessFirstDifference | tests/monomial_01.cpp:1344-1358 | the recursive lexicographic order is the first-difference order |
| Monomial.LexLessStrictTotal | tests/monomial_01.cpp:1344-1358 | that order is irreflexive, transitive and total |
| Monomial.InsertZerosKeepsSum | tests/kronecker_monomial_01.cpp:238-272 | inserting zero exponents keeps the degree |
| Monomial.MergeSymbols | tests/kronecker_monomial_01.cpp:238-272 | `merge_args` inserts zero exponents at the mapped positions, keeping the degree; it throws on a size mismatch, an empty map or a position past the end |
| Monomial.ReencodeInverse | tests/kronecker_monomial_01.cpp:238-272 | re-encoding a key on a larger set keeps each symbol's exponent |
| Monomial.ReencodeInjective | tests/kronecker_monomial_01.cpp:238-272 | keys that re-encode to the same key were equal |
| Monomial.ReencodeLaws | tests/kronecker_monomial_01.cpp:238-272 | re-encoding on the same set is the identity, and two re-encodings compose |
| Monomial.ReencodeAdd | tests/series_02.cpp:1512-1517 | re-encoding commutes with multiplication of keys |
| Monomial.InterleaveIsReencode | tests/kronecker_monomial_01.cpp:238-272 | putting zeros into the gaps is the re-encoding by name |
| Monomial.MergeSymbolsIsReencode | tests/kronecker_monomial_01.cpp:238-272 | inserting zeros with the insertion map of `ss_merge` is the re-encoding by name, and keeps the degree |
| Monomial.TrimIdentify | tests/kronecker_monomial_01.cpp:957-1002 | the exponent-vector form of `trim_identify`: each mask entry stays set only where the exponent is 0; a mask or set size mismatch throws and leaves the mask alone |
| Monomial.Trim | tests/kronecker_monomial_01.cpp:1008-1034 | the exponent-vector form of `trim`: drops the masked exponents; throws on a mask or set size mismatch |
| Monomial.TrimKeepsDegree | tests/series_04.cpp:593-605 | trimming only zero exponents keeps the degree |
| Kronecker.Rem | tests/kronecker_monomial_01.cpp:508-531 | the digit remainder lies in `[0, radix)` |
| Kronecker.Digit | tests/kronecker_monomial_01.cpp:508-531 | a decoded digit lies in `[−L, L]` |
| Kronecker.Decode | tests/kronecker_monomial_01.cpp:508-531 | decoding gives `n` components, each within the limit |
| Kronecker.EncodeBound | tests/kronecker_monomial_01.cpp:147-183 | the code of a vector within the limits lies in `[−B, B]`, `B` the table bound for its size |
| Kronecker.DecodeEncode | tests/kronecker_monomial_01.cpp:85-102 | decoding the code of a vector within the limits gives back the vector |
| Kronecker.EncodeDecode | tests/kronecker_monomial_01.cpp:508-531 | encoding the decoding of a code within the bound gives back the code |
| Kronecker.EncodeAdd | tests/kronecker_monomial_01.cpp:392-445 | the code of a component-wise sum is the sum of the codes |
| Kronecker.EncodeZeros | tests/kronecker_monomial_01.cpp:84-117 | the zero vector packs to 0 |
| Kronecker.EncodeOrder | tests/kronecker_monomial_01.cpp:1179-1186 | codes compare as their vectors compare from the last component down |
| Kronecker.SignedCharTable | tests/kronecker_monomial_01.cpp:205-229 | a concrete table for `signed char` satisfies the well-formedness conditions |
| Kronecker.CodeInRange | tests/kronecker_monomial_01.cpp:147-183 | with a well-formed table every admitted code is a value of the integer type |
| Kronecker.Pack | tests/kronecker_monomial_01.cpp:147-183 | packing fails with `invalid_argument` exactly for a vector too long or out of the limits; otherwise a code within the bound and the type |
| Kronecker.Unpack | tests/kronecker_monomial_01.cpp:508-531 | unpacking fails exactly for a code out of the bound; otherwise a vector that packs back to the code |
| Kronecker.PackUnpack | tests/kronecker_monomial_01.cpp:85-102 | `unpack(pack(v)) = v` |
| Kronecker.UnpackInjective | tests/kronecker_monomial_01.cpp:481-502 | two admitted codes unpack alike exactly when they are equal |
| Kronecker.PackZeros | tests/kronecker_monomial_01.cpp:84-129 | the zero vector of any admitted size packs to 0, and 0 unpacks to it |
| Kronecker.PackSingle | tests/kronecker_monomial_01.cpp:90-93 | a one-element vector packs to its own value |
| Kronecker.KMonomial.constructor | tests/kronecker_monomial_01.cpp:84 | the default key holds code 0 |
| Kronecker.KMonomial.FromInt | tests/kronecker_monomial_01.cpp:91-93 | the constructor from an integer stores it |
| Kronecker.KMonomial.SetInt | tests/kronecker_monomial_01.cpp:213-227 | `set_int` replaces the code |
| Kronecker.FromRange | tests/kronecker_monomial_01.cpp:147-183 | the range + symbol-set constructor throws `invalid_argument` exactly on a length mismatch or an unpackable vector; otherwise a code unpacking to the range |
| Kronecker.FromSymbols | tests/kronecker_monomial_01.cpp:111-129 | the constructor from a symbol set gives the code of the zero vector |
| Kronecker.IsCompatibleCases | tests/kronecker_monomial_01.cpp:205-229 | compatible exactly when the code unpacks for the set's size: with no symbols only code 0, never for too many symbols, never the type maximum with two symbols, and −1 with one or more |
| Kronecker.KeyIsOneAllZero | tests/kronecker_monomial_01.cpp:281-298 | the key is one exactly when every unpacked exponent is zero |
| Kronecker.SumBound | tests/kronecker_monomial_01.cpp:304-355 | the degree of a vector within the limits is bounded by size times limit |
| Kronecker.DegreeFits | tests/kronecker_monomial_01.cpp:304-355 | with a well-formed table no partial sum of an admitted vector overflows |
| Kronecker.Degree | tests/kronecker_monomial_01.cpp:304-355 | the checked sum of the unpacked exponents; `invalid_argument` exactly for a code that does not unpack |
| Kronecker.PartialDegree | tests/kronecker_monomial_01.cpp:304-355 | the checked sum of the unpacked exponents at the listed positions; `invalid_argument` exactly for a bad code or a position past the end |
| Kronecker.Multiply | tests/kronecker_monomial_01.cpp:392-445 | writes one term: the code sum and the numerator product |
| Kronecker.MultiplyAddsExponents | tests/kronecker_monomial_01.cpp:392-445 | the code sum unpacks to the sum of the unpacked vectors |
| Kronecker.MultiplyAddsDegrees | tests/kronecker_monomial_01.cpp:392-445 | the degree of a product is the sum of the degrees |
| Kronecker.MergeSymbols | tests/kronecker_monomial_01.cpp:235-275 | inserts zeros at the mapped positions of the unpacked vector and packs it, keeping the degree; `invalid_argument` for a bad code, an empty map, a position past the end, or an unpackable result |
| Kronecker.KeepEncodable | tests/kronecker_monomial_01.cpp:1008-1034 | dropping components of a packable vector leaves a packable vector |
| Kronecker.Trim | tests/kronecker_monomial_01.cpp:1008-1034 | drops the masked components; `invalid_argument` exactly on a mask size mismatch or a bad code |
| Kronecker.TrimIdentify | tests/kronecker_monomial_01.cpp:957-1002 | each mask entry stays set only where the unpacked exponent is 0; a mask size mismatch or bad code throws and leaves the mask alone |
| Kronecker.UnpackedValid | tests/kronecker_monomial_01.cpp:602-680 | unpacked exponents are values of the integer type |
| Kronecker.Pow | tests/kronecker_monomial_01.cpp:602-633 | the monomial `pow` on the unpacked vector, packed: an exponent outside the type is a `safe_cast_failure`, an unpackable result `invalid_argument` |
| Kronecker.Partial | tests/kronecker_monomial_01.cpp:639-680 | the monomial `partial` on the unpacked vector, packed; it never overflows with a well-formed table |
| Kronecker.Integrate | tests/kronecker_monomial_01.cpp:902-951 | the monomial `integrate` on the unpacked vector, packed; an unpackable result is `invalid_argument` |
| Kronecker.Hash | tests/kronecker_monomial_01.cpp:486-502 | the hash is the code as an unsigned 64-bit value |
| Kronecker.HashInjective | tests/kronecker_monomial_01.cpp:486-502 | distinct `long` codes hash differently |
| Kronecker.LessIsReverseLex | tests/kronecker_monomial_01.cpp:1179-1186 | `operator<` on codes orders packed vectors from the last component down |
| RealTrigKronecker.LeadingSignZero | tests/real_trigonometric_kronecker_monomial_01.cpp:1339-1387 | the leading sign of a multiplier vector is zero exactly when every multiplier is zero |
| RealTrigKronecker.LeadingSignNegated | tests/real_trigonometric_kronecker_monomial_01.cpp:1339-1387 | negating every multiplier negates the leading sign |
| RealTrigKronecker.NegatedTwice | tests/real_trigonometric_kronecker_monomial_01.cpp:1339-1387 | negating the multipliers twice gives them back |
| RealTrigKronecker.CanonicalFormProperties | tests/real_trigonometric_kronecker_monomial_01.cpp:1339-1387 | the canonical form has a non-negative first nonzero multiplier, is the vector or its negation, is flagged as changed exactly when the leading sign was negative, is a fixed point, and is the same for a vector and its negation |
| RealTrigKronecker.RtkMonomial.constructor | tests/real_trigonometric_kronecker_monomial_01.cpp:88-91 | the default monomial has code 0 and the cosine flavour |
| RealTrigKronecker.RtkMonomial.FromKey | tests/real_trigonometric_kronecker_monomial_01.cpp:176-186 | the monomial built from a code and a flavour holds exactly them |
| RealTrigKronecker.RtkMonomial.SetInt | tests/real_trigonometric_kronecker_monomial_01.cpp:127-131 | setting the code changes the code and keeps the flavour |
| RealTrigKronecker.RtkMonomial.SetFlavour | tests/real_trigonometric_kronecker_monomial_01.cpp:127-131 | setting the flavour changes the flavour and keeps the code |
| RealTrigKronecker.RtkMonomial.Canonicalise | tests/real_trigonometric_kronecker_monomial_01.cpp:1339-1387 | fails with invalid argument, changing nothing, when the code does not decode for the symbol set; otherwise the code becomes that of the canonical form, the flavour is kept, and the result says whether the sign was flipped |
| RealTrigKronecker.FromRange | tests/real_trigonometric_kronecker_monomial_01.cpp:79-186 | building from a multiplier vector fails exactly when its size differs from the symbol set's or it is outside the codec's limits; otherwise the key decodes back to the vector and has the given flavour |
| RealTrigKronecker.IsCompatibleCases | tests/real_trigonometric_kronecker_monomial_01.cpp:195-233 | with no symbols only code 0 is compatible; the largest code is never compatible with two or more symbols; a key from a vector is compatible exactly when its first nonzero multiplier is positive; a canonicalised key is always compatible |
| RealTrigKronecker.KeyIsZeroOneCases | tests/real_trigonometric_kronecker_monomial_01.cpp:239-254 | a key is zero exactly when it is a sine with all multipliers zero and one exactly when it is a cosine with all multipliers zero; never both; the default key is one |
| RealTrigKronecker.TDegree | tests/real_trigonometric_kronecker_monomial_01.cpp:378-456 | the trigonometric degree is the overflow-checked sum of the multipliers, failing when the code does not decode |
| RealTrigKronecker.PartialTDegree | tests/real_trigonometric_kronecker_monomial_01.cpp:378-456 | the partial trigonometric degree is the checked sum of the selected multipliers, failing when the code does not decode or a position is beyond the symbol set |
| RealTrigKronecker.TOrder | tests/real_trigonometric_kronecker_monomial_01.cpp:462-562 | the trigonometric order is the checked sum of the multipliers' absolute values |
| RealTrigKronecker.PartialTOrder | tests/real_trigonometric_kronecker_monomial_01.cpp:462-562 | the partial order is the checked sum of the absolute values of the selected multipliers, with the same error cases as the partial degree |
| RealTrigKronecker.OrderBoundsDegree | tests/real_trigonometric_kronecker_monomial_01.cpp:378-562 | the absolute value of the degree never exceeds the order, and canonicalisation does not change the multipliers' absolute values |
| RealTrigKronecker.SignedProduct | tests/real_trigonometric_kronecker_monomial_01.cpp:609-688 | the product coefficient is the product of the two integers, or of the two numerators over denominator 1 for rationals, negated exactly when asked, and keeps the coefficient kind |
| RealTrigKronecker.ProductTerm | tests/real_trigonometric_kronecker_monomial_01.cpp:689-801 | one product term fails exactly when its multipliers are outside the limits; otherwise its key is the canonical form with the given flavour, and its coefficient's sign accounts for a sine flipped by canonicalisation |
| RealTrigKronecker.Product | tests/real_trigonometric_kronecker_monomial_01.cpp:599-801 | the product of two terms succeeds exactly when both codes decode and the sum and difference of the multipliers are encodable; the keys are the canonicalised sum and difference, with the cosine flavour when the flavours agree; the coefficient signs follow the product-to-sum formulas |
| RealTrigKronecker.Multiply | tests/real_trigonometric_kronecker_monomial_01.cpp:599-801 | the two-slot result buffer is filled with the two product terms, or left unchanged on failure |
| RealTrigKronecker.ProductCommutes | tests/real_trigonometric_kronecker_monomial_01.cpp:599-801 | swapping the factors gives the same plus term and the same minus term unless that term is zero; both result keys are compatible |
| RealTrigKronecker.MergeSymbols | tests/real_trigonometric_kronecker_monomial_01.cpp:260-333 | merging symbols inserts zero multipliers at the insertion points and keeps the flavour, with the same error cases as the Kronecker monomial |
| RealTrigKronecker.Trim | tests/real_trigonometric_kronecker_monomial_01.cpp:1444-1492 | trimming keeps the multipliers the mask keeps and the flavour, failing on a mask of the wrong size or a code that does not decode |
| RealTrigKronecker.TrimMayBreakCanonicity | tests/real_trigonometric_kronecker_monomial_01.cpp:1444-1492 | trimming a canonical vector can leave a negative first nonzero multiplier |
| RealTrigKronecker.Partial | tests/real_trigonometric_kronecker_monomial_01.cpp:965-1008 | the derivative with respect to a position with multiplier zero, or beyond the symbols, is zero with the unit key; otherwise the flavour swaps and the factor is the multiplier, negated for a cosine |
| RealTrigKronecker.Integrate | tests/real_trigonometric_kronecker_monomial_01.cpp:1292-1333 | the antiderivative with respect to an absent symbol or one with multiplier zero is reported as zero; otherwise the flavour swaps and the divisor is the multiplier, negated for a sine |
| RealTrigKronecker.PartialOfIntegrate | tests/real_trigonometric_kronecker_monomial_01.cpp:1292-1333 | differentiating the antiderivative gives back the original key with the same factor |
| RealTrigKronecker.PartialTwice | tests/real_trigonometric_kronecker_monomial_01.cpp:965-1008 | differentiating twice gives back the key with factor minus the square of the multiplier |
| RealTrigKronecker.LessIsStrictTotalOrder | tests/real_trigonometric_kronecker_monomial_01.cpp:1739-1756 | the key order (code first, then flavour) is irreflexive, asymmetric, transitive and total |
| RealTrigKronecker.Hash | tests/real_trigonometric_kronecker_monomial_01.cpp:850-866 | the hash lies within the size range |
| RealTrigKronecker.HashCases | tests/real_trigonometric_kronecker_monomial_01.cpp:850-866 | equal codes hash equally, and on codes that fit a long the hash is injective |
| RealTrigKronecker.Print | tests/real_trigonometric_kronecker_monomial_01.cpp:904-959 | printing fails when the code does not decode, prints nothing for all-zero multipliers and otherwise prints `cos(…)` or `sin(…)` around the rendered argument |
| RealTrigKronecker.RenderSingle | tests/real_trigonometric_kronecker_monomial_01.cpp:910-920 | one symbol renders as `cos(x)`, `sin(x)` or nothing |
| RealTrigKronecker.RenderUnitPairs | tests/real_trigonometric_kronecker_monomial_01.cpp:921-956 | unit multipliers render without a factor and with the sign between symbols, including `cos(-y)` |
| RealTrigKronecker.RenderFactorPairs | tests/real_trigonometric_kronecker_monomial_01.cpp:929-947 | other multipliers render as `2*y` with the sign leading |
| Containers.Resized | tests/static_vector_01.cpp:347-357 | resizing keeps the first elements and fills the grown part with zeros (the default value) |
| Containers.Removed | tests/small_vector_01.cpp:295-343 | erasing one position shifts every later element left by one |
| Containers.ResizedCases | tests/small_vector_01.cpp:612-651 | resizing to the current size changes nothing, shrinking after growing equals shrinking directly, and growing after shrinking pads with zeros |
| Containers.Grown | tests/small_vector_01.cpp:110-143 | the growth step strictly increases the capacity without passing the maximum size |
| Containers.CapacityAfterBounds | tests/small_vector_01.cpp:110-163 | after pushing `k` elements the capacity holds them all and stays within the maximum, and is unchanged when they already fit |
| Containers.CapacityExamples | tests/small_vector_01.cpp:110-163 | the capacity goes 0→1→2, 1 grows to 4 after three pushes, 10 becomes 20 after eleven pushes, and the growth stops at the maximum size |
| Containers.CapacityShift | tests/small_vector_01.cpp:144-163 | pushes that fit in the current capacity do not change where the next growth starts |
| Containers.HashCases | tests/small_vector_01.cpp:577-606 | the empty vector hashes to 0, a single element to its own hash, and each further element is combined into the running hash |
| Containers.HashPrefix | tests/small_vector_01.cpp:577-606 | the loop over the first `n` elements computes the hash of that prefix |
| Containers.EqualPrefix | tests/small_vector_01.cpp:524-571 | the element loop decides equality of the two prefixes, sizes and elements |
| SmallVector.DynamicStorage.constructor | tests/small_vector_01.cpp:110-121 | a fresh dynamic storage is empty with capacity 0 |
| SmallVector.DynamicStorage.FromSeq | tests/small_vector_01.cpp:124-140 | copying gives the same contents with capacity equal to the size |
| SmallVector.DynamicStorage.Reallocate | tests/small_vector_01.cpp:144-163 | reallocation keeps the contents and sets the capacity |
| SmallVector.DynamicStorage.Reserve | tests/small_vector_01.cpp:144-163 | reserving below the capacity changes nothing, otherwise the capacity becomes the request; contents are kept |
| SmallVector.DynamicStorage.PushBack | tests/small_vector_01.cpp:110-172 | at the maximum size it fails with a bad allocation and changes nothing; otherwise it appends and the capacity follows the growth rule |
| SmallVector.DynamicStorage.Resize | tests/small_vector_01.cpp:241-294 | resizing gives the resized contents and grows the capacity only when needed |
| SmallVector.DynamicStorage.Erase | tests/small_vector_01.cpp:295-343 | erasing removes one element, shifts the rest left and returns the position of the following element |
| SmallVector.DynamicStorage.Overwrite | tests/small_vector_01.cpp:209-240 | overwriting replaces the contents in the existing buffer |
| SmallVector.DynamicStorage.MoveFrom | tests/small_vector_01.cpp:124-140 | moving takes the source's buffer and contents and leaves the source empty with capacity 0; self-move changes nothing |
| SmallVector.DynamicStorage.HashValue | tests/small_vector_01.cpp:577-606 | the hash of the storage is the hash of its contents |
| SmallVector.SmallVector.constructor | tests/small_vector_01.cpp:352-404 | a fresh small vector is empty and static |
| SmallVector.SmallVector.FromSeq | tests/small_vector_01.cpp:699-729 | building from a sequence gives those contents, static exactly when they fit the static size |
| SmallVector.SmallVector.FillStatic | tests/small_vector_01.cpp:365-383 | the static buffer receives the given elements |
| SmallVector.SmallVector.PushBack | tests/small_vector_01.cpp:466-518 | appends, switching to dynamic storage past the static size with the elements kept; fails with a bad allocation only when dynamic and at the maximum size |
| SmallVector.SmallVector.Resize | tests/small_vector_01.cpp:612-651 | resizing gives the resized contents; the vector stays static only while the size fits, and once dynamic stays dynamic, also after `resize(0)` |
| SmallVector.SmallVector.Erase | tests/small_vector_01.cpp:1001-1043 | erasing removes one element, keeps the storage kind and returns the position of the following element |
| SmallVector.SmallVector.Set | tests/small_vector_01.cpp:1049-1106 | writing an element changes that element only |
| SmallVector.SmallVector.CopyFrom | tests/small_vector_01.cpp:410-460 | copy assignment gives the source's contents and storage kind |
| SmallVector.SmallVector.MoveFrom | tests/small_vector_01.cpp:851-899 | move assignment gives the source's contents and storage kind and leaves the source empty with its kind kept |
| SmallVector.SmallVector.Add | tests/small_vector_01.cpp:735-775 | fails with invalid argument on different sizes, leaving the output; otherwise the output is the element-wise sum |
| SmallVector.SmallVector.Sub | tests/small_vector_01.cpp:781-821 | fails with invalid argument on different sizes, leaving the output; otherwise the output is the element-wise difference |
| SmallVector.SmallVector.Assign | tests/small_vector_01.cpp:410-460 | assignment from a sequence gives those contents, dynamic once it has been or when they do not fit |
| SmallVector.SmallVector.Equal | tests/small_vector_01.cpp:524-571 | equality compares the contents, regardless of storage kind |
| SmallVector.SmallVector.HashValue | tests/small_vector_01.cpp:577-606 | the hash is that of the contents, 0 when empty |
| StaticVector.StaticVector.constructor | tests/static_vector_01.cpp:95-166 | a fresh static vector is empty |
| StaticVector.StaticVector.PushBack | tests/static_vector_01.cpp:245-307 | appends, or fails with a bad allocation at full capacity changing nothing |
| StaticVector.StaticVector.Resize | tests/static_vector_01.cpp:341-379 | beyond capacity fails with a bad allocation; when fewer new elements can be constructed than needed fails with a runtime error; both keep the old contents; otherwise gives the resized contents |
| StaticVector.StaticVector.Erase | tests/static_vector_01.cpp:544-607 | erasing shifts later elements left and returns the position of the next element |
| StaticVector.StaticVector.Clear | tests/static_vector_01.cpp:613-640 | clearing empties the vector |
| StaticVector.StaticVector.Set | tests/static_vector_01.cpp:172-194 | writing an element changes that element only |
| StaticVector.StaticVector.CopyFrom | tests/static_vector_01.cpp:468-511 | copy assignment gives the source's elements in order and leaves the source as it was |
| StaticVector.StaticVector.MoveFrom | tests/static_vector_01.cpp:468-511 | move assignment transfers the elements in order and leaves the source empty |
| StaticVector.StaticVector.Equal | tests/static_vector_01.cpp:212-239 | equality compares size and elements |
| StaticVector.StaticVector.HashValue | tests/static_vector_01.cpp:442-461 | the hash is that of the contents, 0 when empty |
| StaticVector.FromCopies | tests/static_vector_01.cpp:151-157 | building `n` copies fails with a bad allocation when `n` exceeds the capacity, otherwise holds `n` copies |
| Settings.UseThreads | tests/thread_pool.cpp:322-368 | fails with invalid argument on non-positive work or minimum work; otherwise gives between 1 and the pool size threads, 1 inside a pool thread, the whole pool when each thread gets enough work, and otherwise the largest count, at least 1, that gives every thread the minimum work (3 for 100 units at 30 on four threads) |
| Settings.UseThreadsExamples | tests/thread_pool.cpp:325-352 | four pool threads give 4 for work 100 with minimum 3 and 3 with minimum 30; a pool thread or a pool of one gives 1; zero or negative arguments fail |
| Settings.ThreadPool.constructor | tests/thread_pool.cpp:227-275 | a pool has at least one thread |
| Settings.ThreadPool.Resize | tests/thread_pool.cpp:253-273 | resizing to 0 fails with invalid argument keeping the size, otherwise sets it |
| Settings.ThreadPool.CheckThreadIndex | tests/thread_pool.cpp:235-238 | an index at or beyond the pool size fails with invalid argument |
| Settings.ThreadPool.UseThreadsNow | tests/thread_pool.cpp:322-368 | the pool's answer is the partitioning rule at the pool's size |
| Settings.DefaultThreads | tests/settings.cpp:40-53 | the default thread count is the hardware concurrency, and at least 1 |
| Settings.Settings.constructor | tests/settings.cpp:40-85 | the initial settings hold the defaults: hardware thread count, cache line size, 20 terms of output and the default minimum work |
| Settings.Settings.NThreads | tests/settings.cpp:40-53 | the thread count is at least 1 |
| Settings.Settings.SetNThreads | tests/settings.cpp:42-52 | setting `k` threads gives `k`; 0 fails with invalid argument and keeps the count |
| Settings.Settings.ResetNThreads | tests/settings.cpp:50-52 | resetting restores the original thread count |
| Settings.Settings.SetCacheLineSize | tests/settings.cpp:57-63 | any cache line size, 0 included, is stored; other settings are kept |
| Settings.Settings.ResetCacheLineSize | tests/settings.cpp:64-65 | resetting restores the original cache line size |
| Settings.Settings.SetMaxTermOutput | tests/settings.cpp:70-71 | the maximum term output is stored |
| Settings.Settings.ResetMaxTermOutput | tests/settings.cpp:72-73 | resetting restores 20 |
| Settings.Settings.SetMinWorkPerThread | tests/settings.cpp:78-83 | 0 fails with invalid argument keeping the value, positive values are stored |
| Settings.Settings.ResetMinWorkPerThread | tests/settings.cpp:84-85 | resetting restores the default minimum work |
| Settings.Tuning.constructor | tests/tuning.cpp:38-89 | the initial tuning has parallel memory set on, block size 256 and the default estimate threshold |
| Settings.Tuning.SetParallelMemorySet | tests/tuning.cpp:40-52 | the flag is stored, other values kept |
| Settings.Tuning.ResetParallelMemorySet | tests/tuning.cpp:52-54 | resetting turns the flag back on |
| Settings.Tuning.SetBlockSize | tests/tuning.cpp:59-72 | an invalid block size, 8000 for one, fails with invalid argument keeping the old value; a valid one is stored |
| Settings.Tuning.ResetBlockSize | tests/tuning.cpp:57-74 | resetting restores 256 |
| Settings.Tuning.SetEstimateThreshold | tests/tuning.cpp:75-89 | the threshold is stored |
| Settings.Tuning.ResetEstimateThreshold | tests/tuning.cpp:75-89 | resetting restores the default threshold |
| Settings.BlockSizeExamples | tests/tuning.cpp:59-72 | 256, 512 and 1024 are valid block sizes and 8000 is not |
| Series.InsertCoeff | tests/series_02.cpp:663-667 | inserting a term keeps keys distinct and adds its coefficient to that key's coefficient only |
| Series.InsertValid | tests/series_02.cpp:1088-1090 | insertion keeps the arity, the coefficient ring and the absence of zero coefficients (a cancelled term is erased) |
| Series.AccumulateCoeff | tests/series_02.cpp:840-845 | accumulating a term list adds the coefficients key by key |
| Series.AccumulateValid | tests/series_02.cpp:840-845 | accumulation keeps the series invariant |
| Series.AccumulateAppend | tests/series_02.cpp:636-989 | accumulating two lists one after the other equals accumulating their concatenation |
| Series.SameTermsIffCoeff | tests/series_02.cpp:1910-1987 | two normal term lists hold the same terms exactly when every key has the same coefficient in both |
| Series.KeyOf | tests/series_02.cpp:712-720 | a monomial's key over a symbol set lists the exponent of each symbol in order |
| Series.MonomialOfKey | tests/series_02.cpp:712-720 | reading a key as a monomial and encoding it back gives the key |
| Series.ExtendTo | tests/series_02.cpp:712-720 | re-encoding to a larger symbol set keeps the invariant and takes the new symbol set |
| Series.ExtendCoef | tests/series_02.cpp:712-720 | re-encoding to a larger symbol set changes no monomial's coefficient |
| Series.RekeyCoeff | tests/series_02.cpp:1512-1517 | merging symbols moves each coefficient to the re-encoded key |
| Series.Zero | tests/series_04.cpp:629-635 | the empty series is valid and every coefficient is 0 |
| Series.Constant | tests/series_02.cpp:1935-1968 | a constant series has no symbols and holds the constant as the coefficient of the constant monomial only |
| Series.Symbol | tests/series_02.cpp:663-667 | the series of one symbol has that symbol and one term with coefficient 1 and exponent 1 |
| Series.Add | tests/series_02.cpp:712-788 | the sum of any two series, of the same or different coefficient types, is valid over the merged symbol set, with rational coefficients as soon as one operand has them |
| Series.AddCoef | tests/series_02.cpp:636-989 | each coefficient of the sum is the sum of the coefficients |
| Series.Neg | tests/series_02.cpp:1055-1402 | negation keeps the symbol set and the invariant |
| Series.NegCoef | tests/series_02.cpp:1055-1402 | each coefficient of the negation is negated |
| Series.Sub | tests/series_02.cpp:1088-1177 | the difference of any two series is valid over the merged symbol set, so `x − x` keeps `x`, with rational coefficients as soon as one operand has them |
| Series.SubCoef | tests/series_02.cpp:1055-1402 | each coefficient of the difference is the difference of the coefficients |
| Series.EqualIffCoef | tests/series_02.cpp:1935-1968 | equality after merging symbol sets holds exactly when every monomial has the same coefficient |
| Series.IdenticalIffEqual | tests/series_02.cpp:2064-2077 | identical series are equal, and equal series over the same symbol set are identical |
| Series.Mul | tests/series_02.cpp:1512-1551 | the product of any two series is valid over the merged symbol set, with rational coefficients as soon as one operand has them |
| Series.CrossCommutes | tests/series_02.cpp:1468-1727 | the all-pairs product has the same coefficients whichever factor comes first |
| Series.MulCommutes | tests/series_02.cpp:1468-1727 | series multiplication is commutative up to identity |
| Series.Blocks | tests/polynomial_01.cpp:343-375 | splitting the terms into blocks for the threads loses or adds none |
| Series.MergeBlocksCoeff | tests/polynomial_01.cpp:343-375 | merging per-block partial products gives the coefficients of the whole product |
| Series.ParallelMulIsMul | tests/polynomial_01.cpp:343-375 | any split of the first factor into blocks gives the same terms as the plain product |
| Series.MulThreadsIsMul | tests/polynomial_01.cpp:343-375 | the product computed with any number of threads is identical to the plain product |
| Series.Truncate | tests/series_02.cpp:940-948 | the conversion of a rational to an integer rounds toward zero, and is exact exactly on integers |
| Series.ConvertTo | tests/series_02.cpp:940-948 | assigning a value to a series of a coefficient type keeps that type and the symbol set, and changes no term when the value's type is the same or narrower |
| Series.ConvertCoef | tests/series_02.cpp:940-948 | converting to integers truncates every coefficient toward zero; converting to rationals keeps it |
| Series.ConvertLossless | tests/series_02.cpp:940-958 | converting to integers gives back an equal series exactly when every coefficient is an integer |
| Series.MapCfCoeff | tests/series_02.cpp:1793-1861 | applying a zero-preserving coefficient map drops vanishing terms and maps every coefficient |
| Series.MulScalar | tests/series_02.cpp:1468-1727 | scaling keeps the symbol set and the invariant; a non-integral factor makes the coefficients rational |
| Series.MulScalarCoef | tests/series_02.cpp:1468-1727 | each coefficient of the scaled series is scaled |
| Series.CfDiv | tests/series_02.cpp:1896-1903 | coefficient division stays in the ring, truncating for integers, and maps 0 to 0 |
| Series.DivScalar | tests/series_02.cpp:1838-1846 | division by zero fails with a zero-division error, for the empty series too; otherwise the result is valid over the same symbols |
| Series.DivScalarCoef | tests/series_02.cpp:1896-1903 | each coefficient of the quotient is the coefficient divided in the ring, so `(2x+2y)/3` over the integers is empty |
| Series.DivThenMulScalar | tests/series_02.cpp:1793-1861 | over the rationals dividing and then multiplying by the same nonzero scalar gives back an equal series |
| Series.MulThenDivScalar | tests/series_02.cpp:1896-1903 | over the integers multiplying and then dividing by the same nonzero integer gives back an equal series |
| Series.ComputeHash | tests/series_02.cpp:2049-2061 | the hash loop computes the sum of the key hashes, reduced modulo the hash range; the empty series hashes to 0 |
| Series.HashKeysOnly | tests/series_02.cpp:2049-2061 | the hash depends only on the set of keys, not on the coefficients or the term order |
| Series.HashOfIdentical | tests/series_02.cpp:2049-2061 | identical series have equal hashes |
| Series.IsZeroIff | tests/series_04.cpp:629-635 | a series is zero exactly when every coefficient is 0 |
| Series.SingleCoefficientIff | tests/series_04.cpp:257-263 | a series is a single coefficient exactly when no non-constant monomial has a nonzero coefficient |
| Series.StoredMonomial | tests/series_04.cpp:257-263 | every stored term is the nonzero coefficient of its monomial, and a term with a nonzero exponent is not constant |
| Series.Pairs | tests/series_04.cpp:402-432 | iteration yields one pair per term |
| Series.PairCoef | tests/series_04.cpp:402-432 | each iterated pair holds the single-term series with coefficient 1 at that term's monomial |
| Series.Filter | tests/series_04.cpp:439-447 | filtering keeps exactly the terms satisfying the predicate, over the same symbols |
| Series.FilterSplits | tests/series_04.cpp:439-447 | what a predicate keeps plus what its negation keeps equals the series |
| Series.Transform | tests/series_04.cpp:454-459 | transforming re-accumulates the mapped pairs into a valid series of the same ring |
| Series.TransformStep | tests/series_04.cpp:454-459 | each mapped pair adds its series times its coefficient to the result |
| Series.TransformScales | tests/series_04.cpp:454-459 | a transform that multiplies each coefficient by `c` equals scalar multiplication by `c` |
| Series.TransformIdentity | tests/series_04.cpp:402-432 | transforming with the identity gives back an equal series |
| Series.TrimMask | tests/series_04.cpp:593-605 | the trim mask has one entry per symbol |
| Series.Trim | tests/series_04.cpp:593-605 | trimming keeps the symbols the mask keeps |
| Series.TrimCoef | tests/series_04.cpp:593-605 | trimming changes no monomial's coefficient |
| Series.TrimEqual | tests/series_04.cpp:593-605 | the trimmed series equals the original |
| Series.TrimSymbols | tests/series_04.cpp:593-605 | a symbol survives trimming exactly when some monomial with a nonzero coefficient has a nonzero exponent for it |
| SeriesAssign.InsertAll | tests/series_02.cpp:840-845 | the insertion loop computes the accumulation of the term list into the accumulator |
| SeriesAssign.MultiplyAll | tests/series_02.cpp:1468-1727 | the double loop of the plain multiplier computes the accumulation of all pairwise term products |
| SeriesAssign.MapAll | tests/series_02.cpp:1793-1861 | the coefficient loop computes the mapped term list with vanishing terms dropped |
| SeriesAssign.MapCfAppend | tests/series_02.cpp:1793-1861 | mapping coefficients distributes over concatenation |
| SeriesAssign.MutableSeries.constructor | tests/series_02.cpp:636-989 | a mutable series starts with the given value |
| SeriesAssign.MutableSeries.Narrow | tests/series_02.cpp:940-948 | the container computed in the wider coefficient type becomes the receiver's value converted to its own type |
| SeriesAssign.MutableSeries.AddAssign | tests/series_02.cpp:898-958 | `+=` with an operand of any coefficient type keeps the receiver's type and makes the value the sum converted to that type; when the receiver's type is the wider one, the value is the sum itself |
| SeriesAssign.MutableSeries.SubAssign | tests/series_02.cpp:1300-1340 | `-=` with an operand of any coefficient type keeps the receiver's type and makes the value the difference converted to that type; when the receiver's type is the wider one, the value is the difference itself |
| SeriesAssign.MutableSeries.MulAssign | tests/series_02.cpp:1640-1680 | `*=` with an operand of any coefficient type keeps the receiver's type and makes the value the product converted to that type; when the receiver's type is the wider one, the value is the product itself |
| SeriesAssign.MixedAddAssignExample | tests/series_02.cpp:940-948 | an integer `y` plus, in place, a rational `x` stays an integer series over `{x, y}` with coefficient 1 for each |
| SeriesAssign.MutableSeries.DivAssign | tests/series_02.cpp:1838-1846 | `/=` by zero fails with a zero-division error and leaves the series empty over the same symbols; otherwise the value becomes the quotient |
| SeriesExamples.AddSubCancel | tests/series_02.cpp:1935-1968 | adding and then subtracting the same series gives back an equal series |
| SeriesExamples.SubSelf | tests/series_02.cpp:1088-1090 | a series minus itself is zero |
| SeriesExamples.SymbolCoef | tests/series_02.cpp:663-667 | the series of a symbol has coefficient 1 at that symbol to the first power and 0 elsewhere |
| SeriesExamples.SymbolsDiffer | tests/series_02.cpp:712-720 | distinct symbols share no monomial |
| SeriesExamples.AddSubExamples | tests/series_02.cpp:663-667 | `x + x` is one term `2x` over `{x}` and `x − x` has no terms over `{x}` |
| SeriesExamples.MixedAddExample | tests/series_02.cpp:760-796 | a rational `x` plus an integer `y`, either way round, has rational coefficients, the symbols `{x, y}` and coefficient 1 for `x` and for `y` |
| SeriesExamples.MergedSymbolsExample | tests/series_02.cpp:712-720 | `x + y` and `x * y` are over `{x, y}` |
| SeriesExamples.EqualityExamples | tests/series_02.cpp:1935-1968 | `x + y − y` equals `x` and `x − x` equals 0 |
| SeriesExamples.NotIdenticalExample | tests/series_02.cpp:2064-2077 | `x + y − y` is not identical to `x` |
| SeriesExamples.DifferenceExample | tests/series_02.cpp:2064-2077 | `x + y − y` keeps `y` in its symbol set though no term uses it |
| SeriesExamples.TrimSymbolsExample | tests/series_02.cpp:2064-2077 | trimming `x + y − y` leaves the symbol set `{x}` |
| SeriesExamples.TrimIdenticalExample | tests/series_02.cpp:2064-2077 | after trimming, `x + y − y` is identical to `x` |
| SeriesExamples.DivExamples | tests/series_02.cpp:1896-1907 | over the integers `(2x+y)/2` equals `x`, `(2x+2y)/3` is zero, and dividing the empty series by zero fails |
| SeriesExamples.QueryExamples | tests/series_04.cpp:257-263 | the empty and the constant series are single coefficients and nothing with a symbol is; the empty series and 0 are zero and 1 is not |
| Polynomial.MaxOver | tests/polynomial_01.cpp:285-317 | the maximum of a key function over the terms bounds every term, is attained by one, and is 0 for no terms |
| Polynomial.MinOver | tests/polynomial_01.cpp:285-317 | the minimum of a key function over the terms is below every term, is attained by one, and is 0 for no terms |
| Polynomial.Degree | tests/polynomial_01.cpp:285-317 | the degree is the largest total degree of a term, 0 for the empty polynomial |
| Polynomial.LDegree | tests/polynomial_01.cpp:285-317 | the low degree is the smallest total degree of a term, 0 for the empty polynomial |
| Polynomial.PartialDegree | tests/polynomial_01.cpp:285-317 | the partial degree is the largest sum of the listed symbols' exponents over the terms |
| Polynomial.PartialLDegree | tests/polynomial_01.cpp:285-317 | the partial low degree is the smallest sum of the listed symbols' exponents over the terms |
| Polynomial.PartialSumCases | tests/polynomial_01.cpp:285-317 | a term's partial degree is its total degree when every symbol is listed and 0 when none is |
| Polynomial.PartialSumNamesAsSet | tests/power_series_02.cpp:250-255 | the partial degree depends only on the set of listed names, so duplicates do not count twice |
| Polynomial.DegreeOfCoefficients | tests/polynomial_01.cpp:285-317 | every monomial with a nonzero coefficient has a degree between the low degree and the degree, and both are attained |
| Polynomial.PartialDegreeCases | tests/polynomial_01.cpp:285-317 | listing every symbol gives the total degrees, listing none (absent names only) gives 0 |
| Polynomial.PairDegree | tests/polynomial_01.cpp:285-317 | the single-term series of an iterated pair has the term's degree and partial degree |
| Polynomial.TruncateDegree | tests/power_series_02.cpp:242-249 | degree truncation keeps exactly the terms of total degree at most `d`, over the same symbols |
| Polynomial.TruncatePartialDegree | tests/power_series_02.cpp:250-255 | partial truncation keeps exactly the terms whose listed-symbol degree is at most `d` |
| Polynomial.TruncateDegreeCoef | tests/power_series_02.cpp:242-249 | a truncated coefficient is the original one when its monomial's degree is at most `d` and 0 otherwise |
| Polynomial.TruncatePartialDegreeCoef | tests/power_series_02.cpp:250-255 | the same for partial truncation with the partial degree |
| Polynomial.TruncateAboveDegree | tests/power_series_02.cpp:242-249 | truncating at or above the degree changes nothing |
| Polynomial.TruncatePartialCases | tests/power_series_02.cpp:250-255 | partial truncation over unknown names (at a non-negative bound) changes nothing, and over all the symbols equals total truncation |
| Polynomial.FindCf | tests/polynomial_02.cpp:336-362 | looking up an exponent vector fails with invalid argument on a length mismatch or an exponent the key type cannot hold; otherwise gives the stored coefficient, nonzero exactly when the key is stored |
| Polynomial.FindCfCoef | tests/polynomial_02.cpp:336-359 | the coefficient found for a monomial's key is its coefficient |
| Polynomial.FindCfPair | tests/polynomial_02.cpp:341-356 | on `a*x + b*y` (the test's `3x + 4y`) the lookups of `x` and `y` give `a` and `b`, that of `x*y` gives 0, and a vector of the wrong length fails |
| Polynomial.FindCfExamples | tests/polynomial_02.cpp:336-362 | the empty series gives 0 for the empty vector and fails for a vector of length one, and an exponent beyond the key type fails with a cast failure |
| Polynomial.Combination | tests/polynomial_01.cpp:447-475 | the combination succeeds exactly when every term is an integral coefficient times one symbol to the first power, and maps only such symbols |
| Polynomial.CombinationEntries | tests/polynomial_01.cpp:447-475 | each linear term's symbol is mapped to its coefficient |
| Polynomial.IntegralCombination | tests/polynomial_01.cpp:447-459 | a constant term, a non-linear term or a non-integral coefficient fails with invalid argument |
| Polynomial.IntegralCombinationCoef | tests/polynomial_01.cpp:470-475 | each symbol's coefficient in the polynomial is its mapped value, or 0 when unmapped |
| Polynomial.IntegralCombinationOnlySymbols | tests/polynomial_01.cpp:447-459 | every monomial with a nonzero coefficient is a single mapped symbol |
| Polynomial.CfPow | tests/polynomial_01.cpp:511-521 | a coefficient power fails with a zero-division error exactly for 0 to a negative power; natural powers are the real power and rational powers the exact rational power |
| Polynomial.PowNat | tests/polynomial_01.cpp:511-521 | a natural power is a valid series of the same ring |
| Polynomial.OneTimesSingle | tests/polynomial_01.cpp:511-521 | `1 * s` is `s` itself for a single term |
| Polynomial.PowNatSingle | tests/polynomial_01.cpp:511-514 | the repeated product of a single term `c·k` is the single term `c^n·k^n` over the same symbols |
| Polynomial.PowSingleIsProduct | tests/polynomial_01.cpp:511-514 | for a single term, `pow(n)` with a natural `n` equals the repeated product `s·s·…·s`, and is the very same series for `n ≥ 1` |
| Polynomial.Pow | tests/polynomial_01.cpp:511-521 | a negative power of anything but a single term fails (zero-division for the empty series, invalid argument for several terms) |
| Polynomial.PowSingleTerm | tests/polynomial_01.cpp:511-521 | a single term to any power scales its exponents by the power and raises its coefficient, so the power −1 negates the exponents |
| Polynomial.PowZero | tests/polynomial_01.cpp:511-521 | the power 0 is 1, and a positive power of 0 is 0 |
| Polynomial.Invert | tests/polynomial_02.cpp:317-330 | inversion is the power −1: it fails on 0 with a zero-division error and on several terms with invalid argument |
| Polynomial.InvertIsInverse | tests/invert.cpp:98-107 | over the rationals a single term times its inverse is 1 |
| Polynomial.InvertExamples | tests/polynomial_02.cpp:317-330 | over the integers 1 inverts to 1, 2 to 0 and 0 fails; over the rationals 2 inverts to 1/2; `x + y` fails |
| Calculus.PartialTermsCoeff | tests/series_02.cpp:227-341 | differentiating the terms by the symbol at position `p` moves `(n+1)` times the coefficient of exponent `n+1` to exponent `n`, and gives 0 for a position beyond the symbols |
| Calculus.Partial | tests/series_02.cpp:227-341 | the derivative is valid over the same symbols and ring |
| Calculus.PartialCoef | tests/series_02.cpp:227-341 | each coefficient of the derivative is `(n+1)` times the coefficient of the monomial with the symbol's exponent raised by one |
| Calculus.PartialAbsent | tests/series_02.cpp:227-341 | the derivative by a symbol the series does not have is zero |
| Calculus.IntegratedSymbols | tests/polynomial_02.cpp:128-133 | integration adds the symbol to the symbol set when absent, keeping it sorted |
| Calculus.IntegrateTerms | tests/polynomial_02.cpp:133-135 | integrating the terms fails with invalid argument exactly when some term has the symbol to the power −1 |
| Calculus.IntegrateTermsCoeff | tests/polynomial_02.cpp:128-143 | each integrated coefficient is the source coefficient divided by the new exponent |
| Calculus.Integrate | tests/polynomial_02.cpp:128-143 | integration fails with invalid argument exactly on an exponent −1 of the symbol; otherwise the result is valid over the symbol set with the symbol added |
| Calculus.IntegrateCoef | tests/polynomial_02.cpp:128-143 | each coefficient of the antiderivative at exponent `n` is the coefficient at `n−1` divided by `n`, and 0 at exponent 0 |
| Calculus.PartialOfIntegrate | tests/polynomial_02.cpp:136-141 | over the rationals the derivative of the antiderivative equals the series |
| Calculus.NoInverseTerm | tests/polynomial_02.cpp:133-135 | when integration succeeds no monomial with the symbol to the power −1 has a nonzero coefficient |
| Calculus.IntegrateExamples | tests/polynomial_02.cpp:128-133 | 0 integrates to 0, `x` to `x²/2` and `y` to `xy` |
| Calculus.IntegrateMoreExamples | tests/polynomial_02.cpp:133-142 | 4 integrates by `z` to `4z`, and `x⁻¹` fails |
| Calculus.IntegrateNegativeExample | tests/polynomial_02.cpp:143 | `(xyz)⁻⁵` integrates by `x` to `−1/4 · x⁻⁴ y⁻⁵ z⁻⁵` |
| Calculus.Bracket | tests/math.cpp:236-242 | the sum over the conjugate pairs of `∂f/∂q ∂g/∂p − ∂f/∂p ∂g/∂q` is a valid series of the same ring |
| Calculus.Pbracket | tests/math.cpp:236-242 | the Poisson bracket fails with invalid argument when the momentum and coordinate lists differ in length or either has a duplicate |
| Calculus.BracketAntisymmetric | tests/math.cpp:236-248 | swapping the two series negates every coefficient of the bracket |
| Calculus.PbracketAntisymmetric | tests/math.cpp:236-248 | the bracket of `g, f` succeeds exactly when that of `f, g` does and is its negation |
| Calculus.BracketOfConstant | tests/math.cpp:236-242 | the bracket of a series with none of the listed symbols is zero |
| Calculus.PbracketExamples | tests/math.cpp:236-242 | the bracket of zeros with empty lists is 0, the four malformed lists fail, and well-formed lists over absent names give 0 |
| Substitution.InsertValue | tests/series_02.cpp:413-514 | inserting a term adds its coefficient times its monomial's value to the value of the term list |
| Substitution.AccumulateValue | tests/series_02.cpp:413-514 | the value of an accumulation is the sum of the values |
| Substitution.Values | tests/series_02.cpp:413-514 | the evaluation vector lists the point's value of each symbol in order |
| Substitution.Evaluate | tests/series_02.cpp:413-514 | evaluation fails with invalid argument exactly when a symbol of the series has no value, with a zero-division error exactly when a negative power meets a zero value, and otherwise is the sum over the terms of coefficient times monomial value |
| Substitution.EvaluateExample | tests/lambdify.cpp:87-90 | `x + 2y + 3z` at `x=3, y=1, z=2` is 11 |
| Substitution.IpowSubs | tests/ipow_substitutable_series.cpp:195-239 | substituting `x^n` fails with invalid argument for `n = 0` on a non-empty series; otherwise the result is valid over the same symbols, rational when the value is |
| Substitution.SubsTermValue | tests/polynomial_02.cpp:228-244 | at any point where `x^n` equals the replacement, replacing it in one term keeps the term's value |
| Substitution.PowerSplit | tests/ipow_substitutable_series.cpp:209-212 | a monomial's value splits into the replaced power `v^q` times the remainder |
| Substitution.SubsTermsValue | tests/polynomial_02.cpp:228-244 | substitution keeps the value of the whole term list at such points |
| Substitution.IpowSubsKeepsValue | tests/polynomial_02.cpp:236-240 | substituting `x^n := v` and evaluating where `x^n = v` gives the same value as evaluating the original, so substituting back restores it |
| Substitution.SubsTermsUntouched | tests/ipow_substitutable_series.cpp:200-204 | terms whose exponent of `x` holds no whole power `n` are left as they are |
| Substitution.IpowSubsUntouched | tests/ipow_substitutable_series.cpp:200-204 | substituting an absent symbol, or a power beyond every exponent, leaves the series identical |
| Substitution.IpowSubsNegativeExample | tests/polynomial_02.cpp:242 | `x⁻⁵` with `x⁻² := 5` gives `25x⁻¹` |
| Substitution.IpowSubsLinearExample | tests/ipow_substitutable_series.cpp:195-198 | `x + y` with `x := 2` gives `y + 2` and keeps `x` in the symbol set |
| Substitution.IpowSubsRationalExample | tests/ipow_substitutable_series.cpp:227-230 | `3x + y²/7` with `y := 2/5` gives `3x + 4/175` exactly |
| Substitution.IpowSubsZeroExample | tests/polynomial_02.cpp:234 | `x⁶ + x²y + z` with `x³ := 0` gives `x²y + z`, the zeroed term removed |
| Divisor.GcdAll | tests/divisor_series_01.cpp:309-310 | the gcd of the multipliers is 0 exactly when all of them are |
| Divisor.GcdAllDivides | tests/divisor_series_01.cpp:309-310 | the gcd divides every multiplier |
| Divisor.GcdAllGreatest | tests/divisor_series_01.cpp:309-310 | every common divisor of the multipliers divides the gcd |
| Divisor.FirstNonZero | tests/divisor_series_01.cpp:310 | the first nonzero position has only zeros before it |
| Divisor.Factor | tests/divisor_series_01.cpp:309-310 | the factor taken out has the gcd as magnitude and the sign of the first nonzero multiplier |
| Divisor.Normalise | tests/divisor_series_01.cpp:309-310 | the multipliers are the factor times the normalised multipliers |
| Divisor.NormaliseIsCanonical | tests/divisor_series_01.cpp:309-310 | the normalised multipliers are canonical (first nonzero positive, coprime) and zero in the same places |
| Divisor.NormaliseZeros | tests/divisor_series_01.cpp:310 | normalising keeps the zero positions and makes the first nonzero multiplier positive |
| Divisor.NormaliseCoprime | tests/divisor_series_01.cpp:309 | the normalised multipliers have gcd 1 |
| Divisor.Multipliers | tests/divisor_series_01.cpp:307-312 | the multiplier of each symbol is its integral coefficient, 0 when absent |
| Divisor.Invert | tests/divisor_series_01.cpp:292-324 | inverting the empty series fails with a zero-division error; a constant inverts to its reciprocal (truncated for integers); otherwise it fails with invalid argument when the linear combination fails or the normalised multipliers leave the range, and succeeds with canonical multipliers in range over the same symbols |
| Divisor.InvertMeaning | tests/divisor_series_01.cpp:307-312 | the coefficient times each symbol's coefficient in the argument is that symbol's multiplier, so the result is `1 / (factor · divisor)` |
| Divisor.InvertDivided | tests/divisor_series_01.cpp:307-312 | a divisor result is the reciprocal of the factor and the normalised multipliers of the linear combination |
| Divisor.InvertOfCombination | tests/divisor_series_01.cpp:307-324 | for a non-constant linear argument, the result is the normalised divisor when in range and invalid argument otherwise |
| Divisor.GcdExamples | tests/divisor_series_01.cpp:309-310 | the gcd of `(2, −4)` and of `(−2, 4)` is 2 |
| Divisor.NormaliseExample | tests/divisor_series_01.cpp:309 | `(2, −4)` is 2 times `(1, −2)` |
| Divisor.NormaliseNegativeExample | tests/divisor_series_01.cpp:310 | `(−2, 4)` is −2 times `(1, −2)` |
| Divisor.InvertExample | tests/divisor_series_01.cpp:309 | `invert(2x − 4y)` is `1/2 · 1/[(x−2y)]` |
| Divisor.InvertNegativeExample | tests/divisor_series_01.cpp:310 | `invert(−2x + 4y)` is `−1/2 · 1/[(x−2y)]` |
| Divisor.InvertConstantExamples | tests/divisor_series_01.cpp:293-305 | the integer 2 inverts to 0, the rational 2/3 to 3/2, and the zero series fails with a zero-division error |
| Divisor.InvertRejectsExamples | tests/divisor_series_01.cpp:313-314 | `x − 1` and `x − y/2` fail |
| Divisor.InvertOutOfRangeExample | tests/divisor_series_01.cpp:316-317 | a multiplier one past the short range fails with invalid argument |
| Lambdify.ExtraNames | tests/lambdify.cpp:276-289 | the extra names list each entry's name in order |
| Lambdify.FirstIndex | tests/lambdify.cpp:152-163 | the first entry with a name is found, with no earlier entry of that name |
| Lambdify.ExtraMap | tests/lambdify.cpp:152-163 | the extra-symbol map has exactly the entries' names as keys |
| Lambdify.ExtraMapFirstWins | tests/lambdify.cpp:152-163 | with duplicate entries the first callback for a name is the one kept |
| Lambdify.Make | tests/lambdify.cpp:91 | construction fails with invalid argument exactly on duplicate positional names or an extra symbol also named positionally; otherwise it keeps the series and names and maps every extra name |
| Lambdify.GetNames | tests/lambdify.cpp:276-280 | the names getter returns the positional names in order |
| Lambdify.GetExtraNames | tests/lambdify.cpp:281-289 | the extra-names getter returns exactly the extra symbols' names |
| Lambdify.Point | tests/lambdify.cpp:127-142 | the evaluation point gives every positional name its value and every extra name its callback's value on the positional values |
| Lambdify.Call | tests/lambdify.cpp:95-97 | calling with a wrong number of values fails with invalid argument; otherwise it evaluates the series at the point, failing with invalid argument exactly when a symbol has neither a positional nor an extra value |
| Lambdify.PointPositional | tests/lambdify.cpp:87-90 | the `i`-th value goes to the `i`-th name |
| Lambdify.EvaluateLocal | tests/lambdify.cpp:233-239 | evaluation depends only on the point's values at the series' symbols |
| Lambdify.CallIsEvaluate | tests/lambdify.cpp:233-239 | a call gives the same result as evaluating the series at any point with the positional values and the extra callbacks' values |
| Lambdify.CallExample | tests/lambdify.cpp:89-90 | `x + 2y + 3z` with names `(y, z, x)` at `(1, 2, 3)` gives 11 |
| Lambdify.DuplicateNamesExample | tests/lambdify.cpp:91 | duplicate positional names fail with invalid argument |
| Lambdify.SumXYZValue | tests/lambdify.cpp:127-142 | `x + y + z` evaluates to the sum of the three values |
| Lambdify.ExtrasExample | tests/lambdify.cpp:127-142 | `x + y + z` with `z = 3x` and `y = 2x` as extras gives −18 at `x = −3` |
| Lambdify.FirstExtraWinsExample | tests/lambdify.cpp:152-163 | with `y` given twice the first, 4, is used, giving 5 at `x = 1` |
| Lambdify.SumXYValue | tests/lambdify.cpp:152-163 | `x + y` evaluates to the sum of the two values |
| Lambdify.ExtraPositionalExample | tests/lambdify.cpp:178-184 | an extra symbol that is also positional fails with invalid argument |
| Lambdify.MissingValueExample | tests/lambdify.cpp:143-150 | a symbol with no value fails at the call, and so do too many values |
| Lambdify.ConstantExample | tests/lambdify.cpp:117-121 | a constant with no names gives its value on no values and fails on three |
| Lambdify.OnlyExtrasExample | tests/lambdify.cpp:193-206 | with only extra symbols `x = 4, y = 3`, `x + y` gives 7 on no values |
| Lambdify.ZeroExample | tests/lambdify.cpp:207-211 | the zero polynomial gives 0 |

## Left out

- Floating-point and MPFR paths (`double`, `real`, `sin`/`cos` of floats): rounding and precision are not exact logic; every coefficient here is an exact integer or rational.
- Serialization round-trips (Boost and msgpack archives): they are I/O.
- Compile-time traits and overload checks with mock types (`is_integrable`, `has_lambdify`, `key_is_multipliable`, return-type and rebind checks): they assert overload resolution, not run-time behaviour.
- Poisson series and echeloned (nested) series, including degree and truncation of recursive polynomials and of Poisson series (tests/power_series_02.cpp:267-310) and series-valued or nested `ipow_subs` (tests/ipow_substitutable_series.cpp:259-299, 410-413): coefficients here are numbers, not series.
- The overflow of a combined nested degree (tests/power_series_02.cpp:372-374): it needs nested series.
- Rational exponents: exponents are integers throughout.
- The custom-derivative registry and `transformation_is_canonical`: process-wide maps of callables and a layer over Poisson series.
- Thread-pool queues, futures, `task_queue` and atomic flags: their point is concurrency. Only the `use_threads` rule, the pool size and the index check are kept.
- The real packing table of `kronecker_array` is not part of this model; the Kronecker codec is a parameter with a well-formedness predicate, and an example table for signed char is proved well formed.
- Printing, evaluation and substitution of Kronecker and trigonometric keys beyond `print` of the trigonometric key, and `t_subs`: they reduce to the exponent-vector operations through decoding.
- Keys' hash functions inside series: the key hash is a parameter of `Series.Hash`.
- Series.ComputeHash: the hash is an exact sum reduced modulo a 64-bit range; the library's particular mixing is not modelled.
- Polynomial.Pow: series keys are unbounded exponent vectors, so raising a single term never throws the `overflow_error` that `monomial<int>` raises when a scaled exponent leaves the range of `int`; that error is modelled only at the key level, by `Monomial.Pow`.
- Series-level exponent overflow: in `Series`, `SeriesAssign`, `Polynomial`, `Calculus`, `Substitution` and `Divisor` the keys are unbounded exponent vectors, so no operation there yields `overflow_error`; the overflow of fixed-width exponents is modelled only by the key modules (`Monomial` with a fixed exponent type, `Kronecker`, `RealTrigKronecker`).
- Monomial.Evaluate: a negative exponent over an integer value is evaluated as the exact rational power, whereas the integer `pow` of the library truncates (`pow(n, -1) == 0` for `|n| > 1`, modelled by `IntegerMath.Pow`); the evaluation tests of the monomial use rational values or non-negative exponents only.
- Kronecker.Multiply: like `Monomial.Multiply`, the overflow of the packed sum is required away (`InRange` of the sum of the codes), since the series multiplier checks the ranges of the operands before multiplying; that check is not part of this model.
- SeriesAssign.MutableSeries.AddAssign, SeriesAssign.MutableSeries.SubAssign, SeriesAssign.MutableSeries.MulAssign: an integer receiver with a rational operand keeps integer coefficients by converting the rational result back with truncation toward zero, which is how mp++ converts a rational to an integer; the library's own conversion path lives in `series.hpp`, which is not part of this model, and the tests exercise it only with integral results.
- Settings.ValidBlockSize: the bounds 16 and 4096 are assumed; the tests pin down only that 256, 512 and 1024 are accepted and 8000 is refused, and `tuning.hpp`, which sets the bounds, is not part of this model.
- Calculus.Bracket, Calculus.Pbracket: both series are required to have the same coefficient type; `has_pbracket` is a trait of a single type and the tests call `pbracket` on two series of one type only (tests/math.cpp:230-242).
- Monomial.Multiply: the overflow of an exponent sum is required away, since the series multiplier checks ranges before multiplying (that check is not part of this model).
- IntegerMath.Add3, IntegerMath.Sub3, IntegerMath.Mul3, IntegerMath.Div3: the ternary primitives on machine integers are modelled on unbounded integers, since signed overflow is undefined behaviour in C++.
- Calculus.Integrate: over the integer ring a coefficient divided by the new exponent truncates; only the rational ring is proved to invert `partial`.
- Divisor.Invert: the divisor is stored over the whole symbol set, with zero multipliers for absent symbols; the range bound of a multiplier is a parameter and is checked on the normalised multipliers.
- Divisor.InvertRejectsExamples: cancellation before inversion (`x + y + z − z`) and products of divisor series (`1/2 · 2/3`) are not modelled, because divisor-series arithmetic is not part of this model.
- Lambdify.Make: the duplicate and positional-extra errors are raised at construction; the library's tests wrap construction and call together, so they cannot tell the two apart.
- Lambdify.GetExtraNames: the extra names are a set, since the library leaves their order unspecified.
- Callables other than lambdas, the `3.4` double constant (modelled as the rational 3.4) and the copy or move of a lambdified object are not modelled.
- SmallVector.SmallVector.HashValue, StaticVector.StaticVector.HashValue: the element hash is a function of the model, not the standard library's `std::hash`; the combining step `Containers.Combine` follows the formula of `boost::hash_combine`.
- SmallVector.SmallVector.Add, SmallVector.SmallVector.Sub: elements are unbounded integers, so the overflow of a machine-integer element is not modelled.
- Element construction that throws (`time_bomb`) is modelled only for `StaticVector.StaticVector.Resize`, as a count of elements that can be constructed.
