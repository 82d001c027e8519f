# Decimal floats on unsigned integers, in Dafny

This project models the decimal floating-point arithmetic of `src/zkfloat.rs`. The arithmetic uses only unsigned integers so that it can later be expressed in arithmetic circuits.

A `Float` has three fields:

- a sign flag `positive`;
- a `u64` mantissa;
- a `u8` exponent biased by 100.

Its value is ±mantissa·10^(exponent − 100). `truncate` cuts a mantissa down to `PRECISION` = 7 significant decimal digits, rounding toward zero. Multiplication, addition and subtraction compute their result exactly and then truncate it. Division computes seven digits of long division and then truncates, but it scales the numerator by ten at most once beforehand, so its result has 7 significant digits only when y.mantissa ≤ 10·x.mantissa. `relu` does not truncate: it passes a non-negative input through unchanged.

The files:

- `decimal.dfy` (module `Decimal`): powers of ten, decimal digit counts and the floor-division facts the proofs need, over unbounded naturals.
- `zkfloat.dfy` (module `ZkFloat`): the model itself.
  - `truncate` is the method `Truncate`. It keeps the 20-entry table scan and is proved equal to the function `Truncation`.
  - `div_floats` is the method `Divide`. Its seven-step long-division loop is the method `LongDivision`. `Divide` is proved equal to the function `Quotient`.
  - `mul_floats`, `add_floats`, `sub_floats` and `relu` are straight-line code over immutable values. They are the functions `Multiply`, `Add`, `Subtract` and `Relu`.
- `zkfloat_tests.dfy` (module `ZkFloatTests`): the Rust unit tests, as lemmas.

How the Rust semantics are modelled:

- Rust's `u64` and `u8` are the subset types `U64` and `U8`. An overflow or underflow panics in the source. Each place where that can happen is a precondition here, gathered per operation in a `...Fits` predicate (`TruncateFits`, `MultiplyFits`, `DivideFits`, `AddFits`).
- `div_floats`'s `assert!(y.mantissa > 0)` is not a precondition. It is the outcome `DivisionByZero` of `Quotient` and `Divide`.

The meaning of a float is stated in integers:

- `Magnitude(f)` = mantissa·10^exponent, which is |value|·10^100.
- `Scaled(f)` is that magnitude with its sign.
- `Floors(r, num, den)` says that r's magnitude is num/den truncated toward zero at r's last digit.

The properties proved are:

- Multiplication, addition and subtraction return the exact product, sum or difference truncated toward zero.
- Division returns the exact quotient truncated toward zero whenever the numerator is zero or the divisor has at most 7 digits. In general this holds whenever the numerator is zero or the result is non-zero.
- Division can lose digits. `QuotientFewDigits` shows 1 ÷ 3 = 0.3. `QuotientVanishes` shows a divisor mantissa of more than 7 digits giving zero instead of 10^42.
- The results of `truncate`, `mul_floats`, `div_floats`, `add_floats` and `sub_floats` are canonical: at most 7 digits, and a zero mantissa only with exponent 100. `relu` keeps a canonical input canonical.
- Truncation is idempotent, and it leaves non-zero numbers of at most 7 digits unchanged.
- Addition is commutative, except on an exact cancellation.
- Dividing a non-zero number whose exponent is at most 155 by itself gives 1000000@94. A zero divisor is `DivisionByZero`, and a larger exponent overflows `100 + exp1` (src/zkfloat.rs:121).
- The six unit tests hold.

One might expect every zero result to be the positive sentinel `{true, 0, 100}` that `relu` returns. The code does not do this:

- `truncate` keeps the incoming sign when it resets a zero mantissa's exponent (src/zkfloat.rs:72).
- On an exact cancellation, `add_floats` takes y's sign (src/zkfloat.rs:168).

So `{false, 0, 100}` is reachable. `SubtractSelf` proves that x − x is that negative zero for every positive x with 2·x.mantissa < 2^64. For larger mantissas `add_floats` panics at src/zkfloat.rs:160, because it computes the sum before it compares the signs. `Canonical` therefore does not fix the sign of a zero.

The division loop bound is the literal 7 (src/zkfloat.rs:111), while the digit weights and the exponent use `PRECISION`. The model keeps both as written. With `PRECISION` = 7 they agree.

## Model

| member | source | states |
|---|---|---|
| ZkFloat.Truncation | src/zkfloat.rs:21-76 | the result is canonical (at most 7 digits; a zero mantissa has exponent 100) and keeps the sign; its mantissa is zero exactly when the input's is; a non-zero mantissa of at most 7 digits comes back unchanged; a longer one keeps exactly 7 digits |
| ZkFloat.Excess | src/zkfloat.rs:61-68 | definition: the number of digits beyond 7, which `truncate` divides away and adds to the exponent (0 for at most 7 digits) |
| ZkFloat.ExponentFits | src/zkfloat.rs:68 | no-panic condition: `num.exponent + (log_value - PRECISION)` fits in a u8 |
| ZkFloat.TruncateFits | src/zkfloat.rs:50-68 | no-panic condition of `truncate`: `dec_value *= 10` (line 61) needs the mantissa below 10^19, since the scan leaves 10^19 in dec_value for larger ones; and the exponent growth at line 68 fits in a u8 (`ExponentFits`). The table scan, `max_value` and the division cannot panic |
| ZkFloat.ShortenedMantissa | src/zkfloat.rs:66-69 | dividing away the digits beyond 7 leaves at most 7 digits, exactly 7 when there were more, never turns a non-zero mantissa into zero, and removes nothing from a mantissa below 10^7 |
| ZkFloat.LookupIsPowers | src/zkfloat.rs:22-48 | the table has 20 entries and entry i is 10^i |
| ZkFloat.Pow10Fits | src/zkfloat.rs:22-50 | every power of ten in the table, 10^7 included, fits in a u64 |
| ZkFloat.ScanStep | src/zkfloat.rs:54-59 | the mantissa reaches table entry i exactly when it is non-zero and has more than i digits, so the scan ends with the digit count minus one |
| ZkFloat.ExcessDivisor | src/zkfloat.rs:61-68 | after the scan, dec_value / max_value is 10^(digits − 7), and the exponent grows by digits − 7, exactly when there are more than 7 digits |
| ZkFloat.Truncate | src/zkfloat.rs:21-76 | the table scan, the division by dec_value / max_value and the zero reset compute `Truncation`, for every mantissa below 10^19 whose exponent growth fits in a u8 |
| ZkFloat.TruncationFloors | src/zkfloat.rs:64-73 | truncation rounds toward zero: any quotient that a non-zero input truncates, its truncation truncates too, at the coarser last digit |
| ZkFloat.TruncationFloorsExact | src/zkfloat.rs:64-73 | an input that is exactly num/den truncates to num/den truncated toward zero, zero included |
| ZkFloat.TruncationTowardZero | src/zkfloat.rs:64-69 | the truncated magnitude is at most the original, and less than one unit of its last digit below it |
| ZkFloat.TruncationIdempotent | src/zkfloat.rs:21-76 | truncating a truncated float changes nothing |
| ZkFloat.ProductRaw | src/zkfloat.rs:79-87 | definition: the mantissa product, the exponent sum less 100, and a positive flag exactly when the signs agree; its meaning is stated by `ProductExact` |
| ZkFloat.MultiplyFits | src/zkfloat.rs:79-88 | no-panic condition of `mul_floats`: the u64 product at line 79, the u8 sum and the u8 subtraction of 100 at line 80, and the `truncate` call at line 88 (`TruncateFits`) |
| ZkFloat.Multiply | src/zkfloat.rs:78-91 | the product is canonical; it is positive exactly when the signs agree; its mantissa is zero exactly when an operand's is |
| ZkFloat.ProductExact | src/zkfloat.rs:79-80 | before truncation the mantissa product at exponent x.e + y.e − 100 is the exact product of the values |
| ZkFloat.MultiplyFloorsProduct | src/zkfloat.rs:78-91 | `mul_floats` returns the exact product truncated toward zero |
| ZkFloat.Quotient | src/zkfloat.rs:93-133 | a zero divisor mantissa, and only that, gives DivisionByZero; otherwise the quotient is canonical and positive exactly when the signs agree |
| ZkFloat.DivNumerator | src/zkfloat.rs:105-108 | definition: the numerator mantissa, multiplied by ten once when it is below the divisor's |
| ZkFloat.DivExponent | src/zkfloat.rs:105-108 | definition: the numerator exponent, one lower when the mantissa was multiplied |
| ZkFloat.Running | src/zkfloat.rs:111-113 | definition: `mant1` at the start of loop step i, the numerator and then ten times the previous remainder; its closed form is `RunningRemainder` |
| ZkFloat.Accumulated | src/zkfloat.rs:111-118 | definition: `new_mant` after i loop steps, each adding the digit `mant1 / mant2` at weight 10^(6 − i); its value is `AccumulatedQuotient` |
| ZkFloat.LongQuotient | src/zkfloat.rs:110-119 | definition: the loop's result in closed form, floor(numerator·10^6 / divisor) |
| ZkFloat.LongDivisionFits | src/zkfloat.rs:111-118 | no-panic condition of the loop: the running numerator `mant1` computed at line 113 stays below 2^64 after every step, and the accumulated `new_mant` at line 118 does too. The digit, `mant2 * div` ≤ `mant1`, the subtraction and `10u64.pow` cannot panic, as `DivideStep` proves |
| ZkFloat.DivideStepsFit | src/zkfloat.rs:105-121 | no-panic condition of `div_floats` before `truncate`: `mant1 *= 10` at line 106 (the first conjunct of `LongDivisionFits`), `exp1 -= 1` at line 107, the loop, and `100 + exp1 - exp2 - PRECISION + 1` at line 121, evaluated left to right in u8: the first sum must stay below 256, and the two subtractions must not go below zero |
| ZkFloat.QuotientRaw | src/zkfloat.rs:97-129 | definition: the loop's quotient at exponent 100 + exp1 − exp2 − 7 + 1, positive exactly when the signs agree; its meaning is stated by `QuotientRawFloors` and `QuotientRawDigits` |
| ZkFloat.DivideFits | src/zkfloat.rs:105-130 | no-panic condition of `div_floats` with a non-zero divisor: `DivideStepsFit`, and the `truncate` call at line 130 (`TruncateFits`) |
| ZkFloat.RunningRemainder | src/zkfloat.rs:112-113 | the running numerator at step i leaves the remainder of numerator·10^i modulo the divisor |
| ZkFloat.AccumulatedIdentity | src/zkfloat.rs:111-119 | ten times the accumulated quotient times the divisor, plus the running numerator at its remaining weight, is always numerator·10^7 |
| ZkFloat.AccumulatedQuotient | src/zkfloat.rs:111-119 | the accumulated quotient never exceeds floor(numerator·10^6 / divisor) and equals it after seven steps |
| ZkFloat.DivideStep | src/zkfloat.rs:112-118 | each step's digit, next running numerator and accumulated quotient fit in a u64, and the step advances the running numerator and the accumulated quotient by one step |
| ZkFloat.LongDivision | src/zkfloat.rs:110-119 | the loop returns floor(numerator·10^6 / divisor) |
| ZkFloat.Divide | src/zkfloat.rs:93-133 | `div_floats` computes `Quotient`: the abort on a zero divisor, the pre-scaling, the loop, the exponent 100 + exp1 − exp2 − 7 + 1, the sign and the truncation |
| ZkFloat.DivNumeratorMagnitude | src/zkfloat.rs:105-108 | scaling the numerator mantissa by ten and lowering its exponent by one keeps its magnitude |
| ZkFloat.QuotientRawFloors | src/zkfloat.rs:110-129 | before truncation the quotient is the exact quotient of the values truncated toward zero |
| ZkFloat.QuotientFloors | src/zkfloat.rs:93-133 | `div_floats` returns the exact quotient truncated toward zero whenever the numerator is zero or the result is non-zero, and so whenever the numerator is zero or the divisor has at most 7 digits |
| ZkFloat.QuotientNonZero | src/zkfloat.rs:103-119 | a non-zero numerator over a divisor of at most 7 digits gives a non-zero quotient |
| ZkFloat.QuotientRawDigits | src/zkfloat.rs:103-119 | the raw quotient has more than 7 digits exactly when x.mantissa ≥ 10·y.mantissa, when the first digit exceeds 9. It has at least 7 digits exactly when y.mantissa ≤ 10·x.mantissa, so the single scaling by ten cannot recover precision for a larger gap |
| ZkFloat.DivideBySelf | src/zkfloat.rs:93-133 | a non-zero number with exponent at most 155 divided by itself is 1000000@94, with no overflow |
| ZkFloat.QuotientFewDigits | src/zkfloat.rs:103-121 | 1@100 ÷ 3000000@94 = 3@99: 1 ÷ 3 keeps only one significant digit, because the numerator is multiplied by ten only once |
| ZkFloat.QuotientVanishes | src/zkfloat.rs:103-130 | 1@150 ÷ 100000000@100 = 0@100: with a divisor mantissa of 9 digits the quotient is zero, although the exact quotient is 10^42 |
| ZkFloat.Add | src/zkfloat.rs:135-176 | the sum is canonical |
| ZkFloat.ExponentGap | src/zkfloat.rs:142-148 | definition: `diff`, the distance between the two exponents |
| ZkFloat.AlignedExponent | src/zkfloat.rs:152-158 | definition: the smaller exponent, where both operands are aligned |
| ZkFloat.AlignedLeft | src/zkfloat.rs:152-158 | definition: `mant_1` after alignment, x's mantissa times 10^diff unless x has the smaller exponent; its meaning is stated by `AlignedExact` |
| ZkFloat.AlignedRight | src/zkfloat.rs:152-158 | definition: `mant_2` after alignment, y's mantissa times 10^diff when x has the smaller exponent; its meaning is stated by `AlignedExact` |
| ZkFloat.AddAligns | src/zkfloat.rs:150-160 | no-panic condition of the alignment and the sum: `10u64.pow(diff)` at line 150 needs diff < 20. The u64 sum at line 160 is computed even when the signs differ, so the two aligned mantissas must add up to less than 2^64. This bounds the scaling `mant_1 *= pow10` or `mant_2 *= pow10` at lines 153 and 156 as well. The subtractions at lines 165 and 167 cannot underflow |
| ZkFloat.SumRaw | src/zkfloat.rs:136-172 | definition: with equal signs the aligned sum under x's sign. Otherwise the larger aligned mantissa less the smaller, under x's sign when x's is strictly larger and y's sign otherwise, so a tie gives a zero with y's sign. All at the aligned exponent; its meaning is stated by `SumExact` |
| ZkFloat.AddFits | src/zkfloat.rs:150-173 | no-panic condition of `add_floats`: `AddAligns`, and the `truncate` call at line 173 (`TruncateFits`) |
| ZkFloat.AlignedExact | src/zkfloat.rs:144-158 | each mantissa scaled by 10^diff to the smaller exponent keeps its operand's magnitude |
| ZkFloat.SumExact | src/zkfloat.rs:160-172 | before truncation the signed sum or difference of the aligned mantissas is the exact sum of the values |
| ZkFloat.AddTruncatesSum | src/zkfloat.rs:135-176 | `add_floats` returns the exact sum truncated toward zero, with the sum's sign when the sum is non-zero, and a zero mantissa when the sum is zero |
| ZkFloat.AddCommutes | src/zkfloat.rs:152-170 | the swapped addition does not panic either; the two orders agree exactly when the signs agree or the sum is non-zero; on an exact cancellation the zero takes y's sign |
| ZkFloat.Negate | src/zkfloat.rs:179 | flipping the sign flag negates the value and keeps the magnitude |
| ZkFloat.Subtract | src/zkfloat.rs:178-183 | the difference is canonical |
| ZkFloat.SubtractTruncatesDifference | src/zkfloat.rs:178-183 | `sub_floats` returns the exact difference truncated toward zero, with its sign when non-zero |
| ZkFloat.SubtractSelf | src/zkfloat.rs:163-180 | x − x does not panic when 2·x.mantissa fits in a u64, and gives a zero carrying the flipped sign, so a positive x yields negative zero |
| ZkFloat.Relu | src/zkfloat.rs:12-19 | an input flagged positive comes back exactly as written, without truncation; an input flagged negative becomes exactly `{true, 0, 100}`; so the value is clamped at zero, the result is flagged positive, and canonical inputs stay canonical |
| ZkFloat.ReluIdempotent | src/zkfloat.rs:12-19 | applying relu twice is applying it once |
| ZkFloatTests.ReluTest | src/zkfloat.rs:191-197 | relu(12345@98) = 12345@98 |
| ZkFloatTests.TruncateTest | src/zkfloat.rs:199-205 | truncate(12345678@98) = 1234567@99 |
| ZkFloatTests.MultiplyTest | src/zkfloat.rs:207-214 | 123456@98 × 123456@98 = 1524138@100, with no overflow |
| ZkFloatTests.DivideTest | src/zkfloat.rs:216-223 | 123456@98 ÷ 123456@98 = 1000000@94, with no overflow |
| ZkFloatTests.AddTest | src/zkfloat.rs:225-232 | 123456@98 + 123456@98 = 246912@98, with no overflow |
| ZkFloatTests.SubtractTest | src/zkfloat.rs:234-241 | 469908@98 − 134566@96 = 4685623@97, with no overflow |

## Left out

- `src/main.rs` is not part of this model. It holds the circuit definition over an external circuit-compiler library, the compilation, witness solving and file output, and the command-line parsing.
- The derived `Debug`, `Clone`, `PartialEq` and `Default` implementations of `Float` are not modelled. Dafny datatype equality plays the role of `PartialEq`.
- Release-mode wrap-around of `u8`/`u64` arithmetic is not modelled. Every overflow is the debug-mode panic, and so a precondition.
- Divide: the checks that the seven loop steps do not overflow are stated exactly, step by step, in `LongDivisionFits`, not as a simpler closed-form bound.
- Multiply, Add, Subtract: these are functions that use `Truncation`, the function that `Truncate` is proved equal to, rather than calls of the method `Truncate`.
