/** A decimal floating-point number built from unsigned integers only: a sign
    flag, a u64 mantissa and a u8 exponent biased by 100. Multiplication,
    addition and subtraction truncate their exact result to PRECISION
    significant decimal digits; division truncates seven long-division digits
    taken after at most one scaling of the numerator by ten, so it can keep
    fewer significant digits; relu passes a non-negative input through as it
    is.

    Rust's u64 and u8 are the subset types U64 and U8: a value that leaves
    their range is an overflow panic in the source, so every site where the
    source can overflow is a precondition here, gathered per operation in a
    `...Fits` predicate. */
module ZkFloat {
  import opened Decimal

  type U64 = n: nat | n < 0x1_0000_0000_0000_0000
  type U8 = n: nat | n < 0x100

  /** The exponent bias: a stored exponent e stands for 10^(e - BIAS). */
  const BIAS: U8 := 100

  /** Significant decimal digits that `truncate` keeps. */
  const PRECISION: U8 := 7

  /** Entries of the power-of-ten table that `truncate` scans. */
  const TABLE_SIZE: nat := 20

  /** The value (if positive then 1 else -1) * mantissa * 10^(exponent - BIAS). */
  datatype Float = Float(positive: bool, mantissa: U64, exponent: U8)

  /** The canonical zero that `relu` returns for negative inputs. */
  const ZERO: Float := Float(true, 0, BIAS)

  // ---------------------------------------------------------------------
  // Meaning of a Float
  // ---------------------------------------------------------------------

  /** |value| * 10^BIAS; an integer, because the stored exponent is never negative. */
  function Magnitude(f: Float): nat
  {
    f.mantissa * Pow10(f.exponent)
  }

  /** value * 10^BIAS, with its sign. */
  function Scaled(f: Float): int
  {
    var m: int := Magnitude(f);
    if f.positive then m else -m
  }

  function Abs(n: int): nat
  {
    if n < 0 then -n else n
  }

  /** The magnitude of r is the quotient num/den truncated toward zero at r's
      last digit: it is at most num/den, and one unit of r's last digit more
      would exceed it. */
  predicate Floors(r: Float, num: nat, den: nat)
  {
    Magnitude(r) * den <= num < (Magnitude(r) + Pow10(r.exponent)) * den
  }

  /** What `truncate`, and so every operator except relu, returns: at most
      PRECISION digits, and a zero mantissa only with the exponent BIAS (the
      sign of a zero is not fixed). */
  predicate Canonical(f: Float)
  {
    f.mantissa < Pow10(PRECISION) && (f.mantissa == 0 ==> f.exponent == BIAS)
  }

  // ---------------------------------------------------------------------
  // truncate
  // ---------------------------------------------------------------------

  /** Digits beyond PRECISION in a mantissa: what `truncate` divides away. */
  function Excess(m: nat): nat
  {
    if NumDigits(m) > PRECISION then NumDigits(m) - PRECISION else 0
  }

  /** The exponent after dropping the excess digits still fits in a u8. */
  predicate ExponentFits(f: Float)
  {
    f.exponent + Excess(f.mantissa) < 0x100
  }

  /** `truncate` does not panic: the digit scan's `dec_value *= 10` needs a
      mantissa below the last table entry's successor power, 10^19, and the
      exponent growth must fit in a u8. */
  predicate TruncateFits(f: Float)
  {
    f.mantissa < Pow10(TABLE_SIZE - 1) && ExponentFits(f)
  }

  /** Dropping the excess digits of m leaves at most PRECISION digits, exactly
      PRECISION when there were more, and never turns a non-zero m into zero. */
  lemma ShortenedMantissa(m: nat)
    ensures m / Pow10(Excess(m)) <= m
    ensures m / Pow10(Excess(m)) < Pow10(PRECISION)
    ensures m > 0 ==> m / Pow10(Excess(m)) > 0
    ensures m >= Pow10(PRECISION) ==> Pow10(PRECISION - 1) <= m / Pow10(Excess(m))
    ensures m < Pow10(PRECISION) ==> Excess(m) == 0
  {
    var d, k := NumDigits(m), Excess(m);
    NumDigitsBounds(m);
    DigitsBelow(m, PRECISION);
    DivBounds(1, Pow10(k), m);
    if d > PRECISION {
      Pow10Add(k, PRECISION);
      DivBounds(Pow10(PRECISION), Pow10(k), m);
      Pow10Add(k, PRECISION - 1);
      DivBounds(Pow10(PRECISION - 1), Pow10(k), m);
    } else {
      assert Pow10(k) == 1;
    }
  }

  /** The canonical form of f: the mantissa floor-divided down to PRECISION
      digits with the exponent raised by as many places, and a zero mantissa
      given the exponent BIAS. The sign is kept as it is, also for zero. */
  function Truncation(f: Float): (r: Float)
    requires ExponentFits(f)
    ensures Canonical(r)
    ensures r.positive == f.positive
    ensures r.mantissa == 0 <==> f.mantissa == 0
    ensures f.mantissa == 0 ==> r == Float(f.positive, 0, BIAS)
    ensures 0 < f.mantissa < Pow10(PRECISION) ==> r == f
    ensures f.mantissa >= Pow10(PRECISION) ==> Pow10(PRECISION - 1) <= r.mantissa
  {
    ShortenedMantissa(f.mantissa);
    var k := Excess(f.mantissa);
    var m := f.mantissa / Pow10(k);
    if m == 0 then Float(f.positive, 0, BIAS) else Float(f.positive, m, f.exponent + k)
  }

  /** The power-of-ten table that `truncate` scans. */
  const LOOKUP: seq<U64> := [
    1,
    10,
    100,
    1000,
    10000,
    100000,
    1000000,
    10000000,
    100000000,
    1000000000,
    10000000000,
    100000000000,
    1000000000000,
    10000000000000,
    100000000000000,
    1000000000000000,
    10000000000000000,
    100000000000000000,
    1000000000000000000,
    10000000000000000000
  ]

  lemma LookupIsPowers()
    ensures |LOOKUP| == TABLE_SIZE
    ensures forall i :: 0 <= i < TABLE_SIZE ==> LOOKUP[i] == Pow10(i)
  {
    assert Pow10(1) == 10;
    assert Pow10(2) == 100;
    assert Pow10(3) == 1000;
    assert Pow10(4) == 10000;
    assert Pow10(5) == 100000;
    assert Pow10(6) == 1000000;
    assert Pow10(7) == 10000000;
    assert Pow10(8) == 100000000;
    assert Pow10(9) == 1000000000;
    assert Pow10(10) == 10000000000;
    assert Pow10(11) == 100000000000;
    assert Pow10(12) == 1000000000000;
    assert Pow10(13) == 10000000000000;
    assert Pow10(14) == 100000000000000;
    assert Pow10(15) == 1000000000000000;
    assert Pow10(16) == 10000000000000000;
    assert Pow10(17) == 100000000000000000;
    assert Pow10(18) == 1000000000000000000;
    assert Pow10(19) == 10000000000000000000;
  }

  /** Every power of ten in the table fits in a u64. */
  lemma Pow10Fits(n: nat)
    requires n < TABLE_SIZE
    ensures Pow10(n) < 0x1_0000_0000_0000_0000
  {
    LookupIsPowers();
    Pow10Monotone(n, TABLE_SIZE - 1);
  }

  /** `truncate`: count the digits with the table scan, then divide the excess
      digits away and zero-normalise. */
  method Truncate(num: Float) returns (res: Float)
    requires TruncateFits(num)
    ensures res == Truncation(num)
  {
    ghost var d := NumDigits(num.mantissa);
    NumDigitsBounds(num.mantissa);
    DigitsBelow(num.mantissa, TABLE_SIZE - 1);

    Pow10Fits(PRECISION);
    var maxValue: U64 := Pow10(PRECISION);
    var decValue: U64 := 1;
    var logValue: U8 := 0;

    for i := 0 to 20
      invariant decValue == Pow10(logValue)
      invariant logValue == if i == 0 then 0 else Min(d - 1, i - 1)
    {
      ScanStep(num.mantissa, i);
      if num.mantissa >= LOOKUP[i] {
        decValue := LOOKUP[i];
        logValue := i;
      }
    }
    assert logValue == d - 1;
    Pow10Fits(d);

    decValue := decValue * 10;
    logValue := logValue + 1;
    assert decValue == Pow10(d) && logValue == d;

    res := Float(num.positive, num.mantissa, num.exponent);

    ExcessDivisor(num.mantissa);
    ShortenedMantissa(num.mantissa);
    ghost var excess := Excess(num.mantissa);
    if logValue > PRECISION {
      var k := logValue - PRECISION;
      var diff := decValue / maxValue;
      assert k == excess && diff == Pow10(excess);
      res := Float(num.positive, num.mantissa / diff, num.exponent + k);
    }
    assert res == Float(num.positive, num.mantissa / Pow10(excess), num.exponent + excess);

    if res.mantissa == 0 {
      res := Float(res.positive, 0, BIAS);
    }
  }

  /** With d digits, the excess is d - PRECISION when positive, and the
      scan's 10^d over 10^PRECISION is then the divisor 10^excess. */
  lemma ExcessDivisor(m: nat)
    ensures var d := NumDigits(m);
            && (d > PRECISION ==> Excess(m) == d - PRECISION && Pow10(d) / Pow10(PRECISION) == Pow10(Excess(m)))
            && (d <= PRECISION ==> Excess(m) == 0)
  {
    var d := NumDigits(m);
    if d > PRECISION {
      Pow10Add(d - PRECISION, PRECISION);
      MulDiv(Pow10(d - PRECISION), Pow10(PRECISION));
    }
  }

  /** One comparison of the digit scan: the mantissa reaches the i-th table
      entry exactly when it has more than i digits. */
  lemma ScanStep(m: nat, i: nat)
    requires i < TABLE_SIZE
    ensures LOOKUP[i] == Pow10(i)
    ensures m >= LOOKUP[i] <==> m > 0 && i < NumDigits(m)
  {
    LookupIsPowers();
    if i > 0 {
      DigitsBelow(m, i);
    }
  }

  function Min(a: int, b: int): int
  {
    if a < b then a else b
  }

  /** Truncation rounds toward zero: whatever quotient the magnitude of a
      non-zero f floors, the truncation of f floors it too, at its own
      (coarser) last digit. */
  lemma TruncationFloors(f: Float, num: nat, den: nat)
    requires ExponentFits(f) && f.mantissa > 0
    requires Floors(f, num, den)
    ensures Floors(Truncation(f), num, den)
  {
    var r := Truncation(f);
    var k := Excess(f.mantissa);
    var p, e := Pow10(k), Pow10(f.exponent);
    var q: nat := f.mantissa / p;
    assert r.mantissa == q && r.exponent == f.exponent + k;
    Pow10Add(k, f.exponent);
    assert q * p <= f.mantissa < (q + 1) * p by {
      DivMod(f.mantissa, p);
      MulSuccessor(q, p);
    }
    var lo, hi := Magnitude(r), Magnitude(r) + Pow10(r.exponent);
    assert lo <= Magnitude(f) && Magnitude(f) + e <= hi by {
      ScaledBounds(q, p, e, f.mantissa);
      MulAssociative(q, p, e);
    }
    MulMonotone(lo, Magnitude(f), den);
    MulMonotone(Magnitude(f) + e, hi, den);
  }

  /** A float that is exactly num/den truncates to num/den truncated toward
      zero, zero included. */
  lemma TruncationFloorsExact(f: Float, num: nat, den: nat)
    requires ExponentFits(f) && den > 0 && Magnitude(f) * den == num
    ensures Floors(Truncation(f), num, den)
  {
    ExactFloors(f, num, den);
    if f.mantissa > 0 {
      TruncationFloors(f, num, den);
    } else {
      MulMonotone(1, Pow10(Truncation(f).exponent), den);
    }
  }

  /** q * p <= m < (q + 1) * p survives scaling by e. */
  lemma ScaledBounds(q: nat, p: nat, e: nat, m: nat)
    requires q * p <= m < (q + 1) * p
    ensures (q * p) * e <= m * e
    ensures m * e + e <= (q * p) * e + p * e
  {
    MulMonotone(q * p, m, e);
    MulMonotone(m + 1, (q + 1) * p, e);
    assert (m + 1) * e == m * e + e;
    assert ((q + 1) * p) * e == (q * p) * e + p * e;
  }

  /** In particular the truncation of a non-zero f is its own magnitude
      truncated toward zero. */
  lemma TruncationTowardZero(f: Float)
    requires ExponentFits(f) && f.mantissa > 0
    ensures Magnitude(Truncation(f)) <= Magnitude(f) < Magnitude(Truncation(f)) + Pow10(Truncation(f).exponent)
  {
    TruncationFloors(f, Magnitude(f), 1);
  }

  /** Truncating twice is truncating once. */
  lemma TruncationIdempotent(f: Float)
    requires ExponentFits(f)
    ensures ExponentFits(Truncation(f))
    ensures Truncation(Truncation(f)) == Truncation(f)
  {
    var r := Truncation(f);
    ShortenedMantissa(r.mantissa);
  }

  // ---------------------------------------------------------------------
  // mul_floats
  // ---------------------------------------------------------------------

  /** The product before truncation: mantissas multiplied, exponents added
      with one bias taken off, positive exactly when the signs agree. */
  function ProductRaw(x: Float, y: Float): Float
    requires x.mantissa * y.mantissa < 0x1_0000_0000_0000_0000
    requires BIAS <= x.exponent + y.exponent < 0x100
  {
    Float(x.positive == y.positive, x.mantissa * y.mantissa, x.exponent + y.exponent - BIAS)
  }

  /** `mul_floats` does not panic: the u64 product, the u8 sum of the
      exponents and the subtraction of the bias, and then `truncate`. */
  predicate MultiplyFits(x: Float, y: Float)
  {
    x.mantissa * y.mantissa < 0x1_0000_0000_0000_0000
    && x.exponent + y.exponent < 0x100
    && x.exponent + y.exponent >= BIAS
    && TruncateFits(ProductRaw(x, y))
  }

  /** `mul_floats`. */
  function Multiply(x: Float, y: Float): (r: Float)
    requires MultiplyFits(x, y)
    ensures Canonical(r)
    ensures r.positive == (x.positive == y.positive)
    ensures r.mantissa == 0 <==> x.mantissa == 0 || y.mantissa == 0
  {
    Truncation(ProductRaw(x, y))
  }

  /** A float whose magnitude times den is exactly num is num/den truncated
      at its own last digit. */
  lemma ExactFloors(f: Float, num: nat, den: nat)
    requires den > 0 && Magnitude(f) * den == num
    ensures Floors(f, num, den)
  {
    var m, p := Magnitude(f), Pow10(f.exponent);
    MulDistributes(m, p, den);
    MulMonotone(1, p, den);
  }

  /** Before truncation the product is exact: its value is the product of
      the operands' values (each magnitude carries 10^BIAS, so one such
      factor is left over on the right). */
  lemma ProductExact(x: Float, y: Float)
    requires MultiplyFits(x, y)
    ensures Magnitude(ProductRaw(x, y)) * Pow10(BIAS) == Magnitude(x) * Magnitude(y)
  {
    var raw := ProductRaw(x, y);
    Pow10Add(raw.exponent, BIAS);
    Pow10Add(x.exponent, y.exponent);
    MulAssociative(x.mantissa * y.mantissa, Pow10(raw.exponent), Pow10(BIAS));
    MulRearrange(x.mantissa, y.mantissa, Pow10(x.exponent), Pow10(y.exponent));
  }

  /** `mul_floats` returns the exact product truncated toward zero. */
  lemma MultiplyFloorsProduct(x: Float, y: Float)
    requires MultiplyFits(x, y)
    ensures Floors(Multiply(x, y), Magnitude(x) * Magnitude(y), Pow10(BIAS))
  {
    ProductExact(x, y);
    TruncationFloorsExact(ProductRaw(x, y), Magnitude(x) * Magnitude(y), Pow10(BIAS));
  }

  // ---------------------------------------------------------------------
  // div_floats
  // ---------------------------------------------------------------------

  /** What `div_floats` gives back: a quotient, or the abort of its
      `assert!(y.mantissa > 0)` on a zero divisor. */
  datatype Outcome = Ok(value: Float) | DivisionByZero

  /** The numerator mantissa after the step before the loop: scaled by ten
      when it is below the divisor's mantissa. */
  function DivNumerator(x: Float, y: Float): nat
  {
    if x.mantissa < y.mantissa then 10 * x.mantissa else x.mantissa
  }

  /** The numerator exponent after that step: one lower when the mantissa
      was scaled. */
  function DivExponent(x: Float, y: Float): int
  {
    if x.mantissa < y.mantissa then x.exponent - 1 else x.exponent
  }

  /** The running numerator at the start of step i of the long division of
      start by m2 (`mant1`): start itself, then ten times the previous
      step's remainder. */
  function Running(start: nat, m2: nat, i: nat): nat
    requires m2 > 0
  {
    if i == 0 then start else 10 * (Running(start, m2, i - 1) % m2)
  }

  /** The quotient of the long division of start by m2 to PRECISION digits:
      floor(start * 10^(PRECISION - 1) / m2). */
  function LongQuotient(start: nat, m2: nat): nat
    requires m2 > 0
  {
    start * Pow10(PRECISION - 1) / m2
  }

  /** The seven steps of long division of start by m2 stay within u64: the
      starting numerator, the running numerator computed at the end of each
      step, and the accumulated quotient floor(start * 10^6 / m2). */
  predicate LongDivisionFits(start: nat, m2: nat)
    requires m2 > 0
  {
    start < 0x1_0000_0000_0000_0000
    && (forall i :: 0 < i <= 7 ==> Running(start, m2, i) < 0x1_0000_0000_0000_0000)
    && LongQuotient(start, m2) < 0x1_0000_0000_0000_0000
  }

  /** `div_floats` with a non-zero divisor does not panic before `truncate`:
      the scaling by ten and the exponent decrement, the long division, and
      `100 + exp1 - exp2 - PRECISION + 1` evaluated left to right in u8. */
  predicate DivideStepsFit(x: Float, y: Float)
    requires y.mantissa > 0
  {
    var e1 := DivExponent(x, y);
    LongDivisionFits(DivNumerator(x, y), y.mantissa)
    && e1 >= 0
    && BIAS + e1 < 0x100
    && BIAS + e1 >= y.exponent + PRECISION
  }

  /** The quotient before truncation: seven decimal digits of long division,
      that is floor(numerator * 10^6 / divisor), at the exponent
      `100 + exp1 - exp2 - PRECISION + 1`. */
  function QuotientRaw(x: Float, y: Float): Float
    requires y.mantissa > 0 && DivideStepsFit(x, y)
  {
    var m1, e1 := DivNumerator(x, y), DivExponent(x, y);
    assert LongDivisionFits(m1, y.mantissa) && 0 <= e1 && BIAS + e1 < 0x100;
    Float(x.positive == y.positive,
          LongQuotient(m1, y.mantissa),
          BIAS + e1 - y.exponent - PRECISION + 1)
  }

  predicate DivideFits(x: Float, y: Float)
    requires y.mantissa > 0
  {
    DivideStepsFit(x, y) && TruncateFits(QuotientRaw(x, y))
  }

  /** `div_floats`, with the abort on a zero divisor as an outcome. */
  function Quotient(x: Float, y: Float): (r: Outcome)
    requires y.mantissa > 0 ==> DivideFits(x, y)
    ensures r.DivisionByZero? <==> y.mantissa == 0
    ensures r.Ok? ==> Canonical(r.value) && r.value.positive == (x.positive == y.positive)
  {
    if y.mantissa == 0 then DivisionByZero else Ok(Truncation(QuotientRaw(x, y)))
  }

  /** The quotient accumulated by the first i steps: the digit of step j is
      the running numerator over m2, and it is added at weight 10^(6 - j). */
  function Accumulated(start: nat, m2: nat, i: nat): nat
    requires m2 > 0 && i <= 7
  {
    if i == 0 then 0
    else
      var digit: nat := Running(start, m2, i - 1) / m2;
      MulMonotone(0, digit, Pow10(7 - i));
      Accumulated(start, m2, i - 1) + digit * Pow10(7 - i)
  }

  /** The running numerator at step i leaves the remainder of start * 10^i
      modulo m2: each step carries exactly the remainder of long division. */
  lemma {:induction false} RunningRemainder(start: nat, m2: nat, i: nat)
    requires m2 > 0
    ensures Running(start, m2, i) % m2 == start * Pow10(i) % m2
  {
    if i > 0 {
      RunningRemainder(start, m2, i - 1);
      var s := start * Pow10(i - 1);
      assert Running(start, m2, i) == 10 * (s % m2);
      ModTimesTen(s, m2);
      MulAssociative(10, start, Pow10(i - 1));
      MulAssociative(start, 10, Pow10(i - 1));
    }
  }

  /** The bookkeeping of the long division: ten times the accumulated
      quotient times the divisor, plus the running numerator at its
      remaining weight, is always start * 10^7. */
  lemma {:induction false} AccumulatedIdentity(start: nat, m2: nat, i: nat)
    requires m2 > 0 && i <= 7
    ensures 10 * Accumulated(start, m2, i) * m2 + Running(start, m2, i) * Pow10(7 - i) == start * Pow10(7)
  {
    if i > 0 {
      AccumulatedIdentity(start, m2, i - 1);
      var a, run := Accumulated(start, m2, i - 1), Running(start, m2, i - 1);
      var d, r, w := run / m2, run % m2, Pow10(7 - i);
      DivMod(run, m2);
      assert Running(start, m2, i) == 10 * r;
      assert Pow10(7 - (i - 1)) == 10 * w;
      LongStepArithmetic(a, d, r, w, m2, run);
    }
  }

  /** Every partial quotient is at most the final one, floor(start * 10^6 / m2),
      which the seventh step reaches. */
  lemma AccumulatedQuotient(start: nat, m2: nat, i: nat)
    requires m2 > 0 && i <= 7
    ensures Accumulated(start, m2, i) <= LongQuotient(start, m2)
    ensures i == 7 ==> Accumulated(start, m2, i) == LongQuotient(start, m2)
  {
    AccumulatedIdentity(start, m2, i);
    var a := Accumulated(start, m2, i);
    assert Pow10(7) == 10 * Pow10(6);
    MulAssociative(10, start, Pow10(6));
    MulAssociative(10, a, m2);
    MulCancel(a * m2, start * Pow10(6), 10);
    DivBounds(a, m2, start * Pow10(6));
    if i == 7 {
      var r := Running(start, m2, 6) % m2;
      assert Running(start, m2, 7) == 10 * r;
      assert 10 * (a * m2 + r) == 10 * (start * Pow10(6));
      DivModUnique(start * Pow10(6), m2, a, r);
    }
  }

  /** Everything one pass of the division loop needs: the digit, the next
      running numerator and the accumulated quotient all fit in a u64, and
      the loop body advances both by one step. */
  lemma DivideStep(start: nat, m2: nat, i: nat)
    requires m2 > 0 && LongDivisionFits(start, m2) && i < 7
    ensures var run := Running(start, m2, i);
            && 0 <= run / m2 < 0x1_0000_0000_0000_0000
            && (run - m2 * (run / m2)) * 10 == Running(start, m2, i + 1)
            && Running(start, m2, i + 1) < 0x1_0000_0000_0000_0000
            && Accumulated(start, m2, i + 1) == Accumulated(start, m2, i) + run / m2 * Pow10(6 - i)
            && Accumulated(start, m2, i + 1) < 0x1_0000_0000_0000_0000
  {
    var run := Running(start, m2, i);
    assert run < 0x1_0000_0000_0000_0000;
    assert Running(start, m2, i + 1) < 0x1_0000_0000_0000_0000;
    DivMod(run, m2);
    AccumulatedQuotient(start, m2, i + 1);
  }

  /** The loop of `div_floats`: seven steps of decimal long division of
      start by m2, each adding the digit running / m2 at weight
      10^(PRECISION - 1 - i) and carrying ten times the remainder on. */
  method LongDivision(start: U64, m2: U64) returns (q: U64)
    requires m2 > 0 && LongDivisionFits(start, m2)
    ensures q == LongQuotient(start, m2)
  {
    var mant1: U64 := start;
    q := 0;
    for i := 0 to 7
      invariant mant1 == Running(start, m2, i)
      invariant q == Accumulated(start, m2, i)
    {
      DivideStep(start, m2, i);
      var div: U64 := mant1 / m2;
      mant1 := (mant1 - m2 * div) * 10;

      var exp: U8 := PRECISION - i - 1;
      Pow10Fits(exp);
      var pow: U64 := Pow10(exp);
      q := q + div * pow;
    }
    AccumulatedQuotient(start, m2, 7);
  }

  /** `div_floats`: the numerator is scaled once if below the divisor, then
      long division yields PRECISION quotient digits, and the result is
      truncated. */
  method Divide(x: Float, y: Float) returns (r: Outcome)
    requires y.mantissa > 0 ==> DivideFits(x, y)
    ensures r == Quotient(x, y)
  {
    if y.mantissa == 0 {
      return DivisionByZero;
    }

    var exp1: U8 := x.exponent;
    var mant1: U64 := x.mantissa;
    var exp2: U8 := y.exponent;
    var mant2: U64 := y.mantissa;

    if mant1 < mant2 {
      mant1 := mant1 * 10;
      exp1 := exp1 - 1;
    }
    assert mant1 == DivNumerator(x, y) && exp1 == DivExponent(x, y);
    var newMant := LongDivision(mant1, mant2);

    var newExp: U8 := BIAS + exp1;
    newExp := newExp - exp2;
    newExp := newExp - PRECISION;
    newExp := newExp + 1;

    var newPositive: bool := true;
    if x.positive != y.positive {
      newPositive := false;
    }

    var res := Float(newPositive, newMant, newExp);
    assert res == QuotientRaw(x, y);
    var resTrun := Truncate(res);
    r := Ok(resTrun);
  }

  /** Magnitude of the numerator is unchanged by the pre-loop scaling. */
  lemma DivNumeratorMagnitude(x: Float, y: Float)
    requires DivExponent(x, y) >= 0
    ensures DivNumerator(x, y) * Pow10(DivExponent(x, y)) == Magnitude(x)
  {
    if x.mantissa < y.mantissa {
      var e1: nat := DivExponent(x, y);
      assert Pow10(x.exponent) == 10 * Pow10(e1);
      MulAssociative(10, x.mantissa, Pow10(e1));
      MulAssociative(x.mantissa, 10, Pow10(e1));
    }
  }

  /** A float whose mantissa is the floor quotient n / d.mantissa truncates
      n * 10^(r.exponent + d.exponent) divided by d's magnitude. */
  lemma ScaledQuotientFloors(r: Float, d: Float, n: nat)
    requires d.mantissa > 0 && r.mantissa == n / d.mantissa
    ensures Floors(r, n * Pow10(r.exponent + d.exponent), Magnitude(d))
  {
    var q: nat, m2: nat := r.mantissa, d.mantissa;
    var pr, py := Pow10(r.exponent), Pow10(d.exponent);
    var t := pr * py;
    var lo, hi: nat := q * m2, (q + 1) * m2;
    assert lo <= n < hi by {
      DivBounds(q + 1, m2, n);
    }
    ScaleBounds(lo, n, hi, t);
    assert Magnitude(r) * Magnitude(d) == lo * t by {
      MulRearrange(q, pr, m2, py);
    }
    assert (Magnitude(r) + pr) * Magnitude(d) == hi * t by {
      MulSuccessor(q, pr);
      MulRearrange(q + 1, pr, m2, py);
    }
    Pow10Add(r.exponent, d.exponent);
  }

  /** The raw quotient is the exact quotient truncated toward zero at its last digit. */
  lemma QuotientRawFloors(x: Float, y: Float)
    requires y.mantissa > 0 && DivideStepsFit(x, y)
    ensures Floors(QuotientRaw(x, y), Magnitude(x) * Pow10(BIAS), Magnitude(y))
  {
    var raw := QuotientRaw(x, y);
    var m1, e1: nat := DivNumerator(x, y), DivExponent(x, y);
    var n := m1 * Pow10(PRECISION - 1);
    ScaledQuotientFloors(raw, y, n);
    assert Magnitude(x) * Pow10(BIAS) == n * Pow10(raw.exponent + y.exponent) by {
      DivNumeratorMagnitude(x, y);
      ShiftTwice(m1, e1, BIAS);
      ShiftTwice(m1, PRECISION - 1, raw.exponent + y.exponent);
      assert PRECISION - 1 + (raw.exponent + y.exponent) == e1 + BIAS;
    }
  }

  /** `div_floats` returns the exact quotient truncated toward zero whenever
      the numerator is zero or the quotient is not; in particular whenever
      the numerator is zero or the divisor has at most PRECISION digits. */
  lemma QuotientFloors(x: Float, y: Float)
    requires y.mantissa > 0 && DivideFits(x, y)
    ensures x.mantissa == 0 || Quotient(x, y).value.mantissa > 0 ==>
              Floors(Quotient(x, y).value, Magnitude(x) * Pow10(BIAS), Magnitude(y))
    ensures x.mantissa == 0 || y.mantissa < Pow10(PRECISION) ==>
              Floors(Quotient(x, y).value, Magnitude(x) * Pow10(BIAS), Magnitude(y))
  {
    var raw := QuotientRaw(x, y);
    if x.mantissa == 0 {
      assert raw.mantissa == 0;
      ZeroMagnitude(y);
      TruncationFloorsExact(raw, Magnitude(x) * Pow10(BIAS), Magnitude(y));
    } else {
      if y.mantissa < Pow10(PRECISION) {
        QuotientNonZero(x, y);
      }
      if Quotient(x, y).value.mantissa > 0 {
        QuotientRawFloors(x, y);
        TruncationFloors(raw, Magnitude(x) * Pow10(BIAS), Magnitude(y));
      }
    }
  }

  /** A non-zero numerator over a divisor of at most PRECISION digits has a
      non-zero quotient. */
  lemma QuotientNonZero(x: Float, y: Float)
    requires 0 < y.mantissa < Pow10(PRECISION) && DivideFits(x, y)
    requires x.mantissa > 0
    ensures Quotient(x, y).value.mantissa > 0
  {
    var m1, p := DivNumerator(x, y), Pow10(PRECISION - 1);
    assert 10 <= m1 || y.mantissa <= m1;
    assert Pow10(PRECISION) == 10 * p;
    if y.mantissa <= m1 {
      MulMonotone(1, m1, p);
    } else {
      MulMonotone(10, m1, p);
    }
    DivBounds(1, y.mantissa, m1 * p);
  }

  /** The first quotient digit exceeds 9, so that the raw quotient has more
      than PRECISION digits and `truncate` shortens it, exactly when the
      numerator mantissa is at least ten times the divisor's. The raw
      quotient has at least PRECISION digits exactly when the divisor's
      mantissa is at most ten times the numerator's: the single scaling by
      ten before the loop cannot make up a larger gap, and the quotient then
      has fewer significant digits. */
  lemma QuotientRawDigits(x: Float, y: Float)
    requires y.mantissa > 0 && DivideStepsFit(x, y)
    ensures QuotientRaw(x, y).mantissa >= Pow10(PRECISION) <==> x.mantissa >= 10 * y.mantissa
    ensures Pow10(PRECISION - 1) <= QuotientRaw(x, y).mantissa <==> y.mantissa <= 10 * x.mantissa
  {
    var m1: nat, m2: nat := DivNumerator(x, y), y.mantissa;
    var p := Pow10(PRECISION - 1);
    assert Pow10(PRECISION) == 10 * p;
    DivAtLeast(m1 * p, m2, 10 * p);
    MulSwapRight(10, p, m2);
    MulCancel(10 * m2, m1, p);
    DivAtLeast(m1 * p, m2, p);
    MulCancel(m2, m1, p);
  }

  /** One significant digit: 1 / 3 is 0.3, because the numerator mantissa 1
      is scaled only to 10 before the long division by 3000000. */
  lemma QuotientFewDigits()
    ensures DivideFits(Float(true, 1, 100), Float(true, 3000000, 94))
    ensures Quotient(Float(true, 1, 100), Float(true, 3000000, 94)) == Ok(Float(true, 3, 99))
  {
    var x, y := Float(true, 1, 100), Float(true, 3000000, 94);
    assert Running(10, 3000000, 1) == 100;
    assert Running(10, 3000000, 2) == 1000;
    assert Running(10, 3000000, 3) == 10000;
    assert Running(10, 3000000, 4) == 100000;
    assert Running(10, 3000000, 5) == 1000000;
    assert Running(10, 3000000, 6) == 10000000;
    assert Running(10, 3000000, 7) == 10000000;
    LookupIsPowers();
    assert LongQuotient(10, 3000000) == 3;
    assert QuotientRaw(x, y) == Float(true, 3, 99);
  }

  /** A divisor mantissa beyond PRECISION digits can make the quotient zero:
      10^50 / 10^8 gives zero, not 10^42. */
  lemma QuotientVanishes()
    ensures DivideFits(Float(true, 1, 150), Float(true, 100000000, 100))
    ensures Quotient(Float(true, 1, 150), Float(true, 100000000, 100)) == Ok(Float(true, 0, 100))
  {
    var x, y := Float(true, 1, 150), Float(true, 100000000, 100);
    assert Running(10, 100000000, 1) == 100;
    assert Running(10, 100000000, 2) == 1000;
    assert Running(10, 100000000, 3) == 10000;
    assert Running(10, 100000000, 4) == 100000;
    assert Running(10, 100000000, 5) == 1000000;
    assert Running(10, 100000000, 6) == 10000000;
    assert Running(10, 100000000, 7) == 100000000;
    LookupIsPowers();
    assert LongQuotient(10, 100000000) == 0;
    assert QuotientRaw(x, y) == Float(true, 0, 143);
  }

  /** Dividing m by itself leaves no remainder after the first step. */
  lemma {:induction false} RunningSelf(m: nat, i: nat)
    requires m > 0 && i > 0
    ensures Running(m, m, i) == 0
  {
    if i > 1 {
      RunningSelf(m, i - 1);
      DivModUnique(0, m, 0, 0);
    } else {
      DivModUnique(m, m, 1, 0);
    }
  }

  /** Dividing a non-zero number by itself gives one, written with
      PRECISION digits: mantissa 10^6 at exponent BIAS - 6. */
  lemma DivideBySelf(f: Float)
    requires f.mantissa > 0 && f.exponent <= 0xFF - BIAS
    ensures DivideFits(f, f)
    ensures Quotient(f, f) == Ok(Float(true, 1000000, 94))
  {
    forall i | 0 < i <= 7
      ensures Running(f.mantissa, f.mantissa, i) == 0
    {
      RunningSelf(f.mantissa, i);
    }
    MulDiv(Pow10(PRECISION - 1), f.mantissa);
    LookupIsPowers();
    assert Pow10(PRECISION - 1) == LOOKUP[6] == 1000000;
    assert QuotientRaw(f, f) == Float(true, 1000000, 94);
  }

  // ---------------------------------------------------------------------
  // add_floats and sub_floats
  // ---------------------------------------------------------------------

  /** The distance between the exponents, `diff` in the source. */
  function ExponentGap(x: Float, y: Float): nat
  {
    if x.exponent > y.exponent then x.exponent - y.exponent else y.exponent - x.exponent
  }

  /** Both operands are aligned to the smaller exponent. */
  function AlignedExponent(x: Float, y: Float): U8
  {
    if x.exponent < y.exponent then x.exponent else y.exponent
  }

  /** x's mantissa scaled to the aligned exponent (`mant_1`). */
  function AlignedLeft(x: Float, y: Float): nat
  {
    if x.exponent < y.exponent then x.mantissa else x.mantissa * Pow10(ExponentGap(x, y))
  }

  /** y's mantissa scaled to the aligned exponent (`mant_2`). */
  function AlignedRight(x: Float, y: Float): nat
  {
    if x.exponent < y.exponent then y.mantissa * Pow10(ExponentGap(x, y)) else y.mantissa
  }

  /** The alignment does not panic: 10^diff fits in a u64 (diff is at most
      19), and so does the sum of the aligned mantissas, which the source
      computes before it looks at the signs (it bounds the scaled mantissa
      too). */
  predicate AddAligns(x: Float, y: Float)
  {
    ExponentGap(x, y) < TABLE_SIZE
    && AlignedLeft(x, y) + AlignedRight(x, y) < 0x1_0000_0000_0000_0000
  }

  /** The sum before truncation: for equal signs the aligned mantissas are
      added under the common sign; otherwise the smaller is taken from the
      larger, with x's sign when x's aligned mantissa is strictly larger and
      y's sign otherwise (a tie gives a zero with y's sign). */
  function SumRaw(x: Float, y: Float): Float
    requires AddAligns(x, y)
  {
    var m1, m2, e := AlignedLeft(x, y), AlignedRight(x, y), AlignedExponent(x, y);
    if x.positive != y.positive then
      if m1 > m2 then Float(x.positive, m1 - m2, e) else Float(y.positive, m2 - m1, e)
    else
      Float(x.positive, m1 + m2, e)
  }

  /** `add_floats` does not panic: the alignment, then `truncate`. */
  predicate AddFits(x: Float, y: Float)
  {
    AddAligns(x, y) && TruncateFits(SumRaw(x, y))
  }

  /** `add_floats`. */
  function Add(x: Float, y: Float): (r: Float)
    requires AddFits(x, y)
    ensures Canonical(r)
  {
    Truncation(SumRaw(x, y))
  }

  /** Each aligned mantissa at the aligned exponent has its operand's magnitude. */
  lemma AlignedExact(x: Float, y: Float)
    ensures AlignedLeft(x, y) * Pow10(AlignedExponent(x, y)) == Magnitude(x)
    ensures AlignedRight(x, y) * Pow10(AlignedExponent(x, y)) == Magnitude(y)
  {
    var g := ExponentGap(x, y);
    if x.exponent < y.exponent {
      ShiftTwice(y.mantissa, g, x.exponent);
    } else {
      ShiftTwice(x.mantissa, g, y.exponent);
    }
  }

  /** Before truncation the sum is exact. */
  lemma SumExact(x: Float, y: Float)
    requires AddAligns(x, y)
    ensures Scaled(SumRaw(x, y)) == Scaled(x) + Scaled(y)
  {
    var raw := SumRaw(x, y);
    var m1, m2, p := AlignedLeft(x, y), AlignedRight(x, y), Pow10(AlignedExponent(x, y));
    AlignedExact(x, y);
    assert Magnitude(raw) == raw.mantissa * p;
    if x.positive != y.positive {
      if m1 > m2 {
        assert raw.mantissa == m1 - m2;
        MulDistributes(m1 - m2, m2, p);
      } else {
        assert raw.mantissa == m2 - m1;
        MulDistributes(m2 - m1, m1, p);
      }
    } else {
      assert raw.mantissa == m1 + m2;
      MulDistributes(m1, m2, p);
    }
  }

  /** `add_floats` returns the exact sum truncated toward zero: a non-zero
      sum gives its sign and a magnitude at most one unit of the result's
      last digit below the sum's; a zero sum gives a zero mantissa. */
  lemma AddTruncatesSum(x: Float, y: Float)
    requires AddFits(x, y)
    ensures var s := Scaled(x) + Scaled(y);
            && (s != 0 ==> Floors(Add(x, y), Abs(s), 1) && Add(x, y).positive == (s > 0))
            && (s == 0 ==> Add(x, y).mantissa == 0)
  {
    var raw := SumRaw(x, y);
    SumExact(x, y);
    var s := Scaled(x) + Scaled(y);
    assert Magnitude(raw) == Abs(s) && (s > 0 ==> raw.positive) && (s < 0 ==> !raw.positive);
    if s == 0 {
      ZeroMagnitude(raw);
    } else {
      TruncationFloorsExact(raw, Abs(s), 1);
    }
  }

  /** Only a zero mantissa has magnitude zero. */
  lemma ZeroMagnitude(f: Float)
    ensures Magnitude(f) == 0 <==> f.mantissa == 0
  {
    if f.mantissa > 0 {
      MulMonotone(1, f.mantissa, Pow10(f.exponent));
    }
  }

  /** Addition commutes except on an exact cancellation between operands of
      opposite signs, where the zero takes the sign of the second operand. */
  lemma AddCommutes(x: Float, y: Float)
    requires AddFits(x, y)
    ensures AddFits(y, x)
    ensures Add(x, y) == Add(y, x) <==> x.positive == y.positive || Scaled(x) + Scaled(y) != 0
    ensures x.positive != y.positive && Scaled(x) + Scaled(y) == 0 ==> Add(x, y) == Float(y.positive, 0, BIAS)
  {
    AlignedExact(x, y);
    AlignedExact(y, x);
    var m1, m2 := AlignedLeft(x, y), AlignedRight(x, y);
    assert AlignedLeft(y, x) == m2 && AlignedRight(y, x) == m1;
    SumExact(x, y);
    if x.positive != y.positive && m1 == m2 {
      assert SumRaw(x, y) == Float(y.positive, 0, AlignedExponent(x, y));
      assert SumRaw(y, x) == Float(x.positive, 0, AlignedExponent(x, y));
    } else {
      assert SumRaw(x, y) == SumRaw(y, x);
      if x.positive != y.positive {
        MulCancel(m1, m2, Pow10(AlignedExponent(x, y)));
        MulCancel(m2, m1, Pow10(AlignedExponent(x, y)));
      }
    }
  }

  /** The operand `sub_floats` hands to `add_floats`: the sign flipped,
      mantissa and exponent untouched. */
  function Negate(f: Float): (r: Float)
    ensures Scaled(r) == -Scaled(f)
    ensures Magnitude(r) == Magnitude(f) && r.positive != f.positive
  {
    Float(!f.positive, f.mantissa, f.exponent)
  }

  /** `sub_floats`. */
  function Subtract(x: Float, y: Float): (r: Float)
    requires AddFits(x, Negate(y))
    ensures Canonical(r)
  {
    Add(x, Negate(y))
  }

  /** `sub_floats` returns the exact difference truncated toward zero. */
  lemma SubtractTruncatesDifference(x: Float, y: Float)
    requires AddFits(x, Negate(y))
    ensures var s := Scaled(x) - Scaled(y);
            && (s != 0 ==> Floors(Subtract(x, y), Abs(s), 1) && Subtract(x, y).positive == (s > 0))
            && (s == 0 ==> Subtract(x, y).mantissa == 0)
  {
    AddTruncatesSum(x, Negate(y));
  }

  /** A number minus itself is a zero carrying the flipped sign: subtracting
      a positive number from itself gives negative zero. */
  lemma SubtractSelf(x: Float)
    requires 2 * x.mantissa < 0x1_0000_0000_0000_0000
    ensures AddFits(x, Negate(x))
    ensures Subtract(x, x) == Float(!x.positive, 0, BIAS)
  {
    assert Pow10(0) == 1;
    assert SumRaw(x, Negate(x)) == Float(!x.positive, 0, x.exponent);
  }

  // ---------------------------------------------------------------------
  // relu
  // ---------------------------------------------------------------------

  /** `relu`: a number flagged negative becomes the zero {true, 0, 100};
      any other number comes back as it is, without truncation. */
  function Relu(f: Float): (r: Float)
    ensures Scaled(r) == if Scaled(f) > 0 then Scaled(f) else 0
    ensures r.positive
    ensures f.positive ==> r == f
    ensures !f.positive ==> r == ZERO
    ensures Canonical(f) ==> Canonical(r)
  {
    if f.positive == false then ZERO else f
  }

  /** Applying `relu` twice is applying it once. */
  lemma ReluIdempotent(f: Float)
    ensures Relu(Relu(f)) == Relu(f)
  {
  }
}
