/** Powers of ten, decimal digit counts and the few facts about floor
    division that the float model needs, all over unbounded naturals. */
module Decimal {

  /** 10^n. */
  function Pow10(n: nat): (r: nat)
    ensures r >= 1
  {
    if n == 0 then 1 else 10 * Pow10(n - 1)
  }

  lemma {:induction false} Pow10Add(a: nat, b: nat)
    ensures Pow10(a + b) == Pow10(a) * Pow10(b)
  {
    if a > 0 {
      Pow10Add(a - 1, b);
      calc {
        Pow10(a + b);
        10 * Pow10(a - 1 + b);
        10 * (Pow10(a - 1) * Pow10(b));
        (10 * Pow10(a - 1)) * Pow10(b);
      }
    }
  }

  lemma {:induction false} Pow10Monotone(a: nat, b: nat)
    requires a <= b
    ensures Pow10(a) <= Pow10(b)
    ensures a < b ==> 10 * Pow10(a) <= Pow10(b)
  {
    if a < b {
      Pow10Monotone(a, b - 1);
    }
  }

  /** Number of decimal digits of m; zero is written with one digit. */
  function NumDigits(m: nat): (d: nat)
    ensures d >= 1
  {
    if m < 10 then 1 else 1 + NumDigits(m / 10)
  }

  /** A d-digit number lies in [10^(d-1), 10^d). */
  lemma {:induction false} NumDigitsBounds(m: nat)
    ensures m < Pow10(NumDigits(m))
    ensures m > 0 ==> Pow10(NumDigits(m) - 1) <= m
  {
    if m >= 10 {
      NumDigitsBounds(m / 10);
    }
  }

  /** m has at most k digits exactly when it is below 10^k. */
  lemma DigitsBelow(m: nat, k: nat)
    requires k >= 1
    ensures NumDigits(m) <= k <==> m < Pow10(k)
  {
    NumDigitsBounds(m);
    var d := NumDigits(m);
    if d <= k {
      Pow10Monotone(d, k);
    } else {
      Pow10Monotone(k, d - 1);
    }
  }

  /** The digit count is the unique d with 10^(d-1) <= m < 10^d. */
  lemma DigitsExactly(m: nat, d: nat)
    requires d >= 1 && Pow10(d - 1) <= m < Pow10(d)
    ensures NumDigits(m) == d
  {
    DigitsBelow(m, d);
    if d > 1 {
      DigitsBelow(m, d - 1);
    }
  }

  lemma MulMonotone(x: nat, y: nat, b: nat)
    requires x <= y
    ensures x * b <= y * b
  {
  }

  lemma MulDistributes(a: nat, b: nat, p: nat)
    ensures (a + b) * p == a * p + b * p
  {
  }

  lemma MulAssociative(a: nat, b: nat, c: nat)
    ensures a * (b * c) == (a * b) * c
  {
  }

  lemma MulSuccessor(a: nat, b: nat)
    ensures (a + 1) * b == a * b + b
  {
  }

  lemma MulSwapRight(a: nat, b: nat, c: nat)
    ensures (a * b) * c == (a * c) * b
  {
    MulAssociative(a, b, c);
    MulAssociative(a, c, b);
  }

  lemma MulRearrange(a: nat, b: nat, c: nat, d: nat)
    ensures (a * b) * (c * d) == (a * c) * (b * d)
  {
    calc {
      (a * b) * (c * d);
      { MulAssociative(a * b, c, d); }
      ((a * b) * c) * d;
      { MulAssociative(a, b, c); MulAssociative(a, c, b); }
      ((a * c) * b) * d;
      { MulAssociative(a * c, b, d); }
      (a * c) * (b * d);
    }
  }

  /** The defining equation of floor division, in the forms the model uses. */
  lemma DivMod(a: nat, b: nat)
    requires b > 0
    ensures a == (a / b) * b + a % b && a % b < b
    ensures b * (a / b) <= a && a - b * (a / b) == a % b
    ensures 0 <= a / b <= a
  {
    MulMonotone(1, b, a / b);
  }

  /** One long-division step in the bookkeeping of ten-times-weights. */
  lemma LongStepArithmetic(a: nat, d: nat, r: nat, w: nat, m2: nat, run: nat)
    requires run == d * m2 + r
    ensures 10 * (a + d * w) * m2 + (10 * r) * w == 10 * a * m2 + run * (10 * w)
  {
    calc {
      10 * (a + d * w) * m2 + (10 * r) * w;
      10 * a * m2 + 10 * (d * w) * m2 + (10 * r) * w;
      { MulSwapRight(d, w, m2); MulAssociative(10, d * w, m2); MulAssociative(10, d * m2, w); }
      10 * a * m2 + 10 * (d * m2) * w + (10 * r) * w;
      10 * a * m2 + (10 * (d * m2) + 10 * r) * w;
      10 * a * m2 + (10 * run) * w;
      { MulAssociative(10, run, w); MulSwapRight(10, run, w); }
      10 * a * m2 + run * (10 * w);
    }
  }

  /** Floor division is determined by a remainder below the divisor. */
  lemma DivModUnique(a: nat, b: nat, q: nat, r: nat)
    requires b > 0 && a == q * b + r && r < b
    ensures a / b == q && a % b == r
  {
    var q', r' := a / b, a % b;
    assert a == q' * b + r';
    if q' < q {
      MulMonotone(q' + 1, q, b);
    } else if q < q' {
      MulMonotone(q + 1, q', b);
    }
  }

  /** A product with the divisor can be divided back out. */
  lemma MulDiv(a: nat, b: nat)
    requires b > 0
    ensures (a * b) / b == a
  {
    DivModUnique(a * b, b, a, 0);
  }

  /** a * b <= c gives a <= c / b, and c < a * b gives c / b < a. */
  lemma DivBounds(a: nat, b: nat, c: nat)
    requires b > 0
    ensures a * b <= c ==> a <= c / b
    ensures c < a * b ==> c / b < a
  {
    var q := c / b;
    assert c == q * b + c % b;
    if a <= q {
      MulMonotone(a, q, b);
    } else {
      MulMonotone(q + 1, a, b);
    }
  }

  /** The floor quotient reaches k exactly when the dividend reaches k times the divisor. */
  lemma DivAtLeast(n: nat, d: nat, k: nat)
    requires d > 0
    ensures n / d >= k <==> n >= k * d
  {
    DivBounds(k, d, n);
  }

  /** A positive factor can be cancelled from both sides of an inequality. */
  lemma MulCancel(a: nat, b: nat, p: nat)
    requires p > 0
    ensures a * p <= b * p <==> a <= b
  {
    if a <= b {
      MulMonotone(a, b, p);
    } else {
      MulMonotone(b + 1, a, p);
    }
  }

  /** Shifting by i decimal places and then by j is shifting by i + j. */
  lemma ShiftTwice(a: nat, i: nat, j: nat)
    ensures (a * Pow10(i)) * Pow10(j) == a * Pow10(i + j)
  {
    Pow10Add(i, j);
    MulAssociative(a, Pow10(i), Pow10(j));
  }

  /** Scaling lo <= n < hi by a positive t keeps both bounds. */
  lemma ScaleBounds(lo: nat, n: nat, hi: nat, t: nat)
    requires lo <= n < hi && t >= 1
    ensures lo * t <= n * t < hi * t
  {
    MulMonotone(lo, n, t);
    MulMonotone(n + 1, hi, t);
  }

  /** Taking the remainder before scaling by ten does not change the remainder after. */
  lemma ModTimesTen(a: nat, n: nat)
    requires n > 0
    ensures (10 * (a % n)) % n == (10 * a) % n
  {
    var r := 10 * (a % n);
    var q, s := r / n, r % n;
    assert r == q * n + s;
    assert 10 * a == (10 * (a / n) + q) * n + s;
    DivModUnique(10 * a, n, 10 * (a / n) + q, s);
  }
}
