/** Exact compound-growth arithmetic over `real`.
    Every formula of the engine is a closed form in (1 + i)^n for a whole number n of
    months, so a power with a natural exponent and the geometric sum
    1 + g + ... + g^(n-1) are all the arithmetic the model needs. */
module Compound {

  /** x^n for a natural exponent n. */
  function Pow(x: real, n: nat): real
  {
    if n == 0 then 1.0 else x * Pow(x, n - 1)
  }

  /** 1 + g + g^2 + ... + g^(n-1), unrolled as 1 + g * (1 + g * (...)), which is how
      a month-by-month schedule unrolls. */
  function GeomSum(g: real, n: nat): real
  {
    if n == 0 then 0.0 else 1.0 + g * GeomSum(g, n - 1)
  }

  lemma {:induction false} PowPositive(x: real, n: nat)
    requires x > 0.0
    ensures Pow(x, n) > 0.0
  {
    if n > 0 {
      PowPositive(x, n - 1);
    }
  }

  /** Powers of a factor at least one are at least one, and strictly above one
      for a factor above one and a positive exponent. */
  lemma {:induction false} PowAtLeastOne(x: real, n: nat)
    requires x >= 1.0
    ensures Pow(x, n) >= 1.0
    ensures x > 1.0 && n > 0 ==> Pow(x, n) > 1.0
  {
    if n > 0 {
      PowAtLeastOne(x, n - 1);
    }
  }

  lemma MulMonotone(a: real, b: real, c: real, d: real)
    requires 0.0 <= a <= b && 0.0 <= c <= d
    ensures a * c <= b * d
  {
    assert a * c <= b * c;
    assert b * c <= b * d;
  }

  /** The geometric-series identity (g - 1) * (1 + g + ... + g^(n-1)) = g^n - 1. */
  lemma {:induction false} GeomSumClosedForm(g: real, n: nat)
    ensures (g - 1.0) * GeomSum(g, n) == Pow(g, n) - 1.0
  {
    if n > 0 {
      GeomSumClosedForm(g, n - 1);
      GeomSumStepAlgebra(g, GeomSum(g, n - 1), Pow(g, n - 1), GeomSum(g, n), Pow(g, n));
    }
  }

  /** One more term: from (g - 1) * s == p - 1, with s' = 1 + g * s and p' = g * p,
      (g - 1) * s' == p' - 1. */
  lemma GeomSumStepAlgebra(g: real, s: real, p: real, s': real, p': real)
    requires (g - 1.0) * s == p - 1.0 && s' == 1.0 + g * s && p' == g * p
    ensures (g - 1.0) * s' == p' - 1.0
  {
    assert (g - 1.0) * s' == (g - 1.0) + g * ((g - 1.0) * s);
  }

  lemma {:induction false} PowOfOne(n: nat)
    ensures Pow(1.0, n) == 1.0
  {
    if n > 0 {
      PowOfOne(n - 1);
    }
  }

  /** At growth factor one the sum is just the number of terms. */
  lemma {:induction false} GeomSumAtOne(n: nat)
    ensures GeomSum(1.0, n) == n as real
  {
    if n > 0 {
      GeomSumAtOne(n - 1);
    }
  }

  /** For a positive factor the sum of n >= 1 terms is at least its first term, 1. */
  lemma {:induction false} GeomSumPositive(g: real, n: nat)
    requires g > 0.0
    ensures GeomSum(g, n) >= 0.0
    ensures n > 0 ==> GeomSum(g, n) >= 1.0
  {
    if n > 0 {
      GeomSumPositive(g, n - 1);
      assert g * GeomSum(g, n - 1) >= 0.0;
    }
  }

  /** The sum is monotone in the factor on the positive reals. */
  lemma {:induction false} GeomSumMonotone(g: real, h: real, n: nat)
    requires 0.0 < g <= h
    ensures GeomSum(g, n) <= GeomSum(h, n)
  {
    if n > 0 {
      GeomSumMonotone(g, h, n - 1);
      GeomSumPositive(g, n - 1);
      MulMonotone(g, h, GeomSum(g, n - 1), GeomSum(h, n - 1));
    }
  }

  /** For g >= 1 each of the n terms is at most g^n, so the sum is at most n * g^n;
      the bound is strict once g > 1 and n >= 1. */
  lemma {:induction false} GeomSumBound(g: real, n: nat)
    requires g >= 1.0
    ensures GeomSum(g, n) <= n as real * Pow(g, n)
    ensures g > 1.0 && n > 0 ==> GeomSum(g, n) < n as real * Pow(g, n)
  {
    if n > 0 {
      GeomSumBound(g, n - 1);
      PowAtLeastOne(g, n);
      var s, p := GeomSum(g, n - 1), Pow(g, n - 1);
      assert g * s <= g * ((n - 1) as real * p);
      assert g * ((n - 1) as real * p) == (n - 1) as real * Pow(g, n);
      if g > 1.0 && n > 1 {
        assert g * s < g * ((n - 1) as real * p);
      }
    }
  }

  /** For a positive factor and m <= n: g^m * S(n) >= g^n * S(m). Dividing by
      g^m * g^n, the present-value factor S(n) / g^n grows with n; this is what keeps
      an amortisation schedule from going below zero before its last payment. */
  lemma {:induction false} GeomSumPowCompare(g: real, m: nat, n: nat)
    requires g > 0.0 && m <= n
    ensures Pow(g, m) * GeomSum(g, n) >= Pow(g, n) * GeomSum(g, m)
  {
    if m < n {
      GeomSumPowCompare(g, m, n - 1);
      PowPositive(g, m);
      GeomSumPositive(g, m);
      PowCompareStepAlgebra(g, Pow(g, m), GeomSum(g, m), Pow(g, n - 1), GeomSum(g, n - 1),
                            Pow(g, n), GeomSum(g, n));
    }
  }

  /** One more term on the long side: from pm * s >= p * sm, with s' = 1 + g * s and
      p' = g * p, pm * s' >= p' * sm. */
  lemma PowCompareStepAlgebra(g: real, pm: real, sm: real, p: real, s: real, p': real, s': real)
    requires g > 0.0 && pm > 0.0 && pm * s >= p * sm
    requires s' == 1.0 + g * s && p' == g * p
    ensures pm * s' >= p' * sm
  {
    assert pm * s' == pm + g * (pm * s);
    MulLeftMonotone(p * sm, pm * s, g);
    assert p' * sm == g * (p * sm);
  }

  /** Division undoes multiplication by a non-zero factor. */
  lemma DivideOut(a: real, b: real, c: real)
    requires b != 0.0 && a == c * b
    ensures a / b == c
  {
  }

  lemma DivMulCancel(a: real, b: real)
    requires b != 0.0
    ensures a / b * b == a * 1.0
  {
  }

  lemma QuotientScaleBack(e: real, a: real, p: real, s: real)
    requires s != 0.0 && e == a * (p / s)
    ensures e * s == a * p
  {
  }

  lemma QuotientPositive(a: real, b: real)
    requires a > 0.0 && b > 0.0
    ensures a / b > 0.0
  {
  }

  lemma QuotientAtMostIff(f: real, a: real, c: real)
    requires c > 0.0
    ensures f / c <= a <==> f <= a * c
  {
    assert f == f / c * c;
    if f / c <= a {
      MulLeftMonotone(f / c, a, c);
    } else {
      MulLeftMonotone(a, f / c, c);
    }
  }

  lemma FractionAtMostOne(a: real, b: real)
    requires 0.0 <= a <= b && b > 0.0
    ensures a / b <= 1.0
  {
  }

  /** Multiplying by a positive factor keeps (strict) order. */
  lemma MulLeftMonotone(a: real, b: real, c: real)
    requires a <= b && c > 0.0
    ensures a * c <= b * c
    ensures a < b ==> a * c < b * c
  {
  }

  /** With (p - 1) / i == s: the annuity-due value of m is m * (g * s). */
  lemma AnnuityDueAlgebra(m: real, g: real, i: real, p: real, s: real)
    requires i != 0.0 && (p - 1.0) / i == s
    ensures m * ((p - 1.0) / i) * g == m * (g * s)
  {
  }

  /** With (g - 1) * s == p - 1 (so s = S(n) when p = g^n) and i = g - 1: the
      contribution f * (i / (p - 1) / g) is f / (g * s). */
  lemma ContributionAlgebra(f: real, g: real, i: real, p: real, s: real)
    requires g > 0.0 && i != 0.0 && i == g - 1.0 && (g - 1.0) * s == p - 1.0 && s > 0.0
    ensures p - 1.0 != 0.0 && g * s > 0.0
    ensures f * (i / (p - 1.0) / g) == f / (g * s)
  {
    assert p - 1.0 == i * s;
    assert 1.0 / s * (i * s) == i;
    DivideOut(i, p - 1.0, 1.0 / s);
    assert 1.0 / s / g == 1.0 / (g * s);
  }

  /** Straight-line repayment: with growth 1 (p = 1, s = m) and instalment e = P / n,
      the scheduled balance P * p - e * s is P * (1 - m / n). */
  lemma StraightLineAlgebra(balance: real, scheduled: real, principal: real, e: real, p: real, s: real,
                            m: real, n: real)
    requires n != 0.0 && balance == principal * (1.0 - m / n)
    requires scheduled == principal * p - e * s && p == 1.0 && s == m && e == principal / n
    ensures balance == scheduled
  {
  }

  /** One month of a loan schedule in closed form: if the balance b before the month
      is P * p - e * s, the balance a = b * g - e after it is P * p' - e * s' with
      p' = g * p and s' = 1 + g * s. */
  lemma ScheduleStepAlgebra(a: real, b: real, principal: real, e: real, g: real, p: real, s: real,
                            p': real, s': real)
    requires a == b * g - e && b == principal * p - e * s
    requires p' == g * p && s' == 1.0 + g * s
    ensures a == principal * p' - e * s'
  {
  }

  /** One month of an annuity-due in closed form: if the pot b before the month is
      m * g * s, the pot a = (b + m) * g after it is m * g * s' with s' = 1 + g * s. */
  lemma AccumulateStepAlgebra(a: real, b: real, m: real, g: real, s: real, s': real)
    requires a == (b + m) * g && b == m * g * s && s' == 1.0 + g * s
    ensures a == m * g * s'
  {
  }

  /** The sign of an instalment schedule: if e * s == P * p (the instalment is
      P * p / s) and pm * s >= p * sm, then the balance P * pm - e * sm is not negative. */
  lemma ScheduleSign(b: real, principal: real, e: real, p: real, s: real, pm: real, sm: real)
    requires principal > 0.0 && s > 0.0 && e * s == principal * p && pm * s >= p * sm
    requires b == principal * pm - e * sm
    ensures b >= 0.0
  {
    assert s * (principal * pm - e * sm) == principal * (pm * s - p * sm);
    assert principal * (pm * s - p * sm) >= 0.0;
  }

  /** Scaling two ordered factors by the same positive amount keeps their order. */
  lemma ScaledOrder(f1: real, f2: real, m: real, c1: real, c2: real)
    requires m > 0.0 && c1 <= c2 && f1 == m * c1 && f2 == m * c2
    ensures f1 <= f2
  {
  }

  /** Values f1 = m1 * c and f2 = m2 * c of a positive factor c keep the order of the
      amounts m1 <= m2, strictly when m1 < m2. */
  lemma AmountOrder(f1: real, f2: real, m1: real, m2: real, c: real)
    requires c > 0.0 && m1 <= m2 && f1 == m1 * c && f2 == m2 * c
    ensures f1 <= f2
    ensures m1 < m2 ==> f1 < f2
  {
    MulLeftMonotone(m1, m2, c);
  }

  /** The sign of total interest: if e * s == P * p and s <= n * p, then the interest
      e * n - P is >= 0, with > when s < n * p. */
  lemma InterestSign(interest: real, principal: real, e: real, p: real, s: real, n: real)
    requires principal > 0.0 && s > 0.0 && e * s == principal * p && s <= n * p
    requires interest == e * n - principal
    ensures interest >= 0.0
    ensures s < n * p ==> interest > 0.0
  {
    var d := n * p - s;
    assert s * interest == principal * d;
    assert principal * d >= 0.0;
    if d > 0.0 {
      assert principal * d > 0.0;
      assert s * interest > 0.0;
    }
  }

  /** With i * s == p - 1, i != 0, s > 0 and p > 0: i / (1 - 1/p) == p / s. */
  lemma AmortisingAlgebra(i: real, p: real, s: real)
    requires i != 0.0 && i * s == p - 1.0 && s > 0.0 && p > 0.0
    ensures p != 1.0 && 1.0 - 1.0 / p != 0.0
    ensures i / (1.0 - 1.0 / p) == p / s
    ensures p / s > 0.0
  {
    var d := 1.0 - 1.0 / p;
    assert d * p == p - 1.0;
    var q := p / s;
    assert q * s == p;
    assert i == q * d by {
      assert q * d * s == p * d;
    }
    DivideOut(i, d, q);
    QuotientPositive(p, s);
  }

  /** The amortising-payment factor: with g = 1 + i and i != 0,
      i / (1 - g^-n) equals g^n / S(n). */
  lemma AmortisingFactor(g: real, i: real, n: nat)
    requires g > 0.0 && i != 0.0 && g == 1.0 + i && n > 0
    ensures Pow(g, n) != 1.0 && Pow(g, n) > 0.0 && GeomSum(g, n) >= 1.0
    ensures 1.0 - 1.0 / Pow(g, n) != 0.0
    ensures i / (1.0 - 1.0 / Pow(g, n)) == Pow(g, n) / GeomSum(g, n)
    ensures Pow(g, n) / GeomSum(g, n) > 0.0
  {
    GeomSumClosedForm(g, n);
    GeomSumPositive(g, n);
    PowPositive(g, n);
    AmortisingAlgebra(i, Pow(g, n), GeomSum(g, n));
  }

  /** The contribution factor: with g = 1 + i > 0 and i != 0, the contribution that
      reaches f over n months, f * (i / (g^n - 1) / g), is f / (g * S(n)). */
  lemma ContributionFactor(f: real, g: real, i: real, n: nat)
    requires g > 0.0 && i != 0.0 && g == 1.0 + i && n > 0
    ensures Pow(g, n) - 1.0 != 0.0 && g * GeomSum(g, n) > 0.0
    ensures f * (i / (Pow(g, n) - 1.0) / g) == f / (g * GeomSum(g, n))
  {
    GeomSumClosedForm(g, n);
    GeomSumPositive(g, n);
    ContributionAlgebra(f, g, i, Pow(g, n), GeomSum(g, n));
  }

  /** The ceiling of an instalment schedule: with e * s == P * p, d * s == p - 1 and
      d * sm == pm - 1 (d = g - 1, p = g^n, s = S(n), pm = g^m, sm = S(m)), the balance
      P * pm - e * sm never exceeds P, since s * (balance - P) == -P * sm. */
  lemma ScheduleCeiling(b: real, principal: real, e: real, p: real, s: real, pm: real, sm: real, d: real)
    requires principal > 0.0 && s > 0.0 && sm >= 0.0 && e * s == principal * p
    requires d * s == p - 1.0 && d * sm == pm - 1.0
    requires b == principal * pm - e * sm
    ensures b <= principal
  {
    assert s * b == principal * (pm * s - p * sm);
    assert pm * s - p * sm - s == sm * (d * s - p);
    assert pm * s - p * sm <= s;
    MulLeftMonotone(pm * s - p * sm, s, principal);
    assert s * b <= s * principal;
  }

  /** The annuity factor: with i = g - 1 != 0, (g^n - 1) / i == S(n). */
  lemma AnnuityFactor(g: real, i: real, n: nat)
    requires i != 0.0 && g == 1.0 + i
    ensures (Pow(g, n) - 1.0) / i == GeomSum(g, n)
  {
    GeomSumClosedForm(g, n);
    DivideOut(Pow(g, n) - 1.0, i, GeomSum(g, n));
  }
}
