/** The five loan and investment formulas, exactly over `real`, together with the
    month-by-month schedules they are closed forms of:
    - `Amortise`: a loan balance that earns a month's interest and then receives one
      instalment, month after month;
    - `Accumulate`: an investment that receives one contribution at the start of each
      month and then earns that month's return.
    Year counts are integers so that the formulas' guards on non-positive and
    out-of-range years are modelled as written; months are 12 per year. */
module Formulas {
  import opened Compound

  /** Annual rates (in percent) for which the monthly growth factor 1 + r/1200 is
      positive; the formulas are undefined (a zero or negative power base) below. */
  predicate ValidRate(annualRate: real)
  {
    annualRate > -1200.0
  }

  /** The monthly rate i = (annualRate / 100) / 12. */
  function MonthlyRate(annualRate: real): real
  {
    annualRate / 100.0 / 12.0
  }

  /** The monthly growth factor 1 + i. */
  function Growth(annualRate: real): (g: real)
    requires ValidRate(annualRate)
    ensures g > 0.0
    ensures g == 1.0 <==> annualRate == 0.0
    ensures annualRate >= 0.0 ==> g >= 1.0
  {
    1.0 + MonthlyRate(annualRate)
  }

  /** Number of monthly periods in a non-negative number of years. */
  function Months(years: int): nat
    requires years >= 0
  {
    12 * years
  }

  // ---------------------------------------------------------------------------
  // Reference schedules

  /** Loan balance after `months` instalments of `payment`, each month first adding
      interest at growth factor g and then subtracting the instalment. */
  function Amortise(principal: real, g: real, payment: real, months: nat): real
  {
    if months == 0 then principal else Amortise(principal, g, payment, months - 1) * g - payment
  }

  /** Value of an annuity-due after `months` months: each month the contribution is
      paid in at the start and the whole pot then grows by factor g. */
  function Accumulate(contribution: real, g: real, months: nat): real
  {
    if months == 0 then 0.0 else (Accumulate(contribution, g, months - 1) + contribution) * g
  }

  lemma {:induction false} AmortiseClosedForm(principal: real, g: real, payment: real, months: nat)
    ensures Amortise(principal, g, payment, months)
            == principal * Pow(g, months) - payment * GeomSum(g, months)
  {
    if months > 0 {
      AmortiseClosedForm(principal, g, payment, months - 1);
      ScheduleStepAlgebra(Amortise(principal, g, payment, months), Amortise(principal, g, payment, months - 1),
                          principal, payment, g, Pow(g, months - 1), GeomSum(g, months - 1),
                          Pow(g, months), GeomSum(g, months));
    }
  }

  lemma {:induction false} AccumulateClosedForm(contribution: real, g: real, months: nat)
    ensures Accumulate(contribution, g, months) == contribution * g * GeomSum(g, months)
  {
    if months > 0 {
      AccumulateClosedForm(contribution, g, months - 1);
      AccumulateStepAlgebra(Accumulate(contribution, g, months), Accumulate(contribution, g, months - 1),
                            contribution, g, GeomSum(g, months - 1), GeomSum(g, months));
    }
  }

  // ---------------------------------------------------------------------------
  // calculate_emi

  /** The equated monthly instalment of an amortising loan. */
  function Emi(principal: real, annualRate: real, tenureYears: int): (emi: real)
    requires ValidRate(annualRate)
    ensures principal <= 0.0 || tenureYears <= 0 ==> emi == 0.0
    ensures principal > 0.0 && tenureYears > 0 && annualRate == 0.0
            ==> emi == principal / (12 * tenureYears) as real
    ensures principal > 0.0 && tenureYears > 0 ==> emi > 0.0
  {
    if principal <= 0.0 || tenureYears <= 0 then 0.0
    else
      var i, g := MonthlyRate(annualRate), Growth(annualRate);
      var n := Months(tenureYears);
      if i == 0.0 then principal / n as real
      else
        AmortisingFactor(g, i, n);
        principal * (i / (1.0 - 1.0 / Pow(g, n)))
  }

  /** For a real loan the instalment is P * g^n / S(n) at every rate, including the
      straight-line case g = 1 where S(n) = n; equivalently EMI * S(n) == P * g^n. */
  lemma EmiClosedForm(principal: real, annualRate: real, tenureYears: int)
    requires ValidRate(annualRate) && principal > 0.0 && tenureYears > 0
    ensures GeomSum(Growth(annualRate), Months(tenureYears)) >= 1.0
    ensures Emi(principal, annualRate, tenureYears) * GeomSum(Growth(annualRate), Months(tenureYears))
            == principal * Pow(Growth(annualRate), Months(tenureYears))
  {
    if annualRate == 0.0 {
      EmiClosedFormAtZeroRate(principal, annualRate, tenureYears);
    } else {
      EmiClosedFormAtNonZeroRate(principal, annualRate, tenureYears);
    }
  }

  lemma EmiClosedFormAtZeroRate(principal: real, annualRate: real, tenureYears: int)
    requires annualRate == 0.0 && principal > 0.0 && tenureYears > 0
    ensures GeomSum(Growth(annualRate), Months(tenureYears)) >= 1.0
    ensures Emi(principal, annualRate, tenureYears) * GeomSum(Growth(annualRate), Months(tenureYears))
            == principal * Pow(Growth(annualRate), Months(tenureYears))
  {
    var n := Months(tenureYears);
    GeomSumAtOne(n);
    PowOfOne(n);
    DivMulCancel(principal, n as real);
  }

  lemma EmiClosedFormAtNonZeroRate(principal: real, annualRate: real, tenureYears: int)
    requires ValidRate(annualRate) && annualRate != 0.0 && principal > 0.0 && tenureYears > 0
    ensures GeomSum(Growth(annualRate), Months(tenureYears)) >= 1.0
    ensures Emi(principal, annualRate, tenureYears) * GeomSum(Growth(annualRate), Months(tenureYears))
            == principal * Pow(Growth(annualRate), Months(tenureYears))
  {
    EmiAtNonZeroRate(principal, annualRate, tenureYears);
    QuotientScaleBack(Emi(principal, annualRate, tenureYears), principal,
                      Pow(Growth(annualRate), Months(tenureYears)), GeomSum(Growth(annualRate), Months(tenureYears)));
  }

  /** At a non-zero rate P * i / (1 - g^(-n)) is P * (g^n / S(n)). */
  lemma EmiAtNonZeroRate(principal: real, annualRate: real, tenureYears: int)
    requires ValidRate(annualRate) && annualRate != 0.0 && principal > 0.0 && tenureYears > 0
    ensures GeomSum(Growth(annualRate), Months(tenureYears)) >= 1.0
    ensures Emi(principal, annualRate, tenureYears)
            == principal * (Pow(Growth(annualRate), Months(tenureYears))
                            / GeomSum(Growth(annualRate), Months(tenureYears)))
  {
    var i, g, n := MonthlyRate(annualRate), Growth(annualRate), Months(tenureYears);
    AmortisingFactor(g, i, n);
  }

  /** Full amortisation: n instalments of the EMI bring the month-by-month balance of a
      loan of n months to exactly zero. */
  lemma EmiFullyAmortises(principal: real, annualRate: real, tenureYears: int)
    requires ValidRate(annualRate) && principal > 0.0 && tenureYears > 0
    ensures Amortise(principal, Growth(annualRate), Emi(principal, annualRate, tenureYears),
                     Months(tenureYears)) == 0.0
  {
    var g, n := Growth(annualRate), Months(tenureYears);
    var e := Emi(principal, annualRate, tenureYears);
    EmiClosedForm(principal, annualRate, tenureYears);
    AmortiseClosedForm(principal, g, e, n);
  }

  /** No instalment schedule of the EMI goes below zero before its last payment:
      after m <= n months, S(n) times the balance is P * (g^m * S(n) - g^n * S(m)) >= 0. */
  lemma EmiScheduleNonNegative(principal: real, annualRate: real, tenureYears: int, months: nat)
    requires ValidRate(annualRate) && principal > 0.0 && tenureYears > 0
    requires months <= Months(tenureYears)
    ensures Amortise(principal, Growth(annualRate), Emi(principal, annualRate, tenureYears), months)
            >= 0.0
  {
    var g, n := Growth(annualRate), Months(tenureYears);
    var e := Emi(principal, annualRate, tenureYears);
    EmiClosedForm(principal, annualRate, tenureYears);
    AmortiseClosedForm(principal, g, e, months);
    GeomSumPowCompare(g, months, n);
    ScheduleSign(Amortise(principal, g, e, months), principal, e,
                 Pow(g, n), GeomSum(g, n), Pow(g, months), GeomSum(g, months));
  }

  /** Nor does it ever rise above the amount borrowed: after m <= n months,
      S(n) times (balance - P) is -P * S(m). */
  lemma EmiScheduleAtMostPrincipal(principal: real, annualRate: real, tenureYears: int, months: nat)
    requires ValidRate(annualRate) && principal > 0.0 && tenureYears > 0
    requires months <= Months(tenureYears)
    ensures Amortise(principal, Growth(annualRate), Emi(principal, annualRate, tenureYears), months)
            <= principal
  {
    var g, n := Growth(annualRate), Months(tenureYears);
    var e := Emi(principal, annualRate, tenureYears);
    EmiClosedForm(principal, annualRate, tenureYears);
    AmortiseClosedForm(principal, g, e, months);
    GeomSumPositive(g, months);
    GeomSumClosedForm(g, n);
    GeomSumClosedForm(g, months);
    ScheduleCeiling(Amortise(principal, g, e, months), principal, e,
                    Pow(g, n), GeomSum(g, n), Pow(g, months), GeomSum(g, months), g - 1.0);
  }

  // ---------------------------------------------------------------------------
  // calculate_total_interest

  /** Everything paid over the tenure minus the amount borrowed. */
  function TotalInterest(principal: real, emi: real, tenureYears: int): real
  {
    emi * (12 * tenureYears) as real - principal
  }

  /** Interest the loan schedule charges over its first `months` months: each month the
      outstanding balance grows by factor g, so that month's charge is (g - 1) times it. */
  function InterestCharged(principal: real, g: real, payment: real, months: nat): real
  {
    if months == 0 then 0.0
    else InterestCharged(principal, g, payment, months - 1)
         + (g - 1.0) * Amortise(principal, g, payment, months - 1)
  }

  /** Whatever the payment, the interest charged so far is what was paid in less the
      part of the principal already repaid. */
  lemma {:induction false} InterestChargedTelescopes(principal: real, g: real, payment: real, months: nat)
    ensures InterestCharged(principal, g, payment, months)
            == payment * months as real - (principal - Amortise(principal, g, payment, months))
  {
    if months > 0 {
      InterestChargedTelescopes(principal, g, payment, months - 1);
    }
  }

  /** The total interest of a real loan is exactly the interest its EMI schedule charges
      month by month over the whole tenure. */
  lemma TotalInterestIsInterestCharged(principal: real, annualRate: real, tenureYears: int)
    requires ValidRate(annualRate) && principal > 0.0 && tenureYears > 0
    ensures TotalInterest(principal, Emi(principal, annualRate, tenureYears), tenureYears)
            == InterestCharged(principal, Growth(annualRate), Emi(principal, annualRate, tenureYears),
                               Months(tenureYears))
  {
    var e := Emi(principal, annualRate, tenureYears);
    EmiFullyAmortises(principal, annualRate, tenureYears);
    InterestChargedTelescopes(principal, Growth(annualRate), e, Months(tenureYears));
  }

  /** The interest on a real loan is never negative at a non-negative rate, is zero
      at the zero rate and positive at any positive rate. */
  lemma TotalInterestNonNegative(principal: real, annualRate: real, tenureYears: int)
    requires annualRate >= 0.0 && principal > 0.0 && tenureYears > 0
    ensures TotalInterest(principal, Emi(principal, annualRate, tenureYears), tenureYears) >= 0.0
    ensures annualRate == 0.0 ==>
              TotalInterest(principal, Emi(principal, annualRate, tenureYears), tenureYears) == 0.0
    ensures annualRate > 0.0 ==>
              TotalInterest(principal, Emi(principal, annualRate, tenureYears), tenureYears) > 0.0
  {
    if annualRate == 0.0 {
      DivMulCancel(principal, (12 * tenureYears) as real);
    } else {
      TotalInterestAtPositiveRate(principal, annualRate, tenureYears);
    }
  }

  /** At a positive rate S(n) < n * g^n, so EMI * n > P. */
  lemma TotalInterestAtPositiveRate(principal: real, annualRate: real, tenureYears: int)
    requires annualRate > 0.0 && principal > 0.0 && tenureYears > 0
    ensures TotalInterest(principal, Emi(principal, annualRate, tenureYears), tenureYears) > 0.0
  {
    var g, n := Growth(annualRate), Months(tenureYears);
    var e := Emi(principal, annualRate, tenureYears);
    EmiClosedForm(principal, annualRate, tenureYears);
    GeomSumBound(g, n);
    InterestSign(TotalInterest(principal, e, tenureYears), principal, e, Pow(g, n), GeomSum(g, n), n as real);
  }

  // ---------------------------------------------------------------------------
  // calculate_sip_future_value

  /** Future value of a monthly contribution paid at the start of each month. */
  function SipFutureValue(monthlyInvestment: real, annualRate: real, tenureYears: int): (fv: real)
    requires ValidRate(annualRate)
    ensures monthlyInvestment <= 0.0 || tenureYears <= 0 ==> fv == 0.0
    ensures monthlyInvestment > 0.0 && tenureYears > 0 && annualRate == 0.0
            ==> fv == monthlyInvestment * (12 * tenureYears) as real
  {
    if monthlyInvestment <= 0.0 || tenureYears <= 0 then 0.0
    else
      var i, g := MonthlyRate(annualRate), Growth(annualRate);
      var n := Months(tenureYears);
      if i == 0.0 then monthlyInvestment * n as real
      else monthlyInvestment * ((Pow(g, n) - 1.0) / i) * g
  }

  /** The annuity-due factor g * S(n): what one unit contributed at the start of each of
      n months is worth at the end. */
  function AnnuityDueFactor(annualRate: real, tenureYears: int): (c: real)
    requires ValidRate(annualRate) && tenureYears > 0
    ensures c > 0.0
  {
    GeomSumPositive(Growth(annualRate), Months(tenureYears));
    Growth(annualRate) * GeomSum(Growth(annualRate), Months(tenureYears))
  }

  /** For a positive contribution the future value is M * g * S(n) at every rate. */
  lemma SipFutureValueFactor(monthlyInvestment: real, annualRate: real, tenureYears: int)
    requires ValidRate(annualRate) && monthlyInvestment > 0.0 && tenureYears > 0
    ensures SipFutureValue(monthlyInvestment, annualRate, tenureYears)
            == monthlyInvestment * AnnuityDueFactor(annualRate, tenureYears)
  {
    var i, g, n := MonthlyRate(annualRate), Growth(annualRate), Months(tenureYears);
    if i == 0.0 {
      GeomSumAtOne(n);
    } else {
      AnnuityFactor(g, i, n);
      AnnuityDueAlgebra(monthlyInvestment, g, i, Pow(g, n), GeomSum(g, n));
    }
  }

  /** The closed form is the annuity-due: contributing M at the start of each of the
      12 * t months and letting the pot grow month by month gives exactly this value. */
  lemma SipFutureValueIsAnnuityDue(monthlyInvestment: real, annualRate: real, tenureYears: int)
    requires ValidRate(annualRate) && monthlyInvestment > 0.0 && tenureYears > 0
    ensures SipFutureValue(monthlyInvestment, annualRate, tenureYears)
            == Accumulate(monthlyInvestment, Growth(annualRate), Months(tenureYears))
  {
    AccumulateClosedForm(monthlyInvestment, Growth(annualRate), Months(tenureYears));
    SipFutureValueFactor(monthlyInvestment, annualRate, tenureYears);
  }

  /** Investing more never yields less, and for a positive tenure strictly more once
      the larger amount is positive. */
  lemma SipFutureValueMonotoneInAmount(m1: real, m2: real, annualRate: real, tenureYears: int)
    requires ValidRate(annualRate) && m1 <= m2
    ensures SipFutureValue(m1, annualRate, tenureYears) <= SipFutureValue(m2, annualRate, tenureYears)
    ensures tenureYears > 0 && m1 < m2 && m2 > 0.0
            ==> SipFutureValue(m1, annualRate, tenureYears) < SipFutureValue(m2, annualRate, tenureYears)
  {
    if tenureYears > 0 && m2 > 0.0 {
      var c := AnnuityDueFactor(annualRate, tenureYears);
      SipFutureValueFactor(m2, annualRate, tenureYears);
      if m1 > 0.0 {
        SipFutureValueFactor(m1, annualRate, tenureYears);
        AmountOrder(SipFutureValue(m1, annualRate, tenureYears), SipFutureValue(m2, annualRate, tenureYears),
                    m1, m2, c);
      } else {
        AmountOrder(0.0, SipFutureValue(m2, annualRate, tenureYears), 0.0, m2, c);
      }
    }
  }

  /** A higher rate of return never yields a smaller future value. */
  lemma SipFutureValueMonotoneInRate(monthlyInvestment: real, r1: real, r2: real, tenureYears: int)
    requires ValidRate(r1) && r1 <= r2
    ensures SipFutureValue(monthlyInvestment, r1, tenureYears)
            <= SipFutureValue(monthlyInvestment, r2, tenureYears)
  {
    if monthlyInvestment > 0.0 && tenureYears > 0 {
      var g1, g2, n := Growth(r1), Growth(r2), Months(tenureYears);
      SipFutureValueFactor(monthlyInvestment, r1, tenureYears);
      SipFutureValueFactor(monthlyInvestment, r2, tenureYears);
      GeomSumPositive(g1, n);
      GeomSumMonotone(g1, g2, n);
      MulMonotone(g1, g2, GeomSum(g1, n), GeomSum(g2, n));
      ScaledOrder(SipFutureValue(monthlyInvestment, r1, tenureYears),
                  SipFutureValue(monthlyInvestment, r2, tenureYears),
                  monthlyInvestment, AnnuityDueFactor(r1, tenureYears), AnnuityDueFactor(r2, tenureYears));
    }
  }

  // ---------------------------------------------------------------------------
  // calculate_required_sip

  /** The monthly contribution needed to reach a target future value: for a positive
      target it is F / (g * S(n)) at every rate, the target divided by the annuity-due
      factor. */
  function RequiredSip(futureValue: real, annualRate: real, tenureYears: int): (m: real)
    requires ValidRate(annualRate)
    ensures futureValue <= 0.0 || tenureYears <= 0 ==> m == 0.0
    ensures futureValue > 0.0 && tenureYears > 0 && annualRate == 0.0
            ==> m == futureValue / (12 * tenureYears) as real
    ensures futureValue > 0.0 && tenureYears > 0
            ==> m == futureValue / AnnuityDueFactor(annualRate, tenureYears)
  {
    if futureValue <= 0.0 || tenureYears <= 0 then 0.0
    else
      var i, g := MonthlyRate(annualRate), Growth(annualRate);
      var n := Months(tenureYears);
      if i == 0.0 then
        GeomSumAtOne(n);
        futureValue / n as real
      else
        ContributionFactor(futureValue, g, i, n);
        assert AnnuityDueFactor(annualRate, tenureYears) == g * GeomSum(g, n);
        futureValue * (i / (Pow(g, n) - 1.0) / g)
  }

  /** Round trip: the contribution required to reach the future value of M is M. */
  lemma RequiredSipInvertsFutureValue(monthlyInvestment: real, annualRate: real, tenureYears: int)
    requires ValidRate(annualRate) && monthlyInvestment > 0.0 && tenureYears > 0
    ensures RequiredSip(SipFutureValue(monthlyInvestment, annualRate, tenureYears), annualRate, tenureYears)
            == monthlyInvestment
  {
    var c := AnnuityDueFactor(annualRate, tenureYears);
    SipFutureValueFactor(monthlyInvestment, annualRate, tenureYears);
    var fv := SipFutureValue(monthlyInvestment, annualRate, tenureYears);
    assert fv > 0.0;
    DivideOut(fv, c, monthlyInvestment);
  }

  /** Round trip the other way: investing the required contribution reaches the
      target exactly. */
  lemma FutureValueInvertsRequiredSip(futureValue: real, annualRate: real, tenureYears: int)
    requires ValidRate(annualRate) && futureValue > 0.0 && tenureYears > 0
    ensures SipFutureValue(RequiredSip(futureValue, annualRate, tenureYears), annualRate, tenureYears)
            == futureValue
  {
    var c := AnnuityDueFactor(annualRate, tenureYears);
    var m := RequiredSip(futureValue, annualRate, tenureYears);
    QuotientPositive(futureValue, c);
    SipFutureValueFactor(m, annualRate, tenureYears);
  }

  /** The required contribution is the least sufficient one: a budget of `available` a
      month reaches a positive target exactly when it covers the required contribution
      (a budget at or below zero invests nothing). */
  lemma RequiredSipIsLeastSufficient(futureValue: real, annualRate: real, tenureYears: int,
                                     available: real)
    requires ValidRate(annualRate) && futureValue > 0.0 && tenureYears > 0
    ensures RequiredSip(futureValue, annualRate, tenureYears) <= available
            <==> SipFutureValue(Clamp(available), annualRate, tenureYears) >= futureValue
  {
    var c := AnnuityDueFactor(annualRate, tenureYears);
    QuotientPositive(futureValue, c);
    if available > 0.0 {
      SipFutureValueFactor(available, annualRate, tenureYears);
      QuotientAtMostIff(futureValue, available, c);
      assert RequiredSip(futureValue, annualRate, tenureYears) == futureValue / c;
      assert SipFutureValue(Clamp(available), annualRate, tenureYears) == available * c;
    }
  }

  // ---------------------------------------------------------------------------
  // calculate_remaining_loan_balance

  /** max(0, x): a balance is never reported below zero. */
  function Clamp(x: real): real
  {
    if x > 0.0 then x else 0.0
  }

  /** P * g^m - EMI * (g^m - 1) / i: principal grown for m months less the grown
      instalments, at a non-zero monthly rate i with growth factor g. */
  function UnclampedBalance(principal: real, g: real, i: real, emi: real, months: nat): real
    requires i != 0.0
  {
    principal * Pow(g, months) - emi * ((Pow(g, months) - 1.0) / i)
  }

  /** Outstanding principal after a whole number of years of EMI payments. */
  function RemainingBalance(principal: real, annualRate: real, tenureYears: int, elapsedYears: int): (b: real)
    requires ValidRate(annualRate)
    ensures (principal <= 0.0 || tenureYears <= 0 || elapsedYears < 0 || elapsedYears > tenureYears
             || elapsedYears == 0) ==> b == principal
    ensures principal > 0.0 && 0 <= elapsedYears <= tenureYears ==> b >= 0.0
  {
    if principal <= 0.0 || tenureYears <= 0 || elapsedYears < 0 || elapsedYears > tenureYears then
      principal
    else if elapsedYears == 0 then
      principal
    else
      var i, g := MonthlyRate(annualRate), Growth(annualRate);
      var n := Months(tenureYears);
      var m := Months(elapsedYears);
      if i == 0.0 then
        FractionAtMostOne(m as real, n as real);
        principal * (1.0 - m as real / n as real)
      else
        Clamp(UnclampedBalance(principal, g, i, Emi(principal, annualRate, tenureYears), m))
  }

  /** Strictly inside the tenure and at a non-zero rate, the balance formula is the
      closed form of the instalment schedule, which is not negative, so the clamp
      leaves it unchanged. */
  lemma RemainingBalanceUnclamped(principal: real, annualRate: real, tenureYears: int,
                                  elapsedYears: int)
    requires ValidRate(annualRate) && annualRate != 0.0
    requires principal > 0.0 && 0 < elapsedYears <= tenureYears
    ensures RemainingBalance(principal, annualRate, tenureYears, elapsedYears)
            == Amortise(principal, Growth(annualRate), Emi(principal, annualRate, tenureYears),
                        Months(elapsedYears))
  {
    var e := Emi(principal, annualRate, tenureYears);
    assert MonthlyRate(annualRate) != 0.0;
    UnclampedBalanceIsSchedule(principal, Growth(annualRate), MonthlyRate(annualRate), e,
                               Months(elapsedYears));
    EmiScheduleNonNegative(principal, annualRate, tenureYears, Months(elapsedYears));
  }

  /** The balance formula after m months equals the month-by-month schedule. */
  lemma UnclampedBalanceIsSchedule(principal: real, g: real, i: real, emi: real, months: nat)
    requires i != 0.0 && g == 1.0 + i
    ensures UnclampedBalance(principal, g, i, emi, months) == Amortise(principal, g, emi, months)
  {
    AnnuityFactor(g, i, months);
    AmortiseClosedForm(principal, g, emi, months);
  }

  /** At the zero rate the balance falls in a straight line, P * (1 - m / n), which is the
      schedule that repays P / n each month. */
  lemma RemainingBalanceStraightLine(principal: real, tenureYears: int, elapsedYears: int)
    requires principal > 0.0 && 0 < elapsedYears <= tenureYears
    ensures RemainingBalance(principal, 0.0, tenureYears, elapsedYears)
            == Amortise(principal, Growth(0.0), Emi(principal, 0.0, tenureYears), Months(elapsedYears))
  {
    var m, n := Months(elapsedYears), Months(tenureYears);
    var e := Emi(principal, 0.0, tenureYears);
    AmortiseClosedForm(principal, Growth(0.0), e, m);
    GeomSumAtOne(m);
    PowOfOne(m);
    StraightLineAlgebra(RemainingBalance(principal, 0.0, tenureYears, elapsedYears),
                        Amortise(principal, Growth(0.0), e, m), principal, e,
                        Pow(1.0, m), GeomSum(1.0, m), m as real, n as real);
  }

  /** Within the tenure the remaining balance is the month-by-month EMI schedule after
      the elapsed months, and the clamp at zero never changes it: the exact schedule
      does not go negative. */
  lemma RemainingBalanceFollowsSchedule(principal: real, annualRate: real, tenureYears: int,
                                        elapsedYears: int)
    requires ValidRate(annualRate) && principal > 0.0 && 0 <= elapsedYears <= tenureYears
    ensures RemainingBalance(principal, annualRate, tenureYears, elapsedYears)
            == Amortise(principal, Growth(annualRate), Emi(principal, annualRate, tenureYears),
                        Months(elapsedYears))
  {
    if elapsedYears > 0 {
      if annualRate == 0.0 {
        RemainingBalanceStraightLine(principal, tenureYears, elapsedYears);
      } else {
        RemainingBalanceUnclamped(principal, annualRate, tenureYears, elapsedYears);
      }
    }
  }

  /** For a real loan the reported balance lies between zero and the amount borrowed,
      whatever the tenure and elapsed years: the guards return the principal itself. */
  lemma RemainingBalanceBounds(principal: real, annualRate: real, tenureYears: int, elapsedYears: int)
    requires ValidRate(annualRate) && principal > 0.0
    ensures 0.0 <= RemainingBalance(principal, annualRate, tenureYears, elapsedYears) <= principal
  {
    if 0 < elapsedYears <= tenureYears {
      RemainingBalanceFollowsSchedule(principal, annualRate, tenureYears, elapsedYears);
      EmiScheduleAtMostPrincipal(principal, annualRate, tenureYears, Months(elapsedYears));
    }
  }

  /** After the whole tenure nothing is left to repay. */
  lemma RemainingBalanceAtMaturity(principal: real, annualRate: real, tenureYears: int)
    requires ValidRate(annualRate) && principal > 0.0 && tenureYears > 0
    ensures RemainingBalance(principal, annualRate, tenureYears, tenureYears) == 0.0
  {
    RemainingBalanceFollowsSchedule(principal, annualRate, tenureYears, tenureYears);
    EmiFullyAmortises(principal, annualRate, tenureYears);
  }
}
