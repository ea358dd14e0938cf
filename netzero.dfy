/** The net-zero-interest scenario: alongside the standard 30-year loan, invest each
    month just enough that the investment is worth the total loan interest when the
    loan ends. */
module NetZero {
  import opened Compound
  import opened Formulas
  import opened Config

  datatype NetZeroReport = NetZeroReport(
    status: Status,
    monthlyEmi: real,
    monthlyInvestment: real,
    totalLoanInterestPayable: real,
    estimatedInvestmentFutureValue: real)

  /** Instalment of the standard loan: 8% over 30 years. */
  function StandardEmi(loanAmount: real): (emi: real)
    ensures loanAmount <= 0.0 ==> emi == 0.0
    ensures loanAmount > 0.0 ==> emi > 0.0
  {
    Emi(loanAmount, FixedLoanInterestRate, FixedLoanTenureYears)
  }

  /** Total interest on the standard loan: nothing only for a zero loan; positive for
      a real loan, and also for a negative amount, where the instalment is zero and
      the "interest" is minus the amount. */
  function StandardInterest(loanAmount: real): (interest: real)
    ensures loanAmount == 0.0 ==> interest == 0.0
    ensures loanAmount != 0.0 ==> interest > 0.0
  {
    if loanAmount > 0.0 then
      TotalInterestNonNegative(loanAmount, FixedLoanInterestRate, FixedLoanTenureYears);
      TotalInterest(loanAmount, StandardEmi(loanAmount), FixedLoanTenureYears)
    else
      TotalInterest(loanAmount, StandardEmi(loanAmount), FixedLoanTenureYears)
  }

  /** The plan is achievable when the contribution that offsets the interest fits in
      what the budget leaves after the EMI. On success that contribution is reported;
      otherwise the remainder, floored at zero, and what it would be worth. Either way
      the reported contribution is never negative and never exceeds the remainder (or
      zero, when nothing remains). */
  function NetZeroInterest(loanAmount: real, monthlyBudget: real, riskAppetite: string): (rep: NetZeroReport)
    requires riskAppetite in RiskAppetiteReturns
    ensures rep.monthlyEmi == StandardEmi(loanAmount)
    ensures rep.totalLoanInterestPayable == StandardInterest(loanAmount)
    ensures rep.status == Success
            <==> RequiredSip(rep.totalLoanInterestPayable, ExpectedReturnRate(riskAppetite),
                             FixedLoanTenureYears) <= monthlyBudget - rep.monthlyEmi
    ensures 0.0 <= rep.monthlyInvestment <= Clamp(monthlyBudget - rep.monthlyEmi)
    ensures rep.status == Success
            ==> rep.monthlyInvestment
                == RequiredSip(rep.totalLoanInterestPayable, ExpectedReturnRate(riskAppetite),
                               FixedLoanTenureYears)
    ensures rep.status == NotAchievable ==> rep.monthlyInvestment == Clamp(monthlyBudget - rep.monthlyEmi)
    ensures rep.status == Success
            ==> rep.estimatedInvestmentFutureValue == rep.totalLoanInterestPayable
    ensures rep.status == NotAchievable
            ==> rep.estimatedInvestmentFutureValue
                == SipFutureValue(rep.monthlyInvestment, ExpectedReturnRate(riskAppetite),
                                  FixedLoanTenureYears)
  {
    var rate := ExpectedReturnRate(riskAppetite);
    var standardEmi := StandardEmi(loanAmount);
    var interest := StandardInterest(loanAmount);
    var required := RequiredSip(interest, rate, FixedLoanTenureYears);
    var available := monthlyBudget - standardEmi;
    if required > available then
      var invested := Clamp(available);
      NetZeroReport(NotAchievable, standardEmi, invested, interest,
                    SipFutureValue(invested, rate, FixedLoanTenureYears))
    else
      RequiredSipNonNegative(interest, rate);
      NetZeroReport(Success, standardEmi, required, interest, interest)
  }

  lemma RequiredSipNonNegative(futureValue: real, annualRate: real)
    requires ValidRate(annualRate)
    ensures RequiredSip(futureValue, annualRate, FixedLoanTenureYears) >= 0.0
  {
    if futureValue > 0.0 {
      QuotientPositive(futureValue, AnnuityDueFactor(annualRate, FixedLoanTenureYears));
    }
  }

  /** On success the reported future value is not just asserted: investing the reported
      contribution at the appetite's rate for 30 years really is worth the interest. */
  lemma NetZeroSuccessReachesTarget(loanAmount: real, monthlyBudget: real, riskAppetite: string)
    requires riskAppetite in RiskAppetiteReturns
    ensures var rep := NetZeroInterest(loanAmount, monthlyBudget, riskAppetite);
            rep.status == Success
            ==> SipFutureValue(rep.monthlyInvestment, ExpectedReturnRate(riskAppetite), FixedLoanTenureYears)
                == rep.estimatedInvestmentFutureValue
  {
    var interest := StandardInterest(loanAmount);
    if interest > 0.0 {
      FutureValueInvertsRequiredSip(interest, ExpectedReturnRate(riskAppetite), FixedLoanTenureYears);
    }
  }

  /** For any non-zero loan the decision is the one the plan is about: success exactly
      when investing what is left after the EMI for 30 years is worth at least the
      interest; and when it is not achievable, the reported future value falls short. */
  lemma NetZeroDecisionByFutureValue(loanAmount: real, monthlyBudget: real, riskAppetite: string)
    requires riskAppetite in RiskAppetiteReturns && loanAmount != 0.0
    ensures var rep := NetZeroInterest(loanAmount, monthlyBudget, riskAppetite);
            (rep.status == Success
             <==> SipFutureValue(Clamp(monthlyBudget - StandardEmi(loanAmount)),
                                 ExpectedReturnRate(riskAppetite), FixedLoanTenureYears)
                  >= StandardInterest(loanAmount))
            && (rep.status == NotAchievable
                ==> rep.estimatedInvestmentFutureValue < rep.totalLoanInterestPayable)
  {
    RequiredSipIsLeastSufficient(StandardInterest(loanAmount), ExpectedReturnRate(riskAppetite),
                                 FixedLoanTenureYears, monthlyBudget - StandardEmi(loanAmount));
  }

  /** An appetite with a higher expected return never turns an achievable plan into an
      unachievable one. */
  lemma NetZeroMonotoneInAppetite(loanAmount: real, monthlyBudget: real, cautious: string, bold: string)
    requires cautious in RiskAppetiteReturns && bold in RiskAppetiteReturns
    requires ExpectedReturnRate(cautious) <= ExpectedReturnRate(bold)
    ensures NetZeroInterest(loanAmount, monthlyBudget, cautious).status == Success
            ==> NetZeroInterest(loanAmount, monthlyBudget, bold).status == Success
  {
    if loanAmount != 0.0 {
      NetZeroDecisionByFutureValue(loanAmount, monthlyBudget, cautious);
      NetZeroDecisionByFutureValue(loanAmount, monthlyBudget, bold);
      SipFutureValueMonotoneInRate(Clamp(monthlyBudget - StandardEmi(loanAmount)),
                                   ExpectedReturnRate(cautious), ExpectedReturnRate(bold),
                                   FixedLoanTenureYears);
    }
  }
}
