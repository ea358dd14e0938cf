/** The maximum-growth scenario: keep the standard 30-year loan, invest everything the
    budget leaves after its EMI, and report the net wealth (investment value less the
    outstanding loan) after a chosen number of years. */
module MaxGrowth {
  import opened Formulas
  import opened Config
  import opened NetZero

  datatype MaxGrowthReport = MaxGrowthReport(
    status: Status,
    monthlyEmi: real,
    monthlyInvestment: real,
    optimizationPeriodYears: int,
    estimatedInvestmentFutureValue: real,
    remainingLoanBalance: real,
    netWealthAtPeriodEnd: real)

  /** Outstanding balance of the standard loan after the period. */
  function StandardBalanceAfter(loanAmount: real, periodYears: int): real
  {
    RemainingBalance(loanAmount, FixedLoanInterestRate, FixedLoanTenureYears, periodYears)
  }

  /** Success exactly when something is left to invest. The outstanding loan is always
      reported; without an investment, the investment, its value and the net wealth are
      reported as zero; with one, the net wealth is its value less the loan balance. */
  function MaxGrowth(loanAmount: real, monthlyBudget: real, riskAppetite: string,
                     optimizationPeriodYears: int): (rep: MaxGrowthReport)
    requires riskAppetite in RiskAppetiteReturns
    ensures rep.status == Success <==> monthlyBudget - StandardEmi(loanAmount) > 0.0
    ensures rep.monthlyEmi == StandardEmi(loanAmount)
    ensures rep.optimizationPeriodYears == optimizationPeriodYears
    ensures rep.remainingLoanBalance == StandardBalanceAfter(loanAmount, optimizationPeriodYears)
    ensures rep.status == NotAchievable
            ==> rep.monthlyInvestment == 0.0 && rep.estimatedInvestmentFutureValue == 0.0
                && rep.netWealthAtPeriodEnd == 0.0
    ensures rep.status == Success
            ==> rep.monthlyInvestment == monthlyBudget - rep.monthlyEmi
                && rep.estimatedInvestmentFutureValue
                   == SipFutureValue(rep.monthlyInvestment, ExpectedReturnRate(riskAppetite),
                                     optimizationPeriodYears)
                && rep.netWealthAtPeriodEnd
                   == rep.estimatedInvestmentFutureValue - rep.remainingLoanBalance
  {
    var rate := ExpectedReturnRate(riskAppetite);
    var standardEmi := StandardEmi(loanAmount);
    var monthlyInvestment := monthlyBudget - standardEmi;
    var remainingLoan := StandardBalanceAfter(loanAmount, optimizationPeriodYears);
    if monthlyInvestment <= 0.0 then
      MaxGrowthReport(NotAchievable, standardEmi, 0.0, optimizationPeriodYears, 0.0, remainingLoan, 0.0)
    else
      var investmentFv := SipFutureValue(monthlyInvestment, rate, optimizationPeriodYears);
      MaxGrowthReport(Success, standardEmi, monthlyInvestment, optimizationPeriodYears, investmentFv,
                      remainingLoan, investmentFv - remainingLoan)
  }

  /** Within the loan's life the reported balance is the month-by-month EMI schedule of
      the standard loan, and on success the investment value is the month-by-month
      annuity-due, so the net wealth is the difference of the two reference schedules. */
  lemma MaxGrowthFollowsSchedules(loanAmount: real, monthlyBudget: real, riskAppetite: string,
                                  optimizationPeriodYears: int)
    requires riskAppetite in RiskAppetiteReturns
    requires loanAmount > 0.0 && 0 < optimizationPeriodYears <= FixedLoanTenureYears
    ensures var rep := MaxGrowth(loanAmount, monthlyBudget, riskAppetite, optimizationPeriodYears);
            var m := Months(optimizationPeriodYears);
            rep.remainingLoanBalance
            == Amortise(loanAmount, Growth(FixedLoanInterestRate), StandardEmi(loanAmount), m)
            && (rep.status == Success
                ==> rep.netWealthAtPeriodEnd
                    == Accumulate(rep.monthlyInvestment, Growth(ExpectedReturnRate(riskAppetite)), m)
                       - Amortise(loanAmount, Growth(FixedLoanInterestRate), StandardEmi(loanAmount), m))
  {
    RemainingBalanceFollowsSchedule(loanAmount, FixedLoanInterestRate, FixedLoanTenureYears,
                                    optimizationPeriodYears);
    var rep := MaxGrowth(loanAmount, monthlyBudget, riskAppetite, optimizationPeriodYears);
    if rep.status == Success {
      SipFutureValueIsAnnuityDue(rep.monthlyInvestment, ExpectedReturnRate(riskAppetite),
                                 optimizationPeriodYears);
    }
  }

  /** At the end of the 30 years the loan is repaid, so the net wealth is the whole
      investment value. */
  lemma MaxGrowthAtMaturity(loanAmount: real, monthlyBudget: real, riskAppetite: string)
    requires riskAppetite in RiskAppetiteReturns && loanAmount > 0.0
    ensures var rep := MaxGrowth(loanAmount, monthlyBudget, riskAppetite, FixedLoanTenureYears);
            rep.remainingLoanBalance == 0.0
            && (rep.status == Success ==> rep.netWealthAtPeriodEnd == rep.estimatedInvestmentFutureValue)
  {
    RemainingBalanceAtMaturity(loanAmount, FixedLoanInterestRate, FixedLoanTenureYears);
  }

  /** For a real loan the reported outstanding balance is between zero and the amount
      borrowed, so on success the net wealth is at least the investment value less the
      loan. */
  lemma MaxGrowthBalanceBounded(loanAmount: real, monthlyBudget: real, riskAppetite: string,
                                optimizationPeriodYears: int)
    requires riskAppetite in RiskAppetiteReturns && loanAmount > 0.0
    ensures var rep := MaxGrowth(loanAmount, monthlyBudget, riskAppetite, optimizationPeriodYears);
            0.0 <= rep.remainingLoanBalance <= loanAmount
            && (rep.status == Success
                ==> rep.estimatedInvestmentFutureValue - loanAmount <= rep.netWealthAtPeriodEnd
                                                                   <= rep.estimatedInvestmentFutureValue)
  {
    RemainingBalanceBounds(loanAmount, FixedLoanInterestRate, FixedLoanTenureYears, optimizationPeriodYears);
  }

  /** A larger budget never lowers the net wealth reported on success. */
  lemma MaxGrowthMonotoneInBudget(loanAmount: real, smaller: real, larger: real, riskAppetite: string,
                                  optimizationPeriodYears: int)
    requires riskAppetite in RiskAppetiteReturns && smaller <= larger
    ensures var r1, r2 := MaxGrowth(loanAmount, smaller, riskAppetite, optimizationPeriodYears),
                          MaxGrowth(loanAmount, larger, riskAppetite, optimizationPeriodYears);
            r1.status == Success
            ==> r2.status == Success && r1.netWealthAtPeriodEnd <= r2.netWealthAtPeriodEnd
  {
    var emi := StandardEmi(loanAmount);
    SipFutureValueMonotoneInAmount(smaller - emi, larger - emi, ExpectedReturnRate(riskAppetite),
                                   optimizationPeriodYears);
  }

  /** An appetite with a higher expected return never lowers the net wealth. */
  lemma MaxGrowthMonotoneInAppetite(loanAmount: real, monthlyBudget: real, cautious: string, bold: string,
                                    optimizationPeriodYears: int)
    requires cautious in RiskAppetiteReturns && bold in RiskAppetiteReturns
    requires ExpectedReturnRate(cautious) <= ExpectedReturnRate(bold)
    ensures MaxGrowth(loanAmount, monthlyBudget, cautious, optimizationPeriodYears).netWealthAtPeriodEnd
            <= MaxGrowth(loanAmount, monthlyBudget, bold, optimizationPeriodYears).netWealthAtPeriodEnd
  {
    SipFutureValueMonotoneInRate(monthlyBudget - StandardEmi(loanAmount), ExpectedReturnRate(cautious),
                                 ExpectedReturnRate(bold), optimizationPeriodYears);
  }
}
