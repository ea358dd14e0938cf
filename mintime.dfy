/** The minimum-time scenario: the shortest whole-year loan tenure, up to 30 years, for
    which investing what the budget leaves after that tenure's EMI, for the same
    number of years, is worth at least that tenure's total interest. */
module MinTime {
  import opened Formulas
  import opened Config
  import opened NetZero

  datatype Option<T> = None | Some(value: T)

  datatype MinTimeReport = MinTimeReport(
    status: Status,
    minTimeYears: int,
    monthlyEmi: real,
    monthlyInvestment: real,
    totalLoanInterestPayable: real,
    estimatedInvestmentFutureValue: real)

  /** The loan at 8% over `tenure` years leaves room to invest, and the investment at
      `rate` over the same years is worth at least the loan's interest. */
  predicate Offsets(loanAmount: real, monthlyBudget: real, rate: real, tenure: int)
    requires ValidRate(rate)
  {
    var emi := Emi(loanAmount, FixedLoanInterestRate, tenure);
    monthlyBudget - emi > 0.0
    && SipFutureValue(monthlyBudget - emi, rate, tenure) >= TotalInterest(loanAmount, emi, tenure)
  }

  /** The first tenure from `from` up to 30 years that offsets its interest, if any. */
  function FirstOffsettingTenure(loanAmount: real, monthlyBudget: real, rate: real, from: int): (r: Option<int>)
    requires ValidRate(rate) && from >= 1
    ensures r.Some? ==> from <= r.value <= FixedLoanTenureYears
                        && Offsets(loanAmount, monthlyBudget, rate, r.value)
                        && forall t :: from <= t < r.value ==> !Offsets(loanAmount, monthlyBudget, rate, t)
    ensures r.None? ==> forall t :: from <= t <= FixedLoanTenureYears
                                    ==> !Offsets(loanAmount, monthlyBudget, rate, t)
    decreases FixedLoanTenureYears + 1 - from
  {
    if from > FixedLoanTenureYears then None
    else if Offsets(loanAmount, monthlyBudget, rate, from) then Some(from)
    else FirstOffsettingTenure(loanAmount, monthlyBudget, rate, from + 1)
  }

  /** The report for a tenure that offsets its interest. */
  function OffsettingReport(loanAmount: real, monthlyBudget: real, rate: real, tenure: int): MinTimeReport
    requires ValidRate(rate)
  {
    var emi := Emi(loanAmount, FixedLoanInterestRate, tenure);
    MinTimeReport(Success, tenure, emi, monthlyBudget - emi, TotalInterest(loanAmount, emi, tenure),
                  SipFutureValue(monthlyBudget - emi, rate, tenure))
  }

  /** The report when no tenure works: the standard 30-year loan and what the budget
      leaves beside it, floored at zero. */
  function FallbackReport(loanAmount: real, monthlyBudget: real, rate: real): MinTimeReport
    requires ValidRate(rate)
  {
    var emi := StandardEmi(loanAmount);
    var invested := Clamp(monthlyBudget - emi);
    MinTimeReport(NotAchievable, FixedLoanTenureYears, emi, invested, StandardInterest(loanAmount),
                  SipFutureValue(invested, rate, FixedLoanTenureYears))
  }

  /** What the scenario reports, stated without the search loop. The reported tenure
      is the least one that offsets its interest, with that tenure's figures; "not
      achievable" means that none of the 30 does, and then the figures are those of the
      standard loan. */
  function MinTimeOutcome(loanAmount: real, monthlyBudget: real, riskAppetite: string): (rep: MinTimeReport)
    requires riskAppetite in RiskAppetiteReturns
    ensures 1 <= rep.minTimeYears <= FixedLoanTenureYears
    ensures rep.status == Success
            ==> rep.monthlyInvestment > 0.0
                && rep.estimatedInvestmentFutureValue >= rep.totalLoanInterestPayable
    ensures var rate := ExpectedReturnRate(riskAppetite);
            rep.status == Success
            ==> Offsets(loanAmount, monthlyBudget, rate, rep.minTimeYears)
                && (forall t :: 1 <= t < rep.minTimeYears ==> !Offsets(loanAmount, monthlyBudget, rate, t))
                && rep == OffsettingReport(loanAmount, monthlyBudget, rate, rep.minTimeYears)
    ensures var rate := ExpectedReturnRate(riskAppetite);
            rep.status == NotAchievable
            ==> rep == FallbackReport(loanAmount, monthlyBudget, rate)
                && forall t :: 1 <= t <= FixedLoanTenureYears ==> !Offsets(loanAmount, monthlyBudget, rate, t)
  {
    var rate := ExpectedReturnRate(riskAppetite);
    match FirstOffsettingTenure(loanAmount, monthlyBudget, rate, 1)
    case Some(tenure) => OffsettingReport(loanAmount, monthlyBudget, rate, tenure)
    case None => FallbackReport(loanAmount, monthlyBudget, rate)
  }

  /** Tries tenures 1, 2, ..., 30 in order and stops at the first that offsets its
      interest; otherwise reports the standard loan. */
  method MinTimeNetZero(loanAmount: real, monthlyBudget: real, riskAppetite: string) returns (rep: MinTimeReport)
    requires riskAppetite in RiskAppetiteReturns
    ensures rep == MinTimeOutcome(loanAmount, monthlyBudget, riskAppetite)
  {
    var rate := ExpectedReturnRate(riskAppetite);
    var minTimeYears := -1;
    // The figures of the tenure found; read only once one is found.
    var bestEmi, bestInvestment, bestInterest, bestFutureValue := 0.0, 0.0, 0.0, 0.0;
    for tenure := 1 to FixedLoanTenureYears + 1
      invariant minTimeYears == -1
      invariant FirstOffsettingTenure(loanAmount, monthlyBudget, rate, 1)
                == FirstOffsettingTenure(loanAmount, monthlyBudget, rate, tenure)
    {
      var currentEmi := Emi(loanAmount, FixedLoanInterestRate, tenure);
      var currentInterest := TotalInterest(loanAmount, currentEmi, tenure);
      var currentAvailable := monthlyBudget - currentEmi;
      if currentAvailable <= 0.0 {
        FirstOffsettingTenureSkips(loanAmount, monthlyBudget, rate, tenure, currentEmi, currentAvailable);
        continue;
      }
      var currentFutureValue := SipFutureValue(currentAvailable, rate, tenure);
      FirstOffsettingTenureStep(loanAmount, monthlyBudget, rate, tenure,
                                currentEmi, currentAvailable, currentInterest, currentFutureValue);
      if currentFutureValue >= currentInterest {
        minTimeYears := tenure;
        bestEmi, bestInvestment, bestInterest, bestFutureValue :=
          currentEmi, currentAvailable, currentInterest, currentFutureValue;
        assert FirstOffsettingTenure(loanAmount, monthlyBudget, rate, 1) == Some(tenure);
        break;
      }
    }
    if minTimeYears != -1 {
      MinTimeOutcomeFound(loanAmount, monthlyBudget, riskAppetite, minTimeYears,
                          bestEmi, bestInvestment, bestInterest, bestFutureValue);
      rep := MinTimeReport(Success, minTimeYears, bestEmi, bestInvestment, bestInterest, bestFutureValue);
    } else {
      MinTimeOutcomeFallback(loanAmount, monthlyBudget, riskAppetite);
      var standardEmi := StandardEmi(loanAmount);
      var available := monthlyBudget - standardEmi;
      var invested := if available > 0.0 then available else 0.0;
      rep := MinTimeReport(NotAchievable, FixedLoanTenureYears, standardEmi, invested,
                           StandardInterest(loanAmount), SipFutureValue(invested, rate, FixedLoanTenureYears));
    }
  }

  /** When the search finds a tenure, the outcome is that tenure's report, with its
      EMI, what remains to invest, its interest and the investment's value. */
  lemma MinTimeOutcomeFound(loanAmount: real, monthlyBudget: real, riskAppetite: string, tenure: int,
                            emi: real, available: real, interest: real, futureValue: real)
    requires riskAppetite in RiskAppetiteReturns
    requires FirstOffsettingTenure(loanAmount, monthlyBudget, ExpectedReturnRate(riskAppetite), 1) == Some(tenure)
    requires emi == Emi(loanAmount, FixedLoanInterestRate, tenure) && available == monthlyBudget - emi
    requires interest == TotalInterest(loanAmount, emi, tenure)
    requires futureValue == SipFutureValue(available, ExpectedReturnRate(riskAppetite), tenure)
    ensures MinTimeOutcome(loanAmount, monthlyBudget, riskAppetite)
            == MinTimeReport(Success, tenure, emi, available, interest, futureValue)
  {
  }

  /** When no tenure offsets its interest, the outcome is the standard loan's report. */
  lemma MinTimeOutcomeFallback(loanAmount: real, monthlyBudget: real, riskAppetite: string)
    requires riskAppetite in RiskAppetiteReturns
    requires FirstOffsettingTenure(loanAmount, monthlyBudget, ExpectedReturnRate(riskAppetite), 1) == None
    ensures MinTimeOutcome(loanAmount, monthlyBudget, riskAppetite)
            == FallbackReport(loanAmount, monthlyBudget, ExpectedReturnRate(riskAppetite))
  {
  }

  /** A tenure whose EMI leaves nothing to invest is passed over. */
  lemma FirstOffsettingTenureSkips(loanAmount: real, monthlyBudget: real, rate: real, tenure: int,
                                   emi: real, available: real)
    requires ValidRate(rate) && 1 <= tenure <= FixedLoanTenureYears
    requires emi == Emi(loanAmount, FixedLoanInterestRate, tenure) && available == monthlyBudget - emi
    requires available <= 0.0
    ensures FirstOffsettingTenure(loanAmount, monthlyBudget, rate, tenure)
            == FirstOffsettingTenure(loanAmount, monthlyBudget, rate, tenure + 1)
  {
  }

  /** A tenure that leaves room to invest is the first match exactly when the
      investment's value covers the interest; otherwise the search moves on. */
  lemma FirstOffsettingTenureStep(loanAmount: real, monthlyBudget: real, rate: real, tenure: int,
                                  emi: real, available: real, interest: real, futureValue: real)
    requires ValidRate(rate) && 1 <= tenure <= FixedLoanTenureYears
    requires emi == Emi(loanAmount, FixedLoanInterestRate, tenure) && available == monthlyBudget - emi
    requires available > 0.0
    requires interest == TotalInterest(loanAmount, emi, tenure)
    requires futureValue == SipFutureValue(available, rate, tenure)
    ensures FirstOffsettingTenure(loanAmount, monthlyBudget, rate, tenure)
            == if futureValue >= interest then Some(tenure)
               else FirstOffsettingTenure(loanAmount, monthlyBudget, rate, tenure + 1)
  {
  }

  /** A tenure that offsets its interest at some rate still does at any higher rate. */
  lemma OffsetsMonotoneInRate(loanAmount: real, monthlyBudget: real, r1: real, r2: real, tenure: int)
    requires ValidRate(r1) && r1 <= r2
    ensures Offsets(loanAmount, monthlyBudget, r1, tenure) ==> Offsets(loanAmount, monthlyBudget, r2, tenure)
  {
    var emi := Emi(loanAmount, FixedLoanInterestRate, tenure);
    SipFutureValueMonotoneInRate(monthlyBudget - emi, r1, r2, tenure);
  }

  /** At a higher rate the first offsetting tenure exists whenever it does at the lower
      one, and comes no later. */
  lemma {:induction false} FirstOffsettingTenureMonotoneInRate(loanAmount: real, monthlyBudget: real,
                                                               r1: real, r2: real, from: int)
    requires ValidRate(r1) && r1 <= r2 && from >= 1
    ensures var f1, f2 := FirstOffsettingTenure(loanAmount, monthlyBudget, r1, from),
                          FirstOffsettingTenure(loanAmount, monthlyBudget, r2, from);
            f1.Some? ==> f2.Some? && f2.value <= f1.value
    decreases FixedLoanTenureYears + 1 - from
  {
    if from <= FixedLoanTenureYears {
      OffsetsMonotoneInRate(loanAmount, monthlyBudget, r1, r2, from);
      FirstOffsettingTenureMonotoneInRate(loanAmount, monthlyBudget, r1, r2, from + 1);
    }
  }

  /** Choosing an appetite with a higher expected return never makes the reported
      minimum time longer, and keeps an achievable plan achievable. */
  lemma MinTimeMonotoneInAppetite(loanAmount: real, monthlyBudget: real, cautious: string, bold: string)
    requires cautious in RiskAppetiteReturns && bold in RiskAppetiteReturns
    requires ExpectedReturnRate(cautious) <= ExpectedReturnRate(bold)
    ensures MinTimeOutcome(loanAmount, monthlyBudget, bold).minTimeYears
            <= MinTimeOutcome(loanAmount, monthlyBudget, cautious).minTimeYears
    ensures MinTimeOutcome(loanAmount, monthlyBudget, cautious).status == Success
            ==> MinTimeOutcome(loanAmount, monthlyBudget, bold).status == Success
  {
    FirstOffsettingTenureMonotoneInRate(loanAmount, monthlyBudget, ExpectedReturnRate(cautious),
                                        ExpectedReturnRate(bold), 1);
  }

  /** The two scenarios agree: if the standard 30-year loan can be offset (net-zero
      succeeds for a non-zero loan), then some tenure of at most 30 years works. */
  lemma NetZeroSuccessImpliesMinTimeFound(loanAmount: real, monthlyBudget: real, riskAppetite: string)
    requires riskAppetite in RiskAppetiteReturns && loanAmount != 0.0
    ensures NetZeroInterest(loanAmount, monthlyBudget, riskAppetite).status == Success
            ==> MinTimeOutcome(loanAmount, monthlyBudget, riskAppetite).status == Success
  {
    var rate := ExpectedReturnRate(riskAppetite);
    NetZeroDecisionByFutureValue(loanAmount, monthlyBudget, riskAppetite);
    if NetZeroInterest(loanAmount, monthlyBudget, riskAppetite).status == Success {
      assert monthlyBudget - StandardEmi(loanAmount) > 0.0;
      assert Offsets(loanAmount, monthlyBudget, rate, FixedLoanTenureYears);
    }
  }
}
