/** The service's fixed loan terms and the table of expected returns by risk appetite. */
module Config {
  import opened Formulas

  /** The outcome every endpoint reports: "success" or "not_achievable". */
  datatype Status = Success | NotAchievable

  /** Every loan is priced at 8% a year. */
  const FixedLoanInterestRate: real := 8.0

  /** The standard loan runs for 30 years. */
  const FixedLoanTenureYears: int := 30

  /** Expected annual return, in percent, of the investment chosen for each appetite. */
  const RiskAppetiteReturns: map<string, real> := map["low" := 6.0, "moderate" := 9.0, "high" := 12.0]

  /** The return looked up for a known appetite: one of the three table entries, so
      always a valid, positive rate. */
  function ExpectedReturnRate(riskAppetite: string): (r: real)
    requires riskAppetite in RiskAppetiteReturns
    ensures r == 6.0 || r == 9.0 || r == 12.0
    ensures ValidRate(r) && r > 0.0
    ensures riskAppetite == "low" ==> r == 6.0
    ensures riskAppetite == "moderate" ==> r == 9.0
    ensures riskAppetite == "high" ==> r == 12.0
  {
    RiskAppetiteReturns[riskAppetite]
  }
}
