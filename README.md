# Loan-versus-investment planner: a verified model

This project models the calculation core of a small loan/investment planning service,
`app.py`. A borrower takes a loan at a fixed 8% a year and sets a monthly budget. The
EMI (equated monthly instalment) is paid out of the budget and the rest is invested
monthly in a plan (a SIP, systematic investment plan). The plan's expected return
depends on the chosen risk appetite: "low" 6%, "moderate" 9% or "high" 12%. The service
answers three questions:

- **Net-zero interest**: with the standard 30-year loan, how much must be invested each
  month for the investment to be worth the total loan interest at maturity, and does
  the budget allow it?
- **Minimum time**: what is the shortest whole-year tenure, 1 to 30 years, for which the
  money left after that tenure's EMI, invested for the same years, is worth at least
  that tenure's interest?
- **Maximum growth**: investing everything left after the standard EMI, what is the net
  wealth (investment value less the outstanding loan) after a chosen number of years?

The model works over exact reals. The files are:

- `compound.dfy` (module `Compound`): powers `Pow(g, n)` and the geometric sum
  `GeomSum(g, n) = 1 + g + ... + g^(n-1)`, their identities, and small algebra lemmas.
- `formulas.dfy` (module `Formulas`): the five calculation helpers.
  - `Emi`, `TotalInterest`, `SipFutureValue`, `RequiredSip` and `RemainingBalance`.
  - Two month-by-month reference definitions that the closed forms are proved against:
    `Amortise` (the loan schedule: add a month's interest, subtract the instalment) and
    `Accumulate` (the annuity-due: pay in at the start of the month, then grow).
- `config.dfy` (module `Config`): the fixed loan terms, the risk-appetite table and the
  report status.
- `netzero.dfy`, `mintime.dfy`, `maxgrowth.dfy`: the three scenarios.
  - Net-zero and max-growth are functions.
  - Minimum time is a method with the source's search loop. It is proved equal to
    `MinTimeOutcome`, a function built on the recursive first-match specification
    `FirstOffsettingTenure`.

The key identities proved, for monthly growth factor g = 1 + i and n months:

- EMI · S(n) = P · g^n.
- Future value = M · g · S(n).
- Required contribution = F / (g · S(n)).
- Balance after m months = P · g^m − EMI · S(m).

With these, every formula holds at the zero rate (g = 1, S(n) = n) as well as at a
non-zero one.

Some details of `app.py` that the model keeps:

- The net-zero scenario has two outcomes only, success and not achievable. A negative
  remainder is floored to zero; it is not an outcome of its own.
- The expected return comes from the risk-appetite table (app.py:13-17), looked up at
  app.py:81, 119 and 184. No "error" status is ever produced.
- The minimum-time search skips a tenure when the remainder after the EMI is at or
  below zero, not only when it is below zero.

## Model

| member | source | states |
|---|---|---|
| Formulas.Growth | app.py:24 | the monthly growth factor 1 + r/1200 is positive, is 1 exactly at the zero rate, and is at least 1 for a non-negative rate |
| Formulas.AmortiseClosedForm | app.py:68 | the month-by-month loan schedule after m months equals P·g^m − payment·S(m) |
| Formulas.AccumulateClosedForm | app.py:41-42 | the month-by-month annuity-due after m months equals M·g·S(m) |
| Formulas.Emi | app.py:21-28 | no instalment (0) for a non-positive principal or tenure; P/(12t) at the zero rate; a positive instalment for every real loan |
| Formulas.EmiClosedForm | app.py:24-28 | at every rate, including zero, the instalment times S(n) equals P·g^n |
| Formulas.EmiFullyAmortises | app.py:21-28 | paying the EMI for all 12t months brings the month-by-month balance to exactly zero |
| Formulas.EmiScheduleNonNegative | app.py:21-28 | before maturity the EMI schedule never goes below zero |
| Formulas.EmiScheduleAtMostPrincipal | app.py:21-28 | the EMI schedule never rises above the amount borrowed |
| Formulas.TotalInterestIsInterestCharged | app.py:30-32 | the total interest (all instalments less the principal) is exactly the interest the EMI schedule charges month by month, (g − 1) times each month's opening balance |
| Formulas.TotalInterestNonNegative | app.py:30-32 | for a real loan at a non-negative rate the total interest is not negative; it is zero at the zero rate and positive at any positive rate |
| Formulas.SipFutureValue | app.py:34-42 | value 0 for a non-positive contribution or tenure; M·12t at the zero rate |
| Formulas.AnnuityDueFactor | app.py:42 | the annuity-due factor g·S(n) of a positive tenure is positive |
| Formulas.SipFutureValueFactor | app.py:37-42 | for a positive contribution the future value is M·g·S(n) at every rate |
| Formulas.SipFutureValueIsAnnuityDue | app.py:41-42 | the closed form equals the month-by-month annuity-due with contributions at the start of each month |
| Formulas.SipFutureValueMonotoneInAmount | app.py:34-42 | a larger contribution never gives a smaller future value; with a positive tenure and a positive larger amount, it gives a strictly larger one |
| Formulas.SipFutureValueMonotoneInRate | app.py:34-42 | a higher rate never gives a smaller future value |
| Formulas.RequiredSip | app.py:44-51 | contribution 0 for a non-positive target or tenure; F/(12t) at the zero rate; for a positive target F/(g·S(n)) at every rate, the target over the annuity-due factor |
| Formulas.RequiredSipInvertsFutureValue | app.py:34-51 | round trip: the contribution required to reach the future value of M is M |
| Formulas.FutureValueInvertsRequiredSip | app.py:34-51 | round trip: investing the required contribution reaches the target exactly |
| Formulas.RequiredSipIsLeastSufficient | app.py:34-51 | a monthly amount reaches a positive target if and only if it is at least the required contribution (a non-positive amount invests nothing) |
| Formulas.RemainingBalance | app.py:53-69 | the principal itself when the principal or tenure is non-positive, the elapsed years are negative or beyond the tenure, or none have elapsed; never negative for a real loan within the tenure |
| Formulas.UnclampedBalanceIsSchedule | app.py:68 | the balance formula P·g^m − EMI·(g^m − 1)/i is the month-by-month loan schedule |
| Formulas.RemainingBalanceUnclamped | app.py:60-69 | at a non-zero rate within the tenure the clamp at zero never changes the result, which is the schedule |
| Formulas.RemainingBalanceStraightLine | app.py:64-65 | at the zero rate the straight-line balance P·(1 − m/n) is the schedule that repays P/n a month |
| Formulas.RemainingBalanceFollowsSchedule | app.py:53-69 | within the tenure the reported balance is the month-by-month EMI schedule after 12e payments |
| Formulas.RemainingBalanceBounds | app.py:53-69 | for a real loan the reported balance lies between 0 and the principal for all tenures and elapsed years |
| Formulas.RemainingBalanceAtMaturity | app.py:53-69 | after the whole tenure the reported balance is 0 |
| Config.ExpectedReturnRate | app.py:13-17 | each known appetite maps to its table rate (low 6, moderate 9, high 12), always a valid positive rate |
| NetZero.StandardEmi | app.py:83 | the standard-loan instalment is 0 for a non-positive amount and positive otherwise |
| NetZero.StandardInterest | app.py:84 | the standard-loan interest is 0 only for a zero loan and positive for any other amount |
| NetZero.NetZeroInterest | app.py:83-109 | success if and only if the required contribution fits in budget − EMI; on success the reported contribution is the required one and the reported value is the interest; otherwise the reported contribution is the remainder floored at zero and the reported value is its future value; either way the contribution is between 0 and the floored remainder |
| NetZero.RequiredSipNonNegative | app.py:85 | the required contribution is never negative |
| NetZero.NetZeroSuccessReachesTarget | app.py:100-105 | on success, investing the reported contribution for 30 years at the appetite's rate really is worth the reported future value |
| NetZero.NetZeroDecisionByFutureValue | app.py:85-98 | for a non-zero loan: success if and only if investing the floored remainder is worth at least the interest; when not achievable, the reported value is below the interest |
| NetZero.NetZeroMonotoneInAppetite | app.py:81-109 | an appetite with a higher return never turns success into not achievable |
| MinTime.FirstOffsettingTenure | app.py:124-142 | the first tenure from a start year up to 30 that offsets its interest: it offsets, and no earlier tenure does; when there is none, no tenure in the range offsets |
| MinTime.MinTimeOutcome | app.py:121-173 | the reported years are within 1..30; success reports the least offsetting tenure, with a positive investment worth at least the interest and that tenure's figures; not achievable means no tenure in 1..30 offsets, and then the standard loan's figures with the floored remainder are reported |
| MinTime.MinTimeNetZero | app.py:121-173 | the ascending search loop with skip and early exit produces exactly MinTimeOutcome |
| MinTime.OffsetsMonotoneInRate | app.py:127-134 | a tenure that offsets its interest at some rate still does at any higher rate |
| MinTime.FirstOffsettingTenureMonotoneInRate | app.py:124-142 | at a higher rate an offsetting tenure exists whenever it does at the lower rate, and the first one comes no later |
| MinTime.MinTimeMonotoneInAppetite | app.py:119-173 | an appetite with a higher return never increases the reported minimum years, and keeps success |
| MinTime.NetZeroSuccessImpliesMinTimeFound | app.py:83-142 | for a non-zero loan, if the net-zero scenario succeeds then the minimum-time search finds a tenure |
| MaxGrowth.MaxGrowth | app.py:184-218 | success if and only if budget − EMI is positive; the outstanding balance is always reported; not achievable reports zero investment, value and net wealth; success reports net wealth = investment value − balance |
| MaxGrowth.MaxGrowthFollowsSchedules | app.py:203-205 | within the loan's life the balance is the month-by-month loan schedule, and on success the net wealth is the annuity-due minus that schedule |
| MaxGrowth.MaxGrowthAtMaturity | app.py:203-205 | at 30 years the balance is 0, and on success the net wealth is the whole investment value |
| MaxGrowth.MaxGrowthBalanceBounded | app.py:196-205 | for a real loan the balance is between 0 and the loan, so on success the net wealth lies between the value minus the loan and the value |
| MaxGrowth.MaxGrowthMonotoneInBudget | app.py:186-205 | a larger budget keeps success and never lowers the net wealth |
| MaxGrowth.MaxGrowthMonotoneInAppetite | app.py:184-205 | an appetite with a higher return never lowers the net wealth |

## Left out

- The HTTP layer is not modelled. This covers the Flask routes, JSON request parsing, CORS, `jsonify` and the development-server entry point (app.py:1-8, 72-80, 110-118, 174-183, 219-223). Each scenario is a function or method of its numeric inputs.
- The `guidanceMessage` and `recommendation` texts are not modelled. They are formatted prose, not computed figures.
- `chartData` is not modelled. It only repeats figures already in the report.
- Floating point is not modelled: all quantities are exact reals. So is the spelling of g^(-n) in `math.pow`: `Emi` uses 1/g^n, which is the same real number.
- Year counts are whole numbers (`int`). Python would also accept fractional tenures and periods, where 12·t months is not a whole number of payments.
- Missing or non-numeric JSON fields are not modelled. In the source they raise a `TypeError`.
- An unknown risk appetite is a precondition (`riskAppetite in RiskAppetiteReturns`). In the source the table lookup then yields `None`. Where the rate is used, the arithmetic on it raises. The precondition also excludes the inputs where the rate is never used and the source returns a normal report:
  - max-growth when the budget does not exceed the EMI, or when the period is not positive (app.py:35-36 returns first);
  - min-time when every tenure is skipped, because the fallback's contribution is then 0 (app.py:35-36);
  - net-zero with a zero loan, because the required contribution for a zero target is 0 (app.py:45-46).
- The helpers require an annual rate above −1200%, so that the monthly growth factor is positive. At −1200% the source's `math.pow(0, -n)` raises. The scenarios only use 6, 8, 9 and 12.
- Known numeric values are not proved, such as the EMI of 1,000,000 at 8% over 30 years (about 7337.65). Evaluating g^360 exactly is beyond the prover's arithmetic. The general identities above determine that value.
- MinTime.MinTimeNetZero: the source's `best_result` dictionary becomes four real variables. They start at 0 and are read only after a tenure is found.
