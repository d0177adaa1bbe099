# Loan amortization calculator — a Dafny model

This project models the computing core of a mortgage payoff calculator: the
function `calculateAmortization` and the two calculations the page runs with it.
The function takes the remaining balance, the annual rate, the term in years,
property taxes, an optional recurring extra payment and their start dates. It
returns the level monthly principal-and-interest payment, the month-by-month
amortization schedule, the totals and the payoff date. The page runs it once on
the form as entered. When an extra payment is entered, it runs it a second time
with the extra removed, to compare the two.

The model is organised as follows:

- `Calendar` (calendar.dfy): first-of-month dates as one integer month index
  `year * 12 + (month - 1)`. Moving a date by whole months and comparing dates
  are exact on that index.
- `LoanMath` (loan_math.dfy): frequency normalisation, `Math.ceil` and the
  level-payment formula. It also defines the balance left after `k` level
  payments, and proves that this balance follows the closed form, strictly
  falls and reaches exactly zero after the full term.
- `Amortization` (amortization.dfy): one pass of the monthly loop
  (`PaymentRow`, and the method `NextPayment` that reassigns the amounts as the
  loop body does), and the whole walk as a recursive function `Amortize`. The
  properties of the walk are proved here: numbering, chaining, running interest,
  termination, "more extra never hurts", and that with no extra it follows the
  level-payment balance.
- `Calculator` (calculator.dfy): the inputs and the result, and the
  specification `Calculate`. It also holds the imperative
  `CalculateAmortization`, whose `while` loop is proved to build exactly the
  schedule and result of `Calculate`. The form-level `Calculations` and
  `BaselineCalculations` and the headline lemmas live here too.

Money and rates are exact reals. Behaviour of the code worth knowing, which the
lemmas make precise:

- The loop stops once at most one cent is owed. So the last row closes at
  exactly zero only when the payoff clamp fires. Without extra payments the
  schedule runs the full term exactly when more than a cent is still owed
  going into the last month, and the last row closes at exactly zero exactly
  when it runs the full term (`Calculator.LevelScheduleRunsFullTerm`).
  Otherwise the schedule ends before the full term, by one or more months,
  with up to a cent left: a balance of 0.0149 at 12% a year over a quarter of
  a year is a three-month loan that stops after one row
  (`Calculator.SmallBalanceEndsEarly`).
- The clamp tests whether the scheduled principal plus the extra due reaches
  the balance. If so, it pays exactly the balance, records no extra and reports
  only the scheduled payment as the row's total. When the extra was needed to
  clear the balance, that total is below the principal plus interest actually
  applied (`Amortization.PaymentRowTotals`). The `else if` arm after it repeats
  a condition the first arm already covers, so it never runs
  (`Amortization.PaymentRowClamp`).
- The cap of twice the term never stops the loop. Every schedule fits in
  `Math.ceil(years * 12)` months (`Calculator.ScheduleWithinTerm`), because a
  level payment always exceeds the first month's interest and extra payments
  only shorten the walk.

## Model

| member | source | states |
|---|---|---|
| `Calendar.MonthIndex` | src/pages/Index.tsx:96-100 | definition: a first-of-month date as `year * 12 + (month - 1)`; properties in `MonthIndexRoundTrip` and `MonthIndexOrder` |
| `Calendar.YearOf` | src/pages/Index.tsx:171 | definition: the year shown for a month index; properties in `YearMonthRoundTrip` and `MonthIndexRoundTrip` |
| `Calendar.AddMonths` | src/pages/Index.tsx:111-112 | definition: `setMonth(getMonth() + k)` on a first-of-month date; properties in `AddMonthsRollsOver` |
| `Calendar.MonthOf` | src/pages/Index.tsx:171 | the month shown for a date is always one of 1..12 |
| `Calendar.YearMonthRoundTrip` | src/pages/Index.tsx:96-97 | every month index is the date built from its own year and month |
| `Calendar.MonthIndexRoundTrip` | src/pages/Index.tsx:96-97 | a date built from a year and a month 1..12 gives back that year and month |
| `Calendar.AddMonthsRollsOver` | src/pages/Index.tsx:111-112 | moving a first-of-month date by `k` months equals building it with month `month + k`, a month overflow rolling into the next years |
| `Calendar.MonthIndexOrder` | src/pages/Index.tsx:115 | comparing two first-of-month dates with `>=` is the (year, month) lexicographic order |
| `LoanMath.Pow` | src/pages/Index.tsx:93-94 | definition: `Math.pow` with a whole exponent; properties in `PowAboveOne` and `LevelPaymentSolves` |
| `LoanMath.Ceil` | src/pages/Index.tsx:91 | the result is the least integer not below `x` |
| `LoanMath.MonthlyAmount` | src/pages/Index.tsx:83-84 | an annual amount becomes a twelfth of itself per month, a monthly amount is kept; twelve (or one) monthly amounts give back the input |
| `LoanMath.LevelPayment` | src/pages/Index.tsx:93-94 | the level payment of a positive loan is above the first month's interest |
| `LoanMath.LevelPaymentSolves` | src/pages/Index.tsx:93-94 | the formula solves the level-payment equation `pmt * (q^n - 1) == P * r * q^n` |
| `LoanMath.BalanceAfterClosedForm` | src/pages/Index.tsx:93-94 | under a level payment the balance after `k` months is `P * (q^n - q^k) / (q^n - 1)` |
| `LoanMath.LevelPaymentRetiresLoan` | src/pages/Index.tsx:93-94 | under the level payment nothing is owed after exactly `n` months |
| `LoanMath.LevelPaymentAboveInterest` | src/pages/Index.tsx:93-94 | any payment solving the level-payment equation exceeds the first month's interest |
| `LoanMath.BalanceFallsEachMonth` | src/pages/Index.tsx:108-109 | a payment above the first month's interest makes the balance fall every month and never rise above the principal |
| `LoanMath.BalanceFallsBetween` | src/pages/Index.tsx:108-109 | under such a payment every later balance is below every earlier one |
| `LoanMath.BalanceAfterFalls` | src/pages/Index.tsx:93-94 | during the term the level-payment balance strictly falls and stays non-negative |
| `Amortization.MonthlyInterest` | src/pages/Index.tsx:108 | definition: a month's interest `balance * monthlyRate`; properties in `AmortizeInterestNonNegative` and `MoreExtraAmortizesNoSlower` |
| `Amortization.Max` | src/pages/Index.tsx:126 | definition: `Math.max` of two amounts; used by `ClosingBalance`, whose contract keeps a month from closing below zero |
| `Amortization.ExtraDue` | src/pages/Index.tsx:114-117 | the extra applied in a month is never negative |
| `Amortization.ClosingBalance` | src/pages/Index.tsx:126 | a month never closes below zero |
| `Amortization.PaymentRow` | src/pages/Index.tsx:107-140 | each row closes at its opening balance minus the principal it applies, never below zero, and records either no extra or the monthly extra |
| `Amortization.NextPayment` | src/pages/Index.tsx:108-140 | the loop body, with its in-place reassignments, builds exactly the row `PaymentRow` describes |
| `Amortization.PaymentRowClamp` | src/pages/Index.tsx:119-124 | when scheduled principal plus extra due reaches the balance the row pays exactly the balance, records no extra and closes at zero; otherwise it applies both and closes above zero; the row closes at zero exactly in the first case |
| `Amortization.PaymentRowExtra` | src/pages/Index.tsx:114-124 | a row's extra is the monthly extra exactly when extras have started, the monthly extra is positive and the clamp did not fire, and zero otherwise |
| `Amortization.PaymentRowTotals` | src/pages/Index.tsx:133-136 | a row's total is the scheduled payment plus its extra; outside the clamp it equals principal plus interest; in the clamped row it misses principal plus interest by the balance less the scheduled principal |
| `Amortization.EndingBalanceFormula` | src/pages/Index.tsx:126 | whatever branch the clamp takes, a row closes at `max(0, b + interest - payment - extra due)` |
| `Amortization.Amortize` | src/pages/Index.tsx:102-146 | definition of the loop as a walk over the balance; properties in `AmortizeStep`, `AmortizeLength`, `AmortizeNumbering`, `AmortizeChaining`, `AmortizeCumulative` and `MoreExtraAmortizesNoSlower` |
| `Amortization.SumInterest` | src/pages/Index.tsx:148 | definition: the interest summed over the rows; properties in `AmortizeCumulative`, `AmortizeInterestNonNegative` and `TotalsAgree` |
| `Amortization.SumPayments` | src/pages/Index.tsx:149 | definition: the total payments summed over the rows; properties in `SumPaymentsLevel` and `LevelSchedulePays` |
| `Amortization.AmortizeStep` | src/pages/Index.tsx:107-143 | while the loop guard holds the walk is the current row followed by the walk from its closing balance, and its length and interest add up accordingly |
| `Amortization.AmortizeLength` | src/pages/Index.tsx:107 | the walk has at most `2 * totalPayments - num + 1` rows, is empty exactly when at most a cent is owed or the cap is passed, and its last row closes at most a cent or is the capped payment |
| `Amortization.AmortizeNumbering` | src/pages/Index.tsx:111-112 | rows are numbered consecutively from `num`, one calendar month apart from the loan start |
| `Amortization.AmortizeChaining` | src/pages/Index.tsx:132-142 | the first row opens at the balance owed, each row opens at the previous row's closing balance, rows open above a cent and close non-negative, each row is one loop pass |
| `Amortization.AmortizeCumulative` | src/pages/Index.tsx:127-139 | each row's cumulative interest is the interest of every row up to and including it |
| `Amortization.AmortizeInterestNonNegative` | src/pages/Index.tsx:108-127 | at a non-negative rate every row's interest is non-negative, the cumulative interest never falls and the total is non-negative |
| `Amortization.MoreExtraAmortizesNoSlower` | src/pages/Index.tsx:114-126 | a larger extra payment from a balance no larger gives a schedule no longer and a total interest no larger |
| `Amortization.AmortizeWithoutExtra` | src/pages/Index.tsx:114-135 | with no positive extra every row records no extra and pays exactly the level payment |
| `Amortization.SumPaymentsLevel` | src/pages/Index.tsx:149 | rows that all pay the same amount pay that amount times their number |
| `Amortization.LevelWalkTracksBalance` | src/pages/Index.tsx:93-126 | with no extra due the walk follows the level-payment balances row by row, has at most the remaining term's rows and stops at the first balance of at most a cent |
| `Amortization.LevelClosing` | src/pages/Index.tsx:108-126 | within the term and with no extra, a month closes at the next level-payment balance |
| `Amortization.LevelWalkEnds` | src/pages/Index.tsx:90-146 | with no extra due the walk from the principal follows the level-payment balances, runs the full term exactly when more than a cent is owed going into the last month, and its last row closes at exactly zero exactly when it runs the full term |
| `Calculator.Valid` | src/pages/Index.tsx:86 | definition: the inputs the calculator accepts; properties in `Calculate`, `TotalPayments` and `TermsOf` |
| `Calculator.TotalPayments` | src/pages/Index.tsx:91 | a positive term has at least one payment, `ceil(years * 12)` of them |
| `Calculator.TermsOf` | src/pages/Index.tsx:90-94 | the monthly rate is positive and the level payment exceeds the first month's interest |
| `Calculator.Calculate` | src/pages/Index.tsx:86-88 | there is no result exactly when the balance, the rate or the term is not positive |
| `Calculator.CalculateAmortization` | src/pages/Index.tsx:71-174 | the imperative loop returns exactly the result `Calculate` specifies |
| `Calculator.Summarize` | src/pages/Index.tsx:148-173 | definition: the result assembled from the schedule; properties in `TotalsAgree`, `LevelSchedulePays` and `ExtraPaymentsNeverHurt` |
| `Calculator.ScheduleShape` | src/pages/Index.tsx:102-146 | the schedule is numbered from 1 one month apart, chained from the balance owed, and empty exactly when at most a cent is owed |
| `Calculator.TotalsAgree` | src/pages/Index.tsx:148-155 | the total interest is the last row's cumulative interest and is non-negative, the payoff years and months split the schedule length with months in 0..11, and the payoff date is the last row's month |
| `Calculator.ScheduleWithinTerm` | src/pages/Index.tsx:107 | the schedule never exceeds `ceil(years * 12)` rows and its last row closes at most a cent |
| `Calculator.WithoutExtra` | src/pages/Index.tsx:208-219 | the comparison loan is valid exactly when the loan is, and runs on the same terms with a zero monthly extra |
| `Calculator.ExtraPaymentsNeverHurt` | src/pages/Index.tsx:184-219 | with extra payments the loan has the same level payment, takes no more months and costs no more interest than without them |
| `Calculator.LevelScheduleRunsFullTerm` | src/pages/Index.tsx:90-146 | without extra payments row `k` opens at the balance after `k` level payments, the schedule runs the full term exactly when more than a cent is owed going into the last month, and its last row closes at exactly zero exactly when it runs the full term |
| `Calculator.LevelSchedulePays` | src/pages/Index.tsx:133-149 | without extra payments every row pays exactly the level payment and the total paid is level payment plus monthly taxes times the number of months |
| `Calculator.SmallBalanceEndsEarly` | src/pages/Index.tsx:86-146 | a balance of 0.0149 at 12% a year over a quarter of a year is a valid three-month loan with no extra whose schedule has a single row |
| `Calculator.RateOf` | src/pages/Index.tsx:179 | the rate field is a percentage: the fraction is a hundredth of it, zero when it does not parse |
| `Calculator.InputsOf` | src/pages/Index.tsx:177-195 | definition: the form's parsed values as the arguments of the calculation, each unparsed field taken as zero and the rate divided by 100; properties in `Calculations` |
| `Calculator.Calculations` | src/pages/Index.tsx:176-196 | there is no result exactly when the balance, the rate or the term is not positive after parsing; the result carries the original amount and the balance as entered |
| `Calculator.BaselineCalculations` | src/pages/Index.tsx:199-220 | there is a comparison exactly when a positive extra payment is entered and the main calculation has a result, and it carries no monthly extra |
| `Calculator.ComparisonFavoursExtra` | src/pages/Index.tsx:199-220 | whenever the comparison exists, the schedule with extras is no longer and costs no more interest, and the comparison pays exactly the level payment every month |

## Left out

- Text handling: `parseFloat` of the form fields and `split('-').map(Number)`
  of the date fields. The model takes their results as parameters, with `None`
  for a field that does not parse and an already split year and month.
  `Infinity` and negative zero from `parseFloat` are not modelled.
- Date formatting (`toLocaleDateString`) and currency formatting. Dates stay
  month indices; `Calendar.YearOf` and `Calendar.MonthOf` give the year and
  month shown.
- JavaScript `Date` quirks outside whole-month arithmetic: years 0..99 mapped to
  1900..1999 and invalid dates from malformed strings.
- IEEE-754 double rounding. All arithmetic is on exact reals, so the model does
  not capture rounding residue. That residue is why the code stops at one
  cent and caps the loop at twice the term.
- React state, memoisation, scrolling, printing, the contact form and all
  rendering.
