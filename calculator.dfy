/** The calculator proper: `calculateAmortization` turns the loan inputs into
    the full result (level payment, schedule, totals, payoff date), and the
    two callers run it on the form's values, once as entered and once with
    the extra payment removed for comparison. */
module Calculator {
  import opened LoanMath
  import opened Amortization
  import Calendar

  datatype Option<T> = None | Some(value: T)

  /** The arguments of `calculateAmortization`. Money is in dollars, the
      annual rate is a fraction (0.065 for 6.5%), dates are "YYYY-MM" values
      already split into year and month. */
  datatype LoanInputs = LoanInputs(
    principal: real,
    annualRate: real,
    years: real,
    taxAmount: real,
    taxFreq: Frequency,
    extraAmount: real,
    extraFreq: Frequency,
    loanStart: Calendar.YearMonth,
    extraStart: Calendar.YearMonth,
    original: real)

  /** The calculation result. The two dates are month indices (see
      `Calendar`); the page shows them as month and year. */
  datatype Calculation = Calculation(
    originalAmount: real,
    remainingBalance: real,
    monthlyPI: real,
    monthlyTaxes: real,
    monthlyExtra: real,
    totalMonthlyPayment: real,
    totalInterest: real,
    totalPaid: real,
    schedule: seq<Row>,
    payoffYears: int,
    payoffRemainingMonths: int,
    payoffMonth: int,
    extraPaymentStart: int)

  /** The inputs the calculator accepts: a positive balance, rate and term. */
  predicate Valid(inp: LoanInputs)
  {
    inp.principal > 0.0 && inp.annualRate > 0.0 && inp.years > 0.0
  }

  /** The number of monthly payments in the term, `Math.ceil(years * 12)`. */
  function TotalPayments(inp: LoanInputs): (n: nat)
    requires Valid(inp)
    ensures n >= 1 && inp.years * 12.0 <= n as real < inp.years * 12.0 + 1.0
  {
    Ceil(inp.years * 12.0)
  }

  /** The fixed terms the monthly loop runs on. */
  function TermsOf(inp: LoanInputs): (t: Terms)
    requires Valid(inp)
    ensures t.monthlyRate > 0.0 && t.totalPayments >= 1
    ensures t.monthlyPI > inp.principal * t.monthlyRate
  {
    var rate := inp.annualRate / 12.0;
    var n := TotalPayments(inp);
    Terms(rate, LevelPayment(inp.principal, rate, n), MonthlyAmount(inp.extraAmount, inp.extraFreq),
          Calendar.MonthIndex(inp.loanStart), Calendar.MonthIndex(inp.extraStart), n)
  }

  /** The result built from a finished schedule: the totals are sums over
      its rows plus the monthly taxes for each month it runs, and it pays off
      in its last month. */
  function Summarize(inp: LoanInputs, t: Terms, schedule: seq<Row>): Calculation
  {
    var monthlyTaxes := MonthlyAmount(inp.taxAmount, inp.taxFreq);
    var payoffMonths := |schedule|;
    Calculation(
      inp.original, inp.principal, t.monthlyPI, monthlyTaxes, t.monthlyExtra,
      t.monthlyPI + monthlyTaxes + t.monthlyExtra,
      SumInterest(schedule),
      SumPayments(schedule) + monthlyTaxes * payoffMonths as real,
      schedule, payoffMonths / 12, payoffMonths % 12,
      Calendar.AddMonths(t.loanStart, payoffMonths - 1), t.extraStart)
  }

  /** What `calculateAmortization` returns: nothing for a non-positive
      balance, rate or term, otherwise the schedule of the monthly loop and
      the totals drawn from it. */
  function Calculate(inp: LoanInputs): (r: Option<Calculation>)
    ensures r.None? <==> !Valid(inp)
  {
    if !Valid(inp) then None
    else
      var t := TermsOf(inp);
      Some(Summarize(inp, t, Amortize(t, inp.principal, 0.0, 1)))
  }

  /** `calculateAmortization`, step by step: the monthly loop pushes one row
      per pass onto the schedule and stops once at most a cent is owed, after
      twice the term, or when the balance reaches zero. */
  method CalculateAmortization(inp: LoanInputs) returns (res: Option<Calculation>)
    ensures res == Calculate(inp)
  {
    var monthlyTaxes := MonthlyAmount(inp.taxAmount, inp.taxFreq);
    var monthlyExtra := MonthlyAmount(inp.extraAmount, inp.extraFreq);
    if inp.principal <= 0.0 || inp.annualRate <= 0.0 || inp.years <= 0.0 {
      return None;
    }
    var monthlyRate := inp.annualRate / 12.0;
    var totalPayments := Ceil(inp.years * 12.0);
    var monthlyPI := LevelPayment(inp.principal, monthlyRate, totalPayments);
    var paymentStart := Calendar.MonthIndex(inp.loanStart);
    var extraPaymentStart := Calendar.MonthIndex(inp.extraStart);
    var t := Terms(monthlyRate, monthlyPI, monthlyExtra, paymentStart, extraPaymentStart, totalPayments);
    assert t == TermsOf(inp);

    var schedule: seq<Row> := [];
    var balance := inp.principal;
    var cumulativeInterest := 0.0;
    var paymentNum := 1;
    while balance > PaidOffThreshold && paymentNum <= totalPayments * 2
      invariant 1 <= paymentNum <= 2 * totalPayments + 1
      invariant schedule + Amortize(t, balance, cumulativeInterest, paymentNum) == Amortize(t, inp.principal, 0.0, 1)
      decreases 2 * totalPayments + 1 - paymentNum
    {
      var row := NextPayment(t, paymentNum, balance, cumulativeInterest);
      AmortizeStep(t, balance, cumulativeInterest, paymentNum);
      EndingBalanceFormula(t, paymentNum, balance, cumulativeInterest);
      ghost var rest := Amortize(t, row.endingBalance, row.cumulativeInterest, paymentNum + 1);
      assert (schedule + [row]) + rest == schedule + ([row] + rest);
      schedule := schedule + [row];
      balance := row.endingBalance;
      cumulativeInterest := row.cumulativeInterest;
      paymentNum := paymentNum + 1;
      if balance <= 0.0 {
        break;
      }
    }
    assert schedule == Amortize(t, inp.principal, 0.0, 1);

    res := Some(Summarize(inp, t, schedule));
  }

  // ---------------------------------------------------------------------
  // The result

  /** The schedule starts at the balance owed, numbers its payments 1, 2, ...
      one calendar month apart from the loan's start month, chains each row's
      opening balance to the previous row's closing balance, and is empty
      exactly when at most a cent is owed. */
  lemma ScheduleShape(inp: LoanInputs)
    requires Valid(inp)
    ensures var s := Calculate(inp).value.schedule;
            var t := TermsOf(inp);
            && Numbered(s, t, 1)
            && Chained(s, t, 1, inp.principal, 0.0)
            && (s == [] <==> inp.principal <= PaidOffThreshold)
  {
    var t := TermsOf(inp);
    AmortizeNumbering(t, inp.principal, 0.0, 1);
    AmortizeChaining(t, inp.principal, 0.0, 1);
    AmortizeLength(t, inp.principal, 0.0, 1);
  }

  /** The totals agree with the schedule: the total interest is the last
      row's running interest and is never negative, the payoff time splits
      the number of payments into whole years and 0..11 months, and the
      payoff date is the month of the last payment. */
  lemma TotalsAgree(inp: LoanInputs)
    requires Valid(inp)
    ensures var c := Calculate(inp).value;
            var s := c.schedule;
            && c.totalInterest >= 0.0
            && (s != [] ==> c.totalInterest == s[|s| - 1].cumulativeInterest)
            && c.payoffYears * 12 + c.payoffRemainingMonths == |s|
            && 0 <= c.payoffRemainingMonths < 12
            && (s != [] ==> c.payoffMonth == s[|s| - 1].paymentMonth)
  {
    var t := TermsOf(inp);
    var s := Amortize(t, inp.principal, 0.0, 1);
    AmortizeInterestNonNegative(t, inp.principal, 0.0, 1);
    AmortizeCumulative(t, inp.principal, 0.0, 1);
    AmortizeNumbering(t, inp.principal, 0.0, 1);
    if s != [] {
      assert s[..|s| - 1 + 1] == s;
    }
  }

  /** The loan is paid off within its term: the schedule never has more
      rows than `Math.ceil(years * 12)`, so the cap of twice the term is
      never what stops it, and the last row closes at most a cent. */
  lemma ScheduleWithinTerm(inp: LoanInputs)
    requires Valid(inp)
    ensures var s := Calculate(inp).value.schedule;
            && |s| <= TotalPayments(inp)
            && (s != [] ==> s[|s| - 1].endingBalance <= PaidOffThreshold)
  {
    var t := TermsOf(inp);
    var s := Amortize(t, inp.principal, 0.0, 1);
    var level := Amortize(t.(monthlyExtra := 0.0), inp.principal, 0.0, 1);
    assert |level| <= t.totalPayments by {
      LevelPaymentSolves(inp.principal, t.monthlyRate, t.totalPayments);
      LevelWalkTracksBalance(t.(monthlyExtra := 0.0), inp.principal, 0, 0.0);
    }
    assert |s| <= |level| by {
      MoreExtraAmortizesNoSlower(t, 0.0, t.monthlyExtra, inp.principal, inp.principal, 0.0, 0.0, 1);
      assert t.(monthlyExtra := t.monthlyExtra) == t;
    }
    AmortizeLength(t, inp.principal, 0.0, 1);
    AmortizeNumbering(t, inp.principal, 0.0, 1);
  }

  /** The inputs the comparison schedule runs on: the same loan with no
      extra payment. */
  function WithoutExtra(inp: LoanInputs): (base: LoanInputs)
    ensures Valid(base) <==> Valid(inp)
    ensures Valid(inp) ==> TermsOf(base) == TermsOf(inp).(monthlyExtra := 0.0)
  {
    inp.(extraAmount := 0.0, extraFreq := Monthly)
  }

  /** Extra payments never make things worse: with them the loan takes no
      more months and costs no more interest than without them, at the same
      level payment. */
  lemma ExtraPaymentsNeverHurt(inp: LoanInputs)
    requires Valid(inp)
    ensures var c := Calculate(inp).value;
            var b := Calculate(WithoutExtra(inp)).value;
            && c.monthlyPI == b.monthlyPI
            && |c.schedule| <= |b.schedule|
            && c.totalInterest <= b.totalInterest
  {
    var t := TermsOf(inp);
    MoreExtraAmortizesNoSlower(t, 0.0, t.monthlyExtra, inp.principal, inp.principal, 0.0, 0.0, 1);
    assert t.(monthlyExtra := t.monthlyExtra) == t;
  }

  /** Without extra payments the schedule is the level-payment loan: row `k`
      opens at the balance left after `k` level payments, and the schedule
      runs the full term exactly when more than a cent is still owed going
      into the last month. The last row closes at exactly zero exactly when
      the full term runs; a shorter schedule stops with up to a cent owed. */
  lemma LevelScheduleRunsFullTerm(inp: LoanInputs)
    requires Valid(inp) && inp.extraAmount <= 0.0
    ensures var t := TermsOf(inp);
            var n := TotalPayments(inp);
            var s := Calculate(inp).value.schedule;
            && Follows(s, LevelBalances(inp.principal, t.monthlyRate, t.monthlyPI, n), 0)
            && (|s| == n <==> BalanceAfter(inp.principal, t.monthlyRate, t.monthlyPI, n - 1) > PaidOffThreshold)
            && (|s| == n ==> s[n - 1].endingBalance == 0.0)
            && (s != [] && s[|s| - 1].endingBalance == 0.0 ==> |s| == n)
  {
    LevelPaymentSolves(inp.principal, TermsOf(inp).monthlyRate, TotalPayments(inp));
    LevelWalkEnds(TermsOf(inp), inp.principal);
  }

  /** A small balance can stop the schedule several months before the end of
      the term: 0.0149 at 12% a year over a quarter of a year is a
      three-month loan, yet a cent or less is owed after the first payment. */
  lemma SmallBalanceEndsEarly()
    ensures var inp := LoanInputs(0.0149, 0.12, 0.25, 0.0, Monthly, 0.0, Monthly,
                                  Calendar.YearMonth(2024, 1), Calendar.YearMonth(2024, 1), 0.0149);
            && Valid(inp) && inp.extraAmount <= 0.0
            && TotalPayments(inp) == 3
            && |Calculate(inp).value.schedule| == 1
  {
    var inp := LoanInputs(0.0149, 0.12, 0.25, 0.0, Monthly, 0.0, Monthly,
                          Calendar.YearMonth(2024, 1), Calendar.YearMonth(2024, 1), 0.0149);
    var t := TermsOf(inp);
    assert TotalPayments(inp) == 3;
    assert t.monthlyRate == 0.01;
    assert Pow(1.01, 3) == 1.030301;
    assert t.monthlyPI * 0.030301 == 0.0149 * (0.01 * 1.030301);
    var closing := ClosingBalance(t, 1, 0.0149);
    assert closing <= PaidOffThreshold;
    AmortizeStep(t, 0.0149, 0.0, 1);
    AmortizeLength(t, closing, MonthlyInterest(t, 0.0149), 2);
  }

  /** Without extra payments every row pays exactly the level payment, so
      everything paid is the level payment plus the monthly taxes, once per
      month of the schedule. */
  lemma LevelSchedulePays(inp: LoanInputs)
    requires Valid(inp) && inp.extraAmount <= 0.0
    ensures var c := Calculate(inp).value;
            var s := c.schedule;
            && (forall k :: 0 <= k < |s| ==> s[k].extraPayment == 0.0 && s[k].totalPayment == c.monthlyPI)
            && c.totalPaid == (c.monthlyPI + c.monthlyTaxes) * |s| as real
  {
    var t := TermsOf(inp);
    var s := Amortize(t, inp.principal, 0.0, 1);
    AmortizeWithoutExtra(t, inp.principal, 0.0, 1);
    SumPaymentsLevel(s, t.monthlyPI);
  }

  // ---------------------------------------------------------------------
  // The page's two calculations

  /** The form's fields as the page holds them: each number is what
      `parseFloat` makes of the text, `None` when it does not parse, and the
      two dates are already split into year and month. */
  datatype FormValues = FormValues(
    originalLoanAmount: Option<real>,
    remainingBalance: Option<real>,
    interestRate: Option<real>,
    loanTermYears: Option<real>,
    startDate: Calendar.YearMonth,
    propertyTaxes: Option<real>,
    taxFrequency: Frequency,
    extraPayment: Option<real>,
    extraFrequency: Frequency,
    extraPaymentStartDate: Calendar.YearMonth)

  /** `parsed || 0`: a field that does not parse counts as zero. */
  function OrZero(v: Option<real>): (x: real)
    ensures v.None? ==> x == 0.0
    ensures v.Some? ==> x == v.value
  {
    if v.Some? then v.value else 0.0
  }

  /** The rate field is a percentage; the calculator takes a fraction. */
  function RateOf(v: Option<real>): (r: real)
    ensures v.None? ==> r == 0.0
    ensures v.Some? ==> 100.0 * r == v.value
  {
    if v.Some? then v.value / 100.0 else 0.0
  }

  /** The arguments the page passes for the form as entered. */
  function InputsOf(form: FormValues): LoanInputs
  {
    LoanInputs(OrZero(form.remainingBalance), RateOf(form.interestRate), OrZero(form.loanTermYears),
               OrZero(form.propertyTaxes), form.taxFrequency,
               OrZero(form.extraPayment), form.extraFrequency,
               form.startDate, form.extraPaymentStartDate, OrZero(form.originalLoanAmount))
  }

  /** The main calculation: nothing until the balance, the rate and the term
      all parse to positive numbers. */
  function Calculations(form: FormValues): (r: Option<Calculation>)
    ensures r.None? <==> (OrZero(form.remainingBalance) <= 0.0 || RateOf(form.interestRate) <= 0.0
                          || OrZero(form.loanTermYears) <= 0.0)
    ensures r.Some? ==> r.value.originalAmount == OrZero(form.originalLoanAmount)
                        && r.value.remainingBalance == OrZero(form.remainingBalance)
  {
    Calculate(InputsOf(form))
  }

  /** The comparison calculation: only when a positive extra payment is
      entered, the same loan run with no extra payment at all. */
  function BaselineCalculations(form: FormValues): (r: Option<Calculation>)
    ensures r.Some? <==> OrZero(form.extraPayment) > 0.0 && Calculations(form).Some?
    ensures r.Some? ==> r.value.monthlyExtra == 0.0
  {
    if OrZero(form.extraPayment) <= 0.0 then None
    else Calculate(WithoutExtra(InputsOf(form)))
  }

  /** Whenever the page shows the comparison, the schedule with extra
      payments is no longer and costs no more interest than the comparison,
      and the comparison itself pays exactly the level payment every month. */
  lemma ComparisonFavoursExtra(form: FormValues)
    requires BaselineCalculations(form).Some?
    ensures var c := Calculations(form).value;
            var b := BaselineCalculations(form).value;
            && |c.schedule| <= |b.schedule|
            && c.totalInterest <= b.totalInterest
            && (forall k :: 0 <= k < |b.schedule| ==> b.schedule[k].totalPayment == b.monthlyPI)
  {
    var inp := InputsOf(form);
    ExtraPaymentsNeverHurt(inp);
    LevelSchedulePays(WithoutExtra(inp));
  }
}
