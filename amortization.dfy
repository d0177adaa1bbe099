/** The month-by-month amortization walk: one payment row per month,
    interest accrued on the running balance, the level payment plus any
    extra payment due applied to principal, and a clamp that pays the
    balance off exactly in the final month. */
module Amortization {
  import opened LoanMath
  import Calendar

  /** One line of the amortization table. `paymentMonth` is a month index
      (see `Calendar`); the table shows it as a month and year. */
  datatype Row = Row(
    paymentNumber: int,
    paymentMonth: int,
    beginningBalance: real,
    scheduledPayment: real,
    extraPayment: real,
    totalPayment: real,
    principal: real,
    interest: real,
    endingBalance: real,
    cumulativeInterest: real)

  /** What stays fixed while the schedule is walked. */
  datatype Terms = Terms(
    monthlyRate: real,
    monthlyPI: real,
    monthlyExtra: real,
    loanStart: int,
    extraStart: int,
    totalPayments: int)

  /** Balances at or below one cent count as paid off. */
  const PaidOffThreshold: real := 0.01

  function Max(a: real, b: real): real
  {
    if a >= b then a else b
  }

  /** The extra payment due in `month`: the monthly extra, once the extra
      payments have started and only if it is positive. */
  function ExtraDue(t: Terms, month: int): (e: real)
    ensures e >= 0.0
  {
    if month >= t.extraStart && t.monthlyExtra > 0.0 then t.monthlyExtra else 0.0
  }

  /** A month's interest on `balance` at the monthly rate. */
  function MonthlyInterest(t: Terms, balance: real): real
  {
    balance * t.monthlyRate
  }

  /** The balance a month closes at: the opening balance plus its interest
      less the scheduled payment and the extra due, floored at zero. */
  function ClosingBalance(t: Terms, num: int, balance: real): (closing: real)
    ensures closing >= 0.0
  {
    Max(0.0, balance + MonthlyInterest(t, balance) - t.monthlyPI
             - ExtraDue(t, Calendar.AddMonths(t.loanStart, num - 1)))
  }

  /** The row for payment number `num`, opening at `balance` after
      `cumulative` interest so far: one pass of the calculator's loop body.
      Whatever the branch, the balance falls by exactly the principal
      applied and never goes negative. */
  function PaymentRow(t: Terms, num: int, balance: real, cumulative: real): (row: Row)
    ensures row.endingBalance >= 0.0
    ensures row.endingBalance == row.beginningBalance - row.principal
    ensures row.extraPayment >= 0.0
    ensures row.extraPayment == 0.0 || row.extraPayment == t.monthlyExtra
  {
    var interest := MonthlyInterest(t, balance);
    var scheduledPrincipal := t.monthlyPI - interest;
    var month := Calendar.AddMonths(t.loanStart, num - 1);
    var due := ExtraDue(t, month);
    // The clamp reassigns both amounts when the payment would reach the
    // balance; its `else if` arm tests a condition the first arm already
    // covers and is kept as written.
    var principalPayment := if scheduledPrincipal + due >= balance then balance else scheduledPrincipal;
    var actualExtra :=
      if scheduledPrincipal + due >= balance then 0.0
      else if scheduledPrincipal + due > balance then balance - scheduledPrincipal
      else due;
    Row(num, month, balance, t.monthlyPI, actualExtra, t.monthlyPI + actualExtra,
        principalPayment + actualExtra, interest, Max(0.0, balance - principalPayment - actualExtra),
        cumulative + interest)
  }

  /** One pass of the monthly loop, with the amounts reassigned in place as
      the loop body does; it builds exactly the row `PaymentRow` describes. */
  method NextPayment(t: Terms, paymentNum: int, balance: real, cumulativeInterest: real) returns (row: Row)
    ensures row == PaymentRow(t, paymentNum, balance, cumulativeInterest)
  {
    var interestPayment := MonthlyInterest(t, balance);
    var principalPayment := t.monthlyPI - interestPayment;
    var currentPaymentDate := Calendar.AddMonths(t.loanStart, paymentNum - 1);
    var actualExtra := 0.0;
    if currentPaymentDate >= t.extraStart && t.monthlyExtra > 0.0 {
      actualExtra := t.monthlyExtra;
    }
    if principalPayment + actualExtra >= balance {
      principalPayment := balance;
      actualExtra := 0.0;
    } else if principalPayment + actualExtra > balance {
      actualExtra := balance - principalPayment;
    }
    var endingBalance := Max(0.0, balance - principalPayment - actualExtra);
    row := Row(paymentNum, currentPaymentDate, balance, t.monthlyPI, actualExtra,
               t.monthlyPI + actualExtra, principalPayment + actualExtra, interestPayment,
               endingBalance, cumulativeInterest + interestPayment);
  }

  /** The rows the calculator pushes, starting from payment number `num` at
      `balance`: it goes on while more than a cent is owed and at most
      `2 * totalPayments` payments have been made. */
  function Amortize(t: Terms, balance: real, cumulative: real, num: int): seq<Row>
    decreases 2 * t.totalPayments - num + 1
  {
    if balance > PaidOffThreshold && num <= 2 * t.totalPayments then
      var row := PaymentRow(t, num, balance, cumulative);
      [row] + Amortize(t, row.endingBalance, row.cumulativeInterest, num + 1)
    else
      []
  }

  /** Sum of the rows' interest (`reduce` over `row.interest`). */
  function SumInterest(rows: seq<Row>): real
  {
    if rows == [] then 0.0 else rows[0].interest + SumInterest(rows[1..])
  }

  /** Sum of the rows' total payments (`reduce` over `row.totalPayment`). */
  function SumPayments(rows: seq<Row>): real
  {
    if rows == [] then 0.0 else rows[0].totalPayment + SumPayments(rows[1..])
  }

  // ---------------------------------------------------------------------
  // One row

  /** The payoff clamp. When the scheduled principal plus the extra due
      reaches the opening balance, the row pays exactly that balance, drops
      the extra and closes at zero; otherwise it applies both in full and
      closes above zero. The `else if` branch of the code never runs. */
  lemma PaymentRowClamp(t: Terms, num: int, balance: real, cumulative: real)
    ensures var row := PaymentRow(t, num, balance, cumulative);
            var due := ExtraDue(t, Calendar.AddMonths(t.loanStart, num - 1));
            var scheduledPrincipal := t.monthlyPI - MonthlyInterest(t, balance);
            && (scheduledPrincipal + due >= balance ==>
                  row.extraPayment == 0.0 && row.principal == balance && row.endingBalance == 0.0)
            && (scheduledPrincipal + due < balance ==>
                  row.extraPayment == due && row.principal == scheduledPrincipal + due
                  && row.endingBalance == balance - scheduledPrincipal - due > 0.0)
            && (row.endingBalance == 0.0 <==> scheduledPrincipal + due >= balance)
  {
  }

  /** A row's extra payment is the monthly extra exactly when the extra
      payments have started, the monthly extra is positive and the clamp
      did not fire; otherwise it is zero. */
  lemma PaymentRowExtra(t: Terms, num: int, balance: real, cumulative: real)
    ensures var row := PaymentRow(t, num, balance, cumulative);
            var month := Calendar.AddMonths(t.loanStart, num - 1);
            var clamped := t.monthlyPI - MonthlyInterest(t, balance) + ExtraDue(t, month) >= balance;
            && (row.extraPayment == t.monthlyExtra && t.monthlyExtra != 0.0
                <==> month >= t.extraStart && t.monthlyExtra > 0.0 && !clamped)
            && (!(month >= t.extraStart && t.monthlyExtra > 0.0 && !clamped) ==> row.extraPayment == 0.0)
  {
  }

  /** What a row reports as paid. Its total is the scheduled payment plus the
      extra it records. Outside the clamp that total is exactly principal
      plus interest. In the clamped final row the total stays at the
      scheduled payment and misses principal plus interest by the balance
      less the scheduled principal: an extra payment that was needed to
      clear the balance is applied but not reported. */
  lemma PaymentRowTotals(t: Terms, num: int, balance: real, cumulative: real)
    ensures var row := PaymentRow(t, num, balance, cumulative);
            var due := ExtraDue(t, Calendar.AddMonths(t.loanStart, num - 1));
            var scheduledPrincipal := t.monthlyPI - MonthlyInterest(t, balance);
            && row.totalPayment == row.scheduledPayment + row.extraPayment
            && row.scheduledPayment == t.monthlyPI
            && (scheduledPrincipal + due < balance ==> row.totalPayment == row.principal + row.interest)
            && (scheduledPrincipal + due >= balance ==>
                  row.totalPayment == t.monthlyPI
                  && row.principal + row.interest - row.totalPayment == balance - scheduledPrincipal)
  {
  }

  /** Whatever branch the clamp takes, the row closes at `ClosingBalance`. */
  lemma EndingBalanceFormula(t: Terms, num: int, balance: real, cumulative: real)
    ensures PaymentRow(t, num, balance, cumulative).endingBalance == ClosingBalance(t, num, balance)
  {
  }

  // ---------------------------------------------------------------------
  // The whole walk

  /** The walk stops at the cap or at payoff: it produces at most
      `2 * totalPayments - num + 1` rows, none at all exactly when the
      opening balance is already at most a cent or the cap is passed, and
      its last row closes at most a cent or is the capped payment. */
  lemma {:induction false} AmortizeLength(t: Terms, balance: real, cumulative: real, num: int)
    ensures var rows := Amortize(t, balance, cumulative, num);
            && |rows| <= (if num <= 2 * t.totalPayments then 2 * t.totalPayments - num + 1 else 0)
            && (rows == [] <==> balance <= PaidOffThreshold || num > 2 * t.totalPayments)
            && (rows != [] ==> rows[|rows| - 1].endingBalance <= PaidOffThreshold
                               || rows[|rows| - 1].paymentNumber == 2 * t.totalPayments)
    decreases 2 * t.totalPayments - num + 1
  {
    if balance > PaidOffThreshold && num <= 2 * t.totalPayments {
      var row := PaymentRow(t, num, balance, cumulative);
      AmortizeLength(t, row.endingBalance, row.cumulativeInterest, num + 1);
    }
  }

  /** Rows numbered consecutively from `num`, one calendar month apart,
      starting `num - 1` months after the loan's first payment month. */
  ghost predicate Numbered(rows: seq<Row>, t: Terms, num: int)
  {
    forall k :: 0 <= k < |rows| ==>
      rows[k].paymentNumber == num + k
      && rows[k].paymentMonth == Calendar.AddMonths(t.loanStart, num + k - 1)
  }

  /** Rows are numbered consecutively from `num`, one calendar month apart
      starting at the loan's first payment month. */
  lemma {:induction false} AmortizeNumbering(t: Terms, balance: real, cumulative: real, num: int)
    ensures Numbered(Amortize(t, balance, cumulative, num), t, num)
    decreases 2 * t.totalPayments - num + 1
  {
    if balance > PaidOffThreshold && num <= 2 * t.totalPayments {
      var row := PaymentRow(t, num, balance, cumulative);
      var rest := Amortize(t, row.endingBalance, row.cumulativeInterest, num + 1);
      AmortizeNumbering(t, row.endingBalance, row.cumulativeInterest, num + 1);
      var rows := [row] + rest;
      forall k | 0 < k < |rows|
        ensures rows[k].paymentNumber == num + k
        ensures rows[k].paymentMonth == Calendar.AddMonths(t.loanStart, num + k - 1)
      {
        assert rows[k] == rest[k - 1];
      }
    }
  }

  /** Balances chain: the first row opens at `balance`, each later row opens
      at the previous row's closing balance; every row opens above a cent
      and closes at or above zero, and each row is the loop body applied to
      its opening balance and the previous cumulative interest. */
  ghost predicate Chained(rows: seq<Row>, t: Terms, num: int, balance: real, cumulative: real)
  {
    && (rows != [] ==> rows[0].beginningBalance == balance)
    && (forall k :: 0 < k < |rows| ==> rows[k].beginningBalance == rows[k - 1].endingBalance)
    && (forall k :: 0 <= k < |rows| ==>
          rows[k].beginningBalance > PaidOffThreshold && rows[k].endingBalance >= 0.0)
    && (forall k :: 0 <= k < |rows| ==>
          rows[k] == PaymentRow(t, num + k, rows[k].beginningBalance,
                                if k == 0 then cumulative else rows[k - 1].cumulativeInterest))
  }

  /** The rows of the walk chain from `balance` and `cumulative`. */
  lemma {:induction false} AmortizeChaining(t: Terms, balance: real, cumulative: real, num: int)
    ensures Chained(Amortize(t, balance, cumulative, num), t, num, balance, cumulative)
    decreases 2 * t.totalPayments - num + 1
  {
    if balance > PaidOffThreshold && num <= 2 * t.totalPayments {
      var row := PaymentRow(t, num, balance, cumulative);
      AmortizeChaining(t, row.endingBalance, row.cumulativeInterest, num + 1);
      ChainedCons(row, Amortize(t, row.endingBalance, row.cumulativeInterest, num + 1),
                  t, num, balance, cumulative);
    }
  }

  lemma ChainedCons(row: Row, rest: seq<Row>, t: Terms, num: int, balance: real, cumulative: real)
    requires balance > PaidOffThreshold && row == PaymentRow(t, num, balance, cumulative)
    requires Chained(rest, t, num + 1, row.endingBalance, row.cumulativeInterest)
    ensures Chained([row] + rest, t, num, balance, cumulative)
  {
    var rows := [row] + rest;
    forall k | 0 < k < |rows|
      ensures rows[k].beginningBalance == rows[k - 1].endingBalance
      ensures rows[k] == PaymentRow(t, num + k, rows[k].beginningBalance, rows[k - 1].cumulativeInterest)
    {
      var j := k - 1;
      assert rows[k] == rest[j];
      assert num + 1 + j == num + k;
      assert forall i :: 0 <= i < |rest| ==> rest[i] == PaymentRow(t, num + 1 + i, rest[i].beginningBalance,
                                if i == 0 then row.cumulativeInterest else rest[i - 1].cumulativeInterest);
      assert rest[j] == PaymentRow(t, num + 1 + j, rest[j].beginningBalance,
                                   if j == 0 then row.cumulativeInterest else rest[j - 1].cumulativeInterest);
      if k > 1 {
        assert rows[k - 1] == rest[j - 1];
      }
    }
  }

  /** Each row's cumulative interest is `cumulative` plus the interest of
      every row up to and including it. */
  ghost predicate CumulativeFrom(rows: seq<Row>, cumulative: real)
  {
    forall k :: 0 <= k < |rows| ==>
      rows[k].cumulativeInterest == cumulative + SumInterest(rows[..k + 1])
  }

  /** Each row's cumulative interest is the opening `cumulative` plus the
      interest of every row up to and including it. */
  lemma {:induction false} AmortizeCumulative(t: Terms, balance: real, cumulative: real, num: int)
    ensures CumulativeFrom(Amortize(t, balance, cumulative, num), cumulative)
    decreases 2 * t.totalPayments - num + 1
  {
    if balance > PaidOffThreshold && num <= 2 * t.totalPayments {
      var row := PaymentRow(t, num, balance, cumulative);
      var rest := Amortize(t, row.endingBalance, row.cumulativeInterest, num + 1);
      AmortizeCumulative(t, row.endingBalance, row.cumulativeInterest, num + 1);
      var rows := [row] + rest;
      forall k | 0 <= k < |rows|
        ensures rows[k].cumulativeInterest == cumulative + SumInterest(rows[..k + 1])
      {
        assert rows[..k + 1][0] == row;
        assert rows[..k + 1][1..] == rest[..k];
        assert SumInterest(rows[..k + 1]) == row.interest + SumInterest(rest[..k]);
        if k > 0 {
          assert rows[k] == rest[k - 1];
          assert rest[k - 1].cumulativeInterest == row.cumulativeInterest + SumInterest(rest[..k]);
        } else {
          assert SumInterest(rest[..0]) == 0.0;
        }
      }
    }
  }

  /** Every row's interest is non-negative. */
  ghost predicate InterestNonNegative(rows: seq<Row>)
  {
    forall k :: 0 <= k < |rows| ==> rows[k].interest >= 0.0
  }

  /** With a non-negative rate every row's interest is non-negative, so the
      cumulative interest never falls from one row to the next and the
      total interest is non-negative. */
  lemma {:induction false} AmortizeInterestNonNegative(t: Terms, balance: real, cumulative: real, num: int)
    requires t.monthlyRate >= 0.0
    ensures var rows := Amortize(t, balance, cumulative, num);
            && InterestNonNegative(rows)
            && SumInterest(rows) >= 0.0
            && (rows != [] ==> rows[0].cumulativeInterest >= cumulative)
            && (forall k :: 0 < k < |rows| ==> rows[k - 1].cumulativeInterest <= rows[k].cumulativeInterest)
    decreases 2 * t.totalPayments - num + 1
  {
    if balance > PaidOffThreshold && num <= 2 * t.totalPayments {
      var row := PaymentRow(t, num, balance, cumulative);
      var rest := Amortize(t, row.endingBalance, row.cumulativeInterest, num + 1);
      AmortizeInterestNonNegative(t, row.endingBalance, row.cumulativeInterest, num + 1);
      InterestMonotone(t, t, balance, 0.0);
      var rows := [row] + rest;
      assert rows[1..] == rest;
      forall k | 0 < k < |rows|
        ensures rows[k].interest >= 0.0
        ensures rows[k - 1].cumulativeInterest <= rows[k].cumulativeInterest
      {
        assert rows[k] == rest[k - 1];
        if k > 1 {
          assert rows[k - 1] == rest[k - 2];
        }
      }
    }
  }

  /** Every row records no extra payment and pays exactly `payment`. */
  ghost predicate PaysLevel(rows: seq<Row>, payment: real)
  {
    forall k :: 0 <= k < |rows| ==> rows[k].extraPayment == 0.0 && rows[k].totalPayment == payment
  }

  /** With no positive extra payment every row of the walk records no extra
      and pays exactly the scheduled level payment. */
  lemma {:induction false} AmortizeWithoutExtra(t: Terms, balance: real, cumulative: real, num: int)
    requires t.monthlyExtra <= 0.0
    ensures PaysLevel(Amortize(t, balance, cumulative, num), t.monthlyPI)
    decreases 2 * t.totalPayments - num + 1
  {
    if balance > PaidOffThreshold && num <= 2 * t.totalPayments {
      var row := PaymentRow(t, num, balance, cumulative);
      var rest := Amortize(t, row.endingBalance, row.cumulativeInterest, num + 1);
      PaymentRowTotals(t, num, balance, cumulative);
      AmortizeWithoutExtra(t, row.endingBalance, row.cumulativeInterest, num + 1);
      var rows := [row] + rest;
      forall k | 0 <= k < |rows|
        ensures rows[k].extraPayment == 0.0 && rows[k].totalPayment == t.monthlyPI
      {
        if k > 0 {
          assert rows[k] == rest[k - 1];
        }
      }
    }
  }

  /** When every row pays the same `amount`, the rows together pay
      `amount` times their number. */
  lemma {:induction false} SumPaymentsLevel(rows: seq<Row>, amount: real)
    requires forall k :: 0 <= k < |rows| ==> rows[k].totalPayment == amount
    ensures SumPayments(rows) == amount * |rows| as real
  {
    if rows != [] {
      SumPaymentsLevel(rows[1..], amount);
      assert amount * |rows| as real == amount + amount * |rows[1..]| as real;
    }
  }

  lemma ProductMonotone(x: real, y: real, r: real)
    requires x <= y && r >= 0.0
    ensures x * r <= y * r
  {
    assert y * r - x * r == (y - x) * r;
  }

  // ---------------------------------------------------------------------
  // Extra payments and the level payment

  /** How many rows the walk from `balance` at payment `num` produces,
      computed from closing balances alone. */
  ghost function WalkLength(t: Terms, balance: real, num: int): int
    decreases 2 * t.totalPayments - num + 1
  {
    if balance > PaidOffThreshold && num <= 2 * t.totalPayments then
      1 + WalkLength(t, ClosingBalance(t, num, balance), num + 1)
    else 0
  }

  /** The interest the walk from `balance` at payment `num` accrues,
      computed from closing balances alone. */
  ghost function WalkInterest(t: Terms, balance: real, num: int): real
    decreases 2 * t.totalPayments - num + 1
  {
    if balance > PaidOffThreshold && num <= 2 * t.totalPayments then
      MonthlyInterest(t, balance) + WalkInterest(t, ClosingBalance(t, num, balance), num + 1)
    else 0.0
  }

  /** The walk's length is `WalkLength`, whatever the cumulative interest
      carried in. */
  lemma {:induction false} WalkLengthMatches(t: Terms, balance: real, cumulative: real, num: int)
    ensures |Amortize(t, balance, cumulative, num)| == WalkLength(t, balance, num)
    decreases 2 * t.totalPayments - num + 1
  {
    if balance > PaidOffThreshold && num <= 2 * t.totalPayments {
      var closing := ClosingBalance(t, num, balance);
      var carried := cumulative + MonthlyInterest(t, balance);
      AmortizeStep(t, balance, cumulative, num);
      WalkLengthMatches(t, closing, carried, num + 1);
    }
  }

  /** The walk's total interest is `WalkInterest`, whatever the cumulative
      interest carried in. */
  lemma {:induction false} WalkInterestMatches(t: Terms, balance: real, cumulative: real, num: int)
    ensures SumInterest(Amortize(t, balance, cumulative, num)) == WalkInterest(t, balance, num)
    decreases 2 * t.totalPayments - num + 1
  {
    if balance > PaidOffThreshold && num <= 2 * t.totalPayments {
      var closing := ClosingBalance(t, num, balance);
      var carried := cumulative + MonthlyInterest(t, balance);
      var rest := Amortize(t, closing, carried, num + 1);
      assert SumInterest(Amortize(t, balance, cumulative, num)) == MonthlyInterest(t, balance) + SumInterest(rest) by {
        AmortizeStep(t, balance, cumulative, num);
      }
      assert SumInterest(rest) == WalkInterest(t, closing, num + 1) by {
        WalkInterestMatches(t, closing, carried, num + 1);
      }
    }
  }

  /** Paying more extra never hurts: with the same loan terms, a monthly
      extra `x2` no smaller than `x1` (or any `x2` when `x1` is not a
      positive extra at all), and an opening balance no larger, the walk
      takes no more rows and accrues no more interest. */
  lemma MoreExtraAmortizesNoSlower(t: Terms, x1: real, x2: real, b1: real, b2: real,
                                   c1: real, c2: real, num: int)
    requires x1 <= 0.0 || x1 <= x2
    requires t.monthlyRate >= 0.0
    requires 0.0 <= b2 <= b1
    ensures |Amortize(t.(monthlyExtra := x2), b2, c2, num)| <= |Amortize(t.(monthlyExtra := x1), b1, c1, num)|
    ensures SumInterest(Amortize(t.(monthlyExtra := x2), b2, c2, num))
            <= SumInterest(Amortize(t.(monthlyExtra := x1), b1, c1, num))
  {
    WalkLengthMatches(t.(monthlyExtra := x1), b1, c1, num);
    WalkLengthMatches(t.(monthlyExtra := x2), b2, c2, num);
    WalkInterestMatches(t.(monthlyExtra := x1), b1, c1, num);
    WalkInterestMatches(t.(monthlyExtra := x2), b2, c2, num);
    MoreExtraWalksNoSlower(t, x1, x2, b1, b2, num);
  }

  lemma {:induction false} MoreExtraWalksNoSlower(t: Terms, x1: real, x2: real, b1: real, b2: real, num: int)
    requires x1 <= 0.0 || x1 <= x2
    requires t.monthlyRate >= 0.0
    requires 0.0 <= b2 <= b1
    ensures WalkLength(t.(monthlyExtra := x2), b2, num) <= WalkLength(t.(monthlyExtra := x1), b1, num)
    ensures WalkInterest(t.(monthlyExtra := x2), b2, num) <= WalkInterest(t.(monthlyExtra := x1), b1, num)
    decreases 2 * t.totalPayments - num + 1
  {
    var t1 := t.(monthlyExtra := x1);
    var t2 := t.(monthlyExtra := x2);
    if b2 <= PaidOffThreshold || num > 2 * t.totalPayments {
      WalkMeasuresNonNegative(t1, b1, num);
    } else {
      var e1 := ExtraDue(t1, Calendar.AddMonths(t1.loanStart, num - 1));
      var e2 := ExtraDue(t2, Calendar.AddMonths(t2.loanStart, num - 1));
      assert e1 <= e2;
      InterestMonotone(t1, t2, b1, b2);
      ClosingMonotone(b1, b2, MonthlyInterest(t1, b1), MonthlyInterest(t2, b2), t1.monthlyPI, t2.monthlyPI, e1, e2);
      MoreExtraWalksNoSlower(t, x1, x2, ClosingBalance(t1, num, b1), ClosingBalance(t2, num, b2), num + 1);
    }
  }

  /** At a non-negative rate a walk's length and interest are non-negative. */
  lemma {:induction false} WalkMeasuresNonNegative(t: Terms, balance: real, num: int)
    requires t.monthlyRate >= 0.0
    ensures WalkLength(t, balance, num) >= 0 && WalkInterest(t, balance, num) >= 0.0
    decreases 2 * t.totalPayments - num + 1
  {
    if balance > PaidOffThreshold && num <= 2 * t.totalPayments {
      InterestMonotone(t, t, balance, 0.0);
      WalkMeasuresNonNegative(t, ClosingBalance(t, num, balance), num + 1);
    }
  }

  /** One step of the walk in closed terms: a month with more than a cent
      owed and within the cap contributes one row, with interest
      `balance * rate`, and the walk resumes from its closing balance. */
  lemma AmortizeStep(t: Terms, balance: real, cumulative: real, num: int)
    requires balance > PaidOffThreshold && num <= 2 * t.totalPayments
    ensures var rest := Amortize(t, ClosingBalance(t, num, balance), cumulative + MonthlyInterest(t, balance), num + 1);
            && Amortize(t, balance, cumulative, num) == [PaymentRow(t, num, balance, cumulative)] + rest
            && |Amortize(t, balance, cumulative, num)| == 1 + |rest|
            && SumInterest(Amortize(t, balance, cumulative, num)) == MonthlyInterest(t, balance) + SumInterest(rest)
  {
    var row := PaymentRow(t, num, balance, cumulative);
    EndingBalanceFormula(t, num, balance, cumulative);
    var rest := Amortize(t, row.endingBalance, row.cumulativeInterest, num + 1);
    assert Amortize(t, balance, cumulative, num) == [row] + rest;
    assert ([row] + rest)[1..] == rest;
    assert row.endingBalance == ClosingBalance(t, num, balance);
    assert row.cumulativeInterest == cumulative + MonthlyInterest(t, balance);
  }

  /** A month's interest grows with the balance at a non-negative rate. */
  lemma InterestMonotone(t1: Terms, t2: Terms, b1: real, b2: real)
    requires t1.monthlyRate == t2.monthlyRate >= 0.0 && b2 <= b1
    ensures MonthlyInterest(t2, b2) <= MonthlyInterest(t1, b1)
  {
    ProductMonotone(b2, b1, t1.monthlyRate);
  }

  /** One month's closing balance is monotone in the opening balance and
      its interest, and falls as the extra payment grows. */
  lemma ClosingMonotone(b1: real, b2: real, i1: real, i2: real, pmt1: real, pmt2: real, e1: real, e2: real)
    requires b2 <= b1 && i2 <= i1 && pmt1 == pmt2 && e1 <= e2
    ensures Max(0.0, b2 + i2 - pmt2 - e2) <= Max(0.0, b1 + i1 - pmt1 - e1)
  {
  }

  /** Row `i` opens at `bals[k + i]` and closes at `bals[k + i + 1]`. */
  ghost predicate Follows(rows: seq<Row>, bals: seq<real>, k: nat)
  {
    k + |rows| < |bals|
    && forall i :: 0 <= i < |rows| ==>
         rows[i].beginningBalance == bals[k + i] && rows[i].endingBalance == bals[k + i + 1]
  }

  /** A walk whose every month closes at the next entry of `bals`, whose
      entry `n` (within the cap) is at most a cent, follows `bals` row by row
      and stops at the first entry that is at most a cent. */
  lemma {:induction false} WalkFollows(t: Terms, bals: seq<real>, n: nat, k: nat, cumulative: real)
    requires k <= n < |bals| && n <= 2 * t.totalPayments
    requires forall j :: k <= j < n ==> ClosingBalance(t, j + 1, bals[j]) == bals[j + 1]
    requires bals[n] <= PaidOffThreshold
    ensures var rows := Amortize(t, bals[k], cumulative, k + 1);
            && |rows| <= n - k
            && Follows(rows, bals, k)
            && bals[k + |rows|] <= PaidOffThreshold
    decreases n - k
  {
    if k < n && bals[k] > PaidOffThreshold {
      var carried := cumulative + MonthlyInterest(t, bals[k]);
      var row := PaymentRow(t, k + 1, bals[k], cumulative);
      var rest := Amortize(t, bals[k + 1], carried, k + 2);
      assert row.beginningBalance == bals[k] && row.endingBalance == bals[k + 1] by {
        EndingBalanceFormula(t, k + 1, bals[k], cumulative);
      }
      assert Amortize(t, bals[k], cumulative, k + 1) == [row] + rest by {
        AmortizeStep(t, bals[k], cumulative, k + 1);
      }
      WalkFollows(t, bals, n, k + 1, carried);
      FollowsCons(row, rest, bals, k);
    }
  }

  lemma FollowsCons(row: Row, rest: seq<Row>, bals: seq<real>, k: nat)
    requires k + 1 < |bals|
    requires row.beginningBalance == bals[k] && row.endingBalance == bals[k + 1]
    requires Follows(rest, bals, k + 1)
    ensures Follows([row] + rest, bals, k)
  {
    var rows := [row] + rest;
    forall i | 0 <= i < |rows|
      ensures rows[i].beginningBalance == bals[k + i] && rows[i].endingBalance == bals[k + i + 1]
    {
      if i > 0 {
        assert rows[i] == rest[i - 1];
      }
    }
  }

  /** The balances after 0, 1, ..., n level payments. */
  ghost function LevelBalances(principal: real, rate: real, payment: real, n: nat): (bals: seq<real>)
    ensures |bals| == n + 1
    ensures forall j :: 0 <= j <= n ==> bals[j] == BalanceAfter(principal, rate, payment, j)
  {
    seq(n + 1, j requires 0 <= j => BalanceAfter(principal, rate, payment, j))
  }

  /** With no extra payment due, the walk follows the level-payment balance
      exactly: row `i` opens at the balance after `k + i` level payments,
      the walk has at most `n - k` rows, and it stops at the first month
      whose level-payment balance is at most a cent. */
  lemma LevelWalkTracksBalance(t: Terms, principal: real, k: nat, cumulative: real)
    requires principal > 0.0 && t.monthlyRate > 0.0 && t.totalPayments >= 1
    requires IsLevelPayment(principal, t.monthlyRate, t.totalPayments, t.monthlyPI)
    requires t.monthlyExtra <= 0.0
    requires k <= t.totalPayments
    ensures var bals := LevelBalances(principal, t.monthlyRate, t.monthlyPI, t.totalPayments);
            var rows := Amortize(t, BalanceAfter(principal, t.monthlyRate, t.monthlyPI, k), cumulative, k + 1);
            && |rows| <= t.totalPayments - k
            && Follows(rows, bals, k)
            && bals[k + |rows|] <= PaidOffThreshold
  {
    var n := t.totalPayments;
    var bals := LevelBalances(principal, t.monthlyRate, t.monthlyPI, n);
    forall j | k <= j < n
      ensures ClosingBalance(t, j + 1, bals[j]) == bals[j + 1]
    {
      LevelClosing(t, principal, j);
    }
    LevelPaymentRetiresLoan(principal, t.monthlyRate, n, t.monthlyPI);
    WalkFollows(t, bals, n, k, cumulative);
  }

  /** With no extra payment due, the walk from the full principal runs the
      whole term exactly when more than a cent is owed going into the last
      month, and its last row closes at exactly zero exactly then. */
  lemma LevelWalkEnds(t: Terms, principal: real)
    requires principal > 0.0 && t.monthlyRate > 0.0 && t.totalPayments >= 1
    requires IsLevelPayment(principal, t.monthlyRate, t.totalPayments, t.monthlyPI)
    requires t.monthlyExtra <= 0.0
    ensures var n := t.totalPayments;
            var rows := Amortize(t, principal, 0.0, 1);
            && Follows(rows, LevelBalances(principal, t.monthlyRate, t.monthlyPI, n), 0)
            && (|rows| == n <==> BalanceAfter(principal, t.monthlyRate, t.monthlyPI, n - 1) > PaidOffThreshold)
            && (|rows| == n ==> rows[n - 1].endingBalance == 0.0)
            && (rows != [] && rows[|rows| - 1].endingBalance == 0.0 ==> |rows| == n)
  {
    var n := t.totalPayments;
    var rows := Amortize(t, principal, 0.0, 1);
    var bals := LevelBalances(principal, t.monthlyRate, t.monthlyPI, n);
    assert BalanceAfter(principal, t.monthlyRate, t.monthlyPI, 0) == principal;
    LevelWalkTracksBalance(t, principal, 0, 0.0);
    AmortizeChaining(t, principal, 0.0, 1);
    if |rows| < n && bals[n - 1] > PaidOffThreshold {
      assert bals[|rows|] <= PaidOffThreshold;
      if |rows| < n - 1 {
        BalanceAfterFalls(principal, t.monthlyRate, n, t.monthlyPI, |rows|, n - 1);
      }
      assert false;
    }
    if |rows| == n {
      assert rows[n - 1].beginningBalance > PaidOffThreshold;
      LevelPaymentRetiresLoan(principal, t.monthlyRate, n, t.monthlyPI);
      assert rows[n - 1].endingBalance == bals[n];
    }
    if rows != [] && |rows| < n {
      BalanceAfterFalls(principal, t.monthlyRate, n, t.monthlyPI, |rows|, n);
      assert rows[|rows| - 1].endingBalance == bals[|rows|];
    }
  }

  /** Within the term and with no extra due, a month closes at the next
      level-payment balance. */
  lemma LevelClosing(t: Terms, principal: real, k: nat)
    requires principal > 0.0 && t.monthlyRate > 0.0 && t.totalPayments >= 1
    requires IsLevelPayment(principal, t.monthlyRate, t.totalPayments, t.monthlyPI)
    requires t.monthlyExtra <= 0.0
    requires k < t.totalPayments
    ensures ClosingBalance(t, k + 1, BalanceAfter(principal, t.monthlyRate, t.monthlyPI, k))
            == BalanceAfter(principal, t.monthlyRate, t.monthlyPI, k + 1)
  {
    var b := BalanceAfter(principal, t.monthlyRate, t.monthlyPI, k);
    BalanceAfterFalls(principal, t.monthlyRate, t.totalPayments, t.monthlyPI, k, k + 1);
    GrowthSplit(b, t.monthlyRate);
  }

  lemma GrowthSplit(b: real, r: real)
    ensures b * (1.0 + r) == b + b * r
  {
  }
}
