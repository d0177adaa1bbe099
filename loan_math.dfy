/** The closed-form arithmetic of the calculator, on exact reals:
    frequency normalisation, the month count, the level
    principal-and-interest payment, and the balance that payment leaves
    after each month of the full term. */
module LoanMath {

  /** How often a tax or extra-payment amount recurs. */
  datatype Frequency = Monthly | Annual

  /** `x` to the `n`-th power (`Math.pow` with a whole exponent). */
  function Pow(x: real, n: nat): real
  {
    if n == 0 then 1.0 else x * Pow(x, n - 1)
  }

  /** Smallest whole number not below `x` (`Math.ceil`). */
  function Ceil(x: real): (c: int)
    ensures x <= c as real < x + 1.0
  {
    if x.Floor as real == x then x.Floor else x.Floor + 1
  }

  /** An amount per period of `freq`, expressed per month: an annual figure
      is spread evenly over twelve months. */
  function MonthlyAmount(amount: real, freq: Frequency): (m: real)
    ensures (if freq == Annual then 12.0 * m else m) == amount
  {
    if freq == Annual then amount / 12.0 else amount
  }

  /** The level monthly payment that retires `principal` in `n` months at
      monthly rate `rate`: principal * (rate * q^n) / (q^n - 1), q = 1 + rate.
      It always exceeds the first month's interest. */
  function LevelPayment(principal: real, rate: real, n: nat): (pmt: real)
    requires principal > 0.0 && rate > 0.0 && n >= 1
    ensures pmt > principal * rate
  {
    PowAboveOne(1.0 + rate, n);
    var q := Pow(1.0 + rate, n);
    QuotientAbove(principal * (rate * q), principal * rate, q - 1.0);
    principal * (rate * q) / (q - 1.0)
  }

  /** The balance left after `k` months of accruing interest at `rate` on
      `principal` and paying `payment` each month. */
  function BalanceAfter(principal: real, rate: real, payment: real, k: nat): real
  {
    if k == 0 then principal
    else BalanceAfter(principal, rate, payment, k - 1) * (1.0 + rate) - payment
  }

  /** `payment` satisfies the level-payment equation of an `n`-month loan:
      payment * (q^n - 1) == principal * rate * q^n, q = 1 + rate. */
  ghost predicate IsLevelPayment(principal: real, rate: real, n: nat, payment: real)
  {
    payment * (Pow(1.0 + rate, n) - 1.0) == principal * (rate * Pow(1.0 + rate, n))
  }

  lemma {:induction false} PowAboveOne(x: real, n: nat)
    requires x > 1.0 && n >= 1
    ensures Pow(x, n) > 1.0
  {
    if n > 1 {
      PowAboveOne(x, n - 1);
      assert x * Pow(x, n - 1) > Pow(x, n - 1);
    }
  }

  /** `LevelPayment` solves the level-payment equation. */
  lemma LevelPaymentSolves(principal: real, rate: real, n: nat)
    requires principal > 0.0 && rate > 0.0 && n >= 1
    ensures IsLevelPayment(principal, rate, n, LevelPayment(principal, rate, n))
  {
    PowAboveOne(1.0 + rate, n);
  }

  /** The closed form of the balance after `k` months, scaled by q^n - 1:
      balance * (q^n - 1) == principal * (q^n - q^k). */
  ghost predicate ClosedFormAt(principal: real, rate: real, n: nat, payment: real, k: nat)
  {
    BalanceAfter(principal, rate, payment, k) * (Pow(1.0 + rate, n) - 1.0)
    == principal * (Pow(1.0 + rate, n) - Pow(1.0 + rate, k))
  }

  /** Under a level payment the balance follows the closed form
      principal * (q^n - q^k) / (q^n - 1) in every month `k`. */
  lemma {:induction false} BalanceAfterClosedForm(principal: real, rate: real, n: nat, payment: real, k: nat)
    requires IsLevelPayment(principal, rate, n, payment)
    ensures ClosedFormAt(principal, rate, n, payment, k)
  {
    if k > 0 {
      BalanceAfterClosedForm(principal, rate, n, payment, k - 1);
      ClosedFormStep(principal, rate, n, payment, k);
    } else {
      assert Pow(1.0 + rate, 0) == 1.0;
    }
  }

  lemma ClosedFormStep(principal: real, rate: real, n: nat, payment: real, k: nat)
    requires IsLevelPayment(principal, rate, n, payment)
    requires k > 0 && ClosedFormAt(principal, rate, n, payment, k - 1)
    ensures BalanceAfter(principal, rate, payment, k) * (Pow(1.0 + rate, n) - 1.0)
            == principal * (Pow(1.0 + rate, n) - Pow(1.0 + rate, k))
  {
    StepAlgebra(principal, rate, Pow(1.0 + rate, n), Pow(1.0 + rate, k - 1), Pow(1.0 + rate, k),
                BalanceAfter(principal, rate, payment, k - 1), payment,
                BalanceAfter(principal, rate, payment, k));
  }

  /** The algebra of one month of the closed form: q^n, q^(k-1) and q^k
      abstracted to `bigQ`, `a` and `a'`. */
  lemma StepAlgebra(p: real, r: real, bigQ: real, a: real, a': real, b: real, pmt: real, b': real)
    requires a' == (1.0 + r) * a
    requires b * (bigQ - 1.0) == p * (bigQ - a)
    requires pmt * (bigQ - 1.0) == p * (r * bigQ)
    requires b' == b * (1.0 + r) - pmt
    ensures b' * (bigQ - 1.0) == p * (bigQ - a')
  {
    var d := bigQ - 1.0;
    calc {
      b' * d;
      (b * (1.0 + r) - pmt) * d;
      (b * d) * (1.0 + r) - pmt * d;
      p * (bigQ - a) * (1.0 + r) - p * (r * bigQ);
      p * (bigQ - (1.0 + r) * a);
    }
  }

  /** The level payment retires the loan: after exactly `n` months nothing
      is owed. */
  lemma LevelPaymentRetiresLoan(principal: real, rate: real, n: nat, payment: real)
    requires rate > 0.0 && n >= 1
    requires IsLevelPayment(principal, rate, n, payment)
    ensures BalanceAfter(principal, rate, payment, n) == 0.0
  {
    PowAboveOne(1.0 + rate, n);
    BalanceAfterClosedForm(principal, rate, n, payment, n);
    ZeroFactor(BalanceAfter(principal, rate, payment, n), Pow(1.0 + rate, n) - 1.0,
               principal * (Pow(1.0 + rate, n) - Pow(1.0 + rate, n)));
  }

  lemma ZeroFactor(x: real, d: real, y: real)
    requires d != 0.0 && x * d == y && y == 0.0
    ensures x == 0.0
  {
  }

  /** The level payment exceeds the first month's interest. */
  lemma LevelPaymentAboveInterest(principal: real, rate: real, n: nat, payment: real)
    requires principal > 0.0 && rate > 0.0 && n >= 1
    requires IsLevelPayment(principal, rate, n, payment)
    ensures payment > principal * rate
  {
    PowAboveOne(1.0 + rate, n);
    AboveInterestAlgebra(principal * rate, Pow(1.0 + rate, n), payment);
  }

  lemma AboveInterestAlgebra(interest: real, bigQ: real, pmt: real)
    requires interest > 0.0 && bigQ > 1.0
    requires pmt * (bigQ - 1.0) == interest * bigQ
    ensures pmt > interest
  {
    assert (pmt - interest) * (bigQ - 1.0) == interest;
    if pmt <= interest {
      ProductNonNegative(interest - pmt, bigQ - 1.0);
    }
  }

  /** A payment above the first month's interest makes the balance fall
      every month, and it never climbs back above the principal. */
  lemma {:induction false} BalanceFallsEachMonth(principal: real, rate: real, payment: real, k: nat)
    requires rate > 0.0 && payment > principal * rate
    ensures BalanceAfter(principal, rate, payment, k + 1) < BalanceAfter(principal, rate, payment, k) <= principal
  {
    var b := BalanceAfter(principal, rate, payment, k);
    if k > 0 {
      BalanceFallsEachMonth(principal, rate, payment, k - 1);
    }
    assert b * rate <= principal * rate by {
      ProductNonNegative(principal - b, rate);
    }
    assert b * (1.0 + rate) == b + b * rate;
  }

  /** Under such a payment a later balance is always below an earlier one. */
  lemma {:induction false} BalanceFallsBetween(principal: real, rate: real, payment: real, j: nat, k: nat)
    requires rate > 0.0 && payment > principal * rate && j < k
    ensures BalanceAfter(principal, rate, payment, j) > BalanceAfter(principal, rate, payment, k)
    decreases k
  {
    BalanceFallsEachMonth(principal, rate, payment, k - 1);
    if j < k - 1 {
      BalanceFallsBetween(principal, rate, payment, j, k - 1);
    }
  }

  /** Under the level payment the balance strictly falls month by month and
      stays non-negative throughout the term. */
  lemma BalanceAfterFalls(principal: real, rate: real, n: nat, payment: real, j: nat, k: nat)
    requires principal > 0.0 && rate > 0.0 && n >= 1
    requires IsLevelPayment(principal, rate, n, payment)
    requires j < k <= n
    ensures BalanceAfter(principal, rate, payment, j) > BalanceAfter(principal, rate, payment, k) >= 0.0
  {
    LevelPaymentAboveInterest(principal, rate, n, payment);
    BalanceFallsBetween(principal, rate, payment, j, k);
    LevelPaymentRetiresLoan(principal, rate, n, payment);
    if k < n {
      BalanceFallsBetween(principal, rate, payment, k, n);
    }
  }

  lemma ProductNonNegative(x: real, y: real)
    requires x >= 0.0 && y >= 0.0
    ensures x * y >= 0.0
  {
  }

  lemma QuotientAbove(x: real, y: real, d: real)
    requires d > 0.0 && y > 0.0 && x == y * (d + 1.0)
    ensures x / d > y
  {
    assert x / d == y + y / d;
  }
}
