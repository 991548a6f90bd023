/** The closed-form fixed-rate annuity payment (`calculate_total_interest`,
    app.py lines 6-18) and the balance recurrence that the payment retires. */
module Annuity {
  import opened RealMath
  import opened Outcomes

  /** What `calculate_total_interest` returns: total interest and the monthly payment. */
  datatype Quote = Quote(totalInterest: real, monthlyPayment: real)

  /** The borrowed amount, `price - down_payment` (negative when the down
      payment exceeds the price; the calculator does not reject it). */
  function LoanAmount(price: real, downPayment: real): real {
    price - downPayment
  }

  /** The monthly rate `(interest_rate / 100) / 12` for an annual percentage. */
  function MonthlyRate(ratePercent: real): real {
    ratePercent / 100.0 / 12.0
  }

  /** The term in months, `loan_years * 12`. */
  function LoanMonths(years: int): int {
    years * 12
  }

  /** Python's `x ** n` for a float base and an int exponent: a negative
      exponent is a reciprocal, and 0.0 to a negative power raises
      ZeroDivisionError. */
  function PyPow(x: real, n: int): (p: Result<real>)
    ensures p.Success? <==> 0 <= n || x != 0.0
    ensures p.Success? && 0 <= n ==> p.value == Pow(x, n)
    ensures p.Success? && n < 0 ==> p.value * Pow(x, -n) == 1.0
  {
    if n >= 0 then Success(Pow(x, n))
    else if x == 0.0 then Failure(ZeroDivisionError)
    else
      PowNonZero(x, -n);
      Success(1.0 / Pow(x, -n))
  }

  /** The inputs for which `calculate_total_interest` returns instead of
      raising. With r the monthly rate and n = 12 * years (always even), the
      denominator (1 + r)^n - 1 vanishes exactly when n = 0, r = 0 or
      1 + r = -1, and (1 + r)^n itself raises when 1 + r = 0 and n < 0. */
  predicate PaymentDefined(ratePercent: real, years: int) {
    var r := MonthlyRate(ratePercent);
    && years != 0
    && r != 0.0
    && r != -2.0
    && (0 < years || r != -1.0)
  }

  /** The growth factor (1 + r)^n is computable and differs from one exactly
      when the payment is defined. */
  lemma GrowthIsNotOne(ratePercent: real, years: int)
    ensures var g := PyPow(1.0 + MonthlyRate(ratePercent), LoanMonths(years));
            g.Success? && g.value != 1.0 <==> PaymentDefined(ratePercent, years)
  {
    var r := MonthlyRate(ratePercent);
    var q := 1.0 + r;
    var n := LoanMonths(years);
    var g := PyPow(q, n);
    if years > 0 {
      MonthsAreEven(years);
      PowIsOne(q, n);
      assert g == Success(Pow(q, n));
    } else if years < 0 && q != 0.0 {
      MonthsAreEven(-years);
      assert -n == LoanMonths(-years);
      PowIsOne(q, -n);
      PowNonZero(q, -n);
      assert g.value * Pow(q, -n) == 1.0;
      assert g.value == 1.0 <==> Pow(q, -n) == 1.0;
    } else if years < 0 {
      assert g.Failure?;
    } else {
      assert g == Success(1.0);
    }
  }

  lemma MonthsAreEven(years: int)
    ensures LoanMonths(years) % 2 == 0
  {
    assert LoanMonths(years) == 2 * (6 * years);
  }

  /** `calculate_total_interest(price, interest_rate, loan_years, down_payment)`.
      The payment M solves the annuity equation M * ((1 + r)^n - 1) = P * r * (1 + r)^n
      for the loan amount P (for a negative term n the reciprocal power
      takes the place of (1 + r)^n), and the total interest is what n
      payments of M pay beyond P. */
  function CalculateTotalInterest(price: real, ratePercent: real, years: int, downPayment: real): (q: Result<Quote>)
    ensures q.Success? <==> PaymentDefined(ratePercent, years)
    ensures q.Success? ==>
              q.value.totalInterest + LoanAmount(price, downPayment)
              == q.value.monthlyPayment * LoanMonths(years) as real
    ensures q.Success? && 0 < years ==>
              var g := Pow(1.0 + MonthlyRate(ratePercent), LoanMonths(years));
              q.value.monthlyPayment * (g - 1.0)
              == LoanAmount(price, downPayment) * MonthlyRate(ratePercent) * g
    ensures q.Success? && years < 0 ==>
              var h := Pow(1.0 + MonthlyRate(ratePercent), -LoanMonths(years));
              q.value.monthlyPayment * (1.0 - h)
              == LoanAmount(price, downPayment) * MonthlyRate(ratePercent)
  {
    var loanAmount := LoanAmount(price, downPayment);
    var r := MonthlyRate(ratePercent);
    var n := LoanMonths(years);
    GrowthIsNotOne(ratePercent, years);
    match PyPow(1.0 + r, n)
    case Failure(e) => Failure(e)
    case Success(growth) =>
      if growth - 1.0 == 0.0 then Failure(ZeroDivisionError)
      else
        var payment := loanAmount * r * growth / (growth - 1.0);
        AnnuityPayment(loanAmount, r, n, growth, payment);
        Success(Quote(payment * n as real - loanAmount, payment))
  }

  /** The annuity formula M = P * r * g / (g - 1), cleared of its division;
      for a negative term, where g is the reciprocal of h = (1 + r)^-n, it
      reads M * (1 - h) = P * r. */
  lemma AnnuityPayment(loanAmount: real, r: real, n: int, growth: real, payment: real)
    requires growth != 1.0 && payment == loanAmount * r * growth / (growth - 1.0)
    requires 0 <= n ==> growth == Pow(1.0 + r, n)
    requires n < 0 ==> growth * Pow(1.0 + r, -n) == 1.0
    ensures payment * (growth - 1.0) == loanAmount * r * growth
    ensures 0 <= n ==> payment * (Pow(1.0 + r, n) - 1.0) == loanAmount * r * Pow(1.0 + r, n)
    ensures n < 0 ==> payment * (1.0 - Pow(1.0 + r, -n)) == loanAmount * r
  {
    assert loanAmount * r * growth / (growth - 1.0) * (growth - 1.0) == loanAmount * r * growth;
    if n < 0 {
      ReciprocalForm(payment, loanAmount * r, growth, Pow(1.0 + r, -n));
    }
  }

  /** From m * (g - 1) = a * g and g * h = 1 follows m * (1 - h) = a. */
  lemma ReciprocalForm(m: real, a: real, g: real, h: real)
    requires m * (g - 1.0) == a * g && g * h == 1.0
    ensures m * (1.0 - h) == a
  {
    calc {
      m * (1.0 - h);
      m * (g * h - h);
      (m * (g - 1.0)) * h;
      (a * g) * h;
      a * (g * h);
      a;
    }
  }

  /** The balance left after `k` level payments of `payment` on a loan of
      `principal` at monthly rate `r`: each month interest accrues, then the
      payment is subtracted. */
  function BalanceAfter(principal: real, r: real, payment: real, k: nat): real
    decreases k
  {
    if k == 0 then principal else BalanceAfter(principal, r, payment, k - 1) * (1.0 + r) - payment
  }

  /** Closed form of the balance recurrence, multiplied through by r:
      B_k * r = P * r * (1 + r)^k - X * ((1 + r)^k - 1). */
  lemma {:induction false} BalanceClosedForm(principal: real, r: real, payment: real, k: nat)
    ensures BalanceAfter(principal, r, payment, k) * r
            == principal * r * Pow(1.0 + r, k) - payment * (Pow(1.0 + r, k) - 1.0)
  {
    if k > 0 {
      BalanceClosedForm(principal, r, payment, k - 1);
      ClosedFormMonth(principal, r, payment, k);
    }
  }

  /** One month of `BalanceClosedForm`, stated on the balances themselves. */
  lemma ClosedFormMonth(principal: real, r: real, payment: real, k: nat)
    requires 0 < k
    requires BalanceAfter(principal, r, payment, k - 1) * r
             == principal * r * Pow(1.0 + r, k - 1) - payment * (Pow(1.0 + r, k - 1) - 1.0)
    ensures BalanceAfter(principal, r, payment, k) * r
            == principal * r * Pow(1.0 + r, k) - payment * (Pow(1.0 + r, k) - 1.0)
  {
    ClosedFormStep(BalanceAfter(principal, r, payment, k - 1), BalanceAfter(principal, r, payment, k),
                   principal, r, payment, Pow(1.0 + r, k - 1), Pow(1.0 + r, k));
  }

  /** One month of the closed form: if B * r = P * r * g - X * (g - 1), the
      same holds one month later, for B' = B * (1 + r) - X and g' = (1 + r) * g. */
  lemma ClosedFormStep(balance: real, next: real, principal: real, r: real, payment: real, growth: real, nextGrowth: real)
    requires balance * r == principal * r * growth - payment * (growth - 1.0)
    requires next == balance * (1.0 + r) - payment && nextGrowth == (1.0 + r) * growth
    ensures next * r == principal * r * nextGrowth - payment * (nextGrowth - 1.0)
  {
    calc {
      next * r;
      (balance * (1.0 + r) - payment) * r;
      (balance * r) * (1.0 + r) - payment * r;
      (principal * r * growth - payment * (growth - 1.0)) * (1.0 + r) - payment * r;
      principal * r * ((1.0 + r) * growth) - payment * ((1.0 + r) * growth - 1.0);
    }
  }

  /** Paying `k1 + k2` months is paying `k1` months and then `k2` more on
      what is left. */
  lemma {:induction false} BalanceAfterSplit(principal: real, r: real, payment: real, k1: nat, k2: nat)
    ensures BalanceAfter(principal, r, payment, k1 + k2)
            == BalanceAfter(BalanceAfter(principal, r, payment, k1), r, payment, k2)
    decreases k2
  {
    if k2 > 0 {
      BalanceAfterSplit(principal, r, payment, k1, k2 - 1);
    }
  }

  /** For a positive term, a level payment retires the loan in exactly
      n = 12 * years months if and only if it is the payment
      `calculate_total_interest` quotes. */
  lemma PaymentRetiresLoan(price: real, ratePercent: real, years: int, downPayment: real, payment: real)
    requires 0 < years && PaymentDefined(ratePercent, years)
    ensures BalanceAfter(LoanAmount(price, downPayment), MonthlyRate(ratePercent), payment, LoanMonths(years)) == 0.0
            <==> payment == CalculateTotalInterest(price, ratePercent, years, downPayment).value.monthlyPayment
  {
    assert Pow(1.0 + MonthlyRate(ratePercent), LoanMonths(years)) != 1.0 by {
      MonthsAreEven(years);
      PowIsOne(1.0 + MonthlyRate(ratePercent), LoanMonths(years));
    }
    AnnuityRetiresLoan(LoanAmount(price, downPayment), MonthlyRate(ratePercent), payment,
                       CalculateTotalInterest(price, ratePercent, years, downPayment).value.monthlyPayment,
                       LoanMonths(years));
  }

  /** The loan form of `PaymentRetiresLoan`: when (1 + r)^n != 1 and r != 0,
      n level payments clear the loan exactly when they are the annuity
      payment. */
  lemma AnnuityRetiresLoan(loanAmount: real, r: real, payment: real, annuity: real, n: nat)
    requires r != 0.0 && Pow(1.0 + r, n) != 1.0
    requires annuity * (Pow(1.0 + r, n) - 1.0) == loanAmount * r * Pow(1.0 + r, n)
    ensures BalanceAfter(loanAmount, r, payment, n) == 0.0 <==> payment == annuity
  {
    BalanceClosedForm(loanAmount, r, payment, n);
    assert BalanceAfter(loanAmount, r, payment, n) * r == (annuity - payment) * (Pow(1.0 + r, n) - 1.0);
    ZeroProduct(BalanceAfter(loanAmount, r, payment, n), r);
    ZeroProduct(annuity - payment, Pow(1.0 + r, n) - 1.0);
  }


  /** What the table and the savings build on, for the quote that
      `calculate_total_interest` returns: the inputs were admissible, the
      total interest is what n payments pay beyond the loan, and for a
      positive term the payment clears the loan in n months. */
  lemma QuoteFacts(price: real, ratePercent: real, years: int, downPayment: real, q: Quote)
    requires CalculateTotalInterest(price, ratePercent, years, downPayment) == Success(q)
    ensures PaymentDefined(ratePercent, years)
    ensures q.totalInterest + LoanAmount(price, downPayment) == q.monthlyPayment * LoanMonths(years) as real
    ensures 0 < years ==>
              BalanceAfter(LoanAmount(price, downPayment), MonthlyRate(ratePercent), q.monthlyPayment, LoanMonths(years)) == 0.0
    ensures 0 < years ==>
              q.monthlyPayment * (Pow(1.0 + MonthlyRate(ratePercent), LoanMonths(years)) - 1.0)
              == LoanAmount(price, downPayment) * MonthlyRate(ratePercent) * Pow(1.0 + MonthlyRate(ratePercent), LoanMonths(years))
  {
    if 0 < years {
      PaymentRetiresLoan(price, ratePercent, years, downPayment, q.monthlyPayment);
    }
  }
}
