/** `calculate_prepayment_savings` (app.py lines 20-42): an accelerated
    payoff for a fixed number of months, a re-amortisation of what is left
    over a whole-year term, and the interest and months this "saves". */
module Prepayment {
  import opened RealMath
  import opened Outcomes
  import opened Annuity
  import opened Amortization

  /** What `calculate_prepayment_savings` returns. */
  datatype Savings = Savings(interestSaved: real, monthsSaved: int)

  /** The number of iterations of `range(n)`: none for a negative `n`. */
  function LoopCount(n: int): nat {
    if n > 0 then n else 0
  }

  /** The balance after `steps` iterations of the prepayment loop (app.py
      lines 28-32): each month pays the scheduled payment plus `extra`. The
      loop never stops at payoff, so the balance may go negative. It is the
      balance of the same loan at the raised level payment. */
  function PrepaymentBalance(loanAmount: real, r: real, payment: real, extra: real, steps: nat): (b: real)
    ensures b == BalanceAfter(loanAmount, r, payment + extra, steps)
    decreases steps
  {
    if steps == 0 then loanAmount
    else
      var balance := PrepaymentBalance(loanAmount, r, payment, extra, steps - 1);
      var interest := balance * r;
      var principal := payment - interest + extra;
      balance - principal
  }

  /** The prepayment loop of app.py lines 28-32 as written, one month per
      iteration of `range(months)`. */
  method RunPrepayment(loanAmount: real, r: real, payment: real, extra: real, months: int) returns (balance: real)
    ensures balance == BalanceAfter(loanAmount, r, payment + extra, LoopCount(months))
  {
    balance := loanAmount;
    var done := 0;
    while done < months
      invariant 0 <= done <= LoopCount(months)
      invariant balance == BalanceAfter(loanAmount, r, payment + extra, done)
    {
      var interest := balance * r;
      var principal := payment - interest + extra;
      balance := balance - principal;
      done := done + 1;
    }
  }

  /** `int(loan_years - (num_prepayment_months / 12))`: the remaining term in
      whole years, truncated toward zero. */
  function RemainingLoanYears(years: int, months: int): int {
    TruncToInt(years as real - months as real / 12.0)
  }

  /** The balance left when the prepayment window closes. */
  function RemainingBalance(price: real, ratePercent: real, years: int, downPayment: real, extra: real, months: int): real
    requires PaymentDefined(ratePercent, years)
  {
    var quote := CalculateTotalInterest(price, ratePercent, years, downPayment).value;
    PrepaymentBalance(LoanAmount(price, downPayment), MonthlyRate(ratePercent), quote.monthlyPayment, extra, LoopCount(months))
  }

  /** `calculate_prepayment_savings(price, interest_rate, loan_years,
      down_payment, prepayment_amount, num_prepayment_months)`. It raises
      exactly when the original loan or the re-amortised remainder has no
      defined payment; the months saved are the original term minus the
      prepayment window and the length of the new table. */
  function CalculatePrepaymentSavings(price: real, ratePercent: real, years: int, downPayment: real,
                                      extra: real, months: int): (s: Result<Savings>)
    ensures s.Success? <==> PaymentDefined(ratePercent, years) && PaymentDefined(ratePercent, RemainingLoanYears(years, months))
    ensures s.Success? ==>
              var remaining := RemainingLoanYears(years, months);
              s.value.monthsSaved == LoanMonths(years) - months - (if 0 < remaining then LoanMonths(remaining) else 1)
  {
    var original :- CalculateTotalInterest(price, ratePercent, years, downPayment);
    match GenerateAmortizationTable(price, ratePercent, years, downPayment)
    case Failure(e) => Failure(e)
    case Success(originalTable) =>
      var totalInterestOriginal := SumInterest(originalTable);
      var remainingBalance := PrepaymentBalance(LoanAmount(price, downPayment), MonthlyRate(ratePercent),
                                                original.monthlyPayment, extra, LoopCount(months));
      var remainingYears := RemainingLoanYears(years, months);
      var renewed :- CalculateTotalInterest(remainingBalance, ratePercent, remainingYears, 0.0);
      match GenerateAmortizationTable(remainingBalance, ratePercent, remainingYears, 0.0)
      case Failure(e) => Failure(e)
      case Success(newTable) =>
        var totalInterestNew := SumInterest(newTable);
        Success(Savings(totalInterestOriginal - totalInterestNew, LoanMonths(years) - (months + |newTable|)))
  }

  /** With no extra amount the loop walks down the original table: after k
      months its balance is the one in row k + 1. */
  lemma ZeroExtraFollowsTable(price: real, ratePercent: real, years: int, downPayment: real, k: nat)
    requires PaymentDefined(ratePercent, years)
    requires k < |GenerateAmortizationTable(price, ratePercent, years, downPayment).value|
    ensures PrepaymentBalance(LoanAmount(price, downPayment), MonthlyRate(ratePercent),
                              CalculateTotalInterest(price, ratePercent, years, downPayment).value.monthlyPayment, 0.0, k)
            == GenerateAmortizationTable(price, ratePercent, years, downPayment).value[k].balance
  {
    TableRow(price, ratePercent, years, downPayment, k);
  }

  /** At a nonnegative rate a nonnegative extra amount keeps the prepayment
      balance at least `k * extra` below the scheduled balance after k months. */
  lemma PrepaymentGap(loanAmount: real, r: real, payment: real, extra: real, k: nat)
    requires 0.0 <= r && 0.0 <= extra
    ensures PrepaymentBalance(loanAmount, r, payment, extra, k)
            <= BalanceAfter(loanAmount, r, payment, k) - k as real * extra
  {
    BalanceGap(loanAmount, r, payment, extra, k);
  }

  /** Raising a level payment by `extra` lowers the balance after k months by
      at least `k * extra`, at a nonnegative rate. */
  lemma {:induction false} BalanceGap(principal: real, r: real, payment: real, extra: real, k: nat)
    requires 0.0 <= r && 0.0 <= extra
    ensures BalanceAfter(principal, r, payment + extra, k) <= BalanceAfter(principal, r, payment, k) - k as real * extra
  {
    if k > 0 {
      BalanceGap(principal, r, payment, extra, k - 1);
      GapMonth(principal, r, payment, extra, k);
    }
  }

  /** One month of `BalanceGap`, stated on the balances themselves. */
  lemma GapMonth(principal: real, r: real, payment: real, extra: real, k: nat)
    requires 0.0 <= r && 0.0 <= extra && 0 < k
    requires BalanceAfter(principal, r, payment + extra, k - 1)
             <= BalanceAfter(principal, r, payment, k - 1) - (k - 1) as real * extra
    ensures BalanceAfter(principal, r, payment + extra, k) <= BalanceAfter(principal, r, payment, k) - k as real * extra
  {
    var scheduled := BalanceAfter(principal, r, payment, k - 1);
    var prepaid := BalanceAfter(principal, r, payment + extra, k - 1);
    GapStep(scheduled, prepaid, r, payment, extra, (k - 1) as real * extra, k as real * extra);
  }

  /** One month of `BalanceGap`, on plain numbers: a gap of `before` grows by
      at least `extra` to `after`. */
  lemma GapStep(scheduled: real, prepaid: real, r: real, payment: real, extra: real, before: real, after: real)
    requires 0.0 <= r && 0.0 <= extra && 0.0 <= before && after == before + extra
    requires prepaid <= scheduled - before
    ensures prepaid * (1.0 + r) - (payment + extra) <= scheduled * (1.0 + r) - payment - after
  {
    MulNonNegative(scheduled - prepaid, r);
    assert (scheduled * (1.0 + r) - payment) - (prepaid * (1.0 + r) - (payment + extra))
           == (scheduled - prepaid) + (scheduled - prepaid) * r + extra;
  }

  /** The table form: with a nonnegative rate and extra amount the balance
      after k prepayment months never exceeds row k + 1 of the original table,
      and lies below it by at least `k * extra`. */
  lemma PrepaymentStaysBelowTable(price: real, ratePercent: real, years: int, downPayment: real, extra: real, k: nat)
    requires PaymentDefined(ratePercent, years) && 0.0 <= ratePercent && 0.0 <= extra
    requires k < |GenerateAmortizationTable(price, ratePercent, years, downPayment).value|
    ensures PrepaymentBalance(LoanAmount(price, downPayment), MonthlyRate(ratePercent),
                              CalculateTotalInterest(price, ratePercent, years, downPayment).value.monthlyPayment, extra, k)
            <= GenerateAmortizationTable(price, ratePercent, years, downPayment).value[k].balance - k as real * extra
  {
    var m := CalculateTotalInterest(price, ratePercent, years, downPayment).value.monthlyPayment;
    TableRow(price, ratePercent, years, downPayment, k);
    PrepaymentGap(LoanAmount(price, downPayment), MonthlyRate(ratePercent), m, extra, k);
  }

  /** The loop does not stop at payoff: once the balance is negative, at a
      nonnegative rate and a nonnegative total payment it only falls further. */
  lemma OverpaidBalanceKeepsFalling(loanAmount: real, r: real, payment: real, extra: real, j: nat, k: nat)
    requires 0.0 <= r && 0.0 <= payment + extra && j <= k
    requires PrepaymentBalance(loanAmount, r, payment, extra, j) < 0.0
    ensures PrepaymentBalance(loanAmount, r, payment, extra, k) <= PrepaymentBalance(loanAmount, r, payment, extra, j)
  {
    NegativeBalanceKeepsFalling(loanAmount, r, payment + extra, j, k);
  }

  lemma {:induction false} NegativeBalanceKeepsFalling(principal: real, r: real, payment: real, j: nat, k: nat)
    requires 0.0 <= r && 0.0 <= payment && j <= k
    requires BalanceAfter(principal, r, payment, j) < 0.0
    ensures BalanceAfter(principal, r, payment, k) <= BalanceAfter(principal, r, payment, j)
    decreases k
  {
    if j < k {
      NegativeBalanceKeepsFalling(principal, r, payment, j, k - 1);
      var b := BalanceAfter(principal, r, payment, k - 1);
      assert BalanceAfter(principal, r, payment, k) == b - (payment - b * r);
      NegativeBalanceFalls(b, r, payment);
    }
  }

  lemma NegativeBalanceFalls(balance: real, r: real, outflow: real)
    requires balance < 0.0 && 0.0 <= r && 0.0 <= outflow
    ensures balance - (outflow - balance * r) <= balance
  {
    assert 0.0 <= -balance * r;
  }

  /** For a window within the term, truncating the remaining years rounds the
      window up to whole years. */
  lemma RemainingYearsRoundsUp(years: int, months: int)
    requires 0 <= months <= LoanMonths(years)
    ensures RemainingLoanYears(years, months) == years - (months + 11) / 12
  {
    var a := months / 12;
    var b := months % 12;
    var x := years as real - months as real / 12.0;
    assert months == 12 * a + b;
    assert months as real / 12.0 == a as real + b as real / 12.0;
    var y := RemainingLoanYears(years, months);
    if b == 0 {
      assert x == (years - a) as real;
      assert (months + 11) / 12 == a;
    } else {
      assert a < years;
      assert x == (years - a - 1) as real + (12 - b) as real / 12.0;
      assert (months + 11) / 12 == a + 1;
    }
  }

  /** A window past the whole term leaves no positive remaining years; the
      remaining term is negative only once the window runs a full year past
      the term. */
  lemma WindowPastTerm(years: int, months: int)
    requires LoanMonths(years) < months
    ensures RemainingLoanYears(years, months) <= 0
    ensures RemainingLoanYears(years, months) < 0 <==> LoanMonths(years) + 12 <= months
  {
    assert years as real - months as real / 12.0 < 0.0;
    if LoanMonths(years) + 12 <= months {
      assert years as real - months as real / 12.0 <= -1.0;
    } else {
      assert -1.0 < years as real - months as real / 12.0;
    }
  }

  /** A window that ends less than 12 months before or after the end of the
      term truncates the remaining term to zero years, so the
      re-amortisation raises. */
  lemma WindowInLastYearRaises(price: real, ratePercent: real, years: int, downPayment: real, extra: real, months: int)
    requires LoanMonths(years) - 12 < months < LoanMonths(years) + 12
    ensures RemainingLoanYears(years, months) == 0
    ensures CalculatePrepaymentSavings(price, ratePercent, years, downPayment, extra, months).Failure?
  {
    assert -1.0 < years as real - months as real / 12.0 < 1.0;
  }

  /** The savings outcome in terms of the two tables it compares. */
  lemma SavingsComponents(price: real, ratePercent: real, years: int, downPayment: real, extra: real, months: int)
    requires PaymentDefined(ratePercent, years) && PaymentDefined(ratePercent, RemainingLoanYears(years, months))
    ensures var original := GenerateAmortizationTable(price, ratePercent, years, downPayment).value;
            var renewed := GenerateAmortizationTable(RemainingBalance(price, ratePercent, years, downPayment, extra, months),
                                                     ratePercent, RemainingLoanYears(years, months), 0.0).value;
            CalculatePrepaymentSavings(price, ratePercent, years, downPayment, extra, months)
            == Success(Savings(SumInterest(original) - SumInterest(renewed), LoanMonths(years) - (months + |renewed|)))
  {
  }

  /** For a window within the remaining term, the months saved are only the
      slack of rounding the window up to whole years: never 12 or more, zero
      for a whole-year window, and independent of price, rate and extra amount. */
  lemma MonthsSavedIsRoundingSlack(price: real, ratePercent: real, years: int, downPayment: real, extra: real, months: int)
    requires PaymentDefined(ratePercent, years) && 0 <= months && 0 < RemainingLoanYears(years, months)
    ensures var s := CalculatePrepaymentSavings(price, ratePercent, years, downPayment, extra, months);
            && s.Success?
            && s.value.monthsSaved == (12 - months % 12) % 12
            && 0 <= s.value.monthsSaved < 12
  {
    if LoanMonths(years) < months {
      WindowPastTerm(years, months);
    }
    RemainingYearsRoundsUp(years, months);
    RoundingSlack(years, months, RemainingLoanYears(years, months));
  }

  lemma RoundingSlack(years: int, months: int, remaining: int)
    requires 0 <= months && remaining == years - (months + 11) / 12
    ensures LoanMonths(years) - months - LoanMonths(remaining) == (12 - months % 12) % 12
  {
    var a := months / 12;
    assert months == 12 * a + months % 12;
    if months % 12 == 0 {
      assert (months + 11) / 12 == a;
    } else {
      assert (months + 11) / 12 == a + 1;
    }
  }

  /** With no extra amount and a whole-year window inside the term, the
      calculator still reports savings: the interest paid during the window,
      while the months saved are zero. */
  lemma ZeroExtraSavingsIsInterestAlreadyPaid(price: real, ratePercent: real, years: int, downPayment: real, wholeYears: nat)
    requires PaymentDefined(ratePercent, years) && wholeYears < years
    ensures var s := CalculatePrepaymentSavings(price, ratePercent, years, downPayment, 0.0, LoanMonths(wholeYears));
            var t := GenerateAmortizationTable(price, ratePercent, years, downPayment).value;
            && s.Success?
            && s.value.interestSaved == SumInterest(t[..LoanMonths(wholeYears) + 1])
            && s.value.monthsSaved == 0
  {
    var months := LoanMonths(wholeYears);
    var p := LoanAmount(price, downPayment);
    var r := MonthlyRate(ratePercent);
    var n := LoanMonths(years);
    var m := CalculateTotalInterest(price, ratePercent, years, downPayment).value.monthlyPayment;
    var t := GenerateAmortizationTable(price, ratePercent, years, downPayment).value;
    RemainingYearsRoundsUp(years, months);
    assert (months + 11) / 12 == wholeYears;
    var restYears := years - wholeYears;
    assert RemainingLoanYears(years, months) == restYears;
    assert PaymentDefined(ratePercent, restYears);
    var balance := RemainingBalance(price, ratePercent, years, downPayment, 0.0, months);
    assert balance == BalanceAfter(p, r, m, months);
    assert LoanMonths(restYears) == n - months;
    // The re-amortised payment is the original one.
    var renewedPayment := CalculateTotalInterest(balance, ratePercent, restYears, 0.0).value.monthlyPayment;
    assert renewedPayment == m by {
      PaymentRetiresLoan(price, ratePercent, years, downPayment, m);
      BalanceAfterSplit(p, r, m, months, n - months);
      assert BalanceAfter(balance, r, m, n - months) == 0.0;
      assert LoanAmount(balance, 0.0) == balance;
      PaymentRetiresLoan(balance, ratePercent, restYears, 0.0, m);
    }
    var renewed := GenerateAmortizationTable(balance, ratePercent, restYears, 0.0).value;
    assert IsLedger(renewed, balance, r, m);
    assert |renewed| == n - months;
    LedgerRow(t, p, r, m, months);
    LedgerTail(t, renewed, p, r, m, months);
    SavingsComponents(price, ratePercent, years, downPayment, 0.0, months);
  }

  /** With an empty prepayment window nothing is saved, whatever the extra
      amount: the re-amortised loan is the original one. */
  lemma NoWindowSavesNothing(price: real, ratePercent: real, years: int, downPayment: real, extra: real)
    requires PaymentDefined(ratePercent, years) && 0 < years
    ensures CalculatePrepaymentSavings(price, ratePercent, years, downPayment, extra, 0) == Success(Savings(0.0, 0))
  {
    RemainingYearsRoundsUp(years, 0);
    assert RemainingBalance(price, ratePercent, years, downPayment, extra, 0)
           == RemainingBalance(price, ratePercent, years, downPayment, 0.0, 0);
    SavingsComponents(price, ratePercent, years, downPayment, extra, 0);
    SavingsComponents(price, ratePercent, years, downPayment, 0.0, 0);
    ZeroExtraSavingsIsInterestAlreadyPaid(price, ratePercent, years, downPayment, 0);
    var t := GenerateAmortizationTable(price, ratePercent, years, downPayment).value;
    assert t[..1] == [OpeningRow(LoanAmount(price, downPayment))];
    assert t[..1][..0] == [];
  }

  /** At a nonnegative rate, raising the extra amount from `e1` to `e2`
      lowers the balance after k prepayment months by at least
      `k * (e2 - e1)`. */
  lemma ExtraGap(loanAmount: real, r: real, payment: real, e1: real, e2: real, k: nat)
    requires 0.0 <= r && e1 <= e2
    ensures PrepaymentBalance(loanAmount, r, payment, e2, k)
            <= PrepaymentBalance(loanAmount, r, payment, e1, k) - k as real * (e2 - e1)
    ensures PrepaymentBalance(loanAmount, r, payment, e2, k) <= PrepaymentBalance(loanAmount, r, payment, e1, k)
  {
    BalanceGap(loanAmount, r, payment + e1, e2 - e1, k);
    assert payment + e1 + (e2 - e1) == payment + e2;
    MulNonNegative(k as real, e2 - e1);
  }

  /** At a nonnegative rate a larger extra amount leaves no larger balance
      when the window closes. */
  lemma RemainingBalanceFalls(price: real, ratePercent: real, years: int, downPayment: real, e1: real, e2: real, months: int)
    requires 0.0 <= ratePercent && e1 <= e2 && PaymentDefined(ratePercent, years)
    ensures RemainingBalance(price, ratePercent, years, downPayment, e2, months)
            <= RemainingBalance(price, ratePercent, years, downPayment, e1, months)
  {
    ExtraGap(LoanAmount(price, downPayment), MonthlyRate(ratePercent),
             CalculateTotalInterest(price, ratePercent, years, downPayment).value.monthlyPayment, e1, e2, LoopCount(months));
  }

  /** The facts a successful savings result rests on: both payments were
      defined, and the interest saved is the difference of the two tables'
      interest columns. */
  lemma SavingsFacts(price: real, ratePercent: real, years: int, downPayment: real, extra: real, months: int, s: Savings)
    requires CalculatePrepaymentSavings(price, ratePercent, years, downPayment, extra, months) == Success(s)
    ensures PaymentDefined(ratePercent, years) && PaymentDefined(ratePercent, RemainingLoanYears(years, months))
    ensures s.interestSaved
            == SumInterest(GenerateAmortizationTable(price, ratePercent, years, downPayment).value)
               - SumInterest(GenerateAmortizationTable(RemainingBalance(price, ratePercent, years, downPayment, extra, months),
                                                       ratePercent, RemainingLoanYears(years, months), 0.0).value)
  {
    SavingsComponents(price, ratePercent, years, downPayment, extra, months);
  }

  /** At a positive rate, a larger extra amount never reports less interest
      saved: it leaves a smaller balance to re-amortise, and over the same
      remaining term a smaller loan collects no more interest. */
  lemma MoreExtraSavesMore(price: real, ratePercent: real, years: int, downPayment: real,
                           e1: real, e2: real, months: int, s1: Savings, s2: Savings)
    requires 0.0 < ratePercent && e1 <= e2
    requires CalculatePrepaymentSavings(price, ratePercent, years, downPayment, e1, months) == Success(s1)
    requires CalculatePrepaymentSavings(price, ratePercent, years, downPayment, e2, months) == Success(s2)
    ensures s1.interestSaved <= s2.interestSaved
  {
    SavingsFacts(price, ratePercent, years, downPayment, e1, months, s1);
    SavingsFacts(price, ratePercent, years, downPayment, e2, months, s2);
    RenewedInterestFalls(price, ratePercent, years, downPayment, e1, e2, months);
  }

  /** The re-amortised table of a larger extra amount collects no more interest. */
  lemma RenewedInterestFalls(price: real, ratePercent: real, years: int, downPayment: real, e1: real, e2: real, months: int)
    requires 0.0 < ratePercent && e1 <= e2
    requires PaymentDefined(ratePercent, years) && PaymentDefined(ratePercent, RemainingLoanYears(years, months))
    ensures SumInterest(GenerateAmortizationTable(RemainingBalance(price, ratePercent, years, downPayment, e2, months),
                                                  ratePercent, RemainingLoanYears(years, months), 0.0).value)
            <= SumInterest(GenerateAmortizationTable(RemainingBalance(price, ratePercent, years, downPayment, e1, months),
                                                     ratePercent, RemainingLoanYears(years, months), 0.0).value)
  {
    RemainingBalanceFalls(price, ratePercent, years, downPayment, e1, e2, months);
    RenewedTablesCompare(RemainingBalance(price, ratePercent, years, downPayment, e1, months),
                         RemainingBalance(price, ratePercent, years, downPayment, e2, months),
                         ratePercent, RemainingLoanYears(years, months));
  }

  /** Two re-amortisations over the same remaining term, ordered by balance. */
  lemma RenewedTablesCompare(b1: real, b2: real, ratePercent: real, remainingYears: int)
    requires 0.0 < ratePercent && b2 <= b1 && PaymentDefined(ratePercent, remainingYears)
    ensures SumInterest(GenerateAmortizationTable(b2, ratePercent, remainingYears, 0.0).value)
            <= SumInterest(GenerateAmortizationTable(b1, ratePercent, remainingYears, 0.0).value)
  {
    TableInterestGrowsWithLoan(b1, b2, ratePercent, remainingYears, 0.0,
                               GenerateAmortizationTable(b1, ratePercent, remainingYears, 0.0).value,
                               CalculateTotalInterest(b1, ratePercent, remainingYears, 0.0).value,
                               GenerateAmortizationTable(b2, ratePercent, remainingYears, 0.0).value,
                               CalculateTotalInterest(b2, ratePercent, remainingYears, 0.0).value);
  }

  /** With a whole-year window inside the term, a positive rate and a
      nonnegative extra amount, the interest saved is at least the interest
      paid during the window. */
  lemma SavesAtLeastWindowInterest(price: real, ratePercent: real, years: int, downPayment: real,
                                   extra: real, wholeYears: nat, s: Savings)
    requires 0.0 < ratePercent && 0.0 <= extra && wholeYears < years
    requires CalculatePrepaymentSavings(price, ratePercent, years, downPayment, extra, LoanMonths(wholeYears)) == Success(s)
    ensures SumInterest(GenerateAmortizationTable(price, ratePercent, years, downPayment).value[..LoanMonths(wholeYears) + 1])
            <= s.interestSaved
  {
    ZeroExtraSavingsIsInterestAlreadyPaid(price, ratePercent, years, downPayment, wholeYears);
    MoreExtraSavesMore(price, ratePercent, years, downPayment, 0.0, extra, LoanMonths(wholeYears),
                       CalculatePrepaymentSavings(price, ratePercent, years, downPayment, 0.0, LoanMonths(wholeYears)).value, s);
  }
}
