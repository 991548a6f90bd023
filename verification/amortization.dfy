/** The month-by-month ledger of `generate_amortization_table` (app.py
    lines 45-62): an opening snapshot followed by `loan_months - 1` payment
    rows, each applying the same quoted payment to the previous balance. */
module Amortization {
  import opened RealMath
  import opened Outcomes
  import opened Annuity

  /** One ledger row: `[month, interest_payment, principal_payment, remaining_balance]`. */
  datatype Row = Row(month: int, interest: real, principal: real, balance: real)

  /** Row 1: nothing paid yet, the whole loan outstanding. */
  function OpeningRow(loanAmount: real): Row {
    Row(1, 0.0, 0.0, loanAmount)
  }

  /** `next` is the payment month after `prev`: interest accrues on the
      previous balance, the rest of the payment retires principal. */
  predicate IsPaymentStep(prev: Row, next: Row, r: real, payment: real) {
    && next.month == prev.month + 1
    && next.interest == prev.balance * r
    && next.interest + next.principal == payment
    && next.balance == prev.balance - next.principal
  }

  /** A ledger: the opening row followed by payment steps of one fixed payment. */
  predicate IsLedger(rows: seq<Row>, loanAmount: real, r: real, payment: real) {
    && 1 <= |rows|
    && rows[0] == OpeningRow(loanAmount)
    && forall k :: 1 <= k < |rows| ==> IsPaymentStep(rows[k - 1], rows[k], r, payment)
  }

  /** `count` payment rows following `prev`. */
  function PaymentRows(prev: Row, r: real, payment: real, count: nat): (rows: seq<Row>)
    ensures |rows| == count
    ensures 0 < count ==> IsPaymentStep(prev, rows[0], r, payment)
    ensures forall k :: 1 <= k < count ==> IsPaymentStep(rows[k - 1], rows[k], r, payment)
    decreases count
  {
    if count == 0 then []
    else
      var interest := prev.balance * r;
      var principal := payment - interest;
      var next := Row(prev.month + 1, interest, principal, prev.balance - principal);
      [next] + PaymentRows(next, r, payment, count - 1)
  }

  /** The number of iterations of `range(1, loan_months)`. */
  function PaymentCount(loanMonths: int): nat {
    if loanMonths > 1 then loanMonths - 1 else 0
  }

  /** The ledger the loop of app.py lines 52-60 builds: the opening row and
      one payment row per iteration of `range(1, loan_months)`. */
  function LedgerOf(loanAmount: real, r: real, payment: real, loanMonths: int): (rows: seq<Row>)
    ensures IsLedger(rows, loanAmount, r, payment)
    ensures |rows| == if 1 < loanMonths then loanMonths else 1
  {
    var opening := OpeningRow(loanAmount);
    var payments := PaymentRows(opening, r, payment, PaymentCount(loanMonths));
    assert forall k :: 1 <= k < |[opening] + payments| ==> ([opening] + payments)[k] == payments[k - 1];
    [opening] + payments
  }

  /** `generate_amortization_table(price, interest_rate, loan_years, down_payment)`.
      It raises exactly when the payment quote does; otherwise it is the
      ledger of the quoted payment with one row per month of a positive term
      (one row, the opening snapshot, for a negative term). */
  function GenerateAmortizationTable(price: real, ratePercent: real, years: int, downPayment: real): (t: Result<seq<Row>>)
    ensures t.Success? <==> PaymentDefined(ratePercent, years)
    ensures t.Success? ==> |t.value| == if 0 < years then LoanMonths(years) else 1
    ensures t.Success? ==>
              IsLedger(t.value, LoanAmount(price, downPayment), MonthlyRate(ratePercent),
                       CalculateTotalInterest(price, ratePercent, years, downPayment).value.monthlyPayment)
  {
    match CalculateTotalInterest(price, ratePercent, years, downPayment)
    case Failure(e) => Failure(e)
    case Success(quote) =>
      Success(LedgerOf(LoanAmount(price, downPayment), MonthlyRate(ratePercent), quote.monthlyPayment, LoanMonths(years)))
  }

  /** The loop of app.py lines 52-60, building the ledger row by row; it
      builds exactly `LedgerOf`. */
  method BuildAmortizationTable(loanAmount: real, r: real, payment: real, loanMonths: int) returns (rows: seq<Row>)
    ensures IsLedger(rows, loanAmount, r, payment)
    ensures |rows| == if 1 < loanMonths then loanMonths else 1
    ensures rows == LedgerOf(loanAmount, r, payment, loanMonths)
  {
    rows := [OpeningRow(loanAmount)];
    var balance := loanAmount;
    var i := 1;
    while i < loanMonths
      invariant 1 <= i
      invariant i == 1 || i <= loanMonths
      invariant |rows| == i
      invariant IsLedger(rows, loanAmount, r, payment)
      invariant rows[i - 1].month == i
      invariant rows[i - 1].balance == balance
    {
      var interest := balance * r;
      var principal := payment - interest;
      balance := balance - principal;
      rows := rows + [Row(i + 1, interest, principal, balance)];
      i := i + 1;
    }
    LedgerUnique(rows, LedgerOf(loanAmount, r, payment, loanMonths), loanAmount, r, payment);
  }

  /** A ledger is determined by its length: two ledgers of the same loan,
      rate and payment with the same number of rows are equal. */
  lemma LedgerUnique(a: seq<Row>, b: seq<Row>, loanAmount: real, r: real, payment: real)
    requires IsLedger(a, loanAmount, r, payment) && IsLedger(b, loanAmount, r, payment)
    requires |a| == |b|
    ensures a == b
  {
    forall k | 0 <= k < |a|
      ensures a[k] == b[k]
    {
      LedgerRowsAgree(a, b, loanAmount, r, payment, k);
    }
  }

  lemma {:induction false} LedgerRowsAgree(a: seq<Row>, b: seq<Row>, loanAmount: real, r: real, payment: real, k: nat)
    requires IsLedger(a, loanAmount, r, payment) && IsLedger(b, loanAmount, r, payment)
    requires k < |a| && k < |b|
    ensures a[k] == b[k]
  {
    if k > 0 {
      LedgerRowsAgree(a, b, loanAmount, r, payment, k - 1);
      assert IsPaymentStep(a[k - 1], a[k], r, payment);
      assert IsPaymentStep(b[k - 1], b[k], r, payment);
    }
  }

  /** Row k (0-based) of a ledger is month k + 1 and carries the balance
      left after k payments. */
  lemma {:induction false} LedgerRow(rows: seq<Row>, loanAmount: real, r: real, payment: real, k: nat)
    requires IsLedger(rows, loanAmount, r, payment) && k < |rows|
    ensures rows[k].month == k + 1
    ensures rows[k].balance == BalanceAfter(loanAmount, r, payment, k)
  {
    if k > 0 {
      LedgerRow(rows, loanAmount, r, payment, k - 1);
      assert IsPaymentStep(rows[k - 1], rows[k], r, payment);
    }
  }

  /** Sum of the interest column, `np.sum(table[:, 1])`. */
  function SumInterest(rows: seq<Row>): real
    decreases |rows|
  {
    if |rows| == 0 then 0.0 else SumInterest(rows[..|rows| - 1]) + rows[|rows| - 1].interest
  }

  /** Sum of the principal column. */
  function SumPrincipal(rows: seq<Row>): real
    decreases |rows|
  {
    if |rows| == 0 then 0.0 else SumPrincipal(rows[..|rows| - 1]) + rows[|rows| - 1].principal
  }

  /** Every nonempty prefix of a ledger is a ledger. */
  lemma LedgerPrefix(rows: seq<Row>, loanAmount: real, r: real, payment: real, m: nat)
    requires IsLedger(rows, loanAmount, r, payment) && 1 <= m <= |rows|
    ensures IsLedger(rows[..m], loanAmount, r, payment)
  {
    assert forall k :: 0 <= k < m ==> rows[..m][k] == rows[k];
  }

  /** If a second ledger opens at the balance of row `s` of a first one, with
      the same rate and payment, and ends where the first ends, the first
      ledger's interest column is its first `s` payments' interest plus the
      second ledger's interest column. */
  lemma {:induction false} LedgerTail(rows: seq<Row>, tail: seq<Row>, loanAmount: real, r: real, payment: real, s: nat)
    requires IsLedger(rows, loanAmount, r, payment) && s < |rows|
    requires IsLedger(tail, rows[s].balance, r, payment)
    requires s + |tail| == |rows|
    ensures SumInterest(rows) == SumInterest(rows[..s + 1]) + SumInterest(tail)
    decreases |tail|
  {
    var n := |rows|;
    var l := |tail|;
    if l == 1 {
      assert rows[..s + 1] == rows;
      assert tail[..0] == [];
    } else {
      LedgerPrefix(rows, loanAmount, r, payment, n - 1);
      LedgerPrefix(tail, rows[s].balance, r, payment, l - 1);
      assert rows[..n - 1][s] == rows[s];
      LedgerTail(rows[..n - 1], tail[..l - 1], loanAmount, r, payment, s);
      assert rows[..n - 1][..s + 1] == rows[..s + 1];
      assert rows[n - 1].interest == tail[l - 1].interest by {
        TailBalance(rows, tail, loanAmount, r, payment, s, l - 2);
        StepInterestAgrees(rows[n - 2], rows[n - 1], tail[l - 2], tail[l - 1], r, payment);
      }
    }
  }

  /** Row `s + i` of the first ledger and row `i` of a ledger opened at row
      `s`'s balance carry the same balance. */
  lemma TailBalance(rows: seq<Row>, tail: seq<Row>, loanAmount: real, r: real, payment: real, s: nat, i: nat)
    requires IsLedger(rows, loanAmount, r, payment) && s + i < |rows|
    requires IsLedger(tail, rows[s].balance, r, payment) && i < |tail|
    ensures rows[s + i].balance == tail[i].balance
  {
    LedgerRow(rows, loanAmount, r, payment, s + i);
    LedgerRow(rows, loanAmount, r, payment, s);
    LedgerRow(tail, rows[s].balance, r, payment, i);
    BalanceAfterSplit(loanAmount, r, payment, s, i);
  }

  /** Payment steps from equal balances charge equal interest. */
  lemma StepInterestAgrees(prevA: Row, a: Row, prevB: Row, b: Row, r: real, payment: real)
    requires IsPaymentStep(prevA, a, r, payment) && IsPaymentStep(prevB, b, r, payment)
    requires prevA.balance == prevB.balance
    ensures a.interest == b.interest
  {
  }

  /** Over a ledger the principal column telescopes to the loan amount minus
      the last balance, and interest and principal together are one payment
      per row after the opening row. */
  lemma {:induction false} LedgerSums(rows: seq<Row>, loanAmount: real, r: real, payment: real)
    requires IsLedger(rows, loanAmount, r, payment)
    ensures SumPrincipal(rows) == loanAmount - rows[|rows| - 1].balance
    ensures SumInterest(rows) + SumPrincipal(rows) == (|rows| - 1) as real * payment
    decreases |rows|
  {
    var last := |rows| - 1;
    if last > 0 {
      var prefix := rows[..last];
      LedgerPrefix(rows, loanAmount, r, payment, last);
      LedgerSums(prefix, loanAmount, r, payment);
      assert IsPaymentStep(rows[last - 1], rows[last], r, payment);
    } else {
      assert rows[..0] == [];
    }
  }

  /** Row k (0-based) of the table is month k + 1 and holds the balance left
      after k payments of the quoted payment. */
  lemma TableRow(price: real, ratePercent: real, years: int, downPayment: real, k: nat)
    requires PaymentDefined(ratePercent, years)
    requires k < |GenerateAmortizationTable(price, ratePercent, years, downPayment).value|
    ensures var t := GenerateAmortizationTable(price, ratePercent, years, downPayment).value;
            var m := CalculateTotalInterest(price, ratePercent, years, downPayment).value.monthlyPayment;
            && t[k].month == k + 1
            && t[k].balance == BalanceAfter(LoanAmount(price, downPayment), MonthlyRate(ratePercent), m, k)
  {
    var t := GenerateAmortizationTable(price, ratePercent, years, downPayment).value;
    var m := CalculateTotalInterest(price, ratePercent, years, downPayment).value.monthlyPayment;
    LedgerRow(t, LoanAmount(price, downPayment), MonthlyRate(ratePercent), m, k);
  }

  /** A ledger whose payment would retire the loan in one more month than
      it has rows ends one discounted payment short of zero. */
  lemma LedgerEndsOnePaymentShort(rows: seq<Row>, loanAmount: real, r: real, payment: real)
    requires IsLedger(rows, loanAmount, r, payment)
    requires BalanceAfter(loanAmount, r, payment, |rows|) == 0.0
    ensures rows[|rows| - 1].balance * (1.0 + r) == payment
  {
    LedgerRow(rows, loanAmount, r, payment, |rows| - 1);
  }

  /** The table applies only `loan_months - 1` payments, so for a positive
      term its last balance is not zero but one payment discounted by one
      month, M / (1 + r) (stated multiplied through by 1 + r). It is nonzero
      whenever the loan amount is, except at r = -1, where the quoted payment
      and the last balance are both zero. */
  lemma LastRowBalance(price: real, ratePercent: real, years: int, downPayment: real, t: seq<Row>, q: Quote)
    requires 0 < years
    requires GenerateAmortizationTable(price, ratePercent, years, downPayment) == Success(t)
    requires CalculateTotalInterest(price, ratePercent, years, downPayment) == Success(q)
    ensures t[|t| - 1].balance * (1.0 + MonthlyRate(ratePercent)) == q.monthlyPayment
    ensures MonthlyRate(ratePercent) != -1.0 && LoanAmount(price, downPayment) != 0.0 ==> t[|t| - 1].balance != 0.0
    ensures MonthlyRate(ratePercent) == -1.0 ==> t[|t| - 1].balance == 0.0
  {
    QuoteFacts(price, ratePercent, years, downPayment, q);
    TableFacts(price, ratePercent, years, downPayment, t, q);
    QuotedLastRow(price, ratePercent, years, downPayment, t, q);
  }

  lemma QuotedLastRow(price: real, ratePercent: real, years: int, downPayment: real, t: seq<Row>, q: Quote)
    requires 0 < years && MonthlyRate(ratePercent) != 0.0
    requires IsLedger(t, LoanAmount(price, downPayment), MonthlyRate(ratePercent), q.monthlyPayment) && |t| == LoanMonths(years)
    requires BalanceAfter(LoanAmount(price, downPayment), MonthlyRate(ratePercent), q.monthlyPayment, LoanMonths(years)) == 0.0
    requires q.monthlyPayment * (Pow(1.0 + MonthlyRate(ratePercent), LoanMonths(years)) - 1.0)
             == LoanAmount(price, downPayment) * MonthlyRate(ratePercent) * Pow(1.0 + MonthlyRate(ratePercent), LoanMonths(years))
    ensures t[|t| - 1].balance * (1.0 + MonthlyRate(ratePercent)) == q.monthlyPayment
    ensures MonthlyRate(ratePercent) != -1.0 && LoanAmount(price, downPayment) != 0.0 ==> t[|t| - 1].balance != 0.0
    ensures MonthlyRate(ratePercent) == -1.0 ==> t[|t| - 1].balance == 0.0
  {
    LedgerLastRow(t, LoanAmount(price, downPayment), MonthlyRate(ratePercent), q.monthlyPayment);
  }

  /** The ledger form of `LastRowBalance`, for the annuity payment of a
      ledger one month longer than `rows`. */
  lemma LedgerLastRow(rows: seq<Row>, loanAmount: real, r: real, payment: real)
    requires IsLedger(rows, loanAmount, r, payment) && 2 <= |rows|
    requires BalanceAfter(loanAmount, r, payment, |rows|) == 0.0
    requires payment * (Pow(1.0 + r, |rows|) - 1.0) == loanAmount * r * Pow(1.0 + r, |rows|)
    requires r != 0.0
    ensures rows[|rows| - 1].balance * (1.0 + r) == payment
    ensures r != -1.0 && loanAmount != 0.0 ==> rows[|rows| - 1].balance != 0.0
    ensures r == -1.0 ==> rows[|rows| - 1].balance == 0.0
  {
    LedgerEndsOnePaymentShort(rows, loanAmount, r, payment);
    if r == -1.0 {
      assert IsPaymentStep(rows[|rows| - 2], rows[|rows| - 1], r, payment);
    } else if loanAmount != 0.0 {
      PowNonZero(1.0 + r, |rows|);
      PaymentNonZero(loanAmount, r, Pow(1.0 + r, |rows|), payment);
      ZeroProduct(rows[|rows| - 1].balance, 1.0 + r);
    }
  }

  lemma PaymentNonZero(loanAmount: real, r: real, growth: real, payment: real)
    requires payment * (growth - 1.0) == loanAmount * r * growth
    requires loanAmount != 0.0 && r != 0.0 && growth != 0.0
    ensures payment != 0.0
  {
    assert loanAmount * r != 0.0;
  }

  /** The table `generate_amortization_table` returns is the ledger of the
      quoted payment, with one row per month of the term (one row for a
      negative term). */
  lemma TableFacts(price: real, ratePercent: real, years: int, downPayment: real, t: seq<Row>, q: Quote)
    requires GenerateAmortizationTable(price, ratePercent, years, downPayment) == Success(t)
    requires CalculateTotalInterest(price, ratePercent, years, downPayment) == Success(q)
    ensures IsLedger(t, LoanAmount(price, downPayment), MonthlyRate(ratePercent), q.monthlyPayment)
    ensures |t| == if 0 < years then LoanMonths(years) else 1
  {
  }

  /** Summing the table's interest column misses the interest of the final
      payment, which the table leaves out: the quoted total interest is the
      column's sum plus one month of interest on the last balance. */
  lemma TableInterestShortfall(price: real, ratePercent: real, years: int, downPayment: real, t: seq<Row>, q: Quote)
    requires 0 < years
    requires GenerateAmortizationTable(price, ratePercent, years, downPayment) == Success(t)
    requires CalculateTotalInterest(price, ratePercent, years, downPayment) == Success(q)
    ensures q.totalInterest == SumInterest(t) + t[|t| - 1].balance * MonthlyRate(ratePercent)
  {
    QuoteFacts(price, ratePercent, years, downPayment, q);
    TableFacts(price, ratePercent, years, downPayment, t, q);
    QuotedInterestShortfall(price, ratePercent, years, downPayment, t, q);
  }

  lemma QuotedInterestShortfall(price: real, ratePercent: real, years: int, downPayment: real, t: seq<Row>, q: Quote)
    requires IsLedger(t, LoanAmount(price, downPayment), MonthlyRate(ratePercent), q.monthlyPayment) && |t| == LoanMonths(years)
    requires BalanceAfter(LoanAmount(price, downPayment), MonthlyRate(ratePercent), q.monthlyPayment, LoanMonths(years)) == 0.0
    requires q.totalInterest + LoanAmount(price, downPayment) == q.monthlyPayment * LoanMonths(years) as real
    ensures q.totalInterest == SumInterest(t) + t[|t| - 1].balance * MonthlyRate(ratePercent)
  {
    LedgerInterestShortfall(t, LoanAmount(price, downPayment), MonthlyRate(ratePercent), q.monthlyPayment,
                            q.totalInterest, LoanMonths(years));
  }

  /** The ledger form of `TableInterestShortfall`, for a payment that would
      retire the loan one month after the last row. */
  lemma LedgerInterestShortfall(rows: seq<Row>, loanAmount: real, r: real, payment: real, total: real, months: int)
    requires IsLedger(rows, loanAmount, r, payment) && |rows| == months
    requires BalanceAfter(loanAmount, r, payment, months) == 0.0
    requires total + loanAmount == payment * months as real
    ensures total == SumInterest(rows) + rows[|rows| - 1].balance * r
  {
    LedgerSums(rows, loanAmount, r, payment);
    LedgerEndsOnePaymentShort(rows, loanAmount, r, payment);
    ShortfallArithmetic(total, loanAmount, payment, months, SumInterest(rows), SumPrincipal(rows),
                        rows[|rows| - 1].balance, r);
  }

  lemma ShortfallArithmetic(total: real, loanAmount: real, payment: real, months: int,
                            interest: real, principal: real, last: real, r: real)
    requires principal == loanAmount - last
    requires interest + principal == (months - 1) as real * payment
    requires last * (1.0 + r) == payment
    requires total + loanAmount == payment * months as real
    ensures total == interest + last * r
  {
    assert (months - 1) as real * payment == months as real * payment - payment;
    assert last * (1.0 + r) == last + last * r;
  }

  /** With a positive rate and a level payment above the first month's
      interest, every payment lowers the balance, which never exceeds the
      loan amount. */
  lemma {:induction false} BalanceFalls(principal: real, r: real, payment: real, k: nat)
    requires 0.0 < r && principal * r < payment
    ensures BalanceAfter(principal, r, payment, k + 1) < BalanceAfter(principal, r, payment, k) <= principal
  {
    var b := BalanceAfter(principal, r, payment, k);
    if k > 0 {
      BalanceFalls(principal, r, payment, k - 1);
    }
    assert b * r <= principal * r;
  }

  lemma {:induction false} BalanceFallsBetween(principal: real, r: real, payment: real, j: nat, k: nat)
    requires 0.0 < r && principal * r < payment
    requires j < k
    ensures BalanceAfter(principal, r, payment, k) < BalanceAfter(principal, r, payment, j)
    decreases k
  {
    BalanceFalls(principal, r, payment, k - 1);
    if j < k - 1 {
      BalanceFallsBetween(principal, r, payment, j, k - 1);
    }
  }

  lemma PaymentExceedsFirstInterest(loanAmount: real, r: real, growth: real, payment: real)
    requires payment * (growth - 1.0) == loanAmount * r * growth
    requires 0.0 < loanAmount && 0.0 < r && 1.0 < growth
    ensures loanAmount * r < payment
  {
    var interest := loanAmount * r;
    var excess := payment - interest;
    assert excess * (growth - 1.0) == interest;
    MulStrict(0.0, loanAmount, r);
    assert 0.0 < interest;
    assert 0.0 < excess;
  }

  /** For a positive loan at a positive rate every balance in the table is
      positive, the interest portion strictly falls and the principal
      portion strictly rises from one payment row to the next. */
  lemma TableMonotone(price: real, ratePercent: real, years: int, downPayment: real)
    requires 0 < years && 0.0 < ratePercent && 0.0 < LoanAmount(price, downPayment)
    ensures PaymentDefined(ratePercent, years)
    ensures var t := GenerateAmortizationTable(price, ratePercent, years, downPayment).value;
            && (forall k :: 0 <= k < |t| ==> 0.0 < t[k].balance)
            && (forall j, k :: 1 <= j < k < |t| ==> t[k].interest < t[j].interest && t[j].principal < t[k].principal)
  {
    var t := GenerateAmortizationTable(price, ratePercent, years, downPayment).value;
    var m := CalculateTotalInterest(price, ratePercent, years, downPayment).value.monthlyPayment;
    var p := LoanAmount(price, downPayment);
    var r := MonthlyRate(ratePercent);
    var n := LoanMonths(years);
    PowAboveOne(1.0 + r, n);
    PaymentExceedsFirstInterest(p, r, Pow(1.0 + r, n), m);
    assert IsLedger(t, p, r, m);
    assert BalanceAfter(p, r, m, |t|) == 0.0 by {
      PaymentRetiresLoan(price, ratePercent, years, downPayment, m);
    }
    LedgerMonotone(t, p, r, m);
  }

  /** The ledger form of `TableMonotone`: a payment above the first month's
      interest that retires the loan one month after the last row keeps every
      balance positive, lowers the interest and raises the principal of
      each successive payment row. */
  lemma LedgerMonotone(rows: seq<Row>, loanAmount: real, r: real, payment: real)
    requires IsLedger(rows, loanAmount, r, payment)
    requires 0.0 < r && loanAmount * r < payment
    requires BalanceAfter(loanAmount, r, payment, |rows|) == 0.0
    ensures forall k :: 0 <= k < |rows| ==> 0.0 < rows[k].balance
    ensures forall j, k :: 1 <= j < k < |rows| ==> rows[k].interest < rows[j].interest && rows[j].principal < rows[k].principal
  {
    forall k | 0 <= k < |rows|
      ensures 0.0 < rows[k].balance
    {
      LedgerRow(rows, loanAmount, r, payment, k);
      BalanceFallsBetween(loanAmount, r, payment, k, |rows|);
    }
    forall j, k | 1 <= j < k < |rows|
      ensures rows[k].interest < rows[j].interest && rows[j].principal < rows[k].principal
    {
      LedgerRow(rows, loanAmount, r, payment, j - 1);
      LedgerRow(rows, loanAmount, r, payment, k - 1);
      BalanceFallsBetween(loanAmount, r, payment, j - 1, k - 1);
      assert IsPaymentStep(rows[j - 1], rows[j], r, payment);
      assert IsPaymentStep(rows[k - 1], rows[k], r, payment);
      LaterPaymentSplit(rows[j - 1], rows[j], rows[k - 1], rows[k], r, payment);
    }
  }

  /** Of two payment steps, the one from the lower balance pays less interest
      and more principal. */
  lemma LaterPaymentSplit(prevEarlier: Row, earlier: Row, prevLater: Row, later: Row, r: real, payment: real)
    requires IsPaymentStep(prevEarlier, earlier, r, payment) && IsPaymentStep(prevLater, later, r, payment)
    requires prevLater.balance < prevEarlier.balance && 0.0 < r
    ensures later.interest < earlier.interest && earlier.principal < later.principal
  {
    MulStrict(prevLater.balance, prevEarlier.balance, r);
  }

  /** At a nonnegative rate, a ledger whose balances are all nonnegative
      collects nonnegative interest. */
  lemma {:induction false} LedgerInterestNonNegative(rows: seq<Row>, loanAmount: real, r: real, payment: real)
    requires IsLedger(rows, loanAmount, r, payment) && 0.0 <= r
    requires forall k :: 0 <= k < |rows| ==> 0.0 <= rows[k].balance
    ensures 0.0 <= SumInterest(rows)
    decreases |rows|
  {
    var last := |rows| - 1;
    if last > 0 {
      LedgerPrefix(rows, loanAmount, r, payment, last);
      assert forall k :: 0 <= k < last ==> rows[..last][k] == rows[k];
      LedgerInterestNonNegative(rows[..last], loanAmount, r, payment);
      assert IsPaymentStep(rows[last - 1], rows[last], r, payment);
      assert 0.0 <= rows[last - 1].balance * r;
    } else {
      assert rows[..0] == [];
    }
  }

  /** The interest column of an annuity ledger is proportional to its loan:
      when the payment is `a` per unit of loan and would retire the loan one
      month after the last row, the n rows collect
      P * (n * a - 1 - a / (1 + r) * r). */
  lemma LedgerInterestScales(rows: seq<Row>, loanAmount: real, r: real, payment: real, a: real, c: real)
    requires IsLedger(rows, loanAmount, r, payment)
    requires BalanceAfter(loanAmount, r, payment, |rows|) == 0.0
    requires r != -1.0 && payment == loanAmount * a
    requires c == |rows| as real * a - 1.0 - a / (1.0 + r) * r
    ensures SumInterest(rows) == loanAmount * c
  {
    var last := LedgerInterestParts(rows, loanAmount, r, payment);
    ScaledInterestArithmetic(SumInterest(rows), last, loanAmount, r, payment, a, |rows| as real, c);
  }

  /** A ledger that runs its loan down to zero pays n payments less the loan
      as interest, save one month's interest on its last balance `last`. */
  lemma LedgerInterestParts(rows: seq<Row>, loanAmount: real, r: real, payment: real) returns (last: real)
    requires IsLedger(rows, loanAmount, r, payment)
    requires BalanceAfter(loanAmount, r, payment, |rows|) == 0.0
    ensures last == rows[|rows| - 1].balance
    ensures payment * |rows| as real - loanAmount == SumInterest(rows) + last * r
    ensures last * (1.0 + r) == payment
  {
    last := rows[|rows| - 1].balance;
    LedgerInterestShortfall(rows, loanAmount, r, payment, payment * |rows| as real - loanAmount, |rows|);
    LedgerEndsOnePaymentShort(rows, loanAmount, r, payment);
  }

  /** The arithmetic behind `LedgerInterestScales`, on plain numbers. */
  lemma ScaledInterestArithmetic(interest: real, last: real, loanAmount: real, r: real, payment: real, a: real, n: real, c: real)
    requires r != -1.0 && payment == loanAmount * a && c == n * a - 1.0 - a / (1.0 + r) * r
    requires payment * n - loanAmount == interest + last * r
    requires last * (1.0 + r) == payment
    ensures interest == loanAmount * c
  {
    assert last == a / (1.0 + r) * loanAmount by {
      assert (last - a / (1.0 + r) * loanAmount) * (1.0 + r) == 0.0;
      ZeroProduct(last - a / (1.0 + r) * loanAmount, 1.0 + r);
    }
  }

  /** The annuity payment of a loan is the loan times the payment per unit of loan. */
  lemma PaymentPerUnit(loanAmount: real, r: real, payment: real, growth: real, a: real)
    requires growth != 1.0
    requires payment * (growth - 1.0) == loanAmount * r * growth
    requires a * (growth - 1.0) == r * growth
    ensures payment == loanAmount * a
  {
    assert (payment - loanAmount * a) * (growth - 1.0) == 0.0;
    ZeroProduct(payment - loanAmount * a, growth - 1.0);
  }

  /** At a positive rate the interest per unit of loan is nonnegative: it is
      the interest column of the ledger of a unit loan, whose balances stay
      positive. */
  lemma InterestFactorNonNegative(r: real, n: nat, growth: real, a: real)
    requires 0.0 < r && 1 <= n
    requires growth == Pow(1.0 + r, n) && a * (growth - 1.0) == r * growth
    ensures 0.0 <= n as real * a - 1.0 - a / (1.0 + r) * r
  {
    var rows := UnitLedger(r, n, growth, a);
    LedgerInterestScales(rows, 1.0, r, a, a, |rows| as real * a - 1.0 - a / (1.0 + r) * r);
  }

  /** The ledger of a unit loan at a positive rate, which runs down to zero
      and collects a nonnegative interest column. */
  lemma UnitLedger(r: real, n: nat, growth: real, a: real) returns (rows: seq<Row>)
    requires 0.0 < r && 1 <= n
    requires growth == Pow(1.0 + r, n) && a * (growth - 1.0) == r * growth
    ensures IsLedger(rows, 1.0, r, a) && |rows| == n
    ensures BalanceAfter(1.0, r, a, |rows|) == 0.0
    ensures 0.0 <= SumInterest(rows)
  {
    PowAboveOne(1.0 + r, n);
    rows := LedgerOf(1.0, r, a, n);
    AnnuityRetiresLoan(1.0, r, a, a, n);
    PaymentExceedsFirstInterest(1.0, r, growth, a);
    LedgerMonotone(rows, 1.0, r, a);
    LedgerInterestNonNegative(rows, 1.0, r, a);
  }

  /** At a positive rate, of two loans over the same term the smaller one
      collects no more interest in its table. Both tables' interest columns
      are their loan amounts times one nonnegative factor of the rate and the
      term (zero for a negative term, whose table is the opening row alone). */
  lemma TableInterestGrowsWithLoan(price1: real, price2: real, ratePercent: real, years: int, downPayment: real,
                                   t1: seq<Row>, q1: Quote, t2: seq<Row>, q2: Quote)
    requires 0.0 < ratePercent && price2 <= price1
    requires GenerateAmortizationTable(price1, ratePercent, years, downPayment) == Success(t1)
    requires CalculateTotalInterest(price1, ratePercent, years, downPayment) == Success(q1)
    requires GenerateAmortizationTable(price2, ratePercent, years, downPayment) == Success(t2)
    requires CalculateTotalInterest(price2, ratePercent, years, downPayment) == Success(q2)
    ensures SumInterest(t2) <= SumInterest(t1)
  {
    QuoteFacts(price1, ratePercent, years, downPayment, q1);
    TableFacts(price1, ratePercent, years, downPayment, t1, q1);
    QuoteFacts(price2, ratePercent, years, downPayment, q2);
    TableFacts(price2, ratePercent, years, downPayment, t2, q2);
    if years < 0 {
      OpeningRowInterest(t1, LoanAmount(price1, downPayment), MonthlyRate(ratePercent), q1.monthlyPayment);
      OpeningRowInterest(t2, LoanAmount(price2, downPayment), MonthlyRate(ratePercent), q2.monthlyPayment);
      assert SumInterest(t1) == 0.0 && SumInterest(t2) == 0.0;
    } else {
      PositiveTermInterestGrows(price1, price2, ratePercent, years, downPayment, t1, q1, t2, q2);
    }
  }

  /** `TableInterestGrowsWithLoan` for a positive term, from the facts about
      both tables. */
  lemma PositiveTermInterestGrows(price1: real, price2: real, ratePercent: real, years: int, downPayment: real,
                                  t1: seq<Row>, q1: Quote, t2: seq<Row>, q2: Quote)
    requires 0.0 < ratePercent && price2 <= price1 && 0 < years
    requires IsLedger(t1, LoanAmount(price1, downPayment), MonthlyRate(ratePercent), q1.monthlyPayment) && |t1| == LoanMonths(years)
    requires BalanceAfter(LoanAmount(price1, downPayment), MonthlyRate(ratePercent), q1.monthlyPayment, LoanMonths(years)) == 0.0
    requires q1.monthlyPayment * (Pow(1.0 + MonthlyRate(ratePercent), LoanMonths(years)) - 1.0)
             == LoanAmount(price1, downPayment) * MonthlyRate(ratePercent) * Pow(1.0 + MonthlyRate(ratePercent), LoanMonths(years))
    requires IsLedger(t2, LoanAmount(price2, downPayment), MonthlyRate(ratePercent), q2.monthlyPayment) && |t2| == LoanMonths(years)
    requires BalanceAfter(LoanAmount(price2, downPayment), MonthlyRate(ratePercent), q2.monthlyPayment, LoanMonths(years)) == 0.0
    requires q2.monthlyPayment * (Pow(1.0 + MonthlyRate(ratePercent), LoanMonths(years)) - 1.0)
             == LoanAmount(price2, downPayment) * MonthlyRate(ratePercent) * Pow(1.0 + MonthlyRate(ratePercent), LoanMonths(years))
    ensures SumInterest(t2) <= SumInterest(t1)
  {
    var r, n: nat := MonthlyRate(ratePercent), LoanMonths(years);
    var g := Pow(1.0 + r, n);
    var a, c := UnitAnnuity(r, n);
    LedgerScales(t1, LoanAmount(price1, downPayment), r, q1.monthlyPayment, n, g, a, c);
    LedgerScales(t2, LoanAmount(price2, downPayment), r, q2.monthlyPayment, n, g, a, c);
    ScaledMonotone(SumInterest(t1), SumInterest(t2), LoanAmount(price1, downPayment), LoanAmount(price2, downPayment), c);
  }

  /** The payment per unit of loan at a positive rate over n >= 1 months,
      with the interest it collects per unit of loan. */
  lemma UnitAnnuity(r: real, n: nat) returns (a: real, c: real)
    requires 0.0 < r && 1 <= n
    ensures Pow(1.0 + r, n) != 1.0
    ensures a * (Pow(1.0 + r, n) - 1.0) == r * Pow(1.0 + r, n)
    ensures c == n as real * a - 1.0 - a / (1.0 + r) * r && 0.0 <= c
  {
    var g := Pow(1.0 + r, n);
    PowAboveOne(1.0 + r, n);
    a := r * g / (g - 1.0);
    c := n as real * a - 1.0 - a / (1.0 + r) * r;
    assert r * g / (g - 1.0) * (g - 1.0) == r * g;
    InterestFactorNonNegative(r, n, g, a);
  }

  /** An annuity ledger's interest column is its loan amount times the
      interest per unit of loan. */
  lemma LedgerScales(rows: seq<Row>, loanAmount: real, r: real, payment: real, n: nat, growth: real, a: real, c: real)
    requires r != -1.0 && growth != 1.0
    requires IsLedger(rows, loanAmount, r, payment) && |rows| == n
    requires BalanceAfter(loanAmount, r, payment, n) == 0.0
    requires payment * (growth - 1.0) == loanAmount * r * growth && a * (growth - 1.0) == r * growth
    requires c == n as real * a - 1.0 - a / (1.0 + r) * r
    ensures SumInterest(rows) == loanAmount * c
  {
    PaymentPerUnit(loanAmount, r, payment, growth, a);
    LedgerInterestScales(rows, loanAmount, r, payment, a, c);
  }

  /** A ledger of the opening row alone collects no interest. */
  lemma OpeningRowInterest(rows: seq<Row>, loanAmount: real, r: real, payment: real)
    requires IsLedger(rows, loanAmount, r, payment) && |rows| == 1
    ensures SumInterest(rows) == 0.0
  {
    assert rows[..0] == [];
  }

  /** Two amounts proportional to two loans by one nonnegative factor are
      ordered as the loans are. */
  lemma ScaledMonotone(larger: real, smaller: real, largerLoan: real, smallerLoan: real, factor: real)
    requires larger == largerLoan * factor && smaller == smallerLoan * factor
    requires smallerLoan <= largerLoan && 0.0 <= factor
    ensures smaller <= larger
  {
    assert 0.0 <= (largerLoan - smallerLoan) * factor;
  }
}
