# Car loan calculator: the amortisation core

This project models the arithmetic core of a car-loan calculator (`app.py`). The core is three pure functions:

- `calculate_total_interest` quotes the level monthly payment of a fixed-rate loan with the closed-form annuity formula. It also quotes the total interest, which is what the payments pay beyond the loan amount.
- `generate_amortization_table` builds the month-by-month ledger. Row 1 is an opening snapshot `[1, 0, 0, loan_amount]`. It is followed by `loan_months - 1` payment rows. Each payment row charges interest on the previous balance and applies the rest of the quoted payment to principal.
- `calculate_prepayment_savings` pays the scheduled payment plus an extra amount for a number of months. It then re-amortises what is left over the remaining whole years. It reports the interest saved and the months saved.

The model works over exact `real` numbers. In exact arithmetic Python's only failure here is `ZeroDivisionError`, which the model returns as `Failure(ZeroDivisionError)` (module `Outcomes`). Python raises it in two cases:

- when the annuity denominator `(1 + r)^n - 1` is zero;
- when `0.0` is raised to a negative power.

The modules follow the program's structure:

- `RealMath`: natural powers of a real, and Python's `int()` (truncation toward zero).
- `Annuity`: `calculate_total_interest`, Python's `**` on an int exponent, and the balance recurrence `B' = B * (1 + r) - M`.
- `Amortization`: the ledger, both as a function and as the loop that builds it, and its column sums.
- `Prepayment`: the accelerated-payoff loop, the truncated remaining term and the savings.

Every operation is defined for every input, and the error results say exactly when Python raises in exact arithmetic. The payment is defined when all of these hold:

- `loan_years != 0`;
- `r != 0`;
- `r != -2`;
- `r != -1` for a negative term.

Here `r` is the monthly rate and `n = 12 * loan_years` is always even. The code accepts negative rates and negative terms, so the model does too. A negative remaining term does occur in `calculate_prepayment_savings`, once the prepayment window runs 12 or more months past the end of the loan. A window that ends less than 12 months before or after the end of the term truncates the remaining term to 0 years, and the call raises (`WindowInLastYearRaises`). For example, a 3-year loan with a 30-month window raises.

## Model

| member | source | states |
|---|---|---|
| RealMath.TruncToInt | app.py:34 | `int()` rounds toward zero: for x >= 0 the result is the floor of x; for x < 0 it is the ceiling, which is at most 0. |
| Annuity.PyPow | app.py:11-12 | In exact arithmetic, Python's `x ** n` fails exactly when x = 0 and n < 0. For n >= 0 it is the natural power; for n < 0 it is the reciprocal of x^-n. |
| Annuity.GrowthIsNotOne | app.py:11-13 | The growth factor (1 + r)^n is computable and differs from 1 exactly when the payment is defined. |
| Annuity.CalculateTotalInterest | app.py:6-18 | The quote fails exactly when PaymentDefined fails. On success, total interest plus the loan amount equals the payment times n. The payment solves M * ((1 + r)^n - 1) = P * r * (1 + r)^n for a positive term, and M * (1 - (1 + r)^-n) = P * r for a negative one. |
| Annuity.BalanceClosedForm | app.py:55-58 | The balance recurrence has the closed form B_k * r = P * r * (1 + r)^k - M * ((1 + r)^k - 1). |
| Annuity.BalanceAfterSplit | app.py:55-58 | Paying k1 + k2 months equals paying k1 months and then k2 more on the balance left. |
| Annuity.PaymentRetiresLoan | app.py:11-13 | For a positive term, a level payment clears the loan in exactly n months if and only if it is the quoted payment. |
| Annuity.AnnuityRetiresLoan | app.py:11-13 | When r != 0 and (1 + r)^n != 1, the balance after n payments is zero exactly when the payment is the annuity payment. |
| Annuity.QuoteFacts | app.py:6-18 | A successful quote implies the inputs were admissible and the total interest is n payments minus the loan. For a positive term it also implies the quoted payment retires the loan in n months. |
| Amortization.PaymentRows | app.py:55-60 | Produces `count` rows. The first follows the given row by one payment step, and each later row follows its predecessor by one payment step. |
| Amortization.GenerateAmortizationTable | app.py:45-62 | The table fails exactly when the quote does. On success it has n rows for a positive term and one row otherwise. It is a ledger: it opens with `(1, 0, 0, loan_amount)`, and each later row is one payment step of the quoted payment from the previous row. |
| Amortization.LedgerOf | app.py:52-60 | The opening row followed by `loan_months - 1` payment rows is a ledger of `loan_months` rows, or of the opening row alone when `loan_months <= 1`. |
| Amortization.BuildAmortizationTable | app.py:52-60 | The row-by-row loop produces a ledger with `loan_months` rows, or just the opening row when `loan_months <= 1`; it is the same table as `LedgerOf`. |
| Amortization.LedgerUnique | app.py:52-60 | Two ledgers of the same loan, rate and payment with equal length are equal, so the loop and the function build the same table. |
| Amortization.LedgerRow | app.py:52-58 | Row k of a ledger (counted from 0) is month k + 1 and holds the balance after k payments of the recurrence. |
| Amortization.LedgerSums | app.py:55-60 | The principal column sums to the loan amount minus the last balance. The interest and principal columns together sum to one payment per payment row. |
| Amortization.LedgerTail | app.py:55-60 | A ledger's interest column is its first s payments' interest plus the interest column of a ledger opened at row s's balance. |
| Amortization.TableRow | app.py:45-60 | Row k of the table (counted from 0) is month k + 1 and holds the balance after k quoted payments. |
| Amortization.LastRowBalance | app.py:55-58 | The table applies only n - 1 payments. So for a positive term its last balance times (1 + r) is the payment, not zero. For r != -1 the last balance is nonzero whenever the loan amount is; for r = -1 it is zero. |
| Amortization.TableInterestShortfall | app.py:15-60 | For a positive term, the quoted total interest equals the sum of the table's interest column plus one month's interest on the last balance. |
| Amortization.LedgerInterestNonNegative | app.py:55-60 | At r >= 0, a ledger whose balances are all nonnegative has a nonnegative interest column. |
| Amortization.LedgerInterestScales | app.py:55-60 | A ledger that runs its loan to zero at a payment of a per unit of loan has an interest column equal to the loan amount times n * a - 1 - a * r / (1 + r). |
| Amortization.InterestFactorNonNegative | app.py:55-60 | At a positive rate and n >= 1 months, that interest per unit of loan is nonnegative. |
| Amortization.TableInterestGrowsWithLoan | app.py:45-60 | At a positive rate, over the same term, a smaller price yields a table whose interest column sums to no more. |
| Amortization.TableMonotone | app.py:55-60 | For a positive loan, rate and term, every balance in the table is positive. Across payment rows the interest portion strictly falls and the principal portion strictly rises. |
| Prepayment.PrepaymentBalance | app.py:28-32 | After `steps` iterations, the prepayment balance is the balance of the same loan under the raised level payment M + extra. |
| Prepayment.RunPrepayment | app.py:28-32 | The loop as written runs `range(num_prepayment_months)` steps (none for a negative count) and ends on that balance. |
| Prepayment.CalculatePrepaymentSavings | app.py:20-42 | It fails exactly when the original loan or the re-amortised remainder has no defined payment. The months saved are the original term minus the window and the length of the new table. |
| Prepayment.ZeroExtraFollowsTable | app.py:28-32 | With no extra amount, the balance after k loop steps is the balance in row k + 1 of the original table. |
| Prepayment.PrepaymentGap | app.py:28-32 | At r >= 0 and extra >= 0, the balance after k prepayment steps is at least k * extra below the scheduled balance. |
| Prepayment.PrepaymentStaysBelowTable | app.py:28-32 | At r >= 0 and extra >= 0, the balance after k steps never exceeds row k + 1 of the original table and lies at least k * extra below it. |
| Prepayment.OverpaidBalanceKeepsFalling | app.py:28-32 | The loop does not stop at payoff: once the balance is negative, at r >= 0 and a nonnegative total payment, it never rises again. |
| Prepayment.RemainingYearsRoundsUp | app.py:34 | For a window within the term, the remaining term is the years minus the window rounded up to whole years. |
| Prepayment.WindowPastTerm | app.py:34 | A window longer than the term leaves no positive remaining years. The remaining term is negative exactly when the window runs 12 or more months past the term. |
| Prepayment.WindowInLastYearRaises | app.py:34-35 | A window that ends less than 12 months before or after the end of the term truncates the remaining term to 0 years, so the savings call fails. |
| Prepayment.MonthsSavedIsRoundingSlack | app.py:34-40 | For a window that leaves at least one whole year, the months saved are (12 - window mod 12) mod 12. That is the slack of rounding up, always below 12 and independent of price, rate and extra amount. |
| Prepayment.ZeroExtraSavingsIsInterestAlreadyPaid | app.py:20-42 | With no extra amount and a whole-year window that leaves at least one whole year, the interest saved equals the interest column of the window's rows and the months saved are zero. |
| Prepayment.NoWindowSavesNothing | app.py:20-42 | For a positive term, with an empty window nothing is saved, whatever the extra amount. |
| Prepayment.ExtraGap | app.py:28-32 | At r >= 0, raising the extra amount from e1 to e2 lowers the balance after k loop steps by at least k * (e2 - e1). |
| Prepayment.MoreExtraSavesMore | app.py:20-42 | At a positive rate, when both calls succeed, a larger extra amount saves at least as much interest over the same window. |
| Prepayment.SavesAtLeastWindowInterest | app.py:20-42 | At a positive rate, with a nonnegative extra amount and a whole-year window that leaves at least one whole year, the interest saved is at least the interest column of the window's rows in the original table. |

Where the behaviour differs from a natural reading of the calculator, the model follows the code:

- **The table's last balance is not zero.** The loop runs `range(1, loan_months)`, so the table applies one payment fewer than the quote assumes. For a positive term, a nonzero loan amount and r != -1, the last balance is therefore M / (1 + r), not zero (`LastRowBalance`). In the same way, the summed interest column differs from the quoted total interest by one month's interest on the last balance (`TableInterestShortfall`).
- **The payment is defined beyond r > 0 and n > 0.** It is also defined for negative rates and negative terms, except for the values listed above (`PaymentDefined`).
- **The re-amortisation does not need a positive remaining term.** A negative remaining term still yields a payment through the negative exponent. Only 0 raises, together with the rates listed above.
- **Zero extra still reports savings.** With no extra amount and a whole-year window that leaves at least one whole year, the "interest saved" is the interest already paid during the window, not zero (`ZeroExtraSavingsIsInterestAlreadyPaid`). At a positive rate a larger extra amount saves at least as much (`MoreExtraSavesMore`), so any nonnegative extra amount reports at least that window interest (`SavesAtLeastWindowInterest`).
- **Months saved never reflect the extra amount.** When the window leaves at least one whole year, they are only rounding slack (`MonthsSavedIsRoundingSlack`). Within 12 months of the end of the term the call raises. A window 12 or more months past the term, when the call succeeds, re-amortises into the opening row alone, so the months saved are 12 * loan_years - window - 1, a negative number.

## Left out

- `main` (app.py:64-133): the Streamlit widgets, the button handling, the string formatting and the Plotly charts are presentation only.
- The user-interface guard `prepayment_amount > 0 and num_prepayment_months > 0` is not a precondition. The savings function is modelled for every input, which includes the inputs the guard admits.
- numpy array packaging and column slicing: the table is a `seq` of `Row` records, and `np.sum(table[:, 1])` is the recursive `SumInterest`.
- IEEE floating point: rounding, overflow, a denominator that is tiny but nonzero, NaN and infinities are not modelled; all arithmetic is exact. In particular the division `num_prepayment_months / 12` is exact before `int()` truncates it.
- `OverflowError`: Python's float `**` raises it when (1 + r)^n exceeds the float range, for example at a 100% rate over 1000 years. The term input has no upper bound, so this can happen. The model's powers are exact and never overflow, so no result reports this error.
- Amortization.TableMonotone: stated only for a positive loan amount, rate and term. For other inputs the columns need not be monotone.
- Prepayment.PrepaymentGap, Prepayment.PrepaymentStaysBelowTable: stated only for r >= 0 and extra >= 0. At a negative rate the gap can shrink.
