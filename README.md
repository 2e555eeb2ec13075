# Annuity calculator with one early repayment — a verified model

The calculator computes the fixed monthly payment of an annuity loan and the
repayment schedule, month by month, with one optional early repayment. In the
prepayment month the extra amount comes off the balance. Then either the
payment is kept ("Сократить срок", shorten the term) or it is recomputed over
the months that remain ("Уменьшить платёж", reduce the payment). The page shows
four figures above the table: the monthly payment, the interest paid, the
number of months and the total paid.

The model has four modules:

- `Annuity` (`annuity.dfy`) holds the payment formula `CalculateAnnuity`, the
  annuity factor, and rounding to the cent. It also proves what the formula
  means: a fixed payment clears the loan over the term exactly when it is the
  principal times the factor.
- `Amortisation` (`schedule.dfy`) holds the schedule generator.
  - `Period` is one turn of the loop as a function of the loop state.
  - `Periods` and `ScheduleOf` run the loop from a state.
  - `GenerateSchedule` is the loop itself. It keeps the code's variables and
    its two `break`s, with `Month` computing one month, and it is proved to
    return `ScheduleOf` of its inputs.
- `ScheduleProperties` (`schedule_properties.dfy`) proves the schedule's
  properties. The central one is the ledger: each row can be recomputed from
  the row before it, from that row's closing balance and payment alone.
- `Totals` (`totals.dfy`) holds the column sums behind the summary figures.

Money is a whole number of cents. Each amount the code rounds to two
decimals is rounded here to the cent, with halves rounded up. The rate is an
exact real.

The code has these quirks, and the model keeps them:

- In the month whose payment "Уменьшить платёж" recomputes, the row shows the
  new payment beside the principal and interest shares of the old one. That is
  the only row whose payment is not its principal share plus its interest; the
  terminal row `[m, amount, amount, 0, 0]` splits as amount + 0.
- `calculate_annuity` has no case for a zero rate: the formula divides by zero
  there. The form only offers rates from 1%, and the model requires a positive
  rate.
- With "Уменьшить платёж" and a prepayment in the last month of the term, the
  payment is recomputed over zero months, which divides by zero when a balance
  is left. The model returns the outcome `ZeroDivisionError` for it.
- The inputs are not checked beyond the bounds of the form's widgets.
- When the prepayment covers what is left after the regular payment, the
  terminal row `[m, amount, amount, 0, 0]` replaces that month's row. The
  month's regular payment and interest then appear in no row.

## Model

| member | source | states |
|---|---|---|
| Annuity.MonthlyRate | annuity_web_app.py:8 | the monthly rate is the annual percentage divided by 1200, positive for a positive rate |
| Annuity.RoundCents | annuity_web_app.py:10 | rounding to the cent lands within half a cent of the exact amount, halves going up |
| Annuity.AnnuityFactor | annuity_web_app.py:9 | the annuity factor r(1+r)^n/((1+r)^n - 1) is strictly larger than the monthly rate r |
| Annuity.CalculateAnnuity | annuity_web_app.py:7-10 | the rounded payment is never below one month's rounded interest on the principal, and is not negative for a positive principal |
| Annuity.ClearsLoanIff | annuity_web_app.py:9 | a fixed payment leaves nothing owing after n months of exact amortisation if and only if it is principal times the annuity factor |
| Annuity.CalculateAnnuityClears | annuity_web_app.py:7-10 | the payment returned is within half a cent of the exact payment, and that exact payment clears the loan over the term |
| Annuity.RemainingClosedForm | annuity_web_app.py:9 | closed form of the balance after k months of exact amortisation, behind the formula |
| Annuity.InstalmentsExceedPrincipal | annuity_web_app.py:9 | n payments of the exact annuity add up to more than the principal |
| Annuity.PowGrowthBound | annuity_web_app.py:9 | (1+r)^n - 1 < n·r·(1+r)^n, the bound behind InstalmentsExceedPrincipal |
| Amortisation.Interest | annuity_web_app.py:20 | the month's interest is within half a cent of balance × monthly rate, and never negative on a balance that is not negative |
| Amortisation.InitialPayment | annuity_web_app.py:14 | the payment computed before the loop covers the first month's interest on the principal, and is not negative for a positive principal |
| Amortisation.Period | annuity_web_app.py:19-42 | a month ends the loan exactly when the prepayment is due and covers the balance left after the regular payment, and then its row is [m, amount, amount, 0, 0]; it fails exactly when the payment would be recomputed over zero remaining months |
| Amortisation.Month | annuity_web_app.py:20-36 | the month's computation in the loop (interest, principal share, prepayment, shorter term or new payment) yields exactly `Period` of the loop state |
| Amortisation.Periods | annuity_web_app.py:19-42 | the loop entered in a given state, as a recursive function; `GenerateSchedule` is proved to compute it, and its rows are characterised by `PeriodsLedger`, `PeriodsExtent`, `PeriodsCoverInterest`, `PeriodsCrash` and `PeriodsWithoutPrepayment` |
| Amortisation.ScheduleOf | annuity_web_app.py:14-42 | the loop entered at month 1 with the whole principal and the initial payment; its properties are stated by `ScheduleLedger`, `ScheduleShape`, `ScheduleCoversInterest` and the lemmas after them |
| Amortisation.GenerateSchedule | annuity_web_app.py:12-45 | the loop with its two breaks returns exactly `ScheduleOf` of its inputs, and never more than 500 rows |
| ScheduleProperties.PeriodsLedger | annuity_web_app.py:19-42 | from any loop state the rows are numbered from the current month, and each row follows from the previous row's balance and payment: interest on the opening balance, the rest of the payment off it, and in the prepayment month either the terminal row, which is last, or the amount off as well with the payment kept or recomputed over the original term's remaining months |
| ScheduleProperties.ScheduleLedger | annuity_web_app.py:14-42 | the same for a loan's schedule, with the first row opening on the principal and the initial annuity payment |
| ScheduleProperties.PeriodsExtent | annuity_web_app.py:19-42 | from any loop state: at most 500 - m + 1 rows; no rows exactly when the balance is at most one cent; more than one cent owing after every row but the last; no negative balance; at most one cent owing after the last row unless the 500-row bound stopped the loop |
| ScheduleProperties.ScheduleShape | annuity_web_app.py:16-42 | a schedule has at most 500 rows numbered 1, 2, ...; it is empty exactly when the principal is at most one cent; it shows no negative balance; it continues only while more than one cent is owed; it ends with at most one cent owing unless cut at 500 rows |
| ScheduleProperties.InterestMonotone | annuity_web_app.py:20 | the month's rounded interest does not decrease as the balance grows |
| ScheduleProperties.PeriodsCoverInterest | annuity_web_app.py:20-35 | once the payment covers the month's interest it keeps doing so, also after a new payment, so no row has a negative principal share or negative interest |
| ScheduleProperties.ScheduleCoversInterest | annuity_web_app.py:14-35 | no row of a schedule has a negative principal share or negative interest |
| ScheduleProperties.PeriodsCrash | annuity_web_app.py:33-35 | from any loop state, the run fails only for "Уменьшить платёж" with a positive prepayment in the last month of the term |
| ScheduleProperties.ScheduleFailsOnlyRecomputingOverNoMonths | annuity_web_app.py:33-35 | a schedule fails only for "Уменьшить платёж" with a positive prepayment in the last month of the term |
| ScheduleProperties.PeriodsWithoutPrepayment | annuity_web_app.py:19-38 | with prepayment month ≤ 0 or amount ≤ 0, a run equals the run without prepayment, never fails, and every row pays the same payment, split exactly into principal and interest |
| ScheduleProperties.ScheduleWithoutPrepayment | annuity_web_app.py:14-38 | month 0 or amount 0 yields the schedule without prepayment, never a failure, with every row paying the initial annuity payment split exactly into principal and interest |
| ScheduleProperties.SteadyPayments | annuity_web_app.py:37 | rows each paying what the row before paid all pay the first one's payment |
| ScheduleProperties.PaymentChangesOnlyAtPrepayment | annuity_web_app.py:14-37 | outside the prepayment month each row pays what the previous row paid, the first row the initial annuity payment |
| ScheduleProperties.PaymentSplitsExceptRecomputed | annuity_web_app.py:20-37 | every row, the terminal one included, pays exactly its principal share plus its interest, except the row whose payment "Уменьшить платёж" recomputed |
| ScheduleProperties.ShortenTermKeepsPayment | annuity_web_app.py:30-32 | with "Сократить срок" the schedule never fails, and every row pays the initial annuity payment except a terminal row, which is last |
| ScheduleProperties.ReducePaymentRecomputes | annuity_web_app.py:33-35 | with "Уменьшить платёж", rows before the prepayment month pay the initial payment; the prepayment row, unless it ends the loan, shows the annuity of the balance left over the original term's remaining months; from then on the payment does not change |
| ScheduleProperties.TerminalRowIsLast | annuity_web_app.py:26-28 | a terminal row [m, amount, amount, 0, 0] in a schedule is always its last row |
| Totals.Summarize | annuity_web_app.py:66-70 | a summary exists exactly when the schedule has a row, since reading the first payment of an empty table fails |
| Totals.SumPayments | annuity_web_app.py:66 | the sum of the payment column, the total paid; its value is stated by `ConstantTotal` and `TotalPaidSplits` |
| Totals.SumInterest | annuity_web_app.py:68 | the sum of the interest column, the overpayment; stated non-negative by `OverpaymentNonNegative` and tied to the total paid by `TotalPaidSplits` |
| Totals.TotalPaidSplits | annuity_web_app.py:66-68 | when every row pays its principal share plus its interest, the total paid is the principal repaid plus the interest total |
| Totals.ConstantTotal | annuity_web_app.py:66 | rows that all pay one amount have a total paid of that amount times the number of rows |
| Totals.OverpaymentNonNegative | annuity_web_app.py:68 | interest that is never negative sums to a non-negative overpayment |
| Totals.PrincipalRepaid | annuity_web_app.py:21-22 | principal shares that each come off the opening balance add up to the starting balance less the final balance, or more when the last balance was clamped at zero |
| Totals.SummaryWithoutPrepayment | annuity_web_app.py:66-70 | without prepayment, the summary shows the initial annuity payment, total paid = months × payment = principal repaid + overpayment, a non-negative overpayment, and principal shares plus the final balance covering the whole principal |

## Left out

- The Streamlit page, the input widgets, the pandas DataFrame, the table styling, the matplotlib chart and the formatted summary strings are not modelled. A schedule is a sequence of `Row` values, and the summary is four numbers.
- Binary floating point and Python's `round` (round-half-even on floats) are not modelled. Amounts are exact cents rounded half up, and the rate is an exact real. The unrounded subtraction of the prepayment is exact on cents.
- The loan inputs are restricted to a positive rate, a term of at least one month and a prepayment month within the term (`ValidLoan`), which the form's widgets guarantee. With a zero rate or a zero term the formula divides by zero. With a prepayment month beyond the term the payment would be recomputed over a negative number of months; the model's power function does not cover that.
- Adjustment labels other than the two radio options are not modelled. With such a label neither branch runs and the payment is kept, as with "Сократить срок".
- The term that "Сократить срок" reassigns is kept as loop state. Nothing reads it again, and the properties above show that the payment does not depend on it.
- No convergence claim is made about the rounded schedule, i.e. that it reaches zero within the term. `ClearsLoanIff`, `CalculateAnnuityClears` and `InstalmentsExceedPrincipal` are about exact, unrounded amortisation. The rounded schedule is only shown to stay non-negative, to stop at one cent or after 500 rows, and to keep the payment above the interest.
- ScheduleFailsOnlyRecomputingOverNoMonths: states only the necessary condition for the division by zero. Whether a given loan reaches its last month with a balance left after the prepayment depends on the rounded balances before it.
- SummaryWithoutPrepayment: states the totals only for loans without prepayment. With a prepayment the recomputed row and the terminal row do not split their payment, and the prepaid amount comes off the balance outside the principal column.
