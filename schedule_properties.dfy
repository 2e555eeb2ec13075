/**
  What the repayment schedule promises, proved about `Periods` and
  `ScheduleOf`.

  The central fact is the ledger: every row can be recomputed from the row
  before it alone (its closing balance and its payment), without the loop's
  hidden state. The payment and balance properties follow from it.
 */
module ScheduleProperties {
  import opened Annuity
  import opened Amortisation

  /** The balance row i starts from: `start` for the first row, the previous row's closing balance after. */
  function Opening(start: int, rows: seq<Row>, i: int): int
    requires 0 <= i <= |rows|
  {
    if i == 0 then start else rows[i - 1].endBalance
  }

  /** The payment in force when row i is computed: `start` for the first row, the previous row's payment after. */
  function InEffect(start: int, rows: seq<Row>, i: int): int
    requires 0 <= i <= |rows|
  {
    if i == 0 then start else rows[i - 1].payment
  }

  /** Whether the prepayment in the row's month covers what is left after the regular payment. */
  predicate Covers(loan: Loan, opening: int, payment: int, period: int)
  {
    Prepays(loan, period)
    && loan.epAmount >= opening - (payment - Interest(loan.annualRate, opening))
  }

  /**
    How a row follows from the balance it opens on and the payment in force:
    interest on the opening balance, the rest of the payment off the balance,
    and in the prepayment month either the terminal row (which must be the
    last) or the prepayment off as well, with the payment kept or recomputed
    over the months that remain of the original term.
   */
  predicate Follows(loan: Loan, opening: int, payment: int, row: Row, last: bool)
    requires ValidLoan(loan)
  {
    var interest := Interest(loan.annualRate, opening);
    var after := opening - (payment - interest);
    if Covers(loan, opening, payment, row.period) then
      row == TerminalRow(loan) && last
    else
      row.principalPart == payment - interest && row.interest == interest
      && if Prepays(loan, row.period) then
        var rest := after - loan.epAmount;
        row.endBalance == rest
        && if loan.adjustment == ShortenTerm then row.payment == payment
           else row.period < loan.months
                && row.payment == CalculateAnnuity(rest, loan.annualRate, loan.months - row.period)
      else
        row.payment == payment && row.endBalance == Max0(after)
  }

  /** The well-formed loop states: a valid loan, a month within the bound, the original term until the prepayment. */
  predicate LoopState(loan: Loan, m: int, months: int)
  {
    ValidLoan(loan) && 1 <= m <= MaxPeriods && (m <= loan.epMonth ==> months == loan.months)
  }

  /**
    The ledger: the rows of a run are numbered from its first month on, and
    each follows from the row before it.
   */
  lemma {:induction false} PeriodsLedger(loan: Loan, m: int, balance: int, payment: int, months: int)
    requires LoopState(loan, m, months)
    ensures var out := Periods(loan, m, balance, payment, months);
      out.Schedule? ==> forall i :: 0 <= i < |out.rows| ==>
        out.rows[i].period == m + i
        && Follows(loan, Opening(balance, out.rows, i), InEffect(payment, out.rows, i), out.rows[i],
                   i == |out.rows| - 1)
    decreases MaxPeriods - m
  {
    if balance > Epsilon {
      match Period(loan, m, balance, payment, months)
      case Stop(row) =>
      case Crash =>
      case Next(row, b, p, mo) =>
        if m + 1 <= MaxPeriods {
          PeriodsLedger(loan, m + 1, b, p, mo);
          var rest := Periods(loan, m + 1, b, p, mo);
          if rest.Schedule? {
            LedgerStep(loan, m, balance, payment, months, row, b, p, mo, rest.rows);
          }
        }
    }
  }

  lemma LedgerStep(loan: Loan, m: int, balance: int, payment: int, months: int,
                   row: Row, b: int, p: int, mo: int, rest: seq<Row>)
    requires LoopState(loan, m, months) && m + 1 <= MaxPeriods && balance > Epsilon
    requires Period(loan, m, balance, payment, months) == Next(row, b, p, mo)
    requires LoopState(loan, m + 1, mo) && Periods(loan, m + 1, b, p, mo) == Schedule(rest)
    requires forall i :: 0 <= i < |rest| ==>
      rest[i].period == m + 1 + i
      && Follows(loan, Opening(b, rest, i), InEffect(p, rest, i), rest[i], i == |rest| - 1)
    ensures forall i :: 0 <= i < |[row] + rest| ==>
      ([row] + rest)[i].period == m + i
      && Follows(loan, Opening(balance, [row] + rest, i), InEffect(payment, [row] + rest, i), ([row] + rest)[i],
                 i == |[row] + rest| - 1)
  {
    var rows := [row] + rest;
    assert Follows(loan, balance, payment, row, |rest| == 0);
    if |rest| > 0 {
      assert b > Epsilon;
      assert row.endBalance == b && row.payment == p;
    }
    ShiftRows(balance, payment, row, b, p, rest);
    forall i | 1 <= i < |rows|
      ensures rows[i].period == m + i
      ensures Follows(loan, Opening(balance, rows, i), InEffect(payment, rows, i), rows[i], i == |rows| - 1)
    {
      assert rows[i] == rest[i - 1];
    }
  }

  /** Behind a first row that closes on b with payment p, the rows of the rest open as the rest does on its own. */
  lemma ShiftRows(balance: int, payment: int, row: Row, b: int, p: int, rest: seq<Row>)
    requires |rest| > 0 ==> row.endBalance == b && row.payment == p
    ensures forall i :: 1 <= i <= |rest| ==>
      ([row] + rest)[i] == rest[i - 1]
      && Opening(balance, [row] + rest, i) == Opening(b, rest, i - 1)
      && InEffect(payment, [row] + rest, i) == InEffect(p, rest, i - 1)
  {
  }

  /**
    The extent of a run: no rows exactly when the balance is already at most
    one cent; every row but the last leaves more than one cent owing (the
    loop goes on only then); no balance shown is negative; and the last row
    leaves at most one cent owing unless the run stopped at the 500-row bound.
   */
  lemma {:induction false} PeriodsExtent(loan: Loan, m: int, balance: int, payment: int, months: int)
    requires LoopState(loan, m, months)
    ensures var out := Periods(loan, m, balance, payment, months);
      out.Schedule? ==>
        var rows := out.rows;
        |rows| <= MaxPeriods + 1 - m
        && (rows == [] <==> balance <= Epsilon)
        && (forall i :: 0 <= i < |rows| ==> rows[i].endBalance >= 0)
        && (forall i :: 0 <= i < |rows| - 1 ==> rows[i].endBalance > Epsilon)
        && (rows != [] ==> rows[|rows| - 1].endBalance <= Epsilon || |rows| == MaxPeriods + 1 - m)
    decreases MaxPeriods - m
  {
    if balance > Epsilon {
      match Period(loan, m, balance, payment, months)
      case Stop(row) =>
      case Crash =>
      case Next(row, b, p, mo) =>
        MonthCloses(loan, m, balance, payment, months);
        if m + 1 <= MaxPeriods {
          PeriodsExtent(loan, m + 1, b, p, mo);
          var rest := Periods(loan, m + 1, b, p, mo);
          if rest.Schedule? {
            ExtentStep(m, row, b, rest.rows);
          }
        }
    }
  }

  /** A month the loop goes on from shows the balance it goes on with, or zero when that is negative. */
  lemma MonthCloses(loan: Loan, m: int, balance: int, payment: int, months: int)
    requires LoopState(loan, m, months)
    requires Period(loan, m, balance, payment, months).Next?
    ensures var s := Period(loan, m, balance, payment, months);
      s.row.endBalance == Max0(s.balance)
  {
  }

  lemma ExtentStep(m: int, row: Row, b: int, rest: seq<Row>)
    requires row.endBalance == Max0(b)
    requires |rest| <= MaxPeriods - m
    requires rest == [] <==> b <= Epsilon
    requires forall i :: 0 <= i < |rest| ==> rest[i].endBalance >= 0
    requires forall i :: 0 <= i < |rest| - 1 ==> rest[i].endBalance > Epsilon
    requires rest != [] ==> rest[|rest| - 1].endBalance <= Epsilon || |rest| == MaxPeriods - m
    ensures var rows := [row] + rest;
      |rows| <= MaxPeriods + 1 - m
      && (forall i :: 0 <= i < |rows| ==> rows[i].endBalance >= 0)
      && (forall i :: 0 <= i < |rows| - 1 ==> rows[i].endBalance > Epsilon)
      && (rows[|rows| - 1].endBalance <= Epsilon || |rows| == MaxPeriods + 1 - m)
  {
    ConsIndex(row, rest);
  }

  /** The rows behind a first row are the rest, shifted by one. */
  lemma ConsIndex(row: Row, rest: seq<Row>)
    ensures ([row] + rest)[0] == row
    ensures forall i :: 1 <= i <= |rest| ==> ([row] + rest)[i] == rest[i - 1]
  {
  }

  /** The month's interest grows with the balance. */
  lemma InterestMonotone(annualRate: real, x: int, y: int)
    requires annualRate > 0.0 && x <= y
    ensures Interest(annualRate, x) <= Interest(annualRate, y)
  {
    var r := MonthlyRate(annualRate);
    assert x as real * r <= y as real * r;
    RoundCentsMonotone(x as real * r, y as real * r);
  }

  /**
    The payment always covers the month's interest: if it does when a run is
    entered, no row of the run has a negative principal share or negative
    interest.
   */
  lemma {:induction false} PeriodsCoverInterest(loan: Loan, m: int, balance: int, payment: int, months: int)
    requires LoopState(loan, m, months)
    requires payment >= Interest(loan.annualRate, balance)
    ensures var out := Periods(loan, m, balance, payment, months);
      out.Schedule? ==> forall i :: 0 <= i < |out.rows| ==>
        out.rows[i].principalPart >= 0 && out.rows[i].interest >= 0
    decreases MaxPeriods - m
  {
    if balance > Epsilon {
      match Period(loan, m, balance, payment, months)
      case Stop(row) =>
      case Crash =>
      case Next(row, b, p, mo) =>
        MonthCoversInterest(loan, m, balance, payment, months);
        if m + 1 <= MaxPeriods {
          PeriodsCoverInterest(loan, m + 1, b, p, mo);
          var rest := Periods(loan, m + 1, b, p, mo);
          if rest.Schedule? {
            ConsIndex(row, rest.rows);
          }
        }
    }
  }

  /** A month whose payment covers its interest leaves a next month whose payment covers its interest. */
  lemma MonthCoversInterest(loan: Loan, m: int, balance: int, payment: int, months: int)
    requires LoopState(loan, m, months) && balance > Epsilon
    requires payment >= Interest(loan.annualRate, balance)
    requires Period(loan, m, balance, payment, months).Next?
    ensures var s := Period(loan, m, balance, payment, months);
      s.row.principalPart >= 0 && s.row.interest >= 0 && s.payment >= Interest(loan.annualRate, s.balance)
  {
    var rate := loan.annualRate;
    assert Interest(rate, balance) >= 0 by {
      assert balance as real * MonthlyRate(rate) > 0.0;
    }
    var s := Period(loan, m, balance, payment, months);
    assert s.balance <= balance;
    if s.payment == payment {
      InterestMonotone(rate, s.balance, balance);
    } else {
      assert s.balance > 0 && s.payment == CalculateAnnuity(s.balance, rate, loan.months - m);
    }
  }

  /**
    Only the recomputation of the payment over zero remaining months fails:
    a run ends in the division by zero only for "Уменьшить платёж" with a
    prepayment in the last month of the term.
   */
  lemma {:induction false} PeriodsCrash(loan: Loan, m: int, balance: int, payment: int, months: int)
    requires LoopState(loan, m, months)
    ensures Periods(loan, m, balance, payment, months) == ZeroDivisionError ==>
      loan.adjustment == ReducePayment && loan.epAmount > 0 && loan.epMonth == loan.months
    decreases MaxPeriods - m
  {
    if balance > Epsilon {
      match Period(loan, m, balance, payment, months)
      case Stop(row) =>
      case Crash =>
      case Next(row, b, p, mo) =>
        if m + 1 <= MaxPeriods {
          PeriodsCrash(loan, m + 1, b, p, mo);
        }
    }
  }

  /** The loan as entered with no prepayment: month 0 and amount 0. */
  function NoPrepayment(loan: Loan): (plain: Loan)
    ensures plain.principal == loan.principal && plain.annualRate == loan.annualRate
    ensures plain.months == loan.months && plain.adjustment == loan.adjustment
    ensures plain.epMonth == 0 && plain.epAmount == 0
  {
    loan.(epMonth := 0, epAmount := 0)
  }

  /**
    Without a prepayment (month 0 or amount 0) a run is the run of the loan
    without prepayment, it never fails, and every row pays the same payment,
    split exactly into principal and interest.
   */
  lemma {:induction false} PeriodsWithoutPrepayment(loan: Loan, m: int, balance: int, payment: int, months: int)
    requires LoopState(loan, m, months) && (loan.epMonth <= 0 || loan.epAmount <= 0)
    ensures LoopState(NoPrepayment(loan), m, months)
    ensures var out := Periods(loan, m, balance, payment, months);
      out == Periods(NoPrepayment(loan), m, balance, payment, months)
      && out.Schedule?
      && forall i :: 0 <= i < |out.rows| ==>
           out.rows[i].payment == payment
           && out.rows[i].payment == out.rows[i].principalPart + out.rows[i].interest
    decreases MaxPeriods - m
  {
    var plain := NoPrepayment(loan);
    if balance > Epsilon {
      assert !Prepays(loan, m) && !Prepays(plain, m);
      PeriodRegular(loan, m, balance, payment, months);
      PeriodRegular(plain, m, balance, payment, months);
      match Period(loan, m, balance, payment, months)
      case Next(row, b, p, mo) =>
        if m + 1 <= MaxPeriods {
          PeriodsWithoutPrepayment(loan, m + 1, b, p, mo);
          ConsIndex(row, Periods(loan, m + 1, b, p, mo).rows);
        }
    }
  }

  /**
    The schedule of a loan: at most 500 rows numbered 1, 2, ...; none exactly
    when the principal is at most one cent; more than one cent owing after
    every row but the last; never a negative balance; and at most one cent
    owing after the last row unless the 500-row bound was hit.
   */
  lemma ScheduleShape(loan: Loan)
    requires ValidLoan(loan)
    ensures var out := ScheduleOf(loan);
      out.Schedule? ==>
        var rows := out.rows;
        |rows| <= MaxPeriods
        && (forall i :: 0 <= i < |rows| ==> rows[i].period == i + 1)
        && (rows == [] <==> loan.principal <= Epsilon)
        && (forall i :: 0 <= i < |rows| ==> rows[i].endBalance >= 0)
        && (forall i :: 0 <= i < |rows| - 1 ==> rows[i].endBalance > Epsilon)
        && (rows != [] ==> rows[|rows| - 1].endBalance <= Epsilon || |rows| == MaxPeriods)
  {
    PeriodsExtent(loan, 1, loan.principal, InitialPayment(loan), loan.months);
    PeriodsLedger(loan, 1, loan.principal, InitialPayment(loan), loan.months);
  }

  /** The ledger of a loan's schedule: each row follows from the one before, the first from the principal and the initial payment. */
  lemma ScheduleLedger(loan: Loan)
    requires ValidLoan(loan)
    ensures var out := ScheduleOf(loan);
      out.Schedule? ==> forall i :: 0 <= i < |out.rows| ==>
        out.rows[i].period == i + 1
        && Follows(loan, Opening(loan.principal, out.rows, i), InEffect(InitialPayment(loan), out.rows, i),
                   out.rows[i], i == |out.rows| - 1)
  {
    PeriodsLedger(loan, 1, loan.principal, InitialPayment(loan), loan.months);
  }

  /** No row of a schedule has a negative principal share or negative interest. */
  lemma ScheduleCoversInterest(loan: Loan)
    requires ValidLoan(loan)
    ensures var out := ScheduleOf(loan);
      out.Schedule? ==> forall i :: 0 <= i < |out.rows| ==>
        out.rows[i].principalPart >= 0 && out.rows[i].interest >= 0
  {
    if loan.principal > Epsilon {
      PeriodsCoverInterest(loan, 1, loan.principal, InitialPayment(loan), loan.months);
    }
  }

  /** A schedule fails only for "Уменьшить платёж" with a prepayment in the last month of the term. */
  lemma ScheduleFailsOnlyRecomputingOverNoMonths(loan: Loan)
    requires ValidLoan(loan)
    ensures ScheduleOf(loan) == ZeroDivisionError ==>
      loan.adjustment == ReducePayment && loan.epAmount > 0 && loan.epMonth == loan.months
  {
    PeriodsCrash(loan, 1, loan.principal, InitialPayment(loan), loan.months);
  }

  /**
    Month 0 or amount 0 means no prepayment: the schedule is that of the loan
    without prepayment, and every row pays the initial annuity payment, split
    exactly into principal and interest.
   */
  lemma ScheduleWithoutPrepayment(loan: Loan)
    requires ValidLoan(loan) && (loan.epMonth <= 0 || loan.epAmount <= 0)
    ensures ValidLoan(NoPrepayment(loan))
    ensures var out := ScheduleOf(loan);
      out == ScheduleOf(NoPrepayment(loan))
      && out.Schedule?
      && forall i :: 0 <= i < |out.rows| ==>
           out.rows[i].payment == InitialPayment(loan)
           && out.rows[i].payment == out.rows[i].principalPart + out.rows[i].interest
  {
    PeriodsWithoutPrepayment(loan, 1, loan.principal, InitialPayment(loan), loan.months);
  }

  /** Payments that each equal the one before keep the first one's value. */
  lemma {:induction false} SteadyPayments(rows: seq<Row>, lo: int, hi: int)
    requires 0 <= lo < hi <= |rows|
    requires forall k :: lo < k < hi ==> rows[k].payment == rows[k - 1].payment
    ensures forall k :: lo <= k < hi ==> rows[k].payment == rows[lo].payment
  {
    if hi - 1 > lo {
      SteadyPayments(rows, lo, hi - 1);
      assert rows[hi - 1].payment == rows[hi - 2].payment;
    }
  }

  /**
    The payment changes only in the prepayment month: every other row pays
    what the row before it paid, the first row the initial annuity payment.
   */
  lemma PaymentChangesOnlyAtPrepayment(loan: Loan)
    requires ValidLoan(loan)
    ensures var out := ScheduleOf(loan);
      out.Schedule? ==> forall i :: 0 <= i < |out.rows| && !Prepays(loan, out.rows[i].period) ==>
        out.rows[i].payment == InEffect(InitialPayment(loan), out.rows, i)
  {
    ScheduleLedger(loan);
  }

  /** The row of the prepayment month under "Уменьшить платёж" when the loan goes on after it. */
  predicate Recomputed(loan: Loan, row: Row)
  {
    loan.adjustment == ReducePayment && Prepays(loan, row.period) && row.endBalance > 0
  }

  /**
    Every row pays exactly its principal share plus its interest, except the
    row in which "Уменьшить платёж" recomputes the payment: that row shows
    the new payment beside the shares of the old one.
   */
  lemma PaymentSplitsExceptRecomputed(loan: Loan)
    requires ValidLoan(loan)
    ensures var out := ScheduleOf(loan);
      out.Schedule? ==> forall i :: 0 <= i < |out.rows| && !Recomputed(loan, out.rows[i]) ==>
        out.rows[i].payment == out.rows[i].principalPart + out.rows[i].interest
  {
    ScheduleLedger(loan);
    if ScheduleOf(loan).Schedule? {
      SplitRows(loan, InitialPayment(loan), ScheduleOf(loan).rows);
    }
  }

  lemma SplitRows(loan: Loan, start: int, rows: seq<Row>)
    requires ValidLoan(loan)
    requires forall i :: 0 <= i < |rows| ==>
      Follows(loan, Opening(loan.principal, rows, i), InEffect(start, rows, i), rows[i], i == |rows| - 1)
    ensures forall i :: 0 <= i < |rows| && !Recomputed(loan, rows[i]) ==>
      rows[i].payment == rows[i].principalPart + rows[i].interest
  {
    forall i | 0 <= i < |rows| && !Recomputed(loan, rows[i])
      ensures rows[i].payment == rows[i].principalPart + rows[i].interest
    {
      FollowsSplits(loan, Opening(loan.principal, rows, i), InEffect(start, rows, i), rows[i], i == |rows| - 1);
    }
  }

  /** A row splits its payment into principal and interest unless it is the row whose payment was recomputed. */
  lemma FollowsSplits(loan: Loan, opening: int, payment: int, row: Row, last: bool)
    requires ValidLoan(loan)
    requires Follows(loan, opening, payment, row, last)
    requires !Recomputed(loan, row)
    ensures row.payment == row.principalPart + row.interest
  {
  }

  /**
    "Сократить срок" keeps the payment: the schedule never fails, and every
    row pays the initial annuity payment except a terminal row, which is last.
   */
  lemma ShortenTermKeepsPayment(loan: Loan)
    requires ValidLoan(loan) && loan.adjustment == ShortenTerm
    ensures ScheduleOf(loan).Schedule?
    ensures var rows := ScheduleOf(loan).rows;
      forall i :: 0 <= i < |rows| ==>
        rows[i].payment == InitialPayment(loan) || (rows[i] == TerminalRow(loan) && i == |rows| - 1)
  {
    ScheduleFailsOnlyRecomputingOverNoMonths(loan);
    ScheduleLedger(loan);
    KeptPayments(loan, InitialPayment(loan), ScheduleOf(loan).rows);
  }

  /** Under "Сократить срок", rows that follow one another from `start` all pay `start`, but for a terminal last row. */
  lemma KeptPayments(loan: Loan, start: int, rows: seq<Row>)
    requires ValidLoan(loan) && loan.adjustment == ShortenTerm
    requires forall i :: 0 <= i < |rows| ==>
      Follows(loan, Opening(loan.principal, rows, i), InEffect(start, rows, i), rows[i], i == |rows| - 1)
    ensures forall i :: 0 <= i < |rows| ==>
      rows[i].payment == start || (rows[i] == TerminalRow(loan) && i == |rows| - 1)
  {
    if |rows| > 0 {
      forall k | 0 <= k < |rows|
        ensures (rows[k] == TerminalRow(loan) && k == |rows| - 1) || rows[k].payment == InEffect(start, rows, k)
      {
        FollowsKeeps(loan, Opening(loan.principal, rows, k), InEffect(start, rows, k), rows[k], k == |rows| - 1);
      }
      if |rows| > 1 {
        SteadyPayments(rows, 0, |rows| - 1);
      }
    }
  }

  /** Under "Сократить срок" a row pays the payment in force, unless it is the terminal row. */
  lemma FollowsKeeps(loan: Loan, opening: int, payment: int, row: Row, last: bool)
    requires ValidLoan(loan) && loan.adjustment == ShortenTerm
    requires Follows(loan, opening, payment, row, last)
    ensures (row == TerminalRow(loan) && last) || row.payment == payment
  {
  }

  /**
    "Уменьшить платёж" recomputes the payment once: rows before the
    prepayment month pay the initial annuity payment; the prepayment row
    (unless it ends the loan) shows the annuity of the balance left over the
    months that remain of the original term; and from the prepayment month on
    the payment no longer changes.
   */
  lemma ReducePaymentRecomputes(loan: Loan)
    requires ValidLoan(loan) && loan.adjustment == ReducePayment
    ensures var out := ScheduleOf(loan);
      out.Schedule? ==>
        var rows := out.rows;
        (forall i :: 0 <= i < |rows| && rows[i].period < loan.epMonth ==>
           rows[i].payment == InitialPayment(loan))
        && (forall i :: 0 <= i < |rows| && Prepays(loan, rows[i].period) && rows[i].endBalance > 0 ==>
              loan.epMonth < loan.months
              && rows[i].payment == CalculateAnnuity(rows[i].endBalance, loan.annualRate, loan.months - loan.epMonth))
        && (forall i, j :: 0 <= i <= j < |rows| && rows[i].period >= loan.epMonth ==>
              rows[j].payment == rows[i].payment)
  {
    ScheduleLedger(loan);
    if ScheduleOf(loan).Schedule? {
      ReducedRows(loan, InitialPayment(loan), ScheduleOf(loan).rows);
      RecomputedPayments(loan, InitialPayment(loan), ScheduleOf(loan).rows);
    }
  }

  /** The rows of a "Уменьшить платёж" ledger, each paying what was in force or the recomputed annuity. */
  lemma ReducedRows(loan: Loan, start: int, rows: seq<Row>)
    requires ValidLoan(loan) && loan.adjustment == ReducePayment
    requires forall i :: 0 <= i < |rows| ==>
      Follows(loan, Opening(loan.principal, rows, i), InEffect(start, rows, i), rows[i], i == |rows| - 1)
    ensures forall k :: 0 <= k < |rows| && !Prepays(loan, rows[k].period) ==>
      rows[k].payment == InEffect(start, rows, k)
    ensures forall k :: 0 <= k < |rows| && Prepays(loan, rows[k].period) && rows[k].endBalance > 0 ==>
      rows[k].period < loan.months
      && rows[k].payment == CalculateAnnuity(rows[k].endBalance, loan.annualRate, loan.months - rows[k].period)
  {
    forall k | 0 <= k < |rows|
      ensures !Prepays(loan, rows[k].period) ==> rows[k].payment == InEffect(start, rows, k)
      ensures Prepays(loan, rows[k].period) && rows[k].endBalance > 0 ==>
        rows[k].period < loan.months
        && rows[k].payment == CalculateAnnuity(rows[k].endBalance, loan.annualRate, loan.months - rows[k].period)
    {
      FollowsRecomputes(loan, Opening(loan.principal, rows, k), InEffect(start, rows, k), rows[k], k == |rows| - 1);
    }
  }

  lemma RecomputedPayments(loan: Loan, start: int, rows: seq<Row>)
    requires ValidLoan(loan) && loan.adjustment == ReducePayment
    requires forall i :: 0 <= i < |rows| ==> rows[i].period == i + 1
    requires forall k :: 0 <= k < |rows| && !Prepays(loan, rows[k].period) ==>
      rows[k].payment == InEffect(start, rows, k)
    requires forall k :: 0 <= k < |rows| && Prepays(loan, rows[k].period) && rows[k].endBalance > 0 ==>
      rows[k].period < loan.months
      && rows[k].payment == CalculateAnnuity(rows[k].endBalance, loan.annualRate, loan.months - rows[k].period)
    ensures forall i :: 0 <= i < |rows| && rows[i].period < loan.epMonth ==> rows[i].payment == start
    ensures forall i :: 0 <= i < |rows| && Prepays(loan, rows[i].period) && rows[i].endBalance > 0 ==>
      loan.epMonth < loan.months
      && rows[i].payment == CalculateAnnuity(rows[i].endBalance, loan.annualRate, loan.months - loan.epMonth)
    ensures forall i, j :: 0 <= i <= j < |rows| && rows[i].period >= loan.epMonth ==>
      rows[j].payment == rows[i].payment
  {
    // outside the prepayment month each row pays what the row before it paid
    forall k | 0 < k < |rows| && k + 1 != loan.epMonth
      ensures rows[k].payment == rows[k - 1].payment
    {
      assert !Prepays(loan, rows[k].period);
    }
    var before := if loan.epMonth - 1 < |rows| then loan.epMonth - 1 else |rows|;
    if before > 0 {
      SteadyPayments(rows, 0, before);
    }
    forall i | 0 <= i < |rows| && rows[i].period >= loan.epMonth
      ensures forall j :: i <= j < |rows| ==> rows[j].payment == rows[i].payment
    {
      SteadyPayments(rows, i, |rows|);
    }
  }

  /** Under "Уменьшить платёж" a row pays the payment in force outside the prepayment month, and the recomputed annuity in it. */
  lemma FollowsRecomputes(loan: Loan, opening: int, payment: int, row: Row, last: bool)
    requires ValidLoan(loan) && loan.adjustment == ReducePayment
    requires Follows(loan, opening, payment, row, last)
    ensures !Prepays(loan, row.period) ==> row.payment == payment
    ensures Prepays(loan, row.period) && row.endBalance > 0 ==>
      row.period < loan.months
      && row.payment == CalculateAnnuity(row.endBalance, loan.annualRate, loan.months - row.period)
  {
  }

  /** The terminal row, when there is one, is the last row of the schedule. */
  lemma TerminalRowIsLast(loan: Loan)
    requires ValidLoan(loan)
    ensures var out := ScheduleOf(loan);
      out.Schedule? ==> forall i :: 0 <= i < |out.rows| && out.rows[i] == TerminalRow(loan) ==>
        i == |out.rows| - 1
  {
    ScheduleLedger(loan);
    ScheduleShape(loan);
    if ScheduleOf(loan).Schedule? {
      TerminalLast(loan, InitialPayment(loan), ScheduleOf(loan).rows);
    }
  }

  lemma TerminalLast(loan: Loan, start: int, rows: seq<Row>)
    requires ValidLoan(loan)
    requires forall i :: 0 <= i < |rows| ==>
      Follows(loan, Opening(loan.principal, rows, i), InEffect(start, rows, i), rows[i], i == |rows| - 1)
    requires rows != [] ==> loan.principal > Epsilon
    requires forall i :: 0 <= i < |rows| - 1 ==> rows[i].endBalance > Epsilon
    ensures forall i :: 0 <= i < |rows| && rows[i] == TerminalRow(loan) ==> i == |rows| - 1
  {
    forall i | 0 <= i < |rows| && rows[i] == TerminalRow(loan)
      ensures i == |rows| - 1
    {
      TerminalOnlyLast(loan, Opening(loan.principal, rows, i), InEffect(start, rows, i),
                       rows[i], i == |rows| - 1);
    }
  }

  /** A row that looks like the terminal row, opened on more than a cent, is the terminal row and last. */
  lemma TerminalOnlyLast(loan: Loan, opening: int, payment: int, row: Row, last: bool)
    requires ValidLoan(loan) && opening > Epsilon
    requires Follows(loan, opening, payment, row, last)
    requires row == TerminalRow(loan)
    ensures last
  {
  }
}
