/**
  The repayment schedule with one optional early repayment.

  Each month the generator charges interest on the balance, takes the
  principal share of the payment off the balance and appends one row. In the
  prepayment month an extra amount is taken off as well: if it covers the
  whole balance the loan ends with a terminal row; otherwise either the
  payment is kept (the term shortens) or the payment is recomputed over the
  months that remain. The loop stops once the balance is at most one cent or
  after 500 rows.

  `Period` is one iteration of the loop as a function of the loop state,
  `Periods` runs the loop from a given state, and `GenerateSchedule` is the
  loop itself, proved to compute `ScheduleOf`.
 */
module Amortisation {
  import opened Annuity

  /** The loop runs only while the balance exceeds 0.01, i.e. one cent. */
  const Epsilon: int := 1
  /** Fail-safe bound on the number of rows. */
  const MaxPeriods: int := 500

  /** The two radio options: "Сократить срок" and "Уменьшить платёж". */
  datatype Adjustment = ShortenTerm | ReducePayment

  /**
    The inputs of one calculation: principal in cents, nominal annual rate in
    percent, term in months, prepayment month (0 for none), prepayment amount
    in cents and the adjustment chosen for after the prepayment.
   */
  datatype Loan = Loan(principal: int, annualRate: real, months: int,
                       epMonth: int, epAmount: int, adjustment: Adjustment)

  /** One row of the schedule: month, payment, principal share, interest, balance left. */
  datatype Row = Row(period: int, payment: int, principalPart: int, interest: int, endBalance: int)

  /**
    The result of a calculation: the rows, or the division by zero raised when
    the payment is recomputed over zero remaining months.
   */
  datatype Outcome = Schedule(rows: seq<Row>) | ZeroDivisionError

  /** What the input form guarantees: a positive rate, a term, and a prepayment month within the term. */
  predicate ValidLoan(loan: Loan)
  {
    loan.annualRate > 0.0 && loan.months >= 1 && loan.epMonth <= loan.months
  }

  function Max0(x: int): (r: int)
    ensures r >= 0 && r >= x && (r == x || r == 0)
  {
    if x > 0 then x else 0
  }

  /** The month's interest on a balance, rounded to the cent. */
  function Interest(annualRate: real, balance: int): (interest: int)
    ensures balance as real * MonthlyRate(annualRate) - 0.5 < interest as real
    ensures interest as real <= balance as real * MonthlyRate(annualRate) + 0.5
    ensures annualRate > 0.0 && balance >= 0 ==> interest >= 0
  {
    RoundCents(balance as real * MonthlyRate(annualRate))
  }

  /** Whether the prepayment applies in month m. */
  predicate Prepays(loan: Loan, m: int)
  {
    m == loan.epMonth && loan.epAmount > 0
  }

  /** The row that ends the loan when the prepayment covers what is owed. */
  function TerminalRow(loan: Loan): Row
  {
    Row(loan.epMonth, loan.epAmount, loan.epAmount, 0, 0)
  }

  /** How one month ends: the loan is paid off, the calculation fails, or the loop goes on. */
  datatype Step = Stop(row: Row) | Crash | Next(row: Row, balance: int, payment: int, months: int)

  /**
    One iteration of the loop from state (m, balance, payment, months).
    The state variable `months` equals the original term until the
    prepayment month; "Сократить срок" reassigns it and nothing reads it again.
   */
  function Period(loan: Loan, m: int, balance: int, payment: int, months: int): (s: Step)
    requires ValidLoan(loan) && (m <= loan.epMonth ==> months == loan.months)
    ensures s.Stop? <==>
      Prepays(loan, m) && loan.epAmount >= balance - (payment - Interest(loan.annualRate, balance))
    ensures s.Stop? ==> s.row == TerminalRow(loan)
    ensures s.Crash? <==>
      Prepays(loan, m) && !s.Stop? && loan.adjustment == ReducePayment && m == loan.months
  {
    var interest := Interest(loan.annualRate, balance);
    var principalPart := payment - interest;
    var afterPayment := balance - principalPart;
    if !Prepays(loan, m) then
      Next(Row(m, payment, principalPart, interest, Max0(afterPayment)), afterPayment, payment, months)
    else if loan.epAmount >= afterPayment then
      Stop(Row(m, loan.epAmount, loan.epAmount, 0, 0))
    else
      var afterPrepayment := afterPayment - loan.epAmount;
      match loan.adjustment
      case ShortenTerm =>
        var remaining := months - m;
        Next(Row(m, payment, principalPart, interest, Max0(afterPrepayment)),
             afterPrepayment, payment, m + 1 + remaining)
      case ReducePayment =>
        var remaining := months - m;
        if remaining == 0 then Crash
        else
          var newPayment := CalculateAnnuity(afterPrepayment, loan.annualRate, remaining);
          Next(Row(m, newPayment, principalPart, interest, Max0(afterPrepayment)),
               afterPrepayment, newPayment, months)
  }

  /** Prefixes rows to an outcome; a failure stays a failure. */
  function Prepend(rows: seq<Row>, rest: Outcome): Outcome
  {
    match rest
    case Schedule(more) => Schedule(rows + more)
    case ZeroDivisionError => ZeroDivisionError
  }

  /** The rows the loop appends when it is entered in state (m, balance, payment, months). */
  function Periods(loan: Loan, m: int, balance: int, payment: int, months: int): Outcome
    requires ValidLoan(loan) && 1 <= m <= MaxPeriods
    requires m <= loan.epMonth ==> months == loan.months
    decreases MaxPeriods - m
  {
    if balance <= Epsilon then Schedule([])
    else
      match Period(loan, m, balance, payment, months)
      case Stop(row) => Schedule([row])
      case Crash => ZeroDivisionError
      case Next(row, b, p, mo) =>
        if m + 1 > MaxPeriods then Schedule([row])
        else Prepend([row], Periods(loan, m + 1, b, p, mo))
  }

  /** The payment computed before the loop: the annuity over the whole term. */
  function InitialPayment(loan: Loan): (payment: int)
    requires ValidLoan(loan)
    ensures loan.principal >= 0 ==> payment >= Interest(loan.annualRate, loan.principal)
    ensures loan.principal > 0 ==> payment >= 0
  {
    CalculateAnnuity(loan.principal, loan.annualRate, loan.months)
  }

  /** The schedule for a loan: the loop entered at month 1 with the whole principal owing. */
  function ScheduleOf(loan: Loan): Outcome
    requires ValidLoan(loan)
  {
    Periods(loan, 1, loan.principal, InitialPayment(loan), loan.months)
  }

  /**
    One month of the loop body: charge interest, take the principal share
    off, and apply the prepayment in its month. Returns how the month ends,
    which is exactly `Period` of the loop state. It is the loop body of
    `GenerateSchedule` taken out on its own, so that the loop's proof stays
    small; `Period` remains the one definition of a month.
   */
  method Month(principal: int, rate: real, months: int, epMonth: int, epAmount: int,
               option: Adjustment, m: int, balance: int, payment: int, term: int)
    returns (step: Step)
    requires rate > 0.0 && months >= 1 && epMonth <= months
    requires m <= epMonth ==> term == months
    ensures step == Period(Loan(principal, rate, months, epMonth, epAmount, option),
                           m, balance, payment, term)
  {
    ghost var loan := Loan(principal, rate, months, epMonth, epAmount, option);
    var interest := Interest(rate, balance);
    var principalPayment := payment - interest;
    var newBalance := balance - principalPayment;
    var newPayment, newTerm := payment, term;

    if m == epMonth && epAmount > 0 {
      if epAmount >= newBalance {
        PeriodStop(loan, m, balance, payment, term);
        return Stop(Row(m, epAmount, epAmount, 0, 0));
      }
      newBalance := newBalance - epAmount;
      if option == ShortenTerm {
        var remaining := term - m;
        newTerm := m + 1 + remaining;
      } else {
        var remaining := term - m;
        if remaining == 0 {
          PeriodCrash(loan, m, balance, payment, term);
          return Crash;
        }
        newPayment := CalculateAnnuity(newBalance, rate, remaining);
      }
      PeriodPrepaid(loan, m, balance, payment, term);
    } else {
      PeriodRegular(loan, m, balance, payment, term);
    }
    step := Next(Row(m, newPayment, principalPayment, interest, Max0(newBalance)),
                 newBalance, newPayment, newTerm);
  }

  /**
    The schedule generator: the loop that walks the months, as written, with
    its two exits by `break`. It computes exactly `ScheduleOf` of its inputs.
   */
  method GenerateSchedule(principal: int, rate: real, months: int,
                          epMonth: int, epAmount: int, option: Adjustment)
    returns (result: Outcome)
    requires rate > 0.0 && months >= 1 && epMonth <= months
    ensures result == ScheduleOf(Loan(principal, rate, months, epMonth, epAmount, option))
    ensures result.Schedule? ==> |result.rows| <= MaxPeriods
  {
    ghost var loan := Loan(principal, rate, months, epMonth, epAmount, option);
    var payment := CalculateAnnuity(principal, rate, months);
    var schedule: seq<Row> := [];
    var balance := principal;
    var m := 1;
    // the term as the loop sees it; "Сократить срок" reassigns it
    var term := months;
    PrependNil(ScheduleOf(loan));
    while balance > Epsilon
      invariant 1 <= m <= MaxPeriods && |schedule| == m - 1
      invariant m <= epMonth ==> term == months
      invariant Prepend(schedule, Periods(loan, m, balance, payment, term)) == ScheduleOf(loan)
      decreases MaxPeriods - m
    {
      ghost var before, m0, balance0, payment0, term0 := schedule, m, balance, payment, term;
      var step := Month(principal, rate, months, epMonth, epAmount, option, m, balance, payment, term);
      match step
      case Stop(row) =>
        schedule := schedule + [row];
        Finish(loan, before, m0, balance0, payment0, term0, row);
        break;
      case Crash =>
        CrashOut(loan, before, m0, balance0, payment0, term0);
        return ZeroDivisionError;
      case Next(row, newBalance, newPayment, newTerm) =>
        schedule := schedule + [row];
        balance, payment, term := newBalance, newPayment, newTerm;
        m := m + 1;
        if m > MaxPeriods {
          Finish(loan, before, m0, balance0, payment0, term0, row);
          break;
        }
        Advance(loan, before, m0, balance0, payment0, term0, row, balance, payment, term);
    }
    result := Schedule(schedule);
  }

  lemma PeriodRegular(loan: Loan, m: int, balance: int, payment: int, months: int)
    requires ValidLoan(loan) && (m <= loan.epMonth ==> months == loan.months)
    requires !Prepays(loan, m)
    ensures var interest := Interest(loan.annualRate, balance);
      var after := balance - (payment - interest);
      Period(loan, m, balance, payment, months)
        == Next(Row(m, payment, payment - interest, interest, Max0(after)), after, payment, months)
  {
  }

  lemma PeriodStop(loan: Loan, m: int, balance: int, payment: int, months: int)
    requires ValidLoan(loan) && (m <= loan.epMonth ==> months == loan.months)
    requires Prepays(loan, m)
    requires loan.epAmount >= balance - (payment - Interest(loan.annualRate, balance))
    ensures Period(loan, m, balance, payment, months) == Stop(Row(m, loan.epAmount, loan.epAmount, 0, 0))
  {
  }

  lemma PeriodCrash(loan: Loan, m: int, balance: int, payment: int, months: int)
    requires ValidLoan(loan) && (m <= loan.epMonth ==> months == loan.months)
    requires Prepays(loan, m) && loan.adjustment == ReducePayment && months - m == 0
    requires loan.epAmount < balance - (payment - Interest(loan.annualRate, balance))
    ensures Period(loan, m, balance, payment, months) == Crash
  {
  }

  lemma PeriodPrepaid(loan: Loan, m: int, balance: int, payment: int, months: int)
    requires ValidLoan(loan) && (m <= loan.epMonth ==> months == loan.months)
    requires Prepays(loan, m)
    requires loan.epAmount < balance - (payment - Interest(loan.annualRate, balance))
    requires loan.adjustment == ReducePayment ==> months - m != 0
    ensures var interest := Interest(loan.annualRate, balance);
      var after := balance - (payment - interest) - loan.epAmount;
      var newPayment := if loan.adjustment == ShortenTerm then payment
        else CalculateAnnuity(after, loan.annualRate, months - m);
      var newMonths := if loan.adjustment == ShortenTerm then m + 1 + (months - m) else months;
      Period(loan, m, balance, payment, months)
        == Next(Row(m, newPayment, payment - interest, interest, Max0(after)), after, newPayment, newMonths)
  {
  }

  /** The loop invariant carried over one month in which the loop goes on. */
  lemma Advance(loan: Loan, before: seq<Row>, m: int, balance: int, payment: int, months: int,
                row: Row, b: int, p: int, mo: int)
    requires ValidLoan(loan) && 1 <= m < MaxPeriods && balance > Epsilon
    requires m <= loan.epMonth ==> months == loan.months
    requires Period(loan, m, balance, payment, months) == Next(row, b, p, mo)
    ensures m + 1 <= loan.epMonth ==> mo == loan.months
    ensures Prepend(before + [row], Periods(loan, m + 1, b, p, mo))
         == Prepend(before, Periods(loan, m, balance, payment, months))
  {
    PrependAssoc(before, [row], Periods(loan, m + 1, b, p, mo));
  }

  /** The loop invariant at an exit by `break`, after the last row was appended. */
  lemma Finish(loan: Loan, before: seq<Row>, m: int, balance: int, payment: int, months: int, row: Row)
    requires ValidLoan(loan) && 1 <= m <= MaxPeriods && balance > Epsilon
    requires m <= loan.epMonth ==> months == loan.months
    requires Period(loan, m, balance, payment, months) == Stop(row)
          || (m == MaxPeriods && Period(loan, m, balance, payment, months).Next?
              && Period(loan, m, balance, payment, months).row == row)
    ensures Prepend(before, Periods(loan, m, balance, payment, months)) == Schedule(before + [row])
  {
  }

  /** The division by zero ends the calculation whatever came before. */
  lemma CrashOut(loan: Loan, before: seq<Row>, m: int, balance: int, payment: int, months: int)
    requires ValidLoan(loan) && 1 <= m <= MaxPeriods && balance > Epsilon
    requires m <= loan.epMonth ==> months == loan.months
    requires Period(loan, m, balance, payment, months) == Crash
    ensures Prepend(before, Periods(loan, m, balance, payment, months)) == ZeroDivisionError
  {
  }

  /** An empty prefix leaves an outcome as it is. */
  lemma PrependNil(rest: Outcome)
    ensures Prepend([], rest) == rest
  {
    if rest.Schedule? {
      assert [] + rest.rows == rest.rows;
    }
  }

  lemma PrependAssoc(xs: seq<Row>, ys: seq<Row>, rest: Outcome)
    ensures Prepend(xs + ys, rest) == Prepend(xs, Prepend(ys, rest))
  {
    if rest.Schedule? {
      assert (xs + ys) + rest.rows == xs + (ys + rest.rows);
    }
  }
}
