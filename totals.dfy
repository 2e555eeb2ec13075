/**
  The summary shown above the table of a calculated schedule: the monthly
  payment (the payment of the first row), the overpayment (the sum of the
  interest column), the number of months (rows) and the total paid (the sum
  of the payment column).
 */
module Totals {
  import opened Annuity
  import opened Amortisation
  import opened ScheduleProperties

  datatype Option<T> = None | Some(value: T)

  datatype Summary = Summary(monthlyPayment: int, overpayment: int, months: int, totalPaid: int)

  function SumPayments(rows: seq<Row>): int
  {
    if rows == [] then 0 else SumPayments(rows[..|rows| - 1]) + rows[|rows| - 1].payment
  }

  function SumPrincipal(rows: seq<Row>): int
  {
    if rows == [] then 0 else SumPrincipal(rows[..|rows| - 1]) + rows[|rows| - 1].principalPart
  }

  function SumInterest(rows: seq<Row>): int
  {
    if rows == [] then 0 else SumInterest(rows[..|rows| - 1]) + rows[|rows| - 1].interest
  }

  /**
    The summary of a schedule. Reading the first payment of an empty schedule
    fails, so there is no summary without rows.
   */
  function Summarize(rows: seq<Row>): (s: Option<Summary>)
    ensures s.Some? <==> rows != []
  {
    if rows == [] then None
    else Some(Summary(rows[0].payment, SumInterest(rows), |rows|, SumPayments(rows)))
  }

  /** When every row pays exactly its principal share plus its interest, the total paid is the principal repaid plus the overpayment. */
  lemma {:induction false} TotalPaidSplits(rows: seq<Row>)
    requires forall i :: 0 <= i < |rows| ==> rows[i].payment == rows[i].principalPart + rows[i].interest
    ensures SumPayments(rows) == SumPrincipal(rows) + SumInterest(rows)
  {
    if rows != [] {
      TotalPaidSplits(rows[..|rows| - 1]);
    }
  }

  /** Rows that all pay the same amount add up to that amount times their number. */
  lemma {:induction false} ConstantTotal(rows: seq<Row>, payment: int)
    requires forall i :: 0 <= i < |rows| ==> rows[i].payment == payment
    ensures SumPayments(rows) == |rows| * payment
  {
    if rows != [] {
      ConstantTotal(rows[..|rows| - 1], payment);
    }
  }

  /** Interest that is never negative adds up to an overpayment that is never negative. */
  lemma {:induction false} OverpaymentNonNegative(rows: seq<Row>)
    requires forall i :: 0 <= i < |rows| ==> rows[i].interest >= 0
    ensures SumInterest(rows) >= 0
  {
    if rows != [] {
      OverpaymentNonNegative(rows[..|rows| - 1]);
    }
  }

  /**
    Principal shares that each come off the balance repay the loan: over the
    first n rows they add up to what was owed at the start less what is owed
    after row n, as long as no balance was clamped at zero.
   */
  lemma {:induction false} PrincipalRepaid(start: int, rows: seq<Row>, n: int)
    requires 1 <= n <= |rows|
    requires forall i :: 0 <= i < |rows| ==>
      rows[i].endBalance == Max0(Opening(start, rows, i) - rows[i].principalPart)
    requires forall i :: 0 <= i < n - 1 ==> rows[i].endBalance > Epsilon
    ensures SumPrincipal(rows[..n]) + rows[n - 1].endBalance >= start
    ensures rows[n - 1].endBalance > 0 ==> SumPrincipal(rows[..n]) + rows[n - 1].endBalance == start
  {
    if n > 1 {
      PrincipalRepaid(start, rows, n - 1);
      assert rows[..n][..n - 1] == rows[..n - 1];
      assert rows[n - 2].endBalance > 0;
    } else {
      assert rows[..1][..0] == [];
    }
  }

  /**
    Without a prepayment the summary of a loan's schedule shows the initial
    annuity payment, the interest column's sum as overpayment, and a total
    paid of that payment once per month, equal to the principal repaid plus
    the overpayment; the overpayment is never negative; and the principal
    shares with the balance left repay the whole principal.
   */
  lemma SummaryWithoutPrepayment(loan: Loan)
    requires ValidLoan(loan) && (loan.epMonth <= 0 || loan.epAmount <= 0)
    requires loan.principal > Epsilon
    ensures ScheduleOf(loan).Schedule?
    ensures var rows := ScheduleOf(loan).rows;
      var s := Summarize(rows);
      s.Some?
      && s.value.monthlyPayment == InitialPayment(loan)
      && s.value.months == |rows|
      && s.value.totalPaid == |rows| * InitialPayment(loan)
      && s.value.totalPaid == SumPrincipal(rows) + s.value.overpayment
      && s.value.overpayment >= 0
      && SumPrincipal(rows) + rows[|rows| - 1].endBalance >= loan.principal
  {
    var rows := PlainSchedule(loan);
    ConstantTotal(rows, InitialPayment(loan));
    TotalPaidSplits(rows);
    OverpaymentNonNegative(rows);
    PrincipalRepaid(loan.principal, rows, |rows|);
    assert rows[..|rows|] == rows;
  }

  /** The rows of a loan's schedule without prepayment, with what is known of each of them. */
  lemma PlainSchedule(loan: Loan) returns (rows: seq<Row>)
    requires ValidLoan(loan) && (loan.epMonth <= 0 || loan.epAmount <= 0)
    requires loan.principal > Epsilon
    ensures ScheduleOf(loan) == Schedule(rows) && rows != []
    ensures forall i :: 0 <= i < |rows| ==>
      rows[i].payment == InitialPayment(loan)
      && rows[i].payment == rows[i].principalPart + rows[i].interest
      && rows[i].interest >= 0
      && rows[i].endBalance == Max0(Opening(loan.principal, rows, i) - rows[i].principalPart)
    ensures forall i :: 0 <= i < |rows| - 1 ==> rows[i].endBalance > Epsilon
  {
    ScheduleWithoutPrepayment(loan);
    ScheduleShape(loan);
    ScheduleCoversInterest(loan);
    ScheduleLedger(loan);
    rows := ScheduleOf(loan).rows;
    BalancesWithoutPrepayment(loan, InitialPayment(loan), rows);
  }

  /** Without a prepayment every row takes exactly its principal share off the balance it opened on. */
  lemma BalancesWithoutPrepayment(loan: Loan, start: int, rows: seq<Row>)
    requires ValidLoan(loan) && (loan.epMonth <= 0 || loan.epAmount <= 0)
    requires forall i :: 0 <= i < |rows| ==> rows[i].period == i + 1
    requires forall i :: 0 <= i < |rows| ==>
      Follows(loan, Opening(loan.principal, rows, i), InEffect(start, rows, i), rows[i], i == |rows| - 1)
    ensures forall i :: 0 <= i < |rows| ==>
      rows[i].endBalance == Max0(Opening(loan.principal, rows, i) - rows[i].principalPart)
  {
    forall i | 0 <= i < |rows|
      ensures rows[i].endBalance == Max0(Opening(loan.principal, rows, i) - rows[i].principalPart)
    {
      FollowsPlain(loan, Opening(loan.principal, rows, i), InEffect(start, rows, i), rows[i], i == |rows| - 1);
    }
  }

  /** Outside the prepayment month a row takes its principal share off the balance it opened on. */
  lemma FollowsPlain(loan: Loan, opening: int, payment: int, row: Row, last: bool)
    requires ValidLoan(loan) && !Prepays(loan, row.period)
    requires Follows(loan, opening, payment, row, last)
    ensures row.endBalance == Max0(opening - row.principalPart)
  {
  }
}
