/**
  The annuity payment formula of the calculator.

  Every amount of money is a whole number of cents: the calculator rounds
  each amount it produces to two decimals, so an amount in cents is exact.
  The monthly rate and the growth factor (1 + r)^n are exact reals.
 */
module Annuity {

  /** x raised to a natural power. */
  function Pow(x: real, n: nat): real
  {
    if n == 0 then 1.0 else x * Pow(x, n - 1)
  }

  /** The monthly rate as a fraction, from a nominal annual rate in percent. */
  function MonthlyRate(annualRate: real): (r: real)
    ensures annualRate > 0.0 ==> r > 0.0
    ensures r * 1200.0 == annualRate
  {
    annualRate / 12.0 / 100.0
  }

  /** Rounding of an amount given in (fractional) cents to the nearest whole cent, halves up. */
  function RoundCents(x: real): (c: int)
    ensures x - 0.5 < c as real <= x + 0.5
  {
    (x + 0.5).Floor
  }

  lemma RoundCentsMonotone(x: real, y: real)
    requires x <= y
    ensures RoundCents(x) <= RoundCents(y)
  {
  }

  lemma {:induction false} PowAboveOne(x: real, n: nat)
    requires x > 1.0 && n >= 1
    ensures Pow(x, n) > 1.0
  {
    if n > 1 {
      PowAboveOne(x, n - 1);
      var q := Pow(x, n - 1);
      assert x * q > 1.0 * q by {
        assert (x - 1.0) * q > 0.0;
      }
    }
  }

  /**
    The annuity factor r(1+r)^n / ((1+r)^n - 1): the payment per unit of
    principal. It is strictly larger than the monthly rate, so a payment
    always covers more than one month's interest.
   */
  function AnnuityFactor(rate: real, n: nat): (f: real)
    requires rate > 0.0 && n >= 1
    ensures f > rate
  {
    PowAboveOne(1.0 + rate, n);
    ScaledRatioExceeds(rate, Pow(1.0 + rate, n));
    rate * Pow(1.0 + rate, n) / (Pow(1.0 + rate, n) - 1.0)
  }

  lemma ScaledRatioExceeds(rate: real, p: real)
    requires rate > 0.0 && p > 1.0
    ensures rate * p / (p - 1.0) > rate
  {
    assert rate * p == rate * (p - 1.0) + rate;
    assert rate * p / (p - 1.0) == rate + rate / (p - 1.0);
    assert rate / (p - 1.0) > 0.0;
  }

  /**
    The fixed monthly payment, in cents, that pays off `principal` cents over
    `months` months at `annualRate` percent a year, rounded to the cent.
    The formula divides by zero when the rate or the term is zero, hence the
    precondition.
   */
  function CalculateAnnuity(principal: int, annualRate: real, months: int): (payment: int)
    requires annualRate > 0.0 && months >= 1
    ensures principal >= 0 ==>
      payment >= RoundCents(principal as real * MonthlyRate(annualRate))
    ensures principal > 0 ==> payment >= 0
  {
    CoversInterest(principal, MonthlyRate(annualRate), months);
    RoundCents(principal as real * AnnuityFactor(MonthlyRate(annualRate), months))
  }

  lemma CoversInterest(principal: int, rate: real, months: nat)
    requires rate > 0.0 && months >= 1
    ensures principal >= 0 ==>
      RoundCents(principal as real * AnnuityFactor(rate, months)) >= RoundCents(principal as real * rate)
    ensures principal > 0 ==> RoundCents(principal as real * AnnuityFactor(rate, months)) >= 0
  {
    var f := AnnuityFactor(rate, months);
    if principal >= 0 {
      assert principal as real * rate <= principal as real * f;
      RoundCentsMonotone(principal as real * rate, principal as real * f);
      RoundCentsMonotone(0.0, principal as real * rate);
    }
  }

  /**
    The balance left after k months of exact (unrounded) amortisation: each
    month the balance grows by its interest and the payment is taken off.
   */
  function Remaining(principal: real, rate: real, payment: real, k: nat): real
  {
    if k == 0 then principal
    else Remaining(principal, rate, payment, k - 1) * (1.0 + rate) - payment
  }

  /** Closed form of Remaining, multiplied through by the rate. */
  lemma {:induction false} RemainingClosedForm(principal: real, rate: real, payment: real, k: nat)
    ensures rate * Remaining(principal, rate, payment, k)
         == rate * principal * Pow(1.0 + rate, k) - payment * (Pow(1.0 + rate, k) - 1.0)
  {
    if k > 0 {
      RemainingClosedForm(principal, rate, payment, k - 1);
      ClosedFormNext(principal, rate, payment, k);
    }
  }

  /** The closed form carried from month k - 1 to month k. */
  lemma ClosedFormNext(principal: real, rate: real, payment: real, k: nat)
    requires k > 0
    requires rate * Remaining(principal, rate, payment, k - 1)
          == rate * principal * Pow(1.0 + rate, k - 1) - payment * (Pow(1.0 + rate, k - 1) - 1.0)
    ensures rate * Remaining(principal, rate, payment, k)
         == rate * principal * Pow(1.0 + rate, k) - payment * (Pow(1.0 + rate, k) - 1.0)
  {
    ClosedFormStep(rate, principal, payment,
                   Remaining(principal, rate, payment, k - 1), Pow(1.0 + rate, k - 1),
                   Remaining(principal, rate, payment, k), Pow(1.0 + rate, k));
  }

  /** One month of the closed form: from balance b after (1+r)^(k-1) to r' after (1+r)^k. */
  lemma ClosedFormStep(rate: real, principal: real, payment: real, b: real, q: real, r: real, p: real)
    requires rate * b == rate * principal * q - payment * (q - 1.0)
    requires r == b * (1.0 + rate) - payment
    requires p == (1.0 + rate) * q
    ensures rate * r == rate * principal * p - payment * (p - 1.0)
  {
    calc {
      rate * r;
      rate * (b * (1.0 + rate) - payment);
      (rate * b) * (1.0 + rate) - rate * payment;
      (rate * principal * q - payment * (q - 1.0)) * (1.0 + rate) - rate * payment;
      rate * principal * ((1.0 + rate) * q) - payment * ((1.0 + rate) * q - 1.0);
      rate * principal * p - payment * (p - 1.0);
    }
  }

  /** The annuity factor solves f((1+r)^n - 1) == r(1+r)^n, with (1+r)^n > 1. */
  lemma FactorEquation(rate: real, n: nat)
    requires rate > 0.0 && n >= 1
    ensures Pow(1.0 + rate, n) > 1.0
    ensures AnnuityFactor(rate, n) * (Pow(1.0 + rate, n) - 1.0) == rate * Pow(1.0 + rate, n)
  {
    PowAboveOne(1.0 + rate, n);
  }

  lemma ClearingAlgebra(rate: real, principal: real, payment: real, p: real, f: real, rem: real)
    requires rate > 0.0 && p > 1.0
    requires f * (p - 1.0) == rate * p
    requires rate * rem == rate * principal * p - payment * (p - 1.0)
    ensures rem == 0.0 <==> payment == principal * f
  {
    assert principal * f * (p - 1.0) == rate * principal * p;
    assert rate * rem == (principal * f - payment) * (p - 1.0);
    if rem == 0.0 {
      assert (principal * f - payment) * (p - 1.0) == 0.0;
    }
  }

  /**
    The annuity formula is exactly the payment that clears the loan: a fixed
    monthly payment leaves nothing owing after n months if and only if it is
    principal times the annuity factor.
   */
  lemma ClearsLoanIff(principal: real, rate: real, payment: real, n: nat)
    requires rate > 0.0 && n >= 1
    ensures Remaining(principal, rate, payment, n) == 0.0
        <==> payment == principal * AnnuityFactor(rate, n)
  {
    var p, f, rem := ClearingFacts(principal, rate, payment, n);
    ClearingAlgebra(rate, principal, payment, p, f, rem);
  }

  lemma ClearingFacts(principal: real, rate: real, payment: real, n: nat) returns (p: real, f: real, rem: real)
    requires rate > 0.0 && n >= 1
    ensures p == Pow(1.0 + rate, n) && f == AnnuityFactor(rate, n) && rem == Remaining(principal, rate, payment, n)
    ensures p > 1.0 && f * (p - 1.0) == rate * p
    ensures rate * rem == rate * principal * p - payment * (p - 1.0)
  {
    FactorEquation(rate, n);
    RemainingClosedForm(principal, rate, payment, n);
    p, f, rem := Pow(1.0 + rate, n), AnnuityFactor(rate, n), Remaining(principal, rate, payment, n);
  }

  /**
    The rounded annuity is within half a cent of the payment that clears the
    loan exactly over the term.
   */
  lemma CalculateAnnuityClears(principal: int, annualRate: real, months: int)
    requires annualRate > 0.0 && months >= 1
    ensures var exact := principal as real * AnnuityFactor(MonthlyRate(annualRate), months);
      Remaining(principal as real, MonthlyRate(annualRate), exact, months) == 0.0
      && exact - 0.5 < CalculateAnnuity(principal, annualRate, months) as real <= exact + 0.5
  {
    var exact := principal as real * AnnuityFactor(MonthlyRate(annualRate), months);
    ClearsLoanIff(principal as real, MonthlyRate(annualRate), exact, months);
  }

  /** x^n - 1 < n(x - 1)x^n for x > 1: the geometric sum bound behind InstalmentsExceedPrincipal. */
  lemma {:induction false} PowGrowthBound(rate: real, n: nat)
    requires rate > 0.0 && n >= 1
    ensures Pow(1.0 + rate, n) - 1.0 < n as real * rate * Pow(1.0 + rate, n)
  {
    if n > 1 {
      PowGrowthBound(rate, n - 1);
      PowAboveOne(1.0 + rate, n - 1);
    }
    GrowthStep(rate, Pow(1.0 + rate, n - 1), (n - 1) as real, Pow(1.0 + rate, n), n as real);
  }

  /** From x^(k) - 1 <= k r x^k to x^(k+1) - 1 < (k+1) r x^(k+1), with x = 1 + r. */
  lemma GrowthStep(rate: real, q: real, k: real, p: real, k1: real)
    requires rate > 0.0 && q >= 1.0 && k >= 0.0 && q - 1.0 <= k * rate * q
    requires p == (1.0 + rate) * q && k1 == k + 1.0
    ensures p - 1.0 < k1 * rate * p
  {
    assert q < p by { assert p - q == rate * q; }
    assert k1 * rate > 0.0;
    calc {
      p - 1.0;
      (q - 1.0) + rate * q;
    <=
      k * rate * q + rate * q;
      k1 * rate * q;
    <  { assert k1 * rate * p - k1 * rate * q == (k1 * rate) * (p - q); }
      k1 * rate * p;
    }
  }

  /**
    Over the full term the payments add up to more than the principal:
    n times the annuity factor exceeds one.
   */
  lemma InstalmentsExceedPrincipal(rate: real, n: nat)
    requires rate > 0.0 && n >= 1
    ensures n as real * AnnuityFactor(rate, n) > 1.0
  {
    var p, f, term := GrowthFacts(rate, n);
    TermAlgebra(term, rate, p, f);
    calc {
      n as real * AnnuityFactor(rate, n);
      term * f;
    >
      1.0;
    }
  }

  lemma GrowthFacts(rate: real, n: nat) returns (p: real, f: real, term: real)
    requires rate > 0.0 && n >= 1
    ensures p == Pow(1.0 + rate, n) && f == AnnuityFactor(rate, n) && term == n as real
    ensures p > 1.0 && f * (p - 1.0) == rate * p && p - 1.0 < term * rate * p
  {
    FactorEquation(rate, n);
    PowGrowthBound(rate, n);
    p, f, term := Pow(1.0 + rate, n), AnnuityFactor(rate, n), n as real;
  }

  lemma TermAlgebra(term: real, rate: real, p: real, f: real)
    requires p > 1.0 && f * (p - 1.0) == rate * p && p - 1.0 < term * rate * p
    ensures term * f > 1.0
  {
    var c := p - 1.0;
    calc {
      (term * f) * c;
      term * (f * c);
      term * (f * (p - 1.0));
      term * (rate * p);
      term * rate * p;
    >
      p - 1.0;
      c;
    }
    FactorOfProduct(term * f, c);
  }

  lemma FactorOfProduct(k: real, c: real)
    requires c > 0.0 && k * c > c
    ensures k > 1.0
  {
  }
}
