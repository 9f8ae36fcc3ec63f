/** The payoff simulator of `mortgage.py` (`remaining_payments`): pay one
    period at a time until the balance is no longer positive, and count the
    payments. The loop is specified by `Step`, one iteration of its body on
    the balance, and `BalanceAfter`, the balance after j iterations. */
module PayoffSimulator {
  import opened Wrappers
  import opened Amortization

  /** Python's `min` on two numbers. */
  function Min(a: real, b: real): (m: real)
    ensures m <= a && m <= b && (m == a || m == b)
  {
    if b < a then b else a
  }

  /** One iteration can be evaluated: the interest divides by `k`, and
      without a target the payment is `get_min_payment(balance, rate)` with
      its 30-year, 12-payment defaults. */
  predicate StepDefined(rate: real, target: Option<real>, k: nat) {
    k != 0 && (target.None? ==> MinPaymentDefined(rate, DefaultYears, DefaultPaymentsPerYear))
  }

  /** The payment made on balance `b`: the recomputed minimum when there is
      no target, otherwise the target capped at what clears the balance. */
  function PaymentFor(b: real, rate: real, target: Option<real>, k: nat): (p: real)
    requires StepDefined(rate, target, k)
    ensures target.None? ==> Annuity(b, rate, DefaultYears, DefaultPaymentsPerYear) <= p
                             < Annuity(b, rate, DefaultYears, DefaultPaymentsPerYear) + 1.0
    ensures target.Some? ==> p <= target.value && p <= b + InterestDue(b, rate, k)
    ensures target.Some? ==> p == target.value || p == b + InterestDue(b, rate, k)
  {
    match target
    case None => GetMinPayment(b, rate, DefaultYears, DefaultPaymentsPerYear).value as real
    case Some(t) => Min(t, b + InterestDue(b, rate, k))
  }

  /** The balance after one iteration of the loop body. */
  function Step(b: real, rate: real, target: Option<real>, k: nat): (s: real)
    requires StepDefined(rate, target, k)
    ensures s + PaymentFor(b, rate, target, k) == b + InterestDue(b, rate, k)
    ensures target.Some? ==> s >= 0.0
  {
    b - (PaymentFor(b, rate, target, k) - InterestDue(b, rate, k))
  }

  /** The balance after `j` iterations starting from `balance`. */
  function BalanceAfter(balance: real, rate: real, target: Option<real>, k: nat, j: nat): real
    requires StepDefined(rate, target, k)
  {
    if j == 0 then balance else Step(BalanceAfter(balance, rate, target, k, j - 1), rate, target, k)
  }

  /** `count` is the number of iterations the loop runs: the balance is
      still positive before each of them and no longer positive after the
      last. */
  ghost predicate PaysOffIn(balance: real, rate: real, target: Option<real>, k: nat, count: nat)
    requires StepDefined(rate, target, k)
  {
    && BalanceAfter(balance, rate, target, k, count) <= 0.0
    && forall j :: 0 <= j < count ==> BalanceAfter(balance, rate, target, k, j) > 0.0
  }

  /** Inputs on which the loop ends: nothing is owed, or a target payment
      exceeds the interest on the starting balance, or there is no target,
      the rate is positive and interest accrues no faster than monthly. */
  predicate Simulable(balance: real, rate: real, target: Option<real>, k: nat) {
    || balance <= 0.0
    || (&& k != 0
        && rate >= 0.0
        && (target.Some? ==> target.value > InterestDue(balance, rate, k))
        && (target.None? ==> rate > 0.0 && k >= DefaultPaymentsPerYear))
  }

  /** `remaining_payments`: the number of payments needed to clear
      `balance`. */
  method RemainingPayments(balance: real, rate: real, target: Option<real>, k: nat) returns (payments: nat)
    requires Simulable(balance, rate, target, k)
    ensures payments == 0 <==> balance <= 0.0
    ensures balance > 0.0 ==> StepDefined(rate, target, k) && PaysOffIn(balance, rate, target, k, payments)
  {
    payments := 0;
    var b := balance;
    if balance > 0.0 && target.None? {
      MinPaymentDefinedIff(rate, DefaultYears, DefaultPaymentsPerYear);
    }
    // Every iteration lowers a positive balance by at least d or clears it.
    ghost var d: real :=
      if balance <= 0.0 then 1.0
      else if target.Some? then target.value - InterestDue(balance, rate, k)
      else NoTargetProgress(rate);
    while b > 0.0
      invariant payments == 0 ==> b == balance
      invariant payments > 0 ==> balance > 0.0
      invariant d > 0.0
      invariant balance > 0.0 ==> StepDefined(rate, target, k)
      invariant balance > 0.0 ==> b == BalanceAfter(balance, rate, target, k, payments)
      invariant balance > 0.0 ==> forall j :: 0 <= j < payments ==> BalanceAfter(balance, rate, target, k, j) > 0.0
      invariant target.Some? ==> b <= balance
      decreases if b > 0.0 then Ceil(b / d) else 0
    {
      var interest := InterestDue(b, rate, k);
      var payment: real;
      if target.None? {
        payment := GetMinPayment(b, rate, DefaultYears, DefaultPaymentsPerYear).value as real;
      } else {
        payment := Min(target.value, b + interest);
      }
      ghost var before := b;
      b := b - (payment - interest);
      payments := payments + 1;
      if target.None? {
        NoTargetStepProgress(before, rate, k);
      } else {
        TargetStepProgress(before, balance, rate, target.value, k);
      }
      CeilMeasureDecreases(before, b, d);
    }
  }

  // ---------------------------------------------------------------------
  // One iteration with a target payment

  /** A target payment never leaves a negative balance: when it covers the
      balance plus interest the capped last payment clears it exactly,
      otherwise the balance grows by the interest and falls by the target. */
  lemma TargetStepCapped(b: real, rate: real, t: real, k: nat)
    requires k != 0
    ensures Step(b, rate, Some(t), k) >= 0.0
    ensures Step(b, rate, Some(t), k) == 0.0 <==> t >= b + InterestDue(b, rate, k)
    ensures Step(b, rate, Some(t), k)
         == if t < b + InterestDue(b, rate, k) then b + InterestDue(b, rate, k) - t else 0.0
  {
  }

  /** Interest grows with the balance. */
  lemma InterestMonotone(b1: real, b2: real, rate: real, k: nat)
    requires k != 0 && rate >= 0.0 && b1 <= b2
    ensures InterestDue(b1, rate, k) <= InterestDue(b2, rate, k)
  {
    MulLeRight(b1, b2, PeriodicRate(rate, k));
  }

  /** Balance plus interest is the balance times the growth factor 1 + r. */
  lemma GrowthFactor(b: real, rate: real, k: nat, x: real)
    requires k != 0 && x == 1.0 + PeriodicRate(rate, k)
    ensures b + InterestDue(b, rate, k) == b * x
  {
  }

  // ---------------------------------------------------------------------
  // Termination

  lemma CeilMeasureDecreases(b: real, next: real, d: real)
    requires d > 0.0 && b > 0.0
    requires next <= 0.0 || next <= b - d
    ensures Ceil(b / d) >= 1
    ensures next > 0.0 ==> Ceil(next / d) < Ceil(b / d)
  {
    QuotientTimesDivisor(b, d);
    MulCancelLe(0.0, b / d, d);
    if next > 0.0 {
      QuotientTimesDivisor(next, d);
      assert (b / d - 1.0) * d == b - d;
      MulCancelLe(next / d, b / d - 1.0, d);
    }
  }

  /** With a target above the interest on the starting balance b0, every
      iteration from a positive balance b ≤ b0 either clears the balance or
      lowers it by at least the target minus that interest. */
  lemma TargetStepProgress(b: real, b0: real, rate: real, t: real, k: nat)
    requires k != 0 && rate >= 0.0 && 0.0 < b <= b0
    requires t > InterestDue(b0, rate, k)
    ensures Step(b, rate, Some(t), k) <= b
    ensures Step(b, rate, Some(t), k) <= 0.0
         || Step(b, rate, Some(t), k) <= b - (t - InterestDue(b0, rate, k))
  {
    InterestMonotone(b, b0, rate, k);
    TargetStepCapped(b, rate, t, k);
  }

  /** A target no greater than the interest on a positive starting balance
      never lowers the balance, so the source's loop would not end; this is
      why `Simulable` asks for more than that. */
  lemma {:induction false} NeverPaysOffAtOrBelowInterest(balance: real, rate: real, t: real, k: nat, j: nat)
    requires balance > 0.0 && k != 0 && rate >= 0.0
    requires t <= InterestDue(balance, rate, k)
    ensures BalanceAfter(balance, rate, Some(t), k, j) >= balance
  {
    if j > 0 {
      NeverPaysOffAtOrBelowInterest(balance, rate, t, k, j - 1);
      var b := BalanceAfter(balance, rate, Some(t), k, j - 1);
      InterestMonotone(balance, b, rate, k);
      TargetStepCapped(b, rate, t, k);
    }
  }

  /** The least decrease of a positive balance per iteration when no target
      is given. */
  function NoTargetProgress(rate: real): (d: real)
    requires rate > 0.0
    ensures d > 0.0
  {
    var x := Pow(1.0 + PeriodicRate(rate, DefaultPaymentsPerYear), DefaultYears * DefaultPaymentsPerYear);
    PowAboveOne(1.0 + PeriodicRate(rate, DefaultPaymentsPerYear), DefaultYears * DefaultPaymentsPerYear);
    Min(0.5, 0.5 / (x - 1.0))
  }

  lemma RateShrinksWithFrequency(rate: real, k: nat)
    requires rate >= 0.0 && k >= DefaultPaymentsPerYear
    ensures PeriodicRate(rate, k) <= PeriodicRate(rate, DefaultPaymentsPerYear)
  {
    QuotientTimesDivisor(rate, k as real);
    QuotientTimesDivisor(rate, 12.0);
    MulLeRight(12.0, k as real, PeriodicRate(rate, k));
    assert PeriodicRate(rate, k) * 12.0 <= rate;
    assert PeriodicRate(rate, DefaultPaymentsPerYear) * 12.0 == rate;
    MulCancelLe(PeriodicRate(rate, k), PeriodicRate(rate, DefaultPaymentsPerYear), 12.0);
  }

  /** Without a target (and interest accruing at most monthly) every
      iteration lowers a positive balance by at least NoTargetProgress:
      the recomputed payment is a whole number above the monthly interest. */
  lemma NoTargetStepProgress(b: real, rate: real, k: nat)
    requires b > 0.0 && rate > 0.0 && k >= DefaultPaymentsPerYear
    ensures StepDefined(rate, None, k)
    ensures Step(b, rate, None, k) <= b - NoTargetProgress(rate)
  {
    MinPaymentDefinedIff(rate, DefaultYears, DefaultPaymentsPerYear);
    RateShrinksWithFrequency(rate, k);
    MulLeRight(PeriodicRate(rate, k), PeriodicRate(rate, DefaultPaymentsPerYear), b);
    WholePaymentMargin(b, PeriodicRate(rate, DefaultPaymentsPerYear), DefaultYears * DefaultPaymentsPerYear,
                       GetMinPayment(b, rate, DefaultYears, DefaultPaymentsPerYear).value);
    assert InterestDue(b, rate, k) <= b * PeriodicRate(rate, DefaultPaymentsPerYear);
    assert Step(b, rate, None, k) == b - (GetMinPayment(b, rate, DefaultYears, DefaultPaymentsPerYear).value as real - InterestDue(b, rate, k));
    assert NoTargetProgress(rate) == Min(0.5, 0.5 / (Pow(1.0 + PeriodicRate(rate, DefaultPaymentsPerYear), DefaultYears * DefaultPaymentsPerYear) - 1.0));
    StepBound(Step(b, rate, None, k), b, GetMinPayment(b, rate, DefaultYears, DefaultPaymentsPerYear).value as real, InterestDue(b, rate, k), b * PeriodicRate(rate, DefaultPaymentsPerYear), NoTargetProgress(rate));
  }

  lemma StepBound(s: real, b: real, m: real, i: real, br: real, d: real)
    requires s == b - (m - i) && i <= br && m - br >= d
    ensures s <= b - d
  {
  }

  /** A whole payment m at or above the annuity for a positive balance b
      exceeds the interest b·r by at least min(0.5, 0.5/(x − 1)), with
      x = (1 + r)^n. */
  lemma WholePaymentMargin(b: real, r: real, n: nat, m: int)
    requires b > 0.0 && r > 0.0 && n >= 1
    requires Pow(1.0 + r, n) != 1.0 && m as real >= AnnuityOf(b, r, Pow(1.0 + r, n))
    ensures Pow(1.0 + r, n) > 1.0
    ensures m as real - b * r >= Min(0.5, 0.5 / (Pow(1.0 + r, n) - 1.0))
  {
    PowAboveOne(1.0 + r, n);
    MulPositive(b, r);
    QuotientTimesDivisor(b * r * Pow(1.0 + r, n), Pow(1.0 + r, n) - 1.0);
    WholePaymentProgress(b * r, b * r, AnnuityOf(b, r, Pow(1.0 + r, n)), Pow(1.0 + r, n), m);
  }

  /** The arithmetic of NoTargetStepProgress: a whole payment m at least the
      annuity a, where a·(x − 1) = s·x, exceeds an interest i ≤ s by at
      least min(1/2, 1/(2(x − 1))). */
  lemma WholePaymentProgress(s: real, i: real, a: real, x: real, m: int)
    requires x > 1.0 && s > 0.0 && i <= s
    requires a * (x - 1.0) == s * x
    requires m as real >= a
    ensures m as real - i >= Min(0.5, 0.5 / (x - 1.0))
  {
    assert (a - s) * (x - 1.0) == s;
    MulCancelLe(0.0, a - s, x - 1.0);
    assert a > 0.0;
    if s <= 0.5 {
      assert m >= 1;
    } else {
      QuotientTimesDivisor(0.5, x - 1.0);
      MulCancelLe(0.5 / (x - 1.0), a - s, x - 1.0);
    }
  }

  // ---------------------------------------------------------------------
  // Paying a target over the term: the capped schedule against the
  // uncapped annuity recurrence u(j+1) = u(j)·x − t.

  ghost function Uncapped(balance: real, rate: real, t: real, k: nat, j: nat): real
    requires k != 0
  {
    if j == 0 then balance
    else
      var u := Uncapped(balance, rate, t, k, j - 1);
      u + InterestDue(u, rate, k) - t
  }

  /** The uncapped recurrence written with the growth factor alone:
      v(0) = P, v(j) = v(j−1)·x − t. */
  ghost function Recurrence(balance: real, x: real, t: real, j: nat): real
  {
    if j == 0 then balance else Recurrence(balance, x, t, j - 1) * x - t
  }

  lemma {:induction false} UncappedIsRecurrence(balance: real, rate: real, t: real, k: nat, x: real, j: nat)
    requires k != 0 && x == 1.0 + PeriodicRate(rate, k)
    ensures Uncapped(balance, rate, t, k, j) == Recurrence(balance, x, t, j)
  {
    if j > 0 {
      UncappedIsRecurrence(balance, rate, t, k, x, j - 1);
      GrowthFactor(Uncapped(balance, rate, t, k, j - 1), rate, k, x);
    }
  }

  lemma {:induction false} RecurrenceClosedForm(balance: real, x: real, t: real, j: nat)
    ensures Recurrence(balance, x, t, j) == balance * Pow(x, j) - t * Geo(x, j)
  {
    if j > 0 {
      RecurrenceClosedForm(balance, x, t, j - 1);
      RecurrenceClosedFormStep(balance, x, t, j);
    }
  }

  lemma RecurrenceClosedFormStep(balance: real, x: real, t: real, j: nat)
    requires j > 0
    requires Recurrence(balance, x, t, j - 1) == balance * Pow(x, j - 1) - t * Geo(x, j - 1)
    ensures Recurrence(balance, x, t, j) == balance * Pow(x, j) - t * Geo(x, j)
  {
    ClosedFormStep(Recurrence(balance, x, t, j - 1), Recurrence(balance, x, t, j), balance,
                   Pow(x, j - 1), Pow(x, j), t, Geo(x, j - 1), Geo(x, j), x);
  }

  /** The closed form of the uncapped balance: P·x^j − t·(1 + x + ... + x^(j−1))
      with growth factor x = 1 + r. */
  lemma {:induction false} UncappedClosedForm(balance: real, rate: real, t: real, k: nat, x: real, j: nat)
    requires k != 0 && x == 1.0 + PeriodicRate(rate, k)
    ensures Uncapped(balance, rate, t, k, j) == balance * Pow(x, j) - t * Geo(x, j)
  {
    UncappedIsRecurrence(balance, rate, t, k, x, j);
    RecurrenceClosedForm(balance, x, t, j);
  }

  /** One step of the closed form: from u = P·p − t·g and the
      recurrences for u, the power and the geometric sum, the closed form
      holds one step on. */
  lemma ClosedFormStep(u: real, u': real, balance: real, p: real, p': real, t: real, g: real, g': real, x: real)
    requires u == balance * p - t * g
    requires u' == u * x - t && p' == x * p && g' == 1.0 + x * g
    ensures u' == balance * p' - t * g'
  {
  }

  /** The balance under a non-negative target stays at or below the
      uncapped balance, floored at zero. */
  lemma {:induction false} BalanceBelowUncapped(balance: real, rate: real, t: real, k: nat, j: nat)
    requires k != 0 && rate >= 0.0 && t >= 0.0
    ensures var u := Uncapped(balance, rate, t, k, j);
            BalanceAfter(balance, rate, Some(t), k, j) <= (if u > 0.0 then u else 0.0)
  {
    if j > 0 {
      BalanceBelowUncapped(balance, rate, t, k, j - 1);
      var u := Uncapped(balance, rate, t, k, j - 1);
      var b := BalanceAfter(balance, rate, Some(t), k, j - 1);
      TargetStepCapped(b, rate, t, k);
      if u > 0.0 {
        InterestMonotone(b, u, rate, k);
      } else {
        InterestMonotone(b, 0.0, rate, k);
      }
    }
  }

  /** While the uncapped balance is positive the cap never applies, so the
      simulated balance equals it. */
  lemma {:induction false} BalanceIsUncappedWhilePositive(balance: real, rate: real, t: real, k: nat, j: nat)
    requires k != 0 && rate >= 0.0 && t >= 0.0
    requires Uncapped(balance, rate, t, k, j) > 0.0
    ensures BalanceAfter(balance, rate, Some(t), k, j) == Uncapped(balance, rate, t, k, j)
  {
    if j > 0 {
      var u := Uncapped(balance, rate, t, k, j - 1);
      BalanceIsUncappedWhilePositive(balance, rate, t, k, j - 1);
      TargetStepCapped(u, rate, t, k);
    }
  }

  /** Once a target has cleared the balance it stays cleared. */
  lemma {:induction false} PaidOffStaysPaidOff(balance: real, rate: real, t: real, k: nat, j: nat, i: nat)
    requires k != 0 && rate >= 0.0 && t >= 0.0 && j <= i
    requires BalanceAfter(balance, rate, Some(t), k, j) <= 0.0
    ensures BalanceAfter(balance, rate, Some(t), k, i) <= 0.0
  {
    if j < i {
      PaidOffStaysPaidOff(balance, rate, t, k, j, i - 1);
      var b := BalanceAfter(balance, rate, Some(t), k, i - 1);
      InterestMonotone(b, 0.0, rate, k);
      TargetStepCapped(b, rate, t, k);
    }
  }

  /** After the whole term the uncapped balance is (A − t)·Geo, so it is
      cleared exactly when the target reaches the exact annuity A. */
  lemma UncappedAfterTerm(balance: real, rate: real, years: nat, k: nat, t: real)
    requires rate > 0.0 && years >= 1 && k >= 1
    ensures MinPaymentDefined(rate, years, k)
    ensures Uncapped(balance, rate, t, k, years * k) <= 0.0 <==> t >= Annuity(balance, rate, years, k)
  {
    MinPaymentDefinedIff(rate, years, k);
    UncappedIsRecurrence(balance, rate, t, k, 1.0 + PeriodicRate(rate, k), years * k);
    RecurrenceAfterTerm(balance, PeriodicRate(rate, k), t, years * k);
  }

  /** UncappedAfterTerm for a periodic rate r and n periods. */
  lemma RecurrenceAfterTerm(balance: real, r: real, t: real, n: nat)
    requires r > 0.0 && n >= 1
    ensures Pow(1.0 + r, n) > 1.0
    ensures Recurrence(balance, 1.0 + r, t, n) <= 0.0 <==> t >= AnnuityOf(balance, r, Pow(1.0 + r, n))
  {
    AnnuityTimesGeoOver(balance, r, n);
    GeoBounds(1.0 + r, n);
    RecurrenceClosedForm(balance, 1.0 + r, t, n);
    ClearedIff(Recurrence(balance, 1.0 + r, t, n), balance, t, AnnuityOf(balance, r, Pow(1.0 + r, n)),
               Pow(1.0 + r, n), Geo(1.0 + r, n));
  }

  /** The algebra of UncappedAfterTerm: u = P·x − t·g with a·g = P·x and
      g > 0 is (a − t)·g, which is at most zero exactly when t ≥ a. */
  lemma ClearedIff(u: real, balance: real, t: real, a: real, x: real, g: real)
    requires u == balance * x - t * g && a * g == balance * x && g > 0.0
    ensures u <= 0.0 <==> t >= a
  {
    assert u == (a - t) * g;
    SignOfProduct(a - t, g);
  }

  /** The meaning of the minimum payment: a target pays a positive
      principal off within years·k payments exactly when it is at least the
      exact annuity payment for that principal, rate and term. */
  lemma PaysOffWithinTermIff(balance: real, rate: real, years: nat, k: nat, t: real, count: nat)
    requires balance > 0.0 && rate > 0.0 && years >= 1 && k >= 1 && t >= 0.0
    requires PaysOffIn(balance, rate, Some(t), k, count)
    ensures MinPaymentDefined(rate, years, k)
    ensures count <= years * k <==> t >= Annuity(balance, rate, years, k)
  {
    var n := years * k;
    UncappedAfterTerm(balance, rate, years, k, t);
    if t >= Annuity(balance, rate, years, k) {
      BalanceBelowUncapped(balance, rate, t, k, n);
    } else {
      BalanceIsUncappedWhilePositive(balance, rate, t, k, n);
      if count <= n {
        PaidOffStaysPaidOff(balance, rate, t, k, count, n);
      }
    }
  }
}
