/** The calculation that `main` performs and the argument checks of
    `parse_args`, over the arithmetic and the simulator. */
module Mortgage {
  import opened Wrappers
  import opened Amortization
  import opened PayoffSimulator

  /** What `main` reports, as a value instead of printed lines. */
  datatype Outcome =
    | ZeroDivision
      // get_min_payment raised ZeroDivisionError (k or the rate is 0)
    | Warning(minPayment: int)
      // the target is below the minimum; the simulator is not run
    | Payoff(minPayment: int, target: real, payments: nat)
      // paying `target` per period clears the mortgage in `payments` payments

  /** `main`: compute the minimum payment, default the target to it, and
      either warn that the target is too low or count the payments. */
  method Calculate(amount: real, rate: real, years: nat, k: nat, target: Option<real>) returns (o: Outcome)
    requires rate >= 0.0
    ensures o.ZeroDivision? <==> !MinPaymentDefined(rate, years, k)
    ensures MinPaymentDefined(rate, years, k) ==>
              var m := GetMinPayment(amount, rate, years, k).value;
              var t := target.GetOr(m as real);
              && (o.Warning? <==> t < m as real)
              && (o.Warning? ==> o.minPayment == m)
              && (o.Payoff? ==> o.minPayment == m && o.target == t)
    ensures target.None? && MinPaymentDefined(rate, years, k) ==> o.Payoff?
    ensures o.Payoff? ==> o.payments <= years * k
    ensures o.Payoff? ==> (o.payments == 0 <==> amount <= 0.0)
    ensures o.Payoff? && amount > 0.0 ==> PaysOffIn(amount, rate, Some(o.target), k, o.payments)
  {
    var minimum := GetMinPayment(amount, rate, years, k);
    if minimum.Err? {
      return ZeroDivision;
    }
    var m := minimum.value;
    var t := target.GetOr(m as real);
    if t < m as real {
      o := Warning(m);
    } else {
      MinPaymentDefinedIff(rate, years, k);
      if amount > 0.0 {
        AnnuityExceedsInterest(amount, rate, years, k);
      }
      var count := RemainingPayments(amount, rate, Some(t), k);
      if amount > 0.0 {
        PaysOffWithinTermIff(amount, rate, years, k, t, count);
      }
      o := Payoff(m, t, count);
    }
  }

  // ---------------------------------------------------------------------
  // Argument checks of parse_args

  /** The ValueError each check of `parse_args` raises. */
  datatype ArgError =
    | NegativeAmount
    | RateOutOfRange
    | NonPositiveYears
    | NegativePaymentsPerYear
    | NegativeTarget
  {
    function Message(): string {
      match this
      case NegativeAmount => "mortgage amount must be positive"
      case RateOutOfRange => "annual interest rate must be between 0 and 1"
      case NonPositiveYears => "years must be positive"
      case NegativePaymentsPerYear => "number of payments per year must be positive"
      case NegativeTarget => "target payment must be positive"
    }
  }

  /** Each check raises its own message, so the message tells which
      argument was rejected. */
  lemma MessageIdentifiesCheck(e1: ArgError, e2: ArgError)
    ensures e1.Message() == e2.Message() <==> e1 == e2
  {
  }

  /** The checked arguments, as `main` receives them. */
  datatype Args = Args(amount: real, rate: real, years: nat, k: nat, target: Option<real>)

  /** Python truthiness of an optional float: None and 0.0 are false. */
  predicate Truthy(v: Option<real>): (t: bool)
    ensures v.None? || v == Some(0.0) ==> !t
    ensures v.Some? && v.value < 0.0 ==> t
  {
    v.Some? && v.value != 0.0
  }

  /** The condition the check that raises `e` lets through, as written. */
  predicate Passes(e: ArgError, amount: real, rate: real, years: int, k: int, target: Option<real>) {
    match e
    case NegativeAmount => !(amount < 0.0)
    case RateOutOfRange => 0.0 <= rate <= 1.0
    case NonPositiveYears => !(years < 1)
    case NegativePaymentsPerYear => !(k < 0)
    case NegativeTarget => !(Truthy(target) && target.value < 0.0)
  }

  /** The validation in `parse_args`: the first failing check raises. */
  function Validate(amount: real, rate: real, years: int, k: int, target: Option<real>): (res: Result<Args, ArgError>)
    ensures res.Ok? <==>
              && amount >= 0.0
              && 0.0 <= rate <= 1.0
              && years >= 1
              && k >= 0
              && (target.Some? ==> target.value >= 0.0)
    ensures res.Ok? ==> years >= 1 && k >= 0 && res.value == Args(amount, rate, years as nat, k as nat, target)
    ensures res.Err? ==> !Passes(res.error, amount, rate, years, k, target)
  {
    if amount < 0.0 then Err(NegativeAmount)
    else if !(0.0 <= rate <= 1.0) then Err(RateOutOfRange)
    else if years < 1 then Err(NonPositiveYears)
    else if k < 0 then Err(NegativePaymentsPerYear)
    else if Truthy(target) && target.value < 0.0 then Err(NegativeTarget)
    else Ok(Args(amount, rate, years as nat, k as nat, target))
  }

  /** On arguments the checks accept, `get_min_payment` divides by zero
      exactly when the rate or the number of payments per year is 0: the
      checks let both through. */
  lemma AcceptedArgsDivideByZeroIff(amount: real, rate: real, years: int, k: int, target: Option<real>)
    requires Validate(amount, rate, years, k, target).Ok?
    ensures var a := Validate(amount, rate, years, k, target).value;
            !MinPaymentDefined(a.rate, a.years, a.k) <==> a.rate == 0.0 || a.k == 0
  {
    var a := Validate(amount, rate, years, k, target).value;
    MinPaymentDefinedIff(a.rate, a.years, a.k);
  }

  /** Ten thousand at 3% over five years, paid monthly: the minimum payment
      is above 166, so a target of 50 draws the warning. */
  lemma SmallTargetIsBelowMinimum()
    ensures GetMinPayment(10000.0, 0.03, 5, 12).Ok?
    ensures GetMinPayment(10000.0, 0.03, 5, 12).value > 166
  {
    MinPaymentCoversPrincipal(10000.0, 0.03, 5, 12);
  }

  /** `main` on 10000 at 3% over five years, monthly, with a target of 50:
      the target is below the minimum payment, so it warns. */
  method SmallTargetWarns() returns (o: Outcome)
    ensures o.Warning? && o.minPayment > 166
  {
    SmallTargetIsBelowMinimum();
    o := Calculate(10000.0, 0.03, 5, 12, Some(50.0));
  }
}
