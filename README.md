# Fixed-rate mortgage calculator, modelled in Dafny

This project models `mortgage.py`, a one-shot calculator for fixed-rate
amortising loans. It models three parts:

- The minimum periodic payment `get_min_payment`. This is the annuity formula
  P·r·(1+r)^n / ((1+r)^n − 1), rounded up to a whole unit. Here r is the annual
  rate divided by k, the number of payments per year, and n = years·k.
- The interest for one period, `interest_due`.
- The payoff simulator `remaining_payments`. It runs a loop that pays one
  period at a time until the balance is no longer positive, and counts the
  payments.

It also models the straight-line orchestration in `main` and the five argument
checks of `parse_args`.

Every quantity is an exact `real`: the model computes with rationals, not IEEE
floats. The module layout follows the program's components:

- `wrappers.dfy`, module `Wrappers`: `Option` for Python's `None`, and `Result`
  for raised exceptions.
- `amortization.dfy`, module `Amortization`: `Pow`, `Ceil` (`math.ceil`),
  `GetMinPayment` and `InterestDue`, with lemmas about them.
- `payoff.dfy`, module `PayoffSimulator`: `RemainingPayments`, a method with the
  source's `while balance > 0` loop. It is proved against `Step`, one run of the
  loop body, and `BalanceAfter`, the balance after j iterations. The returned
  count is the first j whose balance is no longer positive (`PaysOffIn`).
- `mortgage.dfy`, module `Mortgage`: `Calculate`, which is `main` returning an
  `Outcome` instead of printing, and `Validate`, the checks of `parse_args`.

The central theorem is `PayoffSimulator.PaysOffWithinTermIff`. Take a positive
principal and a non-negative target payment. The target clears the principal
within years·k payments exactly when it is at least the exact annuity payment.
The proof goes through the closed form of the balance before the final capped
payment: P·x^j − t·(1 + x + … + x^(j−1)), with x = 1 + r. Because
`get_min_payment` rounds up, `main` always reports at most years·k payments.

Where the docstrings and the code disagree, the model follows the code:

- The docstring and comment say the payment is rounded "to the nearest number"
  (mortgage.py:18, mortgage.py:28). The code uses `math.ceil` (mortgage.py:29),
  so the model rounds up.
- Without a target, the simulator recomputes the payment with the defaults of
  30 years and 12 payments per year (mortgage.py:69). The interest still uses
  the caller's k (mortgage.py:66). The model keeps this asymmetry.
- A zero rate is not special-cased. The formula divides 0 by 0 and Python
  raises ZeroDivisionError. A k of 0 raises the same error at mortgage.py:22.
  The checks in `parse_args` accept both values (mortgage.py:154, mortgage.py:158).
  The model returns the `ZeroDivision` outcome for them.
  `Mortgage.AcceptedArgsDivideByZeroIff` proves that accepted arguments crash
  exactly when the rate or k is 0.
- The messages for the amount, k and the target say "must be positive", but
  those checks reject only negative values (mortgage.py:152, mortgage.py:158,
  mortgage.py:160). An amount of 0, a k of 0 and a target of 0 all pass. The
  years check `years < 1` (mortgage.py:156) does reject 0, as its message
  says. The target check
  tests truthiness first (mortgage.py:160), but every negative number is
  truthy. `Mortgage.Validate` therefore states acceptance as "target absent or
  ≥ 0".

## Model

| member | source | states |
|---|---|---|
| `Amortization.Ceil` | mortgage.py:29 | the result is an integer c with x ≤ c < x + 1, so it is the ceiling |
| `Amortization.GetMinPayment` | mortgage.py:8-29 | ZeroDivisionError exactly when k = 0 or (1+r)^n = 1; otherwise a whole number m with A ≤ m < A + 1, where A is the exact annuity |
| `Amortization.MinPaymentIsLeastWholeCover` | mortgage.py:29 | no whole number at or above the annuity is smaller than the minimum payment |
| `Amortization.MinPaymentDefinedIff` | mortgage.py:22-27 | for a rate ≥ 0 the formula is defined iff k ≥ 1, years ≥ 1 and rate > 0; a zero rate or a zero term divides by zero |
| `Amortization.AnnuityTimesGeo` | mortgage.py:22-27 | annuity · (1 + x + … + x^(n−1)) = P · x^n: the n payments, each grown to the end of the term, repay the grown principal |
| `Amortization.AnnuityExceedsInterest` | mortgage.py:27 | for P, rate > 0 the annuity is strictly above the interest on the principal, P·rate/k |
| `Amortization.MinPaymentCoversPrincipal` | mortgage.py:8-29 | minimum payment · years · k ≥ P, and the minimum payment is ≥ 1 when P > 0 |
| `Amortization.PeriodicRate` | mortgage.py:22 | the periodic rate annual_rate / k is ≥ 0 for a rate ≥ 0 and > 0 for a rate > 0 |
| `Amortization.MinPaymentDefined` | mortgage.py:22-27 | the formula can only be defined when k ≥ 1 (else line 22 divides by zero) and years ≥ 1 (else (1+r)^0 − 1 = 0 at line 27) |
| `Amortization.PowAtLeastOne` | mortgage.py:27 | `(1 + r) ** n` is ≥ 1 for every n when r ≥ 0 |
| `Amortization.PowAboveOne` | mortgage.py:27 | `(1 + r) ** n` is > 1 for r > 0 and n ≥ 1, so the denominator of line 27 is positive |
| `Amortization.InterestDue` | mortgage.py:31-46 | interest is ≥ 0 for balance, rate ≥ 0; > 0 when both are positive; ≤ 0 on a non-positive balance |
| `Amortization.InterestDueLinear` | mortgage.py:44-46 | interest is linear in the balance: I(c·b1 + b2) = c·I(b1) + I(b2) |
| `PayoffSimulator.Min` | mortgage.py:72 | Python's `min`: the result is one of the two arguments and at most both |
| `PayoffSimulator.RemainingPayments` | mortgage.py:48-76 | returns 0 iff the balance is ≤ 0; otherwise the count is the number of iterations: the balance is positive after fewer payments and ≤ 0 after that many |
| `PayoffSimulator.PaymentFor` | mortgage.py:66-72 | without a target the payment is the whole minimum payment for the current balance with the defaults of 30 years and 12 per year (line 69), i.e. within 1 above that annuity; with a target it is the smaller of the target and balance + interest, so one of the two and at most both |
| `PayoffSimulator.Step` | mortgage.py:66-74 | one iteration: new balance + payment = balance + interest, and with a target the new balance is never negative |
| `PayoffSimulator.RateShrinksWithFrequency` | mortgage.py:44 | with k ≥ 12 the periodic rate is at most the monthly rate, so the interest of line 66 is at most the balance times the monthly rate behind line 69's default payment |
| `PayoffSimulator.WholePaymentMargin` | mortgage.py:29 | a whole payment (such as the default payment of mortgage.py:69) at or above the annuity exceeds the interest on the balance by at least min(0.5, 0.5/(x − 1)), x = (1+r)^n |
| `PayoffSimulator.TargetStepCapped` | mortgage.py:71-74 | with a target the new balance is never negative; it is exactly 0 iff the target covers balance + interest; otherwise it is balance + interest − target |
| `PayoffSimulator.InterestMonotone` | mortgage.py:66 | the interest on a larger balance is no smaller (rate ≥ 0) |
| `PayoffSimulator.GrowthFactor` | mortgage.py:66-74 | balance + interest = balance · (1 + r) |
| `PayoffSimulator.TargetStepProgress` | mortgage.py:64-75 | with a target above the interest on the starting balance B0, each iteration from 0 < b ≤ B0 never raises the balance, and either clears it or lowers it by at least target − interest(B0) |
| `PayoffSimulator.NeverPaysOffAtOrBelowInterest` | mortgage.py:64-75 | a target at or below the interest on a positive starting balance never takes the balance below its start, so the loop would not end |
| `PayoffSimulator.NoTargetStepProgress` | mortgage.py:64-69 | without a target, with rate > 0 and k ≥ 12, each iteration lowers a positive balance by at least a fixed positive amount that depends only on the rate |
| `PayoffSimulator.UncappedClosedForm` | mortgage.py:74 | the balance recurrence u(j+1) = u(j) + interest − t has the closed form P·x^j − t·(1 + x + … + x^(j−1)) |
| `PayoffSimulator.BalanceBelowUncapped` | mortgage.py:72-74 | with a target ≥ 0, the simulated balance is never above max(uncapped balance, 0) |
| `PayoffSimulator.BalanceIsUncappedWhilePositive` | mortgage.py:72-74 | while the uncapped balance is positive, the simulated balance equals it, because the cap has not applied |
| `PayoffSimulator.PaidOffStaysPaidOff` | mortgage.py:72-74 | once a target has brought the balance to ≤ 0, every later balance is ≤ 0 |
| `PayoffSimulator.UncappedAfterTerm` | mortgage.py:27 | after years·k periods the uncapped balance is ≤ 0 iff the target is ≥ the exact annuity |
| `PayoffSimulator.PaysOffWithinTermIff` | mortgage.py:8-29 | for P > 0, rate > 0 and a target ≥ 0, the payoff count is ≤ years·k iff the target is ≥ the exact annuity payment |
| `Mortgage.Calculate` | mortgage.py:78-106 | ZeroDivision iff the minimum is undefined; the target defaults to the minimum m; Warning(m) iff the target < m, and then the simulator is not run; otherwise Payoff(m, target, count). The count is the simulator's, 0 iff P ≤ 0, and at most years·k |
| `Mortgage.Truthy` | mortgage.py:160 | Python truthiness of the optional target: None and 0.0 are false, every negative number is true |
| `Mortgage.MessageIdentifiesCheck` | mortgage.py:152-161 | the ValueError messages are pairwise different, so the message names the failing check |
| `Mortgage.Validate` | mortgage.py:152-161 | accepts iff amount ≥ 0, 0 ≤ rate ≤ 1, years ≥ 1, k ≥ 0 and the target is absent or ≥ 0; on acceptance returns the arguments unchanged; on rejection the reported check is one that fails |
| `Mortgage.AcceptedArgsDivideByZeroIff` | mortgage.py:152-161 | on accepted arguments, the minimum-payment formula divides by zero iff the rate is 0 or k is 0 |
| `Mortgage.SmallTargetIsBelowMinimum` | mortgage.py:93-102 | 10000 at 3% over 5 years, paid monthly, has a minimum payment above 166, so a target of 50 gets the warning |
| `Mortgage.SmallTargetWarns` | mortgage.py:93-102 | `main` on 10000 at 3% over 5 years, 12 per year, with target 50 reports the warning, with a minimum payment above 166 |

## Left out

- The `ArgumentParser` setup and `parser.parse_args()` (mortgage.py:137-151) belong to a foreign library. Only the checks on the parsed numbers are modelled. Line 151 reads `sys.argv` rather than `arglist`; that is not modelled either.
- `print`, `sys.exit` and the `__main__` block (mortgage.py:94, 102, 106, 166-172) are I/O. `Mortgage.Calculate` returns the reported values as an `Outcome` instead.
- IEEE-754 behaviour of `**`, `/` and `math.ceil` is not modelled: arithmetic is exact. Float rounding drift is therefore absent, and so is the OverflowError of `**` on huge exponents.
- `Mortgage.Calculate`: `main` is modelled as a method, not a function, because it calls the simulator, which is a method with a loop.
- `Mortgage.Calculate`: requires rate ≥ 0 and takes years and k as naturals. These are the ranges `parse_args` guarantees. Negative years or k, and negative rates, are not modelled.
- `Amortization.GetMinPayment`: takes years and k as naturals, so the exponent n is never negative. Python would also accept a negative exponent.
- `PayoffSimulator.RemainingPayments`: requires a loop that ends. With a target, the target must exceed the interest on the starting balance. `PayoffSimulator.NeverPaysOffAtOrBelowInterest` shows that Python loops forever otherwise, when the rate is ≥ 0.
- `PayoffSimulator.RemainingPayments`: without a target, it requires rate > 0 and k ≥ 12. For k < 12 the source's loop may not end. That branch is unreachable from `main`, which always sets a target first (mortgage.py:97-98).
- `Amortization.InterestDue`: requires k ≠ 0. With k = 0 the source raises ZeroDivisionError at mortgage.py:44. `main` never gets there: `get_min_payment` divides by the same k first (mortgage.py:93, mortgage.py:22) and the model reports that as `ZeroDivision`.
- `PayoffSimulator.RemainingPayments`: without a target and with rate 0, the source raises ZeroDivisionError in `get_min_payment` (mortgage.py:69, mortgage.py:27). The model requires rate > 0 there instead of returning an error. `main` never gets there, because it always passes a target (mortgage.py:97-98).
