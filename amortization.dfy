/** The fixed-rate amortisation arithmetic of `mortgage.py`: the minimum
    periodic payment (`get_min_payment`) and one period's interest
    (`interest_due`). Every quantity is an exact rational number. */
module Amortization {
  import opened Wrappers

  /** The Python exception that the arithmetic can raise. */
  datatype ArithError = ZeroDivisionError

  /** Defaults of `get_min_payment`: a 30-year term paid monthly. */
  const DefaultYears: nat := 30
  const DefaultPaymentsPerYear: nat := 12

  /** `x ** n` for a natural exponent. */
  function Pow(x: real, n: nat): real {
    if n == 0 then 1.0 else x * Pow(x, n - 1)
  }

  /** The geometric sum 1 + x + ... + x^(n-1), in Horner form. */
  function Geo(x: real, n: nat): real {
    if n == 0 then 0.0 else 1.0 + x * Geo(x, n - 1)
  }

  /** `math.ceil`: the least integer not below `x`. */
  function Ceil(x: real): (c: int)
    ensures x <= c as real < x + 1.0
  {
    -((-x).Floor)
  }

  /** Rate per payment, `annual_interest_rate / num_annual_payments`. */
  function PeriodicRate(rate: real, k: nat): (r: real)
    requires k != 0
    ensures rate >= 0.0 ==> r >= 0.0
    ensures rate > 0.0 ==> r > 0.0
  {
    rate / k as real
  }

  /** The annuity formula can be evaluated: Python raises
      ZeroDivisionError when `k` is 0 or when `(1 + r) ** n - 1` is 0. */
  predicate MinPaymentDefined(rate: real, years: nat, k: nat): (d: bool)
    ensures d ==> k >= 1 && years >= 1
  {
    k != 0 && Pow(1.0 + PeriodicRate(rate, k), years * k) != 1.0
  }

  /** The exact payment P·r·(1+r)^n / ((1+r)^n − 1) before rounding. */
  function Annuity(amount: real, rate: real, years: nat, k: nat): real
    requires MinPaymentDefined(rate, years, k)
  {
    var r := PeriodicRate(rate, k);
    AnnuityOf(amount, r, Pow(1.0 + r, years * k))
  }

  /** P·r·x / (x − 1), with x standing for (1 + r)^n. */
  function AnnuityOf(amount: real, r: real, x: real): real
    requires x != 1.0
  {
    amount * r * x / (x - 1.0)
  }

  /** `get_min_payment`: the annuity payment rounded up to a whole unit. */
  function GetMinPayment(amount: real, rate: real, years: nat, k: nat): (res: Result<int, ArithError>)
    ensures res.Ok? <==> MinPaymentDefined(rate, years, k)
    ensures res.Ok? ==> Annuity(amount, rate, years, k) <= res.value as real < Annuity(amount, rate, years, k) + 1.0
  {
    if !MinPaymentDefined(rate, years, k) then Err(ZeroDivisionError)
    else Ok(Ceil(Annuity(amount, rate, years, k)))
  }

  /** `interest_due`: one period's interest on `balance`. */
  function InterestDue(balance: real, rate: real, k: nat): (i: real)
    requires k != 0
    ensures balance >= 0.0 && rate >= 0.0 ==> i >= 0.0
    ensures balance > 0.0 && rate > 0.0 ==> i > 0.0
    ensures balance <= 0.0 && rate >= 0.0 ==> i <= 0.0
  {
    balance * PeriodicRate(rate, k)
  }

  // ---------------------------------------------------------------------
  // Powers and geometric sums

  lemma QuotientTimesDivisor(p: real, q: real)
    requires q != 0.0
    ensures (p / q) * q == p
  {
  }

  lemma MulLeRight(a: real, b: real, c: real)
    requires a <= b && c >= 0.0
    ensures a * c <= b * c
  {
    assert (b - a) * c >= 0.0;
  }

  lemma MulCancelLe(y: real, z: real, d: real)
    requires d > 0.0 && y * d <= z * d
    ensures y <= z
  {
  }

  lemma SignOfProduct(c: real, g: real)
    requires g > 0.0
    ensures c * g <= 0.0 <==> c <= 0.0
  {
    if c > 0.0 {
      MulPositive(c, g);
    } else {
      MulLeRight(c, 0.0, g);
    }
  }

  lemma MulPositive(a: real, b: real)
    requires a > 0.0 && b > 0.0
    ensures a * b > 0.0
  {
  }

  lemma {:induction false} PowOfOne(n: nat)
    ensures Pow(1.0, n) == 1.0
  {
    if n > 0 { PowOfOne(n - 1); }
  }

  lemma {:induction false} PowAtLeastOne(x: real, n: nat)
    requires x >= 1.0
    ensures Pow(x, n) >= 1.0
  {
    if n > 0 {
      PowAtLeastOne(x, n - 1);
      assert x * Pow(x, n - 1) >= 1.0 * Pow(x, n - 1);
    }
  }

  lemma PowAboveOne(x: real, n: nat)
    requires x > 1.0 && n >= 1
    ensures Pow(x, n) > 1.0
  {
    PowAtLeastOne(x, n - 1);
    assert x * Pow(x, n - 1) >= x * 1.0;
  }

  /** Summing the geometric series: (x − 1)·Geo(x, n) = x^n − 1. */
  lemma {:induction false} GeoTimesRate(x: real, n: nat)
    ensures Geo(x, n) * (x - 1.0) == Pow(x, n) - 1.0
  {
    if n > 0 {
      GeoTimesRate(x, n - 1);
      HornerStep(Geo(x, n - 1), Pow(x, n - 1), x);
    }
  }

  /** One Horner step of GeoTimesRate: g·(x − 1) = p − 1 gives
      (1 + x·g)·(x − 1) = x·p − 1. */
  lemma HornerStep(g: real, p: real, x: real)
    requires g * (x - 1.0) == p - 1.0
    ensures (1.0 + x * g) * (x - 1.0) == x * p - 1.0
  {
    assert (1.0 + x * g) * (x - 1.0) == (x - 1.0) + x * (g * (x - 1.0));
  }

  /** For x ≥ 1 each of the n terms lies between 1 and x^n. */
  lemma {:induction false} GeoBounds(x: real, n: nat)
    requires x >= 1.0 && n >= 1
    ensures 1.0 <= Geo(x, n) <= n as real * Pow(x, n)
  {
    PowAtLeastOne(x, n);
    if n > 1 {
      GeoBounds(x, n - 1);
      var g := Geo(x, n - 1);
      assert x * g >= 1.0 * g;
      assert x * g <= x * ((n - 1) as real * Pow(x, n - 1));
      assert x * ((n - 1) as real * Pow(x, n - 1)) == (n - 1) as real * Pow(x, n);
    }
  }

  // ---------------------------------------------------------------------
  // Properties of the minimum payment

  /** With a non-negative rate, the formula fails exactly when there is no
      period (k or years is 0) or no interest (rate is 0). */
  lemma MinPaymentDefinedIff(rate: real, years: nat, k: nat)
    requires rate >= 0.0
    ensures MinPaymentDefined(rate, years, k) <==> k >= 1 && years >= 1 && rate > 0.0
  {
    if k >= 1 {
      var r := PeriodicRate(rate, k);
      if rate == 0.0 {
        assert r == 0.0;
        PowOfOne(years * k);
      } else if years == 0 {
        assert years * k == 0;
      } else {
        assert r > 0.0;
        PowAboveOne(1.0 + r, years * k);
      }
    }
  }

  /** The annuity times the geometric sum of the growth factor is the
      principal grown over the whole term: A·Geo(1+r, n) = P·(1+r)^n. */
  lemma AnnuityTimesGeo(amount: real, rate: real, years: nat, k: nat)
    requires rate > 0.0 && years >= 1 && k >= 1
    ensures MinPaymentDefined(rate, years, k)
    ensures Annuity(amount, rate, years, k) * Geo(1.0 + PeriodicRate(rate, k), years * k)
         == amount * Pow(1.0 + PeriodicRate(rate, k), years * k)
  {
    MinPaymentDefinedIff(rate, years, k);
    AnnuityTimesGeoOver(amount, PeriodicRate(rate, k), years * k);
  }

  /** AnnuityTimesGeo for a periodic rate r and n periods. */
  lemma AnnuityTimesGeoOver(amount: real, r: real, n: nat)
    requires r > 0.0 && n >= 1
    ensures Pow(1.0 + r, n) > 1.0
    ensures AnnuityOf(amount, r, Pow(1.0 + r, n)) * Geo(1.0 + r, n) == amount * Pow(1.0 + r, n)
  {
    PowAboveOne(1.0 + r, n);
    GeoTimesRate(1.0 + r, n);
    assert Geo(1.0 + r, n) * (1.0 + r - 1.0) == Pow(1.0 + r, n) - 1.0;
    AnnuityTimesSum(amount, r, Pow(1.0 + r, n), Geo(1.0 + r, n));
  }

  /** The algebra of AnnuityTimesGeo: a = P·r·x/(x − 1) and g·r = x − 1
      give a·g = P·x. */
  lemma AnnuityTimesSum(amount: real, r: real, x: real, g: real)
    requires r != 0.0 && x != 1.0 && g * (1.0 + r - 1.0) == x - 1.0
    ensures AnnuityOf(amount, r, x) * g == amount * x
  {
    var a := AnnuityOf(amount, r, x);
    QuotientTimesDivisor(amount * r * x, x - 1.0);
    assert a * (g * r) == amount * x * r;
    assert (a * g) * r == (amount * x) * r;
  }

  /** The exact annuity exceeds the interest on the principal, so paying it
      always reduces the balance. */
  lemma AnnuityExceedsInterest(amount: real, rate: real, years: nat, k: nat)
    requires amount > 0.0 && rate > 0.0 && years >= 1 && k >= 1
    ensures MinPaymentDefined(rate, years, k)
    ensures Annuity(amount, rate, years, k) > InterestDue(amount, rate, k)
  {
    MinPaymentDefinedIff(rate, years, k);
    var r := PeriodicRate(rate, k);
    var n := years * k;
    PowAboveOne(1.0 + r, n);
    AnnuityAboveInterest(amount, r, Pow(1.0 + r, n));
  }

  /** The algebra of AnnuityExceedsInterest: with i = P·r > 0 and x > 1,
      P·r·x/(x − 1) exceeds i by i/(x − 1). */
  lemma AnnuityAboveInterest(amount: real, r: real, x: real)
    requires amount > 0.0 && r > 0.0 && x > 1.0
    ensures AnnuityOf(amount, r, x) > amount * r
  {
    var a := AnnuityOf(amount, r, x);
    var i := amount * r;
    MulPositive(amount, r);
    QuotientTimesDivisor(i * x, x - 1.0);
    assert (a - i) * (x - 1.0) == i;
    SignOfProduct(a - i, x - 1.0);
  }

  /** The minimum payment is a whole number at least the exact annuity, and
      no smaller whole number is: it is the ceiling. */
  lemma MinPaymentIsLeastWholeCover(amount: real, rate: real, years: nat, k: nat, m: int)
    requires MinPaymentDefined(rate, years, k)
    requires m as real >= Annuity(amount, rate, years, k)
    ensures GetMinPayment(amount, rate, years, k).Ok?
    ensures GetMinPayment(amount, rate, years, k).value <= m
  {
  }

  /** Making the minimum payment in each of the years·k periods repays at
      least the principal, and a positive principal needs a positive
      payment. */
  lemma MinPaymentCoversPrincipal(amount: real, rate: real, years: nat, k: nat)
    requires amount >= 0.0 && rate > 0.0 && years >= 1 && k >= 1
    ensures GetMinPayment(amount, rate, years, k).Ok?
    ensures GetMinPayment(amount, rate, years, k).value as real * (years * k) as real >= amount
    ensures amount > 0.0 ==> GetMinPayment(amount, rate, years, k).value >= 1
  {
    MinPaymentDefinedIff(rate, years, k);
    AnnuityCoversPrincipal(amount, PeriodicRate(rate, k), years * k);
    MulLeRight(Annuity(amount, rate, years, k), GetMinPayment(amount, rate, years, k).value as real,
               (years * k) as real);
  }

  /** Over n ≥ 1 periods at a positive periodic rate r, n payments of the
      annuity cover the principal. */
  lemma AnnuityCoversPrincipal(amount: real, r: real, n: nat)
    requires amount >= 0.0 && r > 0.0 && n >= 1
    ensures Pow(1.0 + r, n) > 1.0
    ensures AnnuityOf(amount, r, Pow(1.0 + r, n)) * n as real >= amount
    ensures AnnuityOf(amount, r, Pow(1.0 + r, n)) >= 0.0
    ensures amount > 0.0 ==> AnnuityOf(amount, r, Pow(1.0 + r, n)) > 0.0
  {
    AnnuityTimesGeoOver(amount, r, n);
    GeoBounds(1.0 + r, n);
    AnnuityNonNegative(amount, r, Pow(1.0 + r, n));
    CoversFromSum(amount, r, n);
  }

  /** A non-negative principal has a non-negative annuity, positive when
      the principal is. */
  lemma AnnuityNonNegative(amount: real, r: real, x: real)
    requires amount >= 0.0 && r > 0.0 && x > 1.0
    ensures var a := AnnuityOf(amount, r, x); a >= 0.0 && (amount > 0.0 ==> a > 0.0)
  {
    var a := AnnuityOf(amount, r, x);
    QuotientTimesDivisor(amount * r * x, x - 1.0);
    if amount > 0.0 {
      MulPositive(amount, r);
      MulPositive(amount * r, x);
      SignOfProduct(a, x - 1.0);
    } else {
      assert a * (x - 1.0) == 0.0;
      SignOfProduct(a, x - 1.0);
      SignOfProduct(-a, x - 1.0);
    }
  }

  /** The last step of AnnuityCoversPrincipal: from a·g = P·x and
      g ≤ n·x with a ≥ 0 and x > 0, P ≤ a·n. */
  lemma CoversFromSum(amount: real, r: real, n: nat)
    requires Pow(1.0 + r, n) > 1.0
    requires AnnuityOf(amount, r, Pow(1.0 + r, n)) >= 0.0
    requires Geo(1.0 + r, n) <= n as real * Pow(1.0 + r, n)
    requires AnnuityOf(amount, r, Pow(1.0 + r, n)) * Geo(1.0 + r, n) == amount * Pow(1.0 + r, n)
    ensures AnnuityOf(amount, r, Pow(1.0 + r, n)) * n as real >= amount
  {
    assert AnnuityOf(amount, r, Pow(1.0 + r, n)) * Geo(1.0 + r, n)
        <= AnnuityOf(amount, r, Pow(1.0 + r, n)) * (n as real * Pow(1.0 + r, n));
    assert amount * Pow(1.0 + r, n) <= (AnnuityOf(amount, r, Pow(1.0 + r, n)) * n as real) * Pow(1.0 + r, n);
    MulCancelLe(amount, AnnuityOf(amount, r, Pow(1.0 + r, n)) * n as real, Pow(1.0 + r, n));
  }

  // ---------------------------------------------------------------------
  // Properties of the interest

  /** Interest is linear in the balance. */
  lemma InterestDueLinear(b1: real, b2: real, c: real, rate: real, k: nat)
    requires k != 0
    ensures InterestDue(c * b1 + b2, rate, k) == c * InterestDue(b1, rate, k) + InterestDue(b2, rate, k)
  {
  }
}
