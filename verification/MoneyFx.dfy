/**
 Fixed-point money with banker's rounding, and currency conversion.  An amount is a whole number
 of units of 0.0001.  Decimal arithmetic follows Python's default context: a product keeps 28
 significant digits, and quantising to more than 28 digits raises.
 */
module MoneyFx {
  import opened Powers

  /** Rounding to the nearest integer, ties to the even one. */
  function RoundHalfEven(x: real): int {
    var f := x.Floor;
    var rest := x - f as real;
    if rest < 0.5 || (rest == 0.5 && f % 2 == 0) then f else f + 1
  }

  ghost predicate Nearest(x: real, n: int) {
    -0.5 <= x - n as real <= 0.5
  }

  ghost predicate Tie(x: real, n: int) {
    x - n as real == 0.5 || x - n as real == -0.5
  }

  /** Rounding is the one nearest integer that is even on ties. */
  lemma RoundIffNearest(x: real, n: int)
    ensures n == RoundHalfEven(x) <==> Nearest(x, n) && (Tie(x, n) ==> n % 2 == 0)
  {}

  lemma RoundIsOdd(x: real)
    ensures RoundHalfEven(-x) == -RoundHalfEven(x)
  {}

  lemma RoundIsMonotone(x: real, y: real)
    requires x <= y
    ensures RoundHalfEven(x) <= RoundHalfEven(y)
  {}

  lemma RoundOfInteger(n: int)
    ensures RoundHalfEven(n as real) == n
  {}

  // ----- Decimal values -----

  const CONTEXT := 10_000_000_000_000_000_000_000_000_000

  /** A decimal number: coefficient / 10^scale. */
  datatype Decimal = Decimal(coefficient: int, scale: nat)

  function ValueOf(d: Decimal): real {
    d.coefficient as real / Pow10(d.scale) as real
  }

  /** The number of digits beyond the 28 a result may keep. */
  function Excess(c: nat): nat {
    if c < CONTEXT then 0 else 1 + Excess(c / 10)
  }

  /** A coefficient after rounding to 28 significant digits. */
  function FitContext(c: int): int {
    var k := Excess(if c < 0 then -c else c);
    RoundHalfEven(c as real / Pow10(k) as real) * Pow10(k)
  }

  lemma FitContextIsExact(c: int)
    requires -CONTEXT < c < CONTEXT
    ensures FitContext(c) == c
  {}

  /** The context keeps 28 digits and rounds to the nearest number that has no more. */
  lemma FitContextIsNearest(c: int) returns (k: nat, n: int)
    ensures FitContext(c) == n * Pow10(k)
    ensures -(Pow10(k) as int) <= 2 * (FitContext(c) - c) <= Pow10(k)
    ensures -CONTEXT * Pow10(k) < c < CONTEXT * Pow10(k)
    ensures k > 0 ==> c <= -CONTEXT * Pow10(k - 1) || c >= CONTEXT * Pow10(k - 1)
  {
    hide RoundHalfEven;
    k := Excess(if c < 0 then -c else c);
    ExcessBounds(if c < 0 then -c else c);
    n := RoundHalfEven(c as real / Pow10(k) as real);
    RoundToMultiple(c, Pow10(k), n);
    assert -CONTEXT * Pow10(k) == -(CONTEXT * Pow10(k));
    assert k > 0 ==> -CONTEXT * Pow10(k - 1) == -(CONTEXT * Pow10(k - 1));
  }

  lemma {:induction false} ExcessBounds(c: nat)
    ensures var k := Excess(c); c < CONTEXT * Pow10(k) && (k > 0 ==> c >= CONTEXT * Pow10(k - 1))
  {
    if c >= CONTEXT {
      ExcessBounds(c / 10);
      var k := Excess(c / 10);
      assert CONTEXT * Pow10(k + 1) == 10 * (CONTEXT * Pow10(k));
      if k > 0 {
        assert CONTEXT * Pow10(k) == 10 * (CONTEXT * Pow10(k - 1));
      }
    }
  }

  lemma RoundToMultiple(c: int, p: int, n: int)
    requires p > 0 && n == RoundHalfEven(c as real / p as real)
    ensures -p <= 2 * (n * p - c) <= p
  {
    var x := c as real / p as real;
    RoundIffNearest(x, n);
    assert x * p as real == c as real;
    assert (n * p) as real == n as real * p as real;
    ScaleNearest(x, n as real, p as real, c as real, (n * p) as real);
    WholeBounds(n * p - c, p);
  }

  lemma WholeBounds(d: int, p: int)
    ensures -(p as real) <= 2.0 * d as real <= p as real ==> -p <= 2 * d <= p
  {
    assert (2 * d) as real == 2.0 * d as real;
  }

  lemma ProductNotNegative(a: real, b: real)
    requires a >= 0.0 && b >= 0.0
    ensures a * b >= 0.0
  {}

  lemma ScaleNearest(x: real, n: real, p: real, y: real, r: real)
    requires p > 0.0 && -0.5 <= x - n <= 0.5 && y == x * p && r == n * p
    ensures -p <= 2.0 * (r - y) <= p
  {
    ProductNotNegative(0.5 - (n - x), p);
    ProductNotNegative((n - x) + 0.5, p);
    assert (0.5 - (n - x)) * p == 0.5 * p - (r - y);
    assert ((n - x) + 0.5) * p == (r - y) + 0.5 * p;
  }

  // ----- Money -----

  datatype Money = Money(units: int, currency: string)

  datatype Outcome<T> = Ok(value: T) | CurrencyMismatch | BadCurrency | BadRate | TooLarge

  predicate IsIsoCode(code: string) {
    |code| == 3 && forall i :: 0 <= i < 3 ==> 'A' <= code[i] <= 'Z'
  }

  predicate Fits(units: int) {
    -CONTEXT < units < CONTEXT
  }

  ghost predicate Valid(m: Money) {
    Fits(m.units) && IsIsoCode(m.currency)
  }

  /** Strip-and-upper-case leaves a proper code alone. */
  ghost predicate Cleans(clean: string -> string) {
    forall code :: IsIsoCode(code) ==> clean(code) == code
  }

  /** The constructor, on an amount of `units` units that need not be whole yet. */
  function MakeMoney(clean: string -> string, units: real, currency: string): Outcome<Money> {
    if !IsIsoCode(clean(currency)) then BadCurrency
    else if !Fits(RoundHalfEven(units)) then TooLarge
    else Ok(Money(RoundHalfEven(units), clean(currency)))
  }

  function Add(clean: string -> string, a: Money, b: Money): Outcome<Money> {
    if a.currency != b.currency then CurrencyMismatch
    else MakeMoney(clean, FitContext(a.units + b.units) as real, a.currency)
  }

  function Subtract(clean: string -> string, a: Money, b: Money): Outcome<Money> {
    if a.currency != b.currency then CurrencyMismatch
    else MakeMoney(clean, FitContext(a.units - b.units) as real, a.currency)
  }

  /** What was built once is rebuilt unchanged: the constructor's rounding is idempotent. */
  lemma RebuildIsIdentity(clean: string -> string, units: real, currency: string)
    requires Cleans(clean)
    ensures var m := MakeMoney(clean, units, currency);
            m.Ok? ==> Valid(m.value) && Nearest(units, m.value.units)
                      && MakeMoney(clean, m.value.units as real, m.value.currency) == m
  {}

  /** Sums and differences that fit are exact, and subtracting what was added gives the money back. */
  lemma AddIsExact(clean: string -> string, a: Money, b: Money)
    requires Cleans(clean) && Valid(a) && Valid(b) && a.currency == b.currency
    ensures Fits(a.units + b.units) ==>
              && Add(clean, a, b) == Ok(Money(a.units + b.units, a.currency))
              && Subtract(clean, Add(clean, a, b).value, b) == Ok(a)
  {
    if Fits(a.units + b.units) {
      FitContextIsExact(a.units + b.units);
      RoundOfInteger(a.units + b.units);
      FitContextIsExact(a.units);
      RoundOfInteger(a.units);
    }
  }

  /** Money of different currencies is neither added nor subtracted. */
  lemma MismatchIsRefused(clean: string -> string, a: Money, b: Money)
    requires Cleans(clean) && Valid(a)
    ensures Add(clean, a, b) == CurrencyMismatch <==> a.currency != b.currency
    ensures Subtract(clean, a, b) == CurrencyMismatch <==> a.currency != b.currency
  {
    hide RoundHalfEven, FitContext;
  }

  // ----- Conversion -----

  datatype Conversion = Conversion(money: Money, applied: Decimal)

  /** The exact product has at most 28 digits. */
  ghost predicate FitsContext(m: Money, rate: Decimal) {
    Fits(m.units * rate.coefficient)
  }

  /** The amount after multiplying in the context and quantising, in units. */
  function ConvertedUnits(m: Money, rate: Decimal): int {
    RoundHalfEven(ValueOf(Decimal(FitContext(m.units * rate.coefficient), rate.scale)))
  }

  function Convert(clean: string -> string, m: Money, target: string, rate: Decimal): Outcome<Conversion> {
    if rate.coefficient <= 0 then BadRate
    else if !IsIsoCode(clean(target)) then BadCurrency
    else if m.currency == clean(target) then Ok(Conversion(m, Decimal(10000, 4)))
    else if !Fits(ConvertedUnits(m, rate)) then TooLarge
    else
      match MakeMoney(clean, ConvertedUnits(m, rate) as real, clean(target))
      case Ok(money) => Ok(Conversion(money, rate))
      case BadCurrency => BadCurrency
      case _ => TooLarge
  }

  /** The exact amount in units of the target currency. */
  ghost function Exact(units: int, rate: Decimal): real {
    units as real * ValueOf(rate)
  }

  lemma ProductValue(units: int, rate: Decimal)
    ensures ValueOf(Decimal(units * rate.coefficient, rate.scale)) == Exact(units, rate)
  {
    var p := Pow10(rate.scale) as real;
    assert (units * rate.coefficient) as real == units as real * rate.coefficient as real;
    DivideProduct(units as real, rate.coefficient as real, p);
  }

  lemma DivideProduct(a: real, b: real, p: real)
    requires p > 0.0
    ensures a * b / p == a * (b / p)
  {
    assert b / p * p == b;
    assert a * (b / p) * p == a * b;
  }

  /** Dividing a coefficient of 28 digits keeps the quantised result within 28 digits. */
  lemma QuotientFits(c: int, scale: nat)
    requires Fits(c)
    ensures Fits(RoundHalfEven(ValueOf(Decimal(c, scale))))
  {
    var x := ValueOf(Decimal(c, scale));
    ShrinksTowardsZero(c as real, Pow10(scale) as real);
    RoundOfInteger(c);
    RoundOfInteger(0);
    if c >= 0 {
      RoundIsMonotone(0.0, x);
      RoundIsMonotone(x, c as real);
    } else {
      RoundIsMonotone(x, 0.0);
      RoundIsMonotone(c as real, x);
    }
  }

  lemma ShrinksTowardsZero(c: real, p: real)
    requires p >= 1.0
    ensures c >= 0.0 ==> 0.0 <= c / p <= c
    ensures c <= 0.0 ==> c <= c / p <= 0.0
  {
    var q := c / p;
    assert q * p == c;
    if q >= 0.0 {
      assert q * (p - 1.0) >= 0.0;
    } else {
      assert (-q) * (p - 1.0) >= 0.0;
    }
  }

  lemma ConvertedIsRounded(m: Money, rate: Decimal)
    requires FitsContext(m, rate)
    ensures ConvertedUnits(m, rate) == RoundHalfEven(Exact(m.units, rate))
    ensures Fits(ConvertedUnits(m, rate))
  {
    hide ValueOf, FitContext, RoundHalfEven, Exact;
    var c := m.units * rate.coefficient;
    FitContextIsExact(c);
    QuotientFits(c, rate.scale);
    ProductValue(m.units, rate);
    assert ConvertedUnits(m, rate) == RoundHalfEven(ValueOf(Decimal(c, rate.scale)));
  }

  /** A conversion lands on the unit nearest to the exact product, in the target currency. */
  lemma ConvertIsNearest(clean: string -> string, m: Money, target: string, rate: Decimal)
    requires Cleans(clean) && FitsContext(m, rate) && rate.coefficient > 0
    requires IsIsoCode(clean(target)) && m.currency != clean(target)
    ensures var c := Convert(clean, m, target, rate);
            && c.Ok? && c.value.money.currency == clean(target) && c.value.applied == rate
            && Nearest(Exact(m.units, rate), c.value.money.units)
  {
    hide Exact, ConvertedUnits, FitsContext, RoundHalfEven, Nearest;
    ConvertedIsRounded(m, rate);
    RoundIffNearest(Exact(m.units, rate), ConvertedUnits(m, rate));
    RoundOfInteger(ConvertedUnits(m, rate));
  }

  /** Converting to the currency the money is in changes nothing and applies the rate 1. */
  lemma SameCurrencyIsKept(clean: string -> string, m: Money, target: string, rate: Decimal)
    requires rate.coefficient > 0 && IsIsoCode(clean(target)) && m.currency == clean(target)
    ensures var c := Convert(clean, m, target, rate); c.Ok? && c.value.money == m && ValueOf(c.value.applied) == 1.0
  {
    assert Pow10(4) == 10 * Pow10(3) && Pow10(3) == 1000;
  }

  /** When a conversion is refused, and with which error. */
  lemma ConversionRefusedIff(clean: string -> string, m: Money, target: string, rate: Decimal)
    requires Cleans(clean)
    ensures var c := Convert(clean, m, target, rate);
            && (c == BadRate <==> rate.coefficient <= 0)
            && (c == BadCurrency <==> rate.coefficient > 0 && !IsIsoCode(clean(target)))
            && (c == TooLarge ==> !FitsContext(m, rate) && m.currency != clean(target))
            && c != CurrencyMismatch
  {
    hide ConvertedUnits, FitsContext, RoundHalfEven;
    if FitsContext(m, rate) {
      ConvertedIsRounded(m, rate);
    }
    RoundOfInteger(ConvertedUnits(m, rate));
  }

  lemma ExactIsMonotone(a: int, b: int, rate: Decimal)
    requires a <= b && rate.coefficient > 0
    ensures Exact(a, rate) <= Exact(b, rate)
  {
    hide ValueOf;
    RatePositive(rate);
    assert a as real <= b as real;
  }

  /** At one rate, more money never converts to less. */
  lemma ConvertIsMonotone(m: Money, n: Money, rate: Decimal)
    requires FitsContext(m, rate) && FitsContext(n, rate) && rate.coefficient > 0 && m.units <= n.units
    ensures ConvertedUnits(m, rate) <= ConvertedUnits(n, rate)
  {
    hide Exact, ConvertedUnits, FitsContext, RoundHalfEven;
    ConvertedIsRounded(m, rate);
    ConvertedIsRounded(n, rate);
    ExactIsMonotone(m.units, n.units, rate);
    RoundIsMonotone(Exact(m.units, rate), Exact(n.units, rate));
  }

  lemma RatePositive(d: Decimal)
    requires d.coefficient > 0
    ensures ValueOf(d) > 0.0
  {
    var p := Pow10(d.scale) as real;
    assert ValueOf(d) * p == d.coefficient as real;
  }

  ghost predicate Within(x: real, n: int, bound: real) {
    -bound <= x - n as real <= bound
  }

  /** Rounding, scaling by r and rounding again. */
  lemma TwoRoundings(x: real, mid: int, r: real, end: int)
    requires r > 0.0 && Nearest(x, mid) && Nearest(mid as real * r, end)
    ensures Within(x * r, end, (r + 1.0) / 2.0)
  {
    var e := x - mid as real;
    assert e * r == x * r - mid as real * r;
    ProductNotNegative(0.5 - e, r);
    ProductNotNegative(e + 0.5, r);
    assert (0.5 - e) * r == 0.5 * r - e * r && (e + 0.5) * r == e * r + 0.5 * r;
    assert -0.5 * r <= x * r - mid as real * r <= 0.5 * r;
  }

  /**
   There and back between two currencies: the result is within (back + 1) / 2 units of the exact
   product of the amount and both rates.
   */
  lemma RoundTripError(clean: string -> string, m: Money, target: string, there: Decimal, back: Decimal, mid: Money)
    requires Cleans(clean) && IsIsoCode(m.currency) && IsIsoCode(clean(target)) && m.currency != clean(target)
    requires there.coefficient > 0 && back.coefficient > 0
    requires FitsContext(m, there) && Convert(clean, m, target, there) == Ok(Conversion(mid, there))
    requires FitsContext(mid, back)
    ensures var end := Convert(clean, mid, m.currency, back);
            && end.Ok? && end.value.money.currency == m.currency
            && Within(Exact(m.units, there) * ValueOf(back), end.value.money.units, (ValueOf(back) + 1.0) / 2.0)
  {
    hide ValueOf, FitsContext, Convert;
    ConvertIsNearest(clean, m, target, there);
    ConvertIsNearest(clean, mid, m.currency, back);
    RatePositive(back);
    var end := Convert(clean, mid, m.currency, back).value.money;
    TwoRoundings(Exact(m.units, there), mid.units, ValueOf(back), end.units);
  }
}
