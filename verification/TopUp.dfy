/**
 Top-up amounts and the quota they credit. Amounts are in currency units or, in
 token display mode, in tokens that are cut down to whole units. The bound shown
 to users is a closed form; three payment gateways normalise the stored amount
 each in its own way.

 Decimal division rounds to sixteen digits after the point, as the decimal library does.
 */
module TopUp {
  import opened MachineInt
  import opened QuotaMath

  const DIGITS := 10000000000000000.0

  /** Decimal.Div: sixteen digits after the point, half away from zero. */
  function Div(a: real, b: real): real
    requires b > 0.0
  {
    Round(a / b * DIGITS) as real / DIGITS
  }

  function Ceil(x: real): int { -((-x).Floor) }

  /** The whole units an amount stands for. */
  function FullAmount(amount: int, unit: real, tokens: bool): int
    requires unit > 0.0
  {
    if tokens then Trunc(Div(amount as real, unit)) else amount
  }

  /** What Decimal.IntPart leaves of them in an int64. An Epay order stores exactly this. */
  function WholeAmount(amount: Int64, unit: real, tokens: bool): Int64
    requires unit > 0.0
  {
    if tokens then Wrap(FullAmount(amount, unit, tokens)) else amount
  }

  /** The quota that n units are worth. */
  function Worth(n: int, unit: real): real { n as real * unit }

  function GetTopUpQuota(amount: Int64, unit: real, tokens: bool): Strict
    requires unit > 0.0
  {
    QuotaFromDecimalStrict(Worth(WholeAmount(amount, unit, tokens), unit))
  }

  /** The maximum before it is stored in an int64. */
  function FullMaximum(unit: real, tokens: bool): int
    requires unit > 0.0
  {
    var maxStoredAmount := Div((MAX_QUOTA - 1) as real, unit).Floor;
    if tokens then Ceil(Worth(maxStoredAmount + 1, unit)) - 1 else maxStoredAmount
  }

  function GetMaxTopUpAmount(unit: real, tokens: bool): Int64 {
    if unit <= 0.0 then 0 else Wrap(FullMaximum(unit, tokens))
  }

  datatype Verdict = Valid(quota: int) | TooLarge(maximum: int) | Invalid

  function Refusal(amount: Int64, maxAmount: Int64): Verdict {
    if maxAmount > 0 && amount > maxAmount then TooLarge(maxAmount) else Invalid
  }

  function ValidateTopUpQuota(amount: Int64, unit: real, tokens: bool): Verdict
    requires unit > 0.0
  {
    var quota := GetTopUpQuota(amount, unit, tokens);
    if quota.Ok? && quota.quota > 0 then Valid(quota.quota)
    else Refusal(amount, GetMaxTopUpAmount(unit, tokens))
  }

  /** The strict conversion succeeds with a positive quota. */
  predicate Accepts(amount: Int64, unit: real, tokens: bool)
    requires unit > 0.0
  {
    var quota := GetTopUpQuota(amount, unit, tokens);
    quota.Ok? && quota.quota > 0
  }

  // ---------------------------------------------------------------- division by a whole number of quota

  /** Go's integer division. */
  function TruncDiv(a: int, q: int): int
    requires q > 0
  {
    if a >= 0 then a / q else -(-a / q)
  }

  lemma QuotientBetween(a: real, u: real, low: real, high: real)
    requires u > 0.0 && low * u <= a <= high * u
    ensures low <= a / u <= high
  {
    assert a / u * u == a;
  }

  lemma QuotientBounds(a: nat, q: int)
    requires 1 <= q <= MAX_QUOTA
    ensures var x := a as real / q as real; (a / q) as real <= x <= (a / q) as real + 1.0 - 1.0 / MAX_QUOTA as real
  {
    var n, u := (a / q) as real, q as real;
    var high := n + 1.0 - 1.0 / MAX_QUOTA as real;
    assert (a / q) * q <= a <= (a / q) * q + q - 1;
    assert n * u <= a as real <= n * u + u - 1.0;
    assert high * u == n * u + u - u / MAX_QUOTA as real;
    QuotientBetween(a as real, u, n, high);
  }

  lemma DivIsOdd(x: real, u: real)
    requires u > 0.0
    ensures Div(-x, u) == -Div(x, u)
  {
    assert (-x) / u == -(x / u);
    RoundIsNearest(x / u * DIGITS);
  }

  /** Sixteen digits are enough: dividing by a whole quota per unit and cutting off the fraction is integer
      division, for every amount. */
  lemma DivisionIsExact(a: int, q: int)
    requires 1 <= q <= MAX_QUOTA
    ensures Trunc(Div(a as real, q as real)) == TruncDiv(a, q)
    ensures a >= 0 ==> Div(a as real, q as real).Floor == a / q
  {
    if a >= 0 {
      PositiveDivision(a, q);
    } else {
      PositiveDivision(-a, q);
      DivIsOdd((-a) as real, q as real);
      assert a as real == -((-a) as real);
    }
  }

  lemma PositiveDivision(a: nat, q: int)
    requires 1 <= q <= MAX_QUOTA
    ensures Div(a as real, q as real) >= 0.0
    ensures Trunc(Div(a as real, q as real)) == Div(a as real, q as real).Floor == a / q
  {
    QuotientBounds(a, q);
    var n, y := a / q, a as real / q as real * DIGITS;
    assert n as real * DIGITS <= y;
    assert y + 0.5 < (n as real + 1.0) * DIGITS;
    var r := Round(y);
    assert n * 10000000000000000 <= r < (n + 1) * 10000000000000000;
    assert n as real <= r as real / DIGITS < n as real + 1.0;
  }

  // ---------------------------------------------------------------- one unit worth more than the limit

  /** No amount is accepted then, whatever the number of whole units. */
  lemma OversizedUnitIsRefused(n: int, unit: real)
    requires unit > MAX_QUOTA as real
    ensures QuotaFromDecimalStrict(Worth(n, unit)).Ok? ==> QuotaFromDecimalStrict(Worth(n, unit)).quota <= 0
  {
    if n >= 1 {
      Scale(1.0, n as real, unit);
    } else {
      Scale(n as real, 0.0, unit);
    }
  }

  /** And the maximum in currency mode is zero. */
  lemma OversizedUnitFitsNever(unit: real)
    requires unit > MAX_QUOTA as real
    ensures Div((MAX_QUOTA - 1) as real, unit).Floor == 0
  {
    var k, high := (MAX_QUOTA - 1) as real, 1.0 - 1.0 / MAX_QUOTA as real;
    assert high * unit == unit - unit / MAX_QUOTA as real;
    assert high * unit >= k;
    QuotientBetween(k, unit, 0.0, high);
    var y := k / unit * DIGITS;
    assert 0.0 <= y && y + 0.5 < DIGITS;
    assert 0 <= Round(y) < 10000000000000000;
  }

  lemma Scale(a: real, b: real, u: real)
    requires a <= b && u > 0.0
    ensures a * u <= b * u
  {
  }

  // ---------------------------------------------------------------- the bound is exact

  /** The credited quota for a whole quota per unit. */
  function Credited(amount: int, q: int, tokens: bool): int
    requires q > 0
  {
    if tokens then TruncDiv(amount, q) * q else amount * q
  }

  lemma ProductOfWholes(n: int, q: int)
    ensures n as real * q as real == (n * q) as real
  {
  }

  /** The strict conversion of a whole number. */
  function WholeStrict(n: int): Strict {
    if MIN_QUOTA < n < MAX_QUOTA then Ok(n) else Refused
  }

  lemma StrictOfWhole(d: real, n: int)
    requires d == n as real
    ensures QuotaFromDecimalStrict(d) == WholeStrict(n)
  {
    assert Round(d) == n;
  }

  lemma WholeUnits(n: int, q: int)
    ensures QuotaFromDecimalStrict(Worth(n, q as real)) == WholeStrict(n * q)
  {
    ProductOfWholes(n, q);
    var k := n * q;
    StrictOfWhole(Worth(n, q as real), k);
  }

  lemma TruncDivFits(amount: int, q: int)
    requires q > 0 && -MAX_INT64 - 1 <= amount <= MAX_INT64
    ensures -MAX_INT64 - 1 <= TruncDiv(amount, q) <= MAX_INT64
  {
    if amount >= 0 { QuotientIsSmaller(amount, q); } else { QuotientIsSmaller(-amount, q); }
  }

  lemma QuotientIsSmaller(n: nat, q: int)
    requires q > 0
    ensures 0 <= n / q <= n
  {
    var d := n / q;
    assert d * q <= n;
    assert d * q >= d * 1;
  }

  lemma WholeAmountIs(amount: Int64, q: int, tokens: bool)
    requires 1 <= q <= MAX_QUOTA
    ensures WholeAmount(amount, q as real, tokens) == if tokens then TruncDiv(amount, q) else amount
  {
    DivisionIsExact(amount, q);
    TruncDivFits(amount, q);
    WrapIsExact(TruncDiv(amount, q));
  }

  lemma CreditedIsWhole(amount: Int64, q: int, tokens: bool)
    requires 1 <= q <= MAX_QUOTA
    ensures GetTopUpQuota(amount, q as real, tokens) == WholeStrict(Credited(amount, q, tokens))
  {
    WholeAmountIs(amount, q, tokens);
    WholeUnits(WholeAmount(amount, q as real, tokens), q);
  }

  lemma UnitsWithin(n: int, q: int, limit: nat)
    requires q > 0
    ensures n * q <= limit <==> n <= limit / q
  {
    var d := limit / q;
    assert d * q <= limit < d * q + q;
    if n <= d {
      assert n * q <= d * q;
    } else {
      assert n * q >= (d + 1) * q;
    }
  }

  /** The maximum in whole numbers. */
  function Maximum(q: int, tokens: bool): int
    requires q > 0
  {
    var units := (MAX_QUOTA - 1) / q;
    if tokens then (units + 1) * q - 1 else units
  }

  /** The units that fit below the limit. */
  lemma FittingUnits(q: int)
    requires 1 <= q
    ensures Div((MAX_QUOTA - 1) as real, q as real).Floor == (MAX_QUOTA - 1) / q
  {
    if q <= MAX_QUOTA {
      DivisionIsExact(MAX_QUOTA - 1, q);
    } else {
      OversizedUnitFitsNever(q as real);
    }
  }

  lemma CeilOfWhole(d: real, n: int)
    requires d == n as real
    ensures Ceil(d) == n
  {
  }

  lemma FullMaximumIs(q: int, tokens: bool)
    requires 1 <= q
    ensures FullMaximum(q as real, tokens) == Maximum(q, tokens)
  {
    FittingUnits(q);
    var n := (MAX_QUOTA - 1) / q + 1;
    ProductOfWholes(n, q);
    CeilOfWhole(Worth(n, q as real), n * q);
  }

  lemma UnitsOfLimit(q: int, units: int)
    requires 1 <= q && units == (MAX_QUOTA - 1) / q
    ensures 0 <= units < MAX_QUOTA && (q > MAX_QUOTA ==> units == 0)
    ensures (units + 1) * q <= MAX_QUOTA - 1 + q
  {
    QuotientIsSmaller(MAX_QUOTA - 1, q);
    assert units * q <= MAX_QUOTA - 1;
    assert (units + 1) * q == units * q + q;
  }

  lemma MaximumFits(q: int, tokens: bool)
    requires 1 <= q
    ensures !tokens || q <= MAX_INT64 ==> 0 <= Maximum(q, tokens) <= MAX_INT64
  {
    var units := (MAX_QUOTA - 1) / q;
    UnitsOfLimit(q, units);
    UnitsWithin(units, q, MAX_QUOTA - 1);
    if q > MAX_QUOTA {
      assert (units + 1) * q == q;
    } else {
      assert (units + 1) * q >= 1;
    }
  }

  /** The maximum in closed form, wrapped around only for a unit of more than the largest int64. */
  lemma MaximumIs(q: int, tokens: bool)
    requires 1 <= q
    ensures GetMaxTopUpAmount(q as real, tokens) == Wrap(Maximum(q, tokens))
    ensures !tokens || q <= MAX_INT64 ==> GetMaxTopUpAmount(q as real, tokens) == Maximum(q, tokens)
  {
    FullMaximumIs(q, tokens);
    MaximumFits(q, tokens);
    if !tokens || q <= MAX_INT64 { WrapIsExact(Maximum(q, tokens)); }
  }

  lemma TokensWithin(amount: nat, q: int)
    requires 1 <= q
    ensures amount / q * q < MAX_QUOTA <==> amount <= Maximum(q, true)
  {
    var units := (MAX_QUOTA - 1) / q;
    UnitsWithin(amount / q, q, MAX_QUOTA - 1);
    UnitsWithin(units + 1, q, amount);
  }

  lemma PositiveCredit(amount: int, q: int, tokens: bool)
    requires q > 0 && Credited(amount, q, tokens) > 0
    ensures amount > 0 && (tokens ==> amount / q >= 1) && Credited(amount, q, tokens) >= q
  {
    var n := if tokens then TruncDiv(amount, q) else amount;
    assert n <= 0 ==> n * q <= 0;
    assert n >= 1 ==> n * q >= q;
  }

  lemma CreditWithin(amount: int, q: int, tokens: bool)
    requires 1 <= q && Credited(amount, q, tokens) > 0
    ensures Credited(amount, q, tokens) < MAX_QUOTA <==> amount <= Maximum(q, tokens)
  {
    PositiveCredit(amount, q, tokens);
    if tokens {
      TokensWithin(amount, q);
    } else {
      UnitsWithin(amount, q, MAX_QUOTA - 1);
    }
  }

  lemma UnitIsSmall(amount: Int64, q: int)
    requires q > 0 && amount > 0 && amount / q >= 1
    ensures q <= MAX_INT64
  {
    UnitsWithin(1, q, amount);
  }

  lemma ValidIs(amount: Int64, q: int, tokens: bool)
    requires 1 <= q
    ensures ValidateTopUpQuota(amount, q as real, tokens)
         == if 0 < Credited(amount, q, tokens) < MAX_QUOTA then Valid(Credited(amount, q, tokens))
             else Refusal(amount, GetMaxTopUpAmount(q as real, tokens))
  {
    if q <= MAX_QUOTA {
      CreditedIsWhole(amount, q, tokens);
    } else {
      OversizedUnitIsRefused(WholeAmount(amount, q as real, tokens), q as real);
      if Credited(amount, q, tokens) > 0 { PositiveCredit(amount, q, tokens); }
    }
  }

  /** The bound shown to users is exact: for a whole quota per unit, in both display modes and for every
      amount, validation succeeds iff the credited quota is positive and the amount is at most the maximum,
      and then it yields the credited quota. */
  lemma TopUpBoundIsExact(amount: Int64, q: int, tokens: bool)
    requires 1 <= q
    ensures ValidateTopUpQuota(amount, q as real, tokens).Valid?
            <==> Credited(amount, q, tokens) > 0 && amount <= GetMaxTopUpAmount(q as real, tokens)
    ensures ValidateTopUpQuota(amount, q as real, tokens).Valid? ==>
              ValidateTopUpQuota(amount, q as real, tokens).quota == Credited(amount, q, tokens)
  {
    ValidIs(amount, q, tokens);
    if Credited(amount, q, tokens) > 0 {
      PositiveCredit(amount, q, tokens);
      if tokens { UnitIsSmall(amount, q); }
      CreditWithin(amount, q, tokens);
      MaximumIs(q, tokens);
    }
  }

  /** A refusal names the maximum exactly when there is one and the amount exceeds it. */
  lemma RefusalNamesTheMaximum(amount: Int64, q: int, tokens: bool)
    requires 1 <= q
    ensures var maximum := GetMaxTopUpAmount(q as real, tokens);
            ValidateTopUpQuota(amount, q as real, tokens) ==
              if amount > maximum && maximum > 0 then TooLarge(maximum)
              else if amount <= maximum && Credited(amount, q, tokens) > 0 then Valid(Credited(amount, q, tokens))
              else Invalid
  {
    TopUpBoundIsExact(amount, q, tokens);
  }

  // ---------------------------------------------------------------- the gateways agree

  function AtLeastOne(n: int): int { if n < 1 then 1 else n }

  /** The stored amount of a Waffo order. `quotient` is the float64 division of the amount by the quota per unit. */
  function WaffoStoredAmount(amount: Int64, quotient: real, tokens: bool): int {
    if tokens then AtLeastOne(Trunc(quotient)) else amount
  }

  /** normalizeWaffoPancakeTopUpAmount. */
  function PancakeStoredAmount(amount: Int64, unit: real, tokens: bool): int
    requires unit > 0.0
  {
    if !tokens then amount else AtLeastOne(WholeAmount(amount, unit, tokens))
  }

  const TWO_53 := 9007199254740992

  /** A float64 quotient: exact when it is a whole number, and within one part in 2^53 of it otherwise. */
  predicate FloatQuotient(f: real, a: int, q: int)
    requires q > 0
  {
    && (a % q == 0 ==> f == (a / q) as real)
    && a as real / q as real * (1.0 - 1.0 / TWO_53 as real) <= f <= a as real / q as real * (1.0 + 1.0 / TWO_53 as real)
  }

  lemma RemainderBounds(a: nat, q: int)
    requires q > 0 && a % q != 0
    ensures (a / q) as real * q as real + 1.0 <= a as real <= (a / q) as real * q as real + q as real - 1.0
  {
    var n := a / q;
    assert n * q + 1 <= a <= n * q + q - 1;
    ProductOfWholes(n, q);
  }

  /** The rounding of float64 division never reaches the next whole number. */
  lemma FloatDivisionIsExact(f: real, a: nat, q: int)
    requires q > 0 && a < TWO_53 && FloatQuotient(f, a, q)
    ensures Trunc(f) == a / q
  {
    if a % q != 0 {
      RemainderBounds(a, q);
      QuotientOff(a as real, q as real, (a / q) as real, f);
    }
  }

  lemma QuotientBelow(a: real, u: real, high: real)
    requires u > 0.0 && a < high * u
    ensures a / u < high
  {
    assert a / u * u == a;
  }

  lemma QuotientOff(a: real, u: real, n: real, f: real)
    requires u > 0.0 && 0.0 <= a < TWO_53 as real && n * u + 1.0 <= a <= n * u + u - 1.0
    requires a / u * (1.0 - 1.0 / TWO_53 as real) <= f <= a / u * (1.0 + 1.0 / TWO_53 as real)
    ensures n <= f < n + 1.0
  {
    var x, e := a / u, a / TWO_53 as real;
    assert e < 1.0;
    assert a / u * (1.0 - 1.0 / TWO_53 as real) == (a - e) / u;
    assert a / u * (1.0 + 1.0 / TWO_53 as real) == (a + e) / u;
    assert (n + 1.0) * u == n * u + u;
    QuotientBetween(a - e, u, n, n + 1.0);
    QuotientBelow(a + e, u, n + 1.0);
  }

  lemma MaximumIsSmall(q: int)
    requires 1 <= q <= MAX_QUOTA
    ensures Maximum(q, false) < TWO_53 && Maximum(q, true) < TWO_53
  {
    var units := (MAX_QUOTA - 1) / q;
    assert units * q <= MAX_QUOTA - 1;
    assert (units + 1) * q == units * q + q;
  }

  /** Validated amounts are positive and small enough for exact floats. */
  lemma ValidAmountsAreSmall(amount: Int64, q: int, tokens: bool)
    requires 1 <= q && ValidateTopUpQuota(amount, q as real, tokens).Valid?
    ensures q <= MAX_QUOTA && 0 < amount < TWO_53 && (tokens ==> amount / q >= 1)
  {
    ValidIs(amount, q, tokens);
    TopUpBoundIsExact(amount, q, tokens);
    MaximumIs(q, tokens);
    PositiveCredit(amount, q, tokens);
    MaximumIsSmall(q);
  }

  /** The whole units of an amount. */
  function Units(amount: nat, q: int, tokens: bool): nat
    requires q > 0
  {
    if tokens then amount / q else amount
  }

  /** Every gateway stores `stored`, and the clamps to at least one change nothing. */
  predicate StoredAlike(amount: Int64, q: int, tokens: bool, quotient: real, stored: int)
    requires q > 0
  {
    && WholeAmount(amount, q as real, tokens) == stored
    && PancakeStoredAmount(amount, q as real, tokens) == stored
    && WaffoStoredAmount(amount, quotient, tokens) == stored
    && (tokens ==> Trunc(quotient) == stored >= 1)
  }

  /** Settling an order for `stored` units credits `quota`. */
  predicate Settles(stored: int, q: int, quota: int) {
    stored * q == quota && QuotaFromDecimalStrict(Worth(stored, q as real)) == Ok(quota)
  }

  lemma UnitsAreStored(amount: Int64, q: int, tokens: bool, quotient: real)
    requires 1 <= q <= MAX_QUOTA && 0 <= amount < TWO_53 && (tokens ==> amount / q >= 1) &&
               FloatQuotient(quotient, amount, q)
    ensures StoredAlike(amount, q, tokens, quotient, Units(amount, q, tokens))
  {
    if tokens {
      WholeAmountIs(amount, q, tokens);
      FloatDivisionIsExact(quotient, amount, q);
    }
  }

  lemma UnitsSettle(units: int, q: int, quota: int)
    requires units * q == quota && MIN_QUOTA < quota < MAX_QUOTA
    ensures Settles(units, q, quota)
  {
    WholeUnits(units, q);
  }

  lemma ValidatedUnits(amount: Int64, q: int, tokens: bool, quota: int)
    requires 1 <= q <= MAX_QUOTA && amount >= 0 && ValidateTopUpQuota(amount, q as real, tokens) == Valid(quota)
    ensures Units(amount, q, tokens) * q == quota && MIN_QUOTA < quota < MAX_QUOTA
  {
    TopUpBoundIsExact(amount, q, tokens);
    CreditedIsWhole(amount, q, tokens);
  }

  /** For every amount that passes validation the three gateways store the same amount, the clamps to at
      least one change nothing, and settling the order credits exactly the validated quota. */
  lemma GatewaysAgree(amount: Int64, q: int, tokens: bool, quotient: real, quota: int)
    requires 1 <= q
    ensures ValidateTopUpQuota(amount, q as real, tokens) == Valid(quota) && FloatQuotient(quotient, amount, q) ==>
              amount > 0 && StoredAlike(amount, q, tokens, quotient, Units(amount, q, tokens)) &&
                  Settles(Units(amount, q, tokens), q, quota)
  {
    if ValidateTopUpQuota(amount, q as real, tokens) == Valid(quota) && FloatQuotient(quotient, amount, q) {
      ValidAmountsAreSmall(amount, q, tokens);
      ValidatedUnits(amount, q, tokens, quota);
      UnitsAreStored(amount, q, tokens, quotient);
      UnitsSettle(Units(amount, q, tokens), q, quota);
    }
  }

  // ---------------------------------------------------------------- a fractional quota per unit

  lemma DivIsClose(a: real, unit: real)
    requires unit > 0.0
    ensures a / unit - 0.5 / DIGITS <= Div(a, unit) <= a / unit + 0.5 / DIGITS
  {
    RoundIsNearest(a / unit * DIGITS);
  }

  lemma ScaledAbove(x: real, e: real, unit: real, k: real, next: real)
    requires unit > 0.0 && x * unit == k && e * unit <= 0.1 && x - e <= next
    ensures next * unit >= k - 0.1
  {
    var gap := next - (x - e);
    assert gap * unit >= 0.0;
    assert next * unit == gap * unit + x * unit - e * unit;
  }

  lemma ScaledBelow(x: real, e: real, unit: real, k: real, m: real)
    requires unit > 0.0 && x * unit == k && e * unit <= 0.1 && m <= x + e
    ensures m * unit <= k + 0.1
  {
    var gap := x + e - m;
    assert gap * unit >= 0.0;
    assert m * unit == x * unit + e * unit - gap * unit;
  }

  /** Within one half of MaxQuota from below, and its successor is worth something. */
  predicate NearlyFills(unit: real, m: int) {
    Worth(m, unit) < MAX_QUOTA as real - 0.5 && Worth(m + 1, unit) > 1.0
  }

  lemma FloorScaled(x: real, e: real, unit: real, k: real, d: real)
    requires unit > 0.0 && x * unit == k && e * unit <= 0.1 && x - e <= d <= x + e
    ensures Worth(d.Floor, unit) <= k + 0.1
    ensures Worth(d.Floor + 1, unit) >= k - 0.1
  {
    ScaledBelow(x, e, unit, k, d.Floor as real);
    ScaledAbove(x, e, unit, k, (d.Floor + 1) as real);
  }

  lemma FloorNearlyFills(unit: real, d: real)
    requires 0.0 < unit <= MAX_QUOTA as real
    requires var x := (MAX_QUOTA - 1) as real / unit; x - 0.5 / DIGITS <= d <= x + 0.5 / DIGITS
    ensures NearlyFills(unit, d.Floor)
  {
    var k := (MAX_QUOTA - 1) as real;
    FloorScaled(k / unit, 0.5 / DIGITS, unit, k, d);
  }

  lemma MaximumNearlyFills(unit: real)
    requires unit > 0.0
    ensures NearlyFills(unit, FullMaximum(unit, false))
  {
    if unit <= MAX_QUOTA as real {
      DivIsClose((MAX_QUOTA - 1) as real, unit);
      FloorNearlyFills(unit, Div((MAX_QUOTA - 1) as real, unit));
    } else {
      OversizedUnitFitsNever(unit);
    }
  }

  const LIMIT := MAX_QUOTA as real - 0.5

  /** The value of all the units of an amount. */
  function FullCredit(amount: int, unit: real, tokens: bool): real
    requires unit > 0.0
  {
    Worth(FullAmount(amount, unit, tokens), unit)
  }

  /** The value that is converted to the credited quota. */
  function Credit(amount: Int64, unit: real, tokens: bool): real
    requires unit > 0.0
  {
    Worth(WholeAmount(amount, unit, tokens), unit)
  }

  lemma AcceptedCredit(amount: Int64, unit: real, tokens: bool)
    requires unit > 0.0
    ensures Accepts(amount, unit, tokens) <==> 0.5 <= Credit(amount, unit, tokens) < LIMIT
    ensures Round(Credit(amount, unit, tokens)) > 0 <==> 0.5 <= Credit(amount, unit, tokens)
  {
    StrictConversionIsExact(Credit(amount, unit, tokens));
  }

  lemma DivIsMonotone(a: real, b: real, unit: real)
    requires a <= b && unit > 0.0
    ensures Div(a, unit) <= Div(b, unit)
  {
    var x, y := a / unit, b / unit;
    assert x * unit == a && y * unit == b;
    assert x <= y;
    RoundIsMonotone(x * DIGITS, y * DIGITS);
  }

  lemma WorthIsMonotone(m: int, n: int, unit: real)
    requires m <= n && unit > 0.0
    ensures Worth(m, unit) <= Worth(n, unit)
  {
    Scale(m as real, n as real, unit);
  }

  lemma FullAmountIsMonotone(a: int, b: int, unit: real, tokens: bool)
    requires a <= b && unit > 0.0
    ensures FullAmount(a, unit, tokens) <= FullAmount(b, unit, tokens)
    ensures FullCredit(a, unit, tokens) <= FullCredit(b, unit, tokens)
  {
    if tokens {
      DivIsMonotone(a as real, b as real, unit);
      RoundIsMonotone(Div(a as real, unit), Div(b as real, unit));
    }
    WorthIsMonotone(FullAmount(a, unit, tokens), FullAmount(b, unit, tokens), unit);
  }

  /** The whole units of the amount fit an int64. */
  predicate Fits(amount: int, unit: real, tokens: bool)
    requires unit > 0.0
  {
    -MAX_INT64 - 1 <= FullAmount(amount, unit, tokens) <= MAX_INT64
  }

  lemma FittingCredit(amount: Int64, unit: real, tokens: bool)
    requires unit > 0.0 && Fits(amount, unit, tokens)
    ensures Credit(amount, unit, tokens) == FullCredit(amount, unit, tokens)
  {
    WrapIsExact(FullAmount(amount, unit, tokens));
  }

  /** While the whole units fit an int64 a larger amount is never worth less, rounding included. */
  lemma CreditIsMonotone(a: Int64, b: Int64, unit: real, tokens: bool)
    requires a <= b && unit > 0.0 && Fits(a, unit, tokens) && Fits(b, unit, tokens)
    ensures Credit(a, unit, tokens) <= Credit(b, unit, tokens)
  {
    FullAmountIsMonotone(a, b, unit, tokens);
    FittingCredit(a, unit, tokens);
    FittingCredit(b, unit, tokens);
  }

  /** Whole units divide back exactly. */
  lemma DivOfWorth(n: nat, unit: real)
    requires unit > 0.0
    ensures Div(Worth(n, unit), unit) == n as real
  {
    assert Worth(n, unit) / unit == n as real;
    assert (n * 10000000000000000) as real == n as real * DIGITS;
    assert Round(n as real * DIGITS) == n * 10000000000000000;
  }

  lemma NothingIsNothing(unit: real, tokens: bool)
    requires unit > 0.0
    ensures FullAmount(0, unit, tokens) == 0
  {
    assert 0.0 / unit == 0.0;
    assert Div(0.0, unit) == 0.0;
  }

  lemma FittingUnitsAreNatural(unit: real)
    requires unit > 0.0
    ensures FullMaximum(unit, false) >= 0
  {
    DivIsMonotone(0.0, (MAX_QUOTA - 1) as real, unit);
    assert 0.0 / unit == 0.0;
    assert Div(0.0, unit) == 0.0;
  }

  /** In token mode the amount after the maximum stands for more units than fit. */
  lemma NextTokensExceed(unit: real, n: nat, amount: int)
    requires unit > 0.0 && amount == Ceil(Worth(n, unit))
    ensures FullCredit(amount, unit, true) >= Worth(n, unit)
  {
    DivOfWorth(n, unit);
    assert Worth(n, unit) <= amount as real;
    DivIsMonotone(Worth(n, unit), amount as real, unit);
    RoundIsMonotone(n as real, Div(amount as real, unit));
    WorthIsMonotone(n, FullAmount(amount, unit, true), unit);
  }

  lemma NextInTokens(unit: real)
    requires unit > 0.0
    ensures FullMaximum(unit, true) + 1 == Ceil(Worth(FullMaximum(unit, false) + 1, unit))
  {
  }

  /** So the amount after the maximum always credits something. */
  lemma NextIsWorthSomething(unit: real, tokens: bool)
    requires unit > 0.0
    ensures FullCredit(FullMaximum(unit, tokens) + 1, unit, tokens) > 1.0
  {
    var n := FullMaximum(unit, false) + 1;
    MaximumNearlyFills(unit);
    if tokens {
      FittingUnitsAreNatural(unit);
      NextInTokens(unit);
      NextTokensExceed(unit, n, FullMaximum(unit, true) + 1);
    }
  }

  // ---------------------------------------------------------------- units for which the maximum fits an int64

  const SMALLEST_UNIT := 0.000000001

  /** A billionth to the largest int64: the maximum and the amount after it fit an int64, and so do their units. */
  predicate Sensible(unit: real) { SMALLEST_UNIT <= unit <= MAX_INT64 as real }

  lemma InverseIsBounded(a: real, unit: real)
    requires Sensible(unit) && a >= 0.0
    ensures 0.0 <= a / unit <= a * 1000000000.0
  {
    Scale(SMALLEST_UNIT, unit, a * 1000000000.0 + 1.0);
    QuotientBetween(a, unit, 0.0, a * 1000000000.0);
  }

  lemma CurrencyMaximumIsSmall(unit: real)
    requires Sensible(unit)
    ensures 0 <= FullMaximum(unit, false) <= 2147483647000000000
  {
    FittingUnitsAreNatural(unit);
    InverseIsBounded((MAX_QUOTA - 1) as real, unit);
    DivIsClose((MAX_QUOTA - 1) as real, unit);
  }

  /** One unit more than fits is worth less than the limit and a unit. */
  lemma NextWorth(unit: real, n: int)
    requires unit > 0.0 && n == FullMaximum(unit, false) + 1
    ensures 1.0 < Worth(n, unit) < LIMIT + unit && (unit > MAX_QUOTA as real ==> Worth(n, unit) == unit)
  {
    MaximumNearlyFills(unit);
    assert Worth(n, unit) == Worth(n - 1, unit) + unit;
    if unit > MAX_QUOTA as real { OversizedUnitFitsNever(unit); }
  }

  lemma CeilIsSmall(d: real)
    requires 1.0 < d <= MAX_INT64 as real
    ensures 0 <= Ceil(d) - 1 < MAX_INT64
  {
  }

  lemma TokenMaximumIsSmall(unit: real)
    requires Sensible(unit)
    ensures 0 <= FullMaximum(unit, true) < MAX_INT64
  {
    var n := FullMaximum(unit, false) + 1;
    NextInTokens(unit);
    NextWorth(unit, n);
    CeilIsSmall(Worth(n, unit));
  }

  /** The units of the amount after the maximum. */
  lemma NextFits(unit: real, tokens: bool)
    requires Sensible(unit)
    ensures 0 <= FullMaximum(unit, tokens) < MAX_INT64
    ensures 0 <= FullAmount(FullMaximum(unit, tokens) + 1, unit, tokens) <= MAX_INT64
  {
    CurrencyMaximumIsSmall(unit);
    if tokens {
      TokenMaximumIsSmall(unit);
      var n, next := FullMaximum(unit, false) + 1, FullMaximum(unit, true) + 1;
      NextInTokens(unit);
      NothingIsNothing(unit, tokens);
      FullAmountIsMonotone(0, next, unit, tokens);
      UnitsOfNext(unit, n, next);
    }
  }

  lemma UnitsOfNext(unit: real, n: nat, next: nat)
    requires Sensible(unit) && n <= 2147483647000000001 && next == Ceil(Worth(n, unit))
    ensures FullAmount(next, unit, true) <= MAX_INT64
  {
    assert next as real <= Worth(n, unit) + 1.0;
    DivOfWorth(n, unit);
    InverseIsBounded(1.0, unit);
    assert Worth(n, unit) / unit == n as real;
    assert (Worth(n, unit) + 1.0) / unit == n as real + 1.0 / unit;
    DivIsMonotone(next as real, Worth(n, unit) + 1.0, unit);
    DivIsClose(Worth(n, unit) + 1.0, unit);
  }

  /** Whether the maximum tells which positive amounts with a positive credit are accepted. */
  ghost predicate BoundIsExact(unit: real, tokens: bool)
    requires unit > 0.0
  {
    forall amount: Int64 :: amount > 0 ==>
      (Accepts(amount, unit, tokens) <==>
         Round(Credit(amount, unit, tokens)) > 0 && amount <= GetMaxTopUpAmount(unit, tokens))
  }

  /** The maximum credits less than the smallest value that rounds to MaxQuota, and one amount more does not. */
  predicate EdgesAgree(unit: real, m: int, tokens: bool)
    requires unit > 0.0
  {
    FullCredit(m, unit, tokens) < LIMIT <= FullCredit(m + 1, unit, tokens)
  }

  /** Not even the units of the largest amount reach a creditable number beyond 2^64. */
  predicate NoSecondRound(unit: real, tokens: bool)
    requires unit > 0.0
  {
    Worth(FullAmount(MAX_INT64, unit, tokens) - TWO_64, unit) < 0.5
  }

  lemma ExactAt(unit: real, tokens: bool, m: int, amount: Int64)
    requires unit > 0.0 && EdgesAgree(unit, m, tokens) && Fits(amount, unit, tokens)
    ensures Accepts(amount, unit, tokens) <==> Round(Credit(amount, unit, tokens)) > 0 && amount <= m
  {
    AcceptedCredit(amount, unit, tokens);
    FittingCredit(amount, unit, tokens);
    if amount <= m {
      FullAmountIsMonotone(amount, m, unit, tokens);
    } else {
      FullAmountIsMonotone(m + 1, amount, unit, tokens);
    }
  }

  lemma NegativeWorth(w: int, unit: real)
    requires w <= 0 && unit > 0.0
    ensures Worth(w, unit) <= 0.0
  {
    WorthIsMonotone(w, 0, unit);
  }

  lemma ManyUnits(unit: real, w: int)
    requires Sensible(unit) && w >= 4000000001
    ensures Worth(w, unit) >= 4.0
  {
    Scale(4000000001.0, w as real, unit);
    assert 4000000001.0 * unit >= 4000000001.0 * SMALLEST_UNIT;
  }

  /** A small credit beyond 2^64 is of few units. */
  lemma FewUnits(unit: real, w: int, high: real)
    requires Sensible(unit) && Worth(w, unit) < high && 0.0 < high <= 4.0
    ensures w < 4000000001
  {
    if w >= 4000000001 { ManyUnits(unit, w); }
  }

  /** Amounts whose units do not fit are worth nothing when there is no second round. */
  lemma OverflowIsWorthless(unit: real, tokens: bool, amount: Int64)
    requires Sensible(unit) && amount > 0 && !Fits(amount, unit, tokens) && NoSecondRound(unit, tokens)
    ensures Credit(amount, unit, tokens) < 0.5
  {
    var n, most := FullAmount(amount, unit, tokens), FullAmount(MAX_INT64, unit, tokens);
    NothingIsNothing(unit, tokens);
    FullAmountIsMonotone(0, amount, unit, tokens);
    FullAmountIsMonotone(amount, MAX_INT64, unit, tokens);
    FewUnits(unit, most - TWO_64, 0.5);
    WrapsOnce(n);
    WorthIsMonotone(n - TWO_64, most - TWO_64, unit);
  }

  predicate Reaches(unit: real, amount: int)
    requires unit > 0.0
  {
    Worth(FullAmount(amount, unit, true) - TWO_64, unit) >= 0.5
  }

  /** The first amount that reaches a creditable number of units beyond 2^64. */
  lemma {:induction false} FirstToReach(unit: real, high: nat) returns (amount: nat)
    requires unit > 0.0 && Reaches(unit, high)
    ensures 0 < amount <= high && Reaches(unit, amount) && !Reaches(unit, amount - 1)
    decreases high
  {
    NothingIsNothing(unit, true);
    NegativeWorth(-TWO_64, unit);
    assert high > 0;
    if Reaches(unit, high - 1) {
      amount := FirstToReach(unit, high - 1);
    } else {
      amount := high;
    }
  }

  lemma UnitsAreClose(unit: real, amount: nat)
    requires unit > 0.0
    ensures amount as real / unit - 1.5 <= FullAmount(amount, unit, true) as real <= amount as real / unit + 0.5
  {
    DivIsClose(amount as real, unit);
    NothingIsNothing(unit, true);
    FullAmountIsMonotone(0, amount, unit, true);
  }

  lemma ScaledBetween(n: real, x: real, unit: real, a: real)
    requires unit > 0.0 && x * unit == a && x - 1.5 <= n <= x + 0.5
    ensures a - 1.5 * unit <= n * unit <= a + 0.5 * unit
  {
    var above, below := x + 0.5 - n, n - (x - 1.5);
    assert above * unit >= 0.0 && below * unit >= 0.0;
    assert n * unit == x * unit + 0.5 * unit - above * unit;
    assert n * unit == below * unit + x * unit - 1.5 * unit;
  }

  /** The units of an amount are worth nearly the amount. */
  lemma CreditIsClose(unit: real, amount: nat)
    requires unit > 0.0
    ensures amount as real - 1.5 * unit <= FullCredit(amount, unit, true) <= amount as real + 0.5 * unit
  {
    UnitsAreClose(unit, amount);
    QuotientTimes(amount as real, unit);
    WorthBetween(FullAmount(amount, unit, true), amount as real / unit, unit, amount as real);
  }

  lemma WorthBetween(n: int, x: real, unit: real, a: real)
    requires unit > 0.0 && x * unit == a && x - 1.5 <= n as real <= x + 0.5
    ensures a - 1.5 * unit <= Worth(n, unit) <= a + 0.5 * unit
  {
    ScaledBetween(n as real, x, unit, a);
  }

  lemma QuotientTimes(a: real, unit: real)
    requires unit > 0.0
    ensures a / unit * unit == a
  {
  }

  lemma ShiftedWorth(n: int, unit: real)
    ensures Worth(n - TWO_64, unit) == Worth(n, unit) - Worth(TWO_64, unit)
  {
    assert (n - TWO_64) as real == n as real - TWO_64 as real;
  }

  /** The first amount that reaches it does not reach far. */
  lemma ReachesNotFar(unit: real, amount: nat)
    requires 0.0 < unit < 1.0 && amount > 0 && !Reaches(unit, amount - 1)
    ensures Worth(FullAmount(amount, unit, true) - TWO_64, unit) < 4.0
  {
    CreditIsClose(unit, amount);
    CreditIsClose(unit, amount - 1);
    ShiftedWorth(FullAmount(amount, unit, true), unit);
    ShiftedWorth(FullAmount(amount - 1, unit, true), unit);
  }

  lemma ReachedIsAccepted(unit: real, amount: Int64)
    requires Sensible(unit) && Reaches(unit, amount) && Worth(FullAmount(amount, unit, true) - TWO_64, unit) < 4.0
    ensures FullAmount(amount, unit, true) > MAX_INT64 && Accepts(amount, unit, true)
  {
    var n := FullAmount(amount, unit, true);
    FewUnits(unit, n - TWO_64, 4.0);
    if n - TWO_64 <= 0 { NegativeWorth(n - TWO_64, unit); }
    WrapsOnce(n);
    AcceptedCredit(amount, unit, true);
  }

  lemma UnitsOfLargeUnit(unit: real, amount: nat)
    requires unit >= 1.0
    ensures FullAmount(amount, unit, true) <= amount
  {
    var x := amount as real / unit;
    assert x * unit == amount as real;
    assert x <= amount as real;
    assert (amount * 10000000000000000) as real == amount as real * DIGITS;
    RoundIsMonotone(x * DIGITS, amount as real * DIGITS);
    assert Round(amount as real * DIGITS) == amount * 10000000000000000;
  }

  /** A second round makes some amount acceptable that overflows. */
  lemma SecondRoundIsAccepted(unit: real) returns (amount: Int64)
    requires Sensible(unit) && !NoSecondRound(unit, true)
    ensures amount > 0 && FullAmount(amount, unit, true) > MAX_INT64 && Accepts(amount, unit, true)
  {
    if unit >= 1.0 {
      UnitsOfLargeUnit(unit, MAX_INT64);
      NegativeWorth(FullAmount(MAX_INT64, unit, true) - TWO_64, unit);
      assert false;
    }
    amount := FirstToReach(unit, MAX_INT64);
    ReachesNotFar(unit, amount);
    ReachedIsAccepted(unit, amount);
  }

  lemma BoundHolds(unit: real, tokens: bool)
    requires Sensible(unit) && EdgesAgree(unit, FullMaximum(unit, tokens), tokens) && NoSecondRound(unit, tokens)
    ensures BoundIsExact(unit, tokens)
  {
    var m := FullMaximum(unit, tokens);
    NextFits(unit, tokens);
    WrapIsExact(m);
    forall amount: Int64 | amount > 0
      ensures Accepts(amount, unit, tokens) <==> Round(Credit(amount, unit, tokens)) > 0 && amount <= m
    {
      if Fits(amount, unit, tokens) {
        ExactAt(unit, tokens, m, amount);
      } else {
        OverflowIsWorthless(unit, tokens, amount);
        AcceptedCredit(amount, unit, tokens);
      }
    }
  }

  lemma BoundFailsAtTheEdge(unit: real, tokens: bool)
    requires Sensible(unit) && !EdgesAgree(unit, FullMaximum(unit, tokens), tokens)
    ensures !BoundIsExact(unit, tokens)
  {
    var m := FullMaximum(unit, tokens);
    NextFits(unit, tokens);
    WrapIsExact(m);
    NextIsWorthSomething(unit, tokens);
    NothingIsNothing(unit, tokens);
    FullAmountIsMonotone(0, m, unit, tokens);
    FullAmountIsMonotone(m, m + 1, unit, tokens);
    if FullCredit(m, unit, tokens) >= LIMIT {
      assert Worth(0, unit) == 0.0;
      FittingCredit(m, unit, tokens);
      AcceptedCredit(m, unit, tokens);
    } else {
      FittingCredit(m + 1, unit, tokens);
      AcceptedCredit(m + 1, unit, tokens);
    }
  }

  lemma BoundFailsInTheSecondRound(unit: real, tokens: bool)
    requires Sensible(unit) && !NoSecondRound(unit, tokens)
    ensures tokens && !BoundIsExact(unit, tokens)
  {
    if !tokens {
      NegativeWorth(MAX_INT64 - TWO_64, unit);
      assert false;
    }
    var m := FullMaximum(unit, tokens);
    var amount := SecondRoundIsAccepted(unit);
    NextFits(unit, tokens);
    WrapIsExact(m);
    if amount <= m {
      FullAmountIsMonotone(amount, m + 1, unit, tokens);
    }
  }

  /** For any quota per unit from a billionth on, in both display modes: the maximum tells exactly which positive
      int64 amounts are accepted if and only if the maximum and the amount after it fall on different sides of
      the limit, and the units of the largest amount do not come round to a creditable number. */
  lemma BoundIsExactIff(unit: real, tokens: bool)
    requires Sensible(unit)
    ensures BoundIsExact(unit, tokens) <==>
              EdgesAgree(unit, FullMaximum(unit, tokens), tokens) && NoSecondRound(unit, tokens)
  {
    if !EdgesAgree(unit, FullMaximum(unit, tokens), tokens) {
      BoundFailsAtTheEdge(unit, tokens);
    } else if !NoSecondRound(unit, tokens) {
      BoundFailsInTheSecondRound(unit, tokens);
    } else {
      BoundHolds(unit, tokens);
    }
  }

  /** In currency mode only the amount after the maximum can be on the wrong side. */
  lemma CurrencyBoundIsExactIff(unit: real)
    requires Sensible(unit)
    ensures BoundIsExact(unit, false) <==> Worth(GetMaxTopUpAmount(unit, false) + 1, unit) >= LIMIT
  {
    MaximumNearlyFills(unit);
    NextFits(unit, false);
    WrapIsExact(FullMaximum(unit, false));
    BoundIsExactIff(unit, false);
    if !NoSecondRound(unit, false) { BoundFailsInTheSecondRound(unit, false); }
  }

  /** At 0.4 quota per unit the edges agree, but whole units that come round 2^64 are credited, far above the
      maximum and even for a negative amount. */
  lemma OverflowingAmountsAreAccepted()
    ensures EdgesAgree(0.4, FullMaximum(0.4, true), true) && GetMaxTopUpAmount(0.4, true) == 2147483646
    ensures ValidateTopUpQuota(7378697629483821047, 0.4, true) == Valid(400)
    ensures ValidateTopUpQuota(-7378697629483820246, 0.4, true) == Valid(400)
  {
    TokensAt(2147483646, 5368709115, 0.0);
    TokensAt(2147483647, 5368709117, 0.5);
    TokensAt(7378697629483821047, 18446744073709552617, 0.5);
    TokensAt(7378697629483820246, 18446744073709550615, 0.0);
    assert 2147483646.0 / 0.4 == 5368709115.0;
    assert Round(5368709115.0 * DIGITS) as real == 5368709115.0 * DIGITS;
    WrapsOnce(18446744073709552617);
    DivIsOdd(7378697629483820246.0, 0.4);
    assert FullAmount(-7378697629483820246, 0.4, true) == -18446744073709550615;
    assert Wrap(-18446744073709550615) == 1001;
    StrictConversionIsExact(Worth(1001, 0.4));
  }

  lemma TokensAt(amount: nat, units: nat, rest: real)
    requires amount as real == 0.4 * (units as real + rest) && (rest == 0.0 || rest == 0.5)
    ensures FullAmount(amount, 0.4, true) == units
  {
    var x := units as real + rest;
    assert amount as real / 0.4 == x;
    var k := if rest == 0.0 then 0 else 5000000000000000;
    assert (units * 10000000000000000 + k) as real == x * DIGITS;
    assert Round(x * DIGITS) == units * 10000000000000000 + k;
  }

  /** With 0.3 quota per unit the amount after the advertised maximum is still accepted. */
  lemma FractionalUnitExceedsTheMaximum()
    ensures GetMaxTopUpAmount(0.3, false) == 7158278820
    ensures ValidateTopUpQuota(7158278821, 0.3, false) == Valid(2147483646)
  {
    assert 2147483646.0 / 0.3 == 7158278820.0;
    assert Round(7158278820.0 * DIGITS) as real == 7158278820.0 * DIGITS;
    StrictConversionIsExact(Worth(7158278821, 0.3));
  }
}
