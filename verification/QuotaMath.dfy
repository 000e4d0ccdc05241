/**
 Conversions of computed quota values to the 32-bit integers of the database:
 rounding, saturation at the bounds, and the strict variants that refuse to
 saturate. Finite float64 values and decimals are real numbers.
 */
module QuotaMath {

  const MAX_QUOTA := 2147483647
  const MIN_QUOTA := -2147483648

  datatype Float = NaN | PosInf | NegInf | Finite(x: real)

  datatype ClampKind = Overflow | Underflow | NotANumber

  datatype Checked = InRange(quota: int) | Clamped(kind: ClampKind)

  datatype Strict = Ok(quota: int) | Refused

  /** Truncation toward zero, the conversion of a float64 to int and Decimal.IntPart. */
  function Trunc(x: real): int {
    if x >= 0.0 then x.Floor else -(-x).Floor
  }

  /** Rounding half away from zero: math.Round and Decimal.Round(0). */
  function Round(x: real): int {
    if x >= 0.0 then (x + 0.5).Floor else -((-x + 0.5).Floor)
  }

  /** saturateQuota: the bounds themselves already count as saturated. */
  function Saturate(v: Float): Checked {
    match v
    case NaN => Clamped(NotANumber)
    case PosInf => Clamped(Overflow)
    case NegInf => Clamped(Underflow)
    case Finite(x) =>
      if x >= MAX_QUOTA as real then Clamped(Overflow)
      else if x <= MIN_QUOTA as real then Clamped(Underflow)
      else InRange(Trunc(x))
  }

  /** The quota used when the caller does not insist on an exact value. */
  function Quota(c: Checked): int {
    match c
    case InRange(q) => q
    case Clamped(Overflow) => MAX_QUOTA
    case Clamped(Underflow) => MIN_QUOTA
    case Clamped(NotANumber) => 0
  }

  function StrictQuota(c: Checked): Strict {
    if c.InRange? then Ok(c.quota) else Refused
  }

  function MapFinite(v: Float, f: real -> int): Float {
    if v.Finite? then Finite(f(v.x) as real) else v
  }

  function QuotaFromFloatChecked(v: Float): Checked { Saturate(v) }

  function QuotaRoundChecked(v: Float): Checked { Saturate(MapFinite(v, Round)) }

  function QuotaFromDecimalChecked(d: real): Checked { Saturate(Finite(Round(d) as real)) }

  function QuotaFromDecimalStrict(d: real): Strict { StrictQuota(QuotaFromDecimalChecked(d)) }

  // ---------------------------------------------------------------- laws

  lemma RoundIsNearest(x: real)
    ensures Round(x) as real - 0.5 <= x <= Round(x) as real + 0.5
    ensures Round(-x) == -Round(x)
  {
  }

  lemma RoundIsMonotone(x: real, y: real)
    requires x <= y
    ensures Round(x) <= Round(y) && Trunc(x) <= Trunc(y)
  {
  }

  /** The order of floats; NaN is in no relation. */
  predicate AtMost(v: Float, w: Float) {
    && v != NaN && w != NaN
    && (v == NegInf || w == PosInf || (v.Finite? && w.Finite? && v.x <= w.x))
  }

  /** A saturated quota fits the column, and a larger value never yields a smaller quota: a charge cannot
      turn into a credit. */
  lemma SaturationIsMonotone(v: Float, w: Float)
    ensures MIN_QUOTA <= Quota(Saturate(v)) <= MAX_QUOTA
    ensures AtMost(v, w) ==> Quota(QuotaFromFloatChecked(v)) <= Quota(QuotaFromFloatChecked(w))
    ensures AtMost(v, w) ==> Quota(QuotaRoundChecked(v)) <= Quota(QuotaRoundChecked(w))
  {
    if AtMost(v, w) && v.Finite? && w.Finite? {
      RoundIsMonotone(v.x, w.x);
      RoundIsMonotone(Round(v.x) as real, Round(w.x) as real);
    }
  }

  /** Rounding before saturation keeps a value that rounds into the open range within one half, and reports
      a clamp for every other one. The strict conversion succeeds exactly on the former. */
  lemma StrictConversionIsExact(d: real)
    ensures QuotaFromDecimalStrict(d).Ok? <==> MIN_QUOTA as real + 0.5 < d < MAX_QUOTA as real - 0.5
    ensures QuotaFromDecimalStrict(d).Ok? ==>
              var q := QuotaFromDecimalStrict(d).quota;
              q == Round(d) && MIN_QUOTA < q < MAX_QUOTA && q as real - 0.5 <= d <= q as real + 0.5
  {
    RoundIsNearest(d);
  }

  /** Without rounding the fraction is cut off: the quota is the whole number next to the value toward zero, and
      a clamp is reported for every value that is not strictly inside the range. */
  lemma TruncationIsExact(x: real)
    ensures QuotaFromFloatChecked(Finite(x)).InRange? <==> MIN_QUOTA as real < x < MAX_QUOTA as real
    ensures QuotaFromFloatChecked(Finite(x)).InRange? ==>
              var q := QuotaFromFloatChecked(Finite(x)).quota as real;
              if x >= 0.0 then q <= x < q + 1.0 else q - 1.0 < x <= q
    ensures x >= MAX_QUOTA as real ==> Quota(QuotaFromFloatChecked(Finite(x))) == 2147483647
    ensures x <= MIN_QUOTA as real ==> Quota(QuotaFromFloatChecked(Finite(x))) == -2147483648
  {
  }

  /** The float and decimal conversions agree. */
  lemma RoundVariantsAgree(d: real)
    ensures QuotaRoundChecked(Finite(d)) == QuotaFromDecimalChecked(d)
    ensures Quota(QuotaRoundChecked(Finite(d))) - Quota(QuotaFromFloatChecked(Finite(d))) <= 1
  {
  }
}
