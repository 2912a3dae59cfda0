/** Scaling one IEEE 754 sample to an integer sample, in binary64 arithmetic as the code performs it. */
module Quantizer {
  import opened Binary64

  /** 2^(bits-1) for the integer depths. */
  function FullScale(bits: int): (n: int)
    ensures 0 < n <= 0x8000_0000
  {
    match bits
    case 8 => 0x80
    case 16 => 0x8000
    case 24 => 0x80_0000
    case _ => 0x8000_0000
  }

  /** Conversion to a 64-bit integer, toward zero. */
  function Truncate(f: F64): int
    requires f.Fin?
  {
    if f.x >= 0.0 then f.x.Floor else -((-f.x).Floor)
  }

  function Quantize(f: F64, fullScale: F64, posLimit: F64, negLimit: F64): int
    requires posLimit.Fin? && negLimit.Fin? && -2147483648.0 <= negLimit.x && posLimit.x <= 2147483648.0
  {
    var v := Mul(f, fullScale);
    if AtLeast(v, posLimit) then Truncate(posLimit)
    else if AtLeast(negLimit, v) then Truncate(negLimit)
    else if v.NaN? then 0
    else if v.x > -0.5 && v.x < 0.5 then 0
    else if v.x >= 0.0 then
      SumStaysFinite(v.x + 0.5);
      Truncate(Add(v, Fin(0.5)))
    else
      SumStaysFinite(v.x - 0.5);
      Truncate(Add(v, Fin(-0.5)))
  }

  /** The limits of a destination depth, as the conversion loop computes them. */
  function Limits(bits: int): (F64, F64, F64) {
    var fullScale := Fin(FullScale(bits) as real);
    (fullScale, Add(fullScale, Fin(-1.0)), Negate(fullScale))
  }

  function Clamp(n: int, lo: int, hi: int): int {
    if n < lo then lo else if n > hi then hi else n
  }

  function RoundHalfAway(t: real): int {
    if t >= 0.0 then (t + 0.5).Floor else -((-t + 0.5).Floor)
  }

  /** What quantising means: scale, round half away from zero, clamp; NaN is silence. */
  function Ideal(f: F64, bits: int): int {
    var full := FullScale(bits);
    match f
    case NaN => 0
    case PosInf => full - 1
    case NegInf => -full
    case Fin(x) => Clamp(RoundHalfAway(Times(x, full as real)), -full, full - 1)
  }

  // ---- representable values the proof steps on -----------------------------------------------------------------

  lemma IntIsRepresentable(n: int)
    requires -SIGNIFICAND < n < SIGNIFICAND
    ensures Representable(n as real)
  {
    hide P, Times;
    PUnits();
    TimesUnits(n as real);
    assert IsForm(n as real, n, 0);
  }

  lemma HalfIsRepresentable(n: int)
    requires 0 <= n < 0x1_0000_0000
    ensures Representable(n as real + 0.5)
  {
    hide P;
    PUnits();
    assert IsForm(n as real + 0.5, 2 * n + 1, -1);
  }

  lemma OverflowIsFar()
    ensures Overflow() > 4294967296.0
  {
    hide P;
    PMonotone(0, 970);
    PUnits();
    ScaledOrder(0x1_0000_0001, 0x3f_ffff_ffff_ffff, 970);
    FarScaled(P(970));
  }

  lemma FarScaled(p: real)
    requires p >= 1.0
    ensures Times(0x1_0000_0001 as real, p) > 4294967296.0
  {
    TimesOrder(1.0, p, 4294967297.0);
  }

  lemma SumStaysFinite(x: real)
    requires -4294967296.0 <= x <= 4294967296.0
    ensures Round(x).Fin?
  {
    hide Overflow;
    OverflowIsFar();
  }

  // ---- adding a half -------------------------------------------------------------------------------------------

  /** A representable value at or above which v + 1/2 lies, still below the next integer. When the sum leaves the
      binade of v it may be inexact, but then it lies just above a power of two, where n + 1/2 is representable. */
  lemma CeilingOfSum(v: real, m: int, e: int) returns (c: real)
    requires 0.5 <= v <= 2147483648.0 && IsForm(v, m, e)
    ensures Representable(c) && v + 0.5 <= c < (v + 0.5).Floor as real + 1.0
  {
    hide P, Pow2, Scaled;
    var n := (v + 0.5).Floor;
    HalfIsRepresentable(n);
    if e >= 0 {
      IntegralForm(v, m, e);
      return n as real + 0.5;
    }
    var h := Pow2(-1 - e);
    if m + h < SIGNIFICAND {
      HalfAtExponent(e);
      ScaledSum(m, h, e);
      ScaledOrder(m, 0, e);
      ScaledUnits(e);
      assert IsForm(v + 0.5, m + h, e);
      return v + 0.5;
    }
    EdgeOfBinade(v, m, e);
    return n as real + 0.5;
  }

  lemma IntegralForm(v: real, m: int, e: nat)
    requires v == Scaled(m, e)
    ensures v == v.Floor as real && (v + 0.5).Floor == v.Floor
  {
    hide P, Pow2;
    ScaledLower(m, e, 0);
    PUnits();
    TimesUnits((m * Pow2(e)) as real);
    IntegerFloor(v, m * Pow2(e));
  }

  lemma IntegerFloor(v: real, n: int)
    requires v == n as real
    ensures v.Floor == n && (v + 0.5).Floor == n
  {
  }

  lemma HalfAtExponent(e: int)
    requires e < 0
    ensures Scaled(Pow2(-1 - e), e) == 0.5
  {
    hide P, Pow2;
    PowerIsScaled(e, -1 - e);
    PUnits();
  }

  /** The sum that needs a 54th bit: v lies within a half of the integral power of two above it. */
  lemma EdgeOfBinade(v: real, m: int, e: int)
    requires 0.5 <= v <= 2147483648.0 && IsForm(v, m, e) && e < 0
    requires m + Pow2(-1 - e) >= SIGNIFICAND
    ensures v < (v + 0.5).Floor as real
  {
    hide P, Pow2, Scaled, IsForm, Times;
    AroundEdge(v, m, e);
    PUnits();
    if e < -53 {
      PMonotone(e + 53, -1);
    } else {
      PSum(0, e + 53);
      TimesUnits(Pow2(e + 53) as real);
      FloorAtLeast(v + 0.5, Pow2(e + 53));
    }
  }

  lemma AroundEdge(v: real, m: int, e: int)
    requires IsForm(v, m, e) && e < 0 && m + Pow2(-1 - e) >= SIGNIFICAND
    ensures v < P(e + 53) <= v + 0.5
  {
    hide P, Pow2, Scaled;
    PowerIsScaled(e, 53);
    Pow2Values();
    HalfAtExponent(e);
    ScaledSum(m, Pow2(-1 - e), e);
    ScaledOrder(SIGNIFICAND, m + Pow2(-1 - e), e);
    ScaledOrder(m, SIGNIFICAND, e);
  }

  /** Rounding v + 1/2 and truncating is rounding v half away from zero, although the sum can be inexact. */
  lemma HalfSum(v: real)
    requires Representable(v) && 0.5 <= v <= 2147483648.0
    ensures RoundMagnitude(v + 0.5).Floor == (v + 0.5).Floor
  {
    hide RoundMagnitude, IsForm, Representable, P, Exponent;
    var n := (v + 0.5).Floor;
    var c := SomeCeiling(v);
    IntIsRepresentable(n);
    MagnitudeExact(n as real);
    MagnitudeMonotone(n as real, v + 0.5);
    MagnitudeExact(c);
    MagnitudeMonotone(v + 0.5, c);
    FloorBetween(RoundMagnitude(v + 0.5), n);
  }

  /** When the addition is exact. For v from 1/2 on, of m units with a full significand, the sum is representable
      exactly when a half is a whole number of units and the sum stays in the binade of v or is an even number of
      units: in the next binade an odd one needs a 54th bit. */
  lemma HalfIsExactWhen(v: real, m: int, e: int)
    requires IsForm(v, m, e) && m >= 0x10_0000_0000_0000 && v >= 0.5
    ensures Representable(v + 0.5) <==> e < 0 && (m + Pow2(-1 - e) < SIGNIFICAND || (m + Pow2(-1 - e)) % 2 == 0)
  {
    hide P, Pow2, Scaled;
    if e >= 0 {
      HalfBelowTheUnit(v, m, e);
      return;
    }
    var h := Pow2(-1 - e);
    HalfAtExponent(e);
    ScaledSum(m, h, e);
    HalfIsSmall(v, m, e);
    if m + h < SIGNIFICAND {
      assert IsForm(v + 0.5, m + h, e);
    } else {
      if (m + h) % 2 == 0 {
        EvenFits(m + h, e);
        assert IsForm(v + 0.5, (m + h) / 2, e + 1);
      } else {
        OddOverflows(m + h, e);
      }
    }
  }

  lemma HalfBelowTheUnit(v: real, m: int, e: int)
    requires IsForm(v, m, e) && m >= 0x10_0000_0000_0000 && e >= 0
    ensures !Representable(v + 0.5)
  {
    hide P, Pow2, Scaled;
    PUnits();
    ScaledUnits(-1);
    ScaledLower(m, e, -1);
    EvenPower(m, e + 1);
    Pow2OfOne();
    Pow2Order(1, e + 1);
    TwiceAtLeast(m, Pow2(e + 1));
    ScaledSum(m * Pow2(e + 1), 1, -1);
    OddOverflows(m * Pow2(e + 1) + 1, -1);
  }

  lemma TwiceAtLeast(m: nat, p: nat)
    requires p >= 2
    ensures m * p >= 2 * m
  {
  }

  /** A value of at least 1/2 has its last place at 2^-53 or above, where 1/2 is at most 2^52 units. */
  lemma HalfIsSmall(v: real, m: int, e: int)
    requires IsForm(v, m, e) && v >= 0.5 && e < 0
    ensures e >= -53 && Pow2(-1 - e) <= 0x10_0000_0000_0000
  {
    hide P, Pow2, Scaled;
    PUnits();
    Pow2Values();
    PowerIsScaled(e, 53);
    ScaledOrder(m, SIGNIFICAND, e);
    if e < -53 {
      PMonotone(e + 53, -1);
    }
    Pow2Order(-1 - e, 52);
  }

  lemma {:induction false} Pow2Order(a: nat, b: nat)
    requires a <= b
    ensures Pow2(a) <= Pow2(b)
    decreases b
  {
    if a == b {
    } else {
      Pow2Order(a, b - 1);
    }
  }

  /** An even number of units is half as many of the next power. */
  lemma EvenFits(k: int, e: int)
    requires k % 2 == 0
    ensures Scaled(k, e) == Scaled(k / 2, e + 1)
  {
    hide P, Scaled;
    ScaledLower(k / 2, e + 1, e);
    Pow2OfOne();
  }

  /** An odd number of units beyond 53 bits is not representable. */
  lemma OddOverflows(k: int, e: int)
    requires k >= SIGNIFICAND && k % 2 == 1
    ensures !Representable(Scaled(k, e))
  {
    hide P, Pow2, Scaled;
    forall m: int, f: int ensures !IsForm(Scaled(k, e), m, f) {
      if IsForm(Scaled(k, e), m, f) {
        if f > e {
          ScaledLower(m, f, e);
          EvenPower(m, f - e);
          SameUnits(m * Pow2(f - e), k, e);
        } else {
          ScaledLower(k, e, f);
          SameUnits(m, k * Pow2(e - f), f);
          GrowsByPower(k, e - f);
        }
      }
    }
  }

  lemma SameUnits(m: int, n: int, e: int)
    requires Scaled(m, e) == Scaled(n, e)
    ensures m == n
  {
    hide P, Scaled;
    ScaledOrder(m, n, e);
    ScaledOrder(n, m, e);
  }

  lemma EvenPower(m: int, n: nat)
    requires n > 0
    ensures m * Pow2(n) % 2 == 0
  {
    assert Pow2(n) == 2 * Pow2(n - 1);
    assert m * Pow2(n) == 2 * (m * Pow2(n - 1));
  }

  lemma GrowsByPower(k: nat, n: nat)
    ensures k * Pow2(n) >= k
  {
    hide Pow2;
  }

  /** The least value whose sum is inexact: 1/2 + 2^-53. The rounding argument cannot do without this case. */
  lemma HalfCanBeInexact()
    ensures var v := Scaled(0x10_0000_0000_0001, -53); Representable(v) && v >= 0.5 && Round(v + 0.5) != Fin(v + 0.5)
  {
    hide P, Pow2, Scaled, Representable, Overflow, Round, IsForm;
    var v := Scaled(0x10_0000_0000_0001, -53);
    Pow2Values();
    PUnits();
    PowerIsScaled(-53, 52);
    ScaledOrder(0x10_0000_0000_0000, 0x10_0000_0000_0001, -53);
    assert IsForm(v, 0x10_0000_0000_0001, -53) by {
      ScaledIsForm(0x10_0000_0000_0001, -53);
    }
    FormIsRepresentable(v, 0x10_0000_0000_0001, -53);
    HalfIsExactWhen(v, 0x10_0000_0000_0001, -53);
    SmallSum(v);
    RoundIsNearest(v + 0.5, 0.0);
  }

  lemma ScaledIsForm(m: int, e: int)
    requires -SIGNIFICAND < m < SIGNIFICAND && MIN_EXP <= e <= MAX_EXP
    ensures IsForm(Scaled(m, e), m, e)
  {
  }

  lemma FormIsRepresentable(x: real, m: int, e: int)
    requires IsForm(x, m, e)
    ensures Representable(x)
  {
  }

  lemma SmallSum(v: real)
    requires 0.5 <= v && v == Scaled(0x10_0000_0000_0001, -53)
    ensures -Overflow() < v + 0.5 < Overflow() && Representable(0.0)
  {
    hide P, Overflow, Scaled, Pow2;
    OverflowIsFar();
    ZeroIsRepresentable();
    PUnits();
    Pow2Values();
    PowerIsScaled(-53, 53);
    ScaledOrder(0x10_0000_0000_0001, SIGNIFICAND, -53);
  }

  lemma SomeCeiling(v: real) returns (c: real)
    requires Representable(v) && 0.5 <= v <= 2147483648.0
    ensures Representable(c) && v + 0.5 <= c < (v + 0.5).Floor as real + 1.0
  {
    hide IsForm;
    var m, e :| IsForm(v, m, e);
    c := CeilingOfSum(v, m, e);
  }

  lemma FloorBetween(x: real, n: int)
    requires n as real <= x < n as real + 1.0
    ensures x.Floor == n
  {
  }

  // ---- scaling -------------------------------------------------------------------------------------------------

  /** Scaling by a power of two is exact as long as the product stays in reach of the limits. */
  lemma ScaledIsRepresentable(x: real, k: nat, y: real)
    requires Representable(x) && y == Times(x, Pow2(k) as real) && -2147483648.0 <= y <= 2147483648.0
    ensures Representable(y)
  {
    hide P, Pow2, Times, Scaled;
    var m, e :| IsForm(x, m, e);
    ScaledForm(m, e, k);
    if e + k <= MAX_EXP {
      assert IsForm(y, m, e + k);
    } else {
      HighExponentMeansZero(m, e + k);
      IntIsRepresentable(0);
    }
  }

  lemma ScaledForm(m: int, e: int, k: nat)
    ensures Times(Scaled(m, e), Pow2(k) as real) == Scaled(m, e + k)
  {
    hide P, Pow2, Times;
    PSum(e, k);
    TimesAssociates(m as real, P(e), Pow2(k) as real);
  }

  lemma HighExponentMeansZero(m: int, e: int)
    requires e > MAX_EXP && -2147483648.0 <= Scaled(m, e) <= 2147483648.0
    ensures Scaled(m, e) == 0.0
  {
    hide P, Pow2, Scaled;
    PMonotone(53, e);
    PowerIsScaled(0, 53);
    Pow2Values();
    SignificandIsFar();
    ScaledUnits(e);
    ScaledSum(1, -1, e);
    ScaledOrder(1, m, e);
    ScaledOrder(m, -1, e);
  }

  lemma SignificandIsFar()
    ensures Scaled(SIGNIFICAND, 0) > 2147483648.0
  {
    hide P;
    PUnits();
  }

  lemma FullScaleIsPower(bits: int)
    requires bits in {8, 16, 24, 32}
    ensures FullScale(bits) == Pow2(bits - 1)
  {
    hide Pow2;
    Pow2Values();
  }

  /** The binary64 product agrees with the exact one wherever the exact one is inside the limits, and stays outside
      them wherever it is outside. */
  lemma Product(x: real, bits: int, y: real)
    requires Representable(x) && bits in {8, 16, 24, 32} && y == Times(x, FullScale(bits) as real)
    ensures var full := FullScale(bits) as real;
            && (-full <= y <= full ==> Round(y) == Fin(y) && Representable(y))
            && (y >= full ==> Round(y).PosInf? || (Round(y).Fin? && Round(y).x >= full))
            && (y <= -full ==> Round(y).NegInf? || (Round(y).Fin? && Round(y).x <= -full))
  {
    hide P, Pow2, Overflow, Representable, RoundMagnitude, FullScale, Round, Times;
    var full := FullScale(bits) as real;
    FullScaleIsPower(bits);
    RoundOutside(y, FullScale(bits));
    if -full <= y <= full {
      ScaledIsRepresentable(x, bits - 1, y);
      RoundInside(y);
    }
  }

  lemma RoundInside(y: real)
    requires Representable(y) && -2147483648.0 <= y <= 2147483648.0
    ensures Round(y) == Fin(y)
  {
    hide P, Overflow, Representable, RoundMagnitude;
    OverflowIsFar();
    MirrorIsRepresentable(y);
    MagnitudeExact(Abs(y));
  }

  lemma RoundOutside(y: real, n: int)
    requires 0 < n <= 0x8000_0000
    ensures y >= n as real ==> Round(y).PosInf? || (Round(y).Fin? && Round(y).x >= n as real)
    ensures y <= -(n as real) ==> Round(y).NegInf? || (Round(y).Fin? && Round(y).x <= -(n as real))
  {
    hide P, Representable, RoundMagnitude, Overflow;
    OverflowIsFar();
    IntIsRepresentable(n);
    MagnitudeExact(n as real);
    if y >= n as real {
      MagnitudeMonotone(n as real, y);
    } else if y <= -(n as real) {
      MagnitudeMonotone(n as real, -y);
    }
  }

  lemma LimitsAreExact(bits: int)
    requires bits in {8, 16, 24, 32}
    ensures Limits(bits) == (Fin(FullScale(bits) as real), Fin((FullScale(bits) - 1) as real),
      Fin(-(FullScale(bits) as real)))
  {
    hide Overflow, Representable, RoundMagnitude, FullScale, Round;
    IntIsRepresentable(FullScale(bits) - 1);
    RoundInside((FullScale(bits) - 1) as real);
  }

  // ---- the result ----------------------------------------------------------------------------------------------

  /** Quantising in binary64 arithmetic computes the ideal: scale, round half away from zero, clamp. */
  lemma QuantizeIsIdeal(f: F64, bits: int)
    requires Valid(f) && bits in {8, 16, 24, 32}
    ensures var (full, pos, neg) := Limits(bits);
            pos.Fin? && neg.Fin? && -2147483648.0 <= neg.x && pos.x <= 2147483648.0
            && Quantize(f, full, pos, neg) == Ideal(f, bits)
    ensures -FullScale(bits) <= Ideal(f, bits) < FullScale(bits)
  {
    hide P, Pow2, Overflow, RoundMagnitude, Representable, Round, FullScale, RoundHalfAway;
    LimitsAreExact(bits);
    var full := FullScale(bits);
    ClampLimits(full);
    if f.Fin? {
      var v := Times(f.x, full as real);
      Product(f.x, bits, v);
      MulAndIdealOfProduct(f.x, bits, v);
      if -(full as real) < v < full as real - 1.0 {
        InsideLimits(v, full);
      } else {
        ClampOutside(v, full);
        OutsideLimits(Round(v), v, full);
      }
    }
  }

  /** Names the one product that both the code and the ideal form. */
  lemma MulAndIdealOfProduct(x: real, bits: int, v: real)
    requires v == Times(x, FullScale(bits) as real)
    ensures Mul(Fin(x), Fin(FullScale(bits) as real)) == Round(v)
    ensures Ideal(Fin(x), bits) == Clamp(RoundHalfAway(v), -FullScale(bits), FullScale(bits) - 1)
  {
    hide FullScale, Round, RoundHalfAway, Times;
  }

  lemma ClampLimits(full: int)
    requires full > 0
    ensures Truncate(Fin((full - 1) as real)) == full - 1 && Truncate(Fin(-(full as real))) == -full
  {
  }

  lemma OutsideLimits(r: F64, v: real, full: int)
    requires full >= 1 && !(-(full as real) < v < full as real - 1.0)
    requires -(full as real) <= v <= full as real ==> r == Fin(v)
    requires v >= full as real ==> r.PosInf? || (r.Fin? && r.x >= full as real)
    requires v <= -(full as real) ==> r.NegInf? || (r.Fin? && r.x <= -(full as real))
    ensures AtLeast(r, Fin((full - 1) as real)) <==> v >= full as real - 1.0
    ensures AtLeast(Fin(-(full as real)), r) <==> v <= -(full as real)
  {
  }

  lemma ClampOutside(v: real, full: int)
    requires full > 0
    ensures v >= full as real - 1.0 ==> Clamp(RoundHalfAway(v), -full, full - 1) == full - 1
    ensures v <= -(full as real) ==> Clamp(RoundHalfAway(v), -full, full - 1) == -full
  {
  }

  /** Between the limits the three remaining arms of the code round half away from zero, and land in range. */
  lemma InsideLimits(v: real, full: int)
    requires Representable(v) && 0 < full <= 0x8000_0000 && -(full as real) < v < full as real - 1.0
    ensures Round(v + 0.5).Fin? && Round(v - 0.5).Fin?
    ensures RoundHalfAway(v)
      == (if v > -0.5 && v < 0.5 then 0 else if v >= 0.0 then Truncate(Round(v + 0.5)) else Truncate(Round(v - 0.5)))
    ensures -full <= RoundHalfAway(v) < full
  {
    hide P, Pow2, Overflow, RoundMagnitude, Representable, Exponent;
    SumStaysFinite(v + 0.5);
    SumStaysFinite(v - 0.5);
    if v >= 0.5 {
      HalfSum(v);
    } else if v <= -0.5 {
      MirrorIsRepresentable(v);
      HalfSum(-v);
    }
  }

  lemma RoundHalfAwayMonotone(s: real, t: real)
    requires s <= t
    ensures RoundHalfAway(s) <= RoundHalfAway(t)
  {
  }

  lemma IdealMonotone(f: F64, g: F64, bits: int)
    requires Valid(f) && Valid(g) && AtLeast(g, f) && bits in {8, 16, 24, 32}
    ensures Ideal(f, bits) <= Ideal(g, bits)
  {
    hide Representable, RoundHalfAway;
    var full := FullScale(bits) as real;
    if f.Fin? && g.Fin? {
      TimesOrder(f.x, g.x, full);
      RoundHalfAwayMonotone(Times(f.x, full), Times(g.x, full));
    }
  }

  /** The order of samples survives the quantiser as the code performs it, the infinities included. */
  lemma QuantizeMonotone(f: F64, g: F64, bits: int)
    requires Valid(f) && Valid(g) && AtLeast(g, f) && bits in {8, 16, 24, 32}
    ensures
      var (full, pos, neg) := Limits(bits);
      && pos.Fin? && neg.Fin? && -2147483648.0 <= neg.x && pos.x <= 2147483648.0
      && Quantize(f, full, pos, neg) <= Quantize(g, full, pos, neg)
  {
    hide Quantize, Limits, Ideal, Valid, AtLeast;
    QuantizeIsIdeal(f, bits);
    QuantizeIsIdeal(g, bits);
    IdealMonotone(f, g, bits);
  }

  // ---- one rounding instead of two -------------------------------------------------------------------------------

  /** The quantiser where the compiler fuses the scaling into the addition of the half, which then sees the product
      before it is rounded. */
  function QuantizeFused(f: F64, fullScale: F64, posLimit: F64, negLimit: F64): int
    requires fullScale.Fin? && posLimit.Fin? && negLimit.Fin?
    requires -2147483648.0 <= negLimit.x && posLimit.x <= 2147483648.0
  {
    var v := Mul(f, fullScale);
    if AtLeast(v, posLimit) then Truncate(posLimit)
    else if AtLeast(negLimit, v) then Truncate(negLimit)
    else if v.NaN? || !f.Fin? then 0
    else if v.x > -0.5 && v.x < 0.5 then 0
    else
      var sum := Round(if v.x >= 0.0 then Times(f.x, fullScale.x) + 0.5 else Times(f.x, fullScale.x) - 0.5);
      if sum.Fin? then Truncate(sum) else 0
  }

  /** Fusing changes nothing: between the limits the product is exact already. */
  lemma FusedIsTheSame(f: F64, bits: int)
    requires Valid(f) && bits in {8, 16, 24, 32}
    ensures
      var (full, pos, neg) := Limits(bits);
      && full.Fin? && pos.Fin? && neg.Fin? && -2147483648.0 <= neg.x && pos.x <= 2147483648.0
      && QuantizeFused(f, full, pos, neg) == Quantize(f, full, pos, neg)
  {
    hide P, Pow2, Overflow, RoundMagnitude, Representable, Round, FullScale, Times;
    LimitsAreExact(bits);
    if f.Fin? {
      var v := Times(f.x, FullScale(bits) as real);
      Product(f.x, bits, v);
      if -(FullScale(bits) as real) <= v <= FullScale(bits) as real {
        SumStaysFinite(v + 0.5);
        SumStaysFinite(v - 0.5);
      }
    }
  }
}
