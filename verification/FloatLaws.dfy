/** What an IEEE 754 bit pattern stands for, told by how patterns relate to each other (sections 3.3 and 3.4 of
    IEEE 754-2008): the top bit is the sign, and without it the patterns count upward in units in the last place. */
module FloatLaws {
  import opened Wire
  import opened Binary64
  import opened Samples

  /** A width: its sign bit, the pattern and the exponent field of infinity, the patterns to a binade, and
      the exponent of the least unit. */
  datatype Width = Width(sign: nat, infinity: nat, top: nat, binade: nat, least: int)

  function WidthOf(bits: int): Width
    requires bits in {32, 64}
  {
    if bits == 32 then Width(0x8000_0000, 0x7f80_0000, 0xff, 0x80_0000, -149)
    else Width(0x8000_0000_0000_0000, 0x7ff0_0000_0000_0000, 0x7ff, 0x10_0000_0000_0000, -1074)
  }

  /** The value of the pattern u. */
  function At(bits: int, u: nat): F64
    requires bits in {32, 64} && u < 2 * WidthOf(bits).sign
  {
    if bits == 32 then DecodeFloat(32, Le32(u)) else DecodeFloat(64, Le64(u))
  }

  /** The exponent and the fraction field of a pattern without its sign bit. */
  function ExponentField(bits: int, u: nat): nat
    requires bits in {32, 64}
  {
    if bits == 32 then u / 0x80_0000 else u / 0x10_0000_0000_0000
  }

  function FractionField(bits: int, u: nat): nat
    requires bits in {32, 64}
  {
    if bits == 32 then u % 0x80_0000 else u % 0x10_0000_0000_0000
  }

  /** The exponent of the unit in the last place at a pattern without its sign bit. */
  function UnitExponent(bits: int, u: nat): int
    requires bits in {32, 64}
  {
    var e := ExponentField(bits, u);
    WidthOf(bits).least + if e == 0 then 0 else e - 1
  }

  /** The value of the pattern u, put together from its fields. */
  lemma AtFields(bits: int, u: nat)
    requires bits in {32, 64} && u < WidthOf(bits).sign
    ensures
      var s, e, f := WidthOf(bits), ExponentField(bits, u), FractionField(bits, u);
      && At(bits, u) == Assemble(false, e, f, s.top, s.binade, s.least)
      && At(bits, u + s.sign) == Assemble(true, e, f, s.top, s.binade, s.least)
      && f < s.binade && e <= s.top
      && (e < s.top <==> u < s.infinity) && (e == s.top && f == 0 <==> u == s.infinity)
  {
    hide Le32, Le64, U32, U64, Assemble;
    if bits == 32 {
      Spelled32(u);
      Spelled32(u + 0x8000_0000);
    } else {
      Spelled64(u);
      Spelled64(u + 0x8000_0000_0000_0000);
      SignField64(u);
    }
  }

  lemma Spelled32(u: uint32)
    ensures U32(Le32(u), 0) == u
  {
    ReadBack32([], u, []);
    assert [] + Le32(u) + [] == Le32(u);
  }

  lemma Spelled64(u: uint64)
    ensures U64(Le64(u), 0) == u
  {
    ReadBack64([], u, []);
    assert [] + Le64(u) + [] == Le64(u);
  }

  lemma SignField64(u: nat)
    requires u < 0x8000_0000_0000_0000
    ensures
      var w := u + 0x8000_0000_0000_0000;
      && w / 0x8000_0000_0000_0000 == 1 && w % 0x10_0000_0000_0000 == u % 0x10_0000_0000_0000
      && w / 0x10_0000_0000_0000 % 0x800 == u / 0x10_0000_0000_0000
  {
  }

  /** Counting on by one within a binade, and into the next. */
  lemma NextFields(bits: int, u: nat)
    requires bits in {32, 64}
    ensures
      var s, e, f := WidthOf(bits), ExponentField(bits, u), FractionField(bits, u);
      if f + 1 < s.binade then ExponentField(bits, u + 1) == e && FractionField(bits, u + 1) == f + 1
      else f + 1 == s.binade && ExponentField(bits, u + 1) == e + 1 && FractionField(bits, u + 1) == 0
  {
  }

  /** Setting the top bit negates the value. */
  lemma TopBitNegates(bits: int, u: nat)
    requires bits in {32, 64} && u < WidthOf(bits).sign
    ensures
      var v, w := At(bits, u), At(bits, u + WidthOf(bits).sign);
      match v
      case NaN => w.NaN?
      case PosInf => w.NegInf?
      case NegInf => false
      case Fin(x) => x >= 0.0 && w == Fin(-x)
  {
    hide P, DecodeFloat, At, Scaled, ExponentField, FractionField;
    var s, e := WidthOf(bits), UnitExponent(bits, u);
    var fraction: int := FractionField(bits, u);
    AtFields(bits, u);
    ScaledUnits(e);
    ScaledOrder(0, fraction, e);
    ScaledOrder(0, s.binade + fraction, e);
    ScaledSum(fraction, -fraction, e);
    ScaledSum(s.binade + fraction, -(s.binade + fraction), e);
  }

  /** Which patterns are finite, infinite and no number. */
  lemma BeyondInfinityIsNaN(bits: int, u: nat)
    requires bits in {32, 64} && u < WidthOf(bits).sign
    ensures At(bits, u).Fin? <==> u < WidthOf(bits).infinity
    ensures At(bits, u).PosInf? <==> u == WidthOf(bits).infinity
    ensures At(bits, u).NaN? <==> u > WidthOf(bits).infinity
  {
    hide P, Scaled, At, ExponentField, FractionField;
    AtFields(bits, u);
  }

  /** Counting starts at zero, passes one, and goes up by one unit in the last place at a time. */
  lemma PatternsCountUp(bits: int, u: nat)
    requires bits in {32, 64} && u + 1 < WidthOf(bits).infinity
    ensures At(bits, 0) == Fin(0.0)
    ensures At(bits, u).Fin? && At(bits, u + 1).Fin?
    ensures At(bits, u + 1).x == At(bits, u).x + P(UnitExponent(bits, u))
  {
    hide P, Pow2, Scaled, At, ExponentField, FractionField;
    var s, fraction, e := WidthOf(bits), FractionField(bits, u), UnitExponent(bits, u);
    ZeroIsZero(bits);
    AtFields(bits, u);
    AtFields(bits, u + 1);
    NextFields(bits, u);
    ScaledUnits(e);
    ScaledSum(fraction, 1, e);
    ScaledSum(s.binade + fraction, 1, e);
    ScaledLower(s.binade, e + 1, e);
    Pow2OfOne();
  }

  lemma ZeroIsZero(bits: int)
    requires bits in {32, 64}
    ensures At(bits, 0) == Fin(0.0)
  {
    hide P, Scaled, At;
    AtFields(bits, 0);
    ScaledUnits(WidthOf(bits).least);
  }

  /** Of two patterns without the sign bit the larger stands for the larger value. */
  lemma {:induction false} PatternsIncrease(bits: int, u: nat, w: nat)
    requires bits in {32, 64} && u < w < WidthOf(bits).infinity
    ensures At(bits, u).Fin? && At(bits, w).Fin? && At(bits, u).x < At(bits, w).x
    decreases w - u
  {
    hide At, P;
    PatternsCountUp(bits, w - 1);
    if u < w - 1 {
      PatternsIncrease(bits, u, w - 1);
    }
  }

  /** The patterns of one: 0x3f800000 and 0x3ff0000000000000. */
  lemma OneHasItsPattern()
    ensures At(32, 0x3f80_0000) == Fin(1.0) && At(64, 0x3ff0_0000_0000_0000) == Fin(1.0)
  {
    hide P, Pow2, At;
    AtFields(32, 0x3f80_0000);
    AtFields(64, 0x3ff0_0000_0000_0000);
    Pow2Values();
    PowerIsScaled(-23, 23);
    PowerIsScaled(-52, 52);
    PUnits();
  }

  /** Every value binary64 can hold, and both infinities, have a pattern: the values reasoned about are exactly those
      that can be stored. */
  lemma EveryValueHasAPattern(f: F64) returns (u: nat)
    requires Valid(f) && !f.NaN?
    ensures u < 0x1_0000_0000_0000_0000 && At(64, u) == f
  {
    hide P, Scaled, Representable, At;
    var s := WidthOf(64);
    match f
    case PosInf =>
      u := s.infinity;
      BeyondInfinityIsNaN(64, u);
    case NegInf =>
      u := s.infinity + s.sign;
      BeyondInfinityIsNaN(64, s.infinity);
      TopBitNegates(64, s.infinity);
    case Fin(x) =>
      MirrorIsRepresentable(x);
      u := MagnitudePattern(Abs(x));
      TopBitNegates(64, u);
      if x < 0.0 {
        u := u + s.sign;
      }
  }

  lemma MagnitudePattern(x: real) returns (u: nat)
    requires x >= 0.0 && Representable(x)
    ensures u < WidthOf(64).infinity && At(64, u) == Fin(x)
  {
    hide P, Pow2, Scaled, Exponent, At, RoundMagnitude, Overflow, ExponentField, FractionField;
    var e := Exponent(x, MIN_EXP);
    MagnitudeExact(x);
    var k :| x == Scaled(k, e);
    SignificandOf(x, k, e);
    u := if k < 0x10_0000_0000_0000 then k else (e + 1074) * 0x10_0000_0000_0000 + k;
    PatternOfFields(u, if k < 0x10_0000_0000_0000 then 0 else e + 1075, k % 0x10_0000_0000_0000);
    AtFields(64, u);
  }

  lemma PatternOfFields(u: nat, e: nat, f: nat)
    requires u == e * 0x10_0000_0000_0000 + f && f < 0x10_0000_0000_0000 && e < 0x7ff
    ensures u < WidthOf(64).infinity && ExponentField(64, u) == e && FractionField(64, u) == f
  {
  }

  /** The significand at the exponent x is rounded at: full, or at the least exponent. */
  lemma SignificandOf(x: real, k: int, e: int)
    requires x >= 0.0 && Representable(x) && e == Exponent(x, MIN_EXP) && x == Scaled(k, e)
    ensures 0 <= k < 0x20_0000_0000_0000 && (e == MIN_EXP || k >= 0x10_0000_0000_0000)
  {
    hide P, Pow2, Scaled, Representable;
    Pow2Values();
    ScaledUnits(e);
    ScaledOrder(k, -1, e);
    ScaledOrder(-1, 0, e);
    PowerIsScaled(e, 52);
    PowerIsScaled(e, 53);
    ScaledOrder(k, 0x0f_ffff_ffff_ffff, e);
    ScaledOrder(0x0f_ffff_ffff_ffff, 0x10_0000_0000_0000, e);
    ScaledOrder(0x20_0000_0000_0000, k, e);
    if e == MAX_EXP {
      RepresentableIsFinite(x);
      ScaledLower(0x20_0000_0000_0000, 971, 970);
      Pow2OfOne();
      ScaledOrder(0x3f_ffff_ffff_ffff, 0x40_0000_0000_0000, 970);
    }
  }
}
