/** IEEE 754 binary64 values and their arithmetic under roundTiesToEven (section 4.3.1 of IEEE 754-2008). Signed
    zeros are not told apart: nothing here divides, and they compare equal. */
module Binary64 {

  // ---- products and quotients, named so that proofs can treat them as units --------------------------------------

  function Times(x: real, y: real): real {
    x * y
  }

  function Over(x: real, p: real): real
    requires p != 0.0
  {
    x / p
  }

  lemma TimesAssociates(a: real, b: real, c: real)
    ensures Times(a, Times(b, c)) == Times(Times(a, b), c)
  {
  }

  lemma TimesOrder(a: real, b: real, p: real)
    requires p > 0.0
    ensures a <= b ==> Times(a, p) <= Times(b, p)
    ensures a < b ==> Times(a, p) < Times(b, p)
  {
    if a < b {
      assert (b - a) * p > 0.0;
    }
  }

  lemma TimesSum(a: real, b: real, p: real)
    ensures Times(a + b, p) == Times(a, p) + Times(b, p)
  {
  }

  lemma TimesUnits(p: real)
    ensures Times(1.0, p) == p && Times(p, 1.0) == p && Times(0.0, p) == 0.0
  {
  }

  lemma TimesCommutes(a: real, b: real)
    ensures Times(a, b) == Times(b, a)
  {
  }

  lemma TimesCast(m: int, k: int)
    ensures (m * k) as real == Times(m as real, k as real)
  {
  }

  lemma OverUndone(x: real, p: real)
    requires p > 0.0
    ensures Times(Over(x, p), p) == x
  {
  }

  lemma TimesUndone(x: real, p: real)
    requires p > 0.0
    ensures Over(Times(x, p), p) == x
  {
  }

  lemma OverOrder(x: real, y: real, p: real)
    requires p > 0.0 && x <= y
    ensures Over(x, p) <= Over(y, p)
  {
    hide Times, Over;
    OverUndone(x, p);
    OverUndone(y, p);
    if Over(y, p) < Over(x, p) {
      TimesOrder(Over(y, p), Over(x, p), p);
    }
  }

  lemma OverBelow(x: real, n: real, p: real)
    requires p > 0.0 && x < Times(n, p)
    ensures Over(x, p) < n
  {
    hide Times, Over;
    OverUndone(x, p);
    if n <= Over(x, p) {
      TimesOrder(n, Over(x, p), p);
    }
  }

  // ---- powers of two -------------------------------------------------------------------------------------------

  function Pow2(n: nat): (p: nat)
    ensures p >= 1
  {
    if n == 0 then 1 else 2 * Pow2(n - 1)
  }

  /** 2^e for any integer e. */
  function P(e: int): (p: real)
    ensures p > 0.0
    decreases if e < 0 then -e else e
  {
    if e == 0 then 1.0 else if e > 0 then 2.0 * P(e - 1) else P(e + 1) / 2.0
  }

  lemma PStep(e: int)
    ensures P(e + 1) == 2.0 * P(e)
  {
  }

  lemma PUnits()
    ensures P(0) == 1.0 && P(-1) == 0.5
  {
  }

  lemma {:induction false} PSum(a: int, n: nat)
    ensures P(a + n) == Times(P(a), Pow2(n) as real)
  {
    hide P, Times;
    if n == 0 {
      TimesUnits(P(a));
    } else {
      PSum(a, n - 1);
      PStep(a + n - 1);
      TimesDouble(P(a), Pow2(n - 1) as real);
    }
  }

  lemma TimesDouble(p: real, q: real)
    ensures Times(p, 2.0 * q) == 2.0 * Times(p, q)
  {
  }

  lemma PMonotone(a: int, b: int)
    requires a <= b
    ensures P(a) <= P(b)
  {
    hide P, Times;
    PSum(a, b - a);
    TimesUnits(P(a));
    TimesOrder(1.0, Pow2(b - a) as real, P(a));
    TimesCommutes(P(a), Pow2(b - a) as real);
  }

  lemma {:induction false} Pow2Sum(a: nat, b: nat)
    ensures Pow2(a + b) == Pow2(a) * Pow2(b)
  {
    if b == 0 {
    } else {
      Pow2Sum(a, b - 1);
      Double(Pow2(a), Pow2(b - 1), Pow2(a + b - 1));
    }
  }

  lemma Double(p: int, q: int, r: int)
    requires r == p * q
    ensures 2 * r == p * (2 * q)
  {
  }

  lemma Pow2Small()
    ensures Pow2(3) == 8 && Pow2(4) == 16
  {
    assert Pow2(2) == 4;
  }

  lemma Pow2Values()
    ensures Pow2(7) == 0x80 && Pow2(15) == 0x8000 && Pow2(23) == 0x80_0000 && Pow2(31) == 0x8000_0000
    ensures Pow2(52) == 0x10_0000_0000_0000 && Pow2(53) == 0x20_0000_0000_0000
  {
    hide Pow2;
    Pow2Small();
    Pow2Sum(4, 3);
    Pow2Sum(4, 4);
    Pow2Sum(8, 7);
    Pow2Sum(8, 8);
    Pow2Sum(16, 7);
    Pow2Sum(16, 15);
    Pow2Sum(16, 16);
    Pow2Sum(32, 16);
    Pow2Sum(48, 4);
    Pow2Step(52);
  }

  lemma Pow2Step(n: nat)
    ensures Pow2(n + 1) == 2 * Pow2(n)
  {
  }

  // ---- values --------------------------------------------------------------------------------------------------

  datatype F64 = NaN | PosInf | NegInf | Fin(x: real)

  const MIN_EXP := -1074
  const MAX_EXP := 971
  const SIGNIFICAND := 0x20_0000_0000_0000

  function Scaled(m: int, e: int): real {
    Times(m as real, P(e))
  }

  predicate IsForm(x: real, m: int, e: int) {
    -SIGNIFICAND < m < SIGNIFICAND && MIN_EXP <= e <= MAX_EXP && x == Scaled(m, e)
  }

  /** The reals binary64 can hold: a significand of at most 53 bits at an exponent in range. */
  ghost predicate Representable(x: real) {
    exists m: int, e: int :: IsForm(x, m, e)
  }

  ghost predicate Valid(f: F64) {
    f.Fin? ==> Representable(f.x)
  }

  lemma ScaledOrder(m: int, n: int, e: int)
    ensures m <= n ==> Scaled(m, e) <= Scaled(n, e)
    ensures m < n ==> Scaled(m, e) < Scaled(n, e)
  {
    hide Times, P;
    TimesOrder(m as real, n as real, P(e));
  }

  lemma ScaledSum(m: int, n: int, e: int)
    ensures Scaled(m + n, e) == Scaled(m, e) + Scaled(n, e)
  {
    hide Times, P;
    TimesSum(m as real, n as real, P(e));
  }

  lemma ScaledUnits(e: int)
    ensures Scaled(0, e) == 0.0 && Scaled(1, e) == P(e)
  {
    hide Times, P;
    TimesUnits(P(e));
  }

  /** A multiple of 2^e0 is a multiple of every lower power. */
  lemma ScaledLower(m: int, e0: int, e: int)
    requires e <= e0
    ensures Scaled(m, e0) == Scaled(m * Pow2(e0 - e), e)
  {
    hide Times, P, Pow2;
    var k := Pow2(e0 - e);
    PSum(e, e0 - e);
    TimesCommutes(P(e), k as real);
    TimesAssociates(m as real, k as real, P(e));
    TimesCast(m, k);
  }

  lemma PowerIsScaled(e: int, n: nat)
    ensures P(e + n) == Scaled(Pow2(n), e)
  {
    hide Times, P, Pow2;
    PSum(e, n);
    TimesCommutes(P(e), Pow2(n) as real);
  }

  // ---- rounding ------------------------------------------------------------------------------------------------

  /** The nearest integer, the even one of two equally near. */
  function RoundEven(t: real): int {
    var n := t.Floor;
    var d := t - n as real;
    if d < 0.5 || (d == 0.5 && n % 2 == 0) then n else n + 1
  }

  /** The exponent x is rounded at: the least one, from e on, that leaves a significand below 2^53. */
  function Exponent(x: real, e: int): (r: int)
    requires e <= MAX_EXP
    ensures e <= r <= MAX_EXP
    ensures r == MAX_EXP || x < P(r + 53)
    ensures r == e || x >= P(r + 52)
    decreases MAX_EXP - e
  {
    if e == MAX_EXP || x < P(e + 53) then e else Exponent(x, e + 1)
  }

  function RoundAt(x: real, e: int): real {
    Scaled(RoundEven(Over(x, P(e))), e)
  }

  function RoundMagnitude(x: real): real {
    RoundAt(x, Exponent(x, MIN_EXP))
  }

  /** From here on a magnitude rounds to infinity: 2^1024 - 2^970. */
  function Overflow(): real {
    Scaled(0x3f_ffff_ffff_ffff, 970)
  }

  function Round(x: real): F64 {
    if x >= Overflow() then PosInf
    else if x <= -Overflow() then NegInf
    else if x >= 0.0 then Fin(RoundMagnitude(x))
    else Fin(-RoundMagnitude(-x))
  }

  function Negate(a: F64): F64 {
    match a case NaN => NaN case PosInf => NegInf case NegInf => PosInf case Fin(x) => Fin(-x)
  }

  function Mul(a: F64, b: F64): F64 {
    match (a, b)
    case (Fin(x), Fin(y)) => Round(Times(x, y))
    case (NaN, _) => NaN
    case (_, NaN) => NaN
    case (Fin(x), _) => if x == 0.0 then NaN else if x > 0.0 then b else Negate(b)
    case (_, Fin(y)) => if y == 0.0 then NaN else if y > 0.0 then a else Negate(a)
    case _ => if a == b then PosInf else NegInf
  }

  function Add(a: F64, b: F64): F64 {
    match (a, b)
    case (Fin(x), Fin(y)) => Round(x + y)
    case (NaN, _) => NaN
    case (_, NaN) => NaN
    case (Fin(_), _) => b
    case (_, Fin(_)) => a
    case _ => if a == b then a else NaN
  }

  /** The ordered comparison, false as soon as a NaN is involved. */
  predicate AtLeast(a: F64, b: F64) {
    !a.NaN? && !b.NaN? && (a.PosInf? || b.NegInf? || (a.Fin? && b.Fin? && a.x >= b.x))
  }

  // ---- rounding is exact where it can be -----------------------------------------------------------------------

  lemma RoundEvenOfInt(n: int)
    ensures RoundEven(n as real) == n
  {
  }

  lemma RoundEvenMonotone(t: real, u: real)
    requires t <= u
    ensures RoundEven(t) <= RoundEven(u)
  {
  }

  /** A multiple of 2^e is untouched by rounding there. */
  lemma RoundAtGrid(k: int, e: int)
    ensures RoundAt(Scaled(k, e), e) == Scaled(k, e)
  {
    hide Times, Over, P, RoundEven;
    TimesUndone(k as real, P(e));
    RoundEvenOfInt(k);
  }

  /** A magnitude is never rounded at an exponent above one it fits. */
  lemma ExponentFits(x: real, m: int, e0: int)
    requires x >= 0.0 && IsForm(x, m, e0)
    ensures Exponent(x, MIN_EXP) <= e0
  {
    hide P, Pow2, Exponent, Scaled;
    var e := Exponent(x, MIN_EXP);
    if e > e0 {
      PMonotone(e0 + 53, e + 52);
      PowerIsScaled(e0, 53);
      Pow2Values();
      ScaledOrder(m, SIGNIFICAND, e0);
    }
  }

  /** A representable magnitude is its own rounding, and a multiple of the unit it is rounded to. */
  lemma MagnitudeExact(x: real)
    requires x >= 0.0 && Representable(x)
    ensures RoundMagnitude(x) == x
    ensures exists k :: x == Scaled(k, Exponent(x, MIN_EXP))
  {
    hide P, Pow2, Exponent, RoundAt, Scaled;
    var m, e0 :| IsForm(x, m, e0);
    ExponentFits(x, m, e0);
    var e := Exponent(x, MIN_EXP);
    ScaledLower(m, e0, e);
    RoundAtGrid(m * Pow2(e0 - e), e);
  }

  lemma {:induction false} ExponentMonotone(x: real, y: real, e: int)
    requires x <= y && e <= MAX_EXP
    ensures Exponent(x, e) <= Exponent(y, e)
    decreases MAX_EXP - e
  {
    hide P;
    if e == MAX_EXP || x < P(e + 53) {
    } else {
      ExponentMonotone(x, y, e + 1);
    }
  }

  lemma RoundAtMonotone(x: real, y: real, e: int)
    requires x <= y
    ensures RoundAt(x, e) <= RoundAt(y, e)
  {
    hide Over, P, Scaled, RoundEven;
    OverOrder(x, y, P(e));
    RoundEvenMonotone(Over(x, P(e)), Over(y, P(e)));
    ScaledOrder(RoundEven(Over(x, P(e))), RoundEven(Over(y, P(e))), e);
  }

  /** Rounding is monotone, across the binade edges included. */
  lemma MagnitudeMonotone(x: real, y: real)
    requires 0.0 <= x <= y
    ensures RoundMagnitude(x) <= RoundMagnitude(y)
  {
    hide P, Pow2, Scaled, RoundAt, Exponent;
    var ex, ey := Exponent(x, MIN_EXP), Exponent(y, MIN_EXP);
    ExponentMonotone(x, y, MIN_EXP);
    if ex == ey {
      RoundAtMonotone(x, y, ex);
    } else {
      RoundAtMonotone(x, P(ex + 53), ex);
      PowerIsScaled(ex, 53);
      RoundAtGrid(Pow2(53), ex);
      PMonotone(ex + 53, ey + 52);
      PowerIsScaled(ey, 52);
      RoundAtGrid(Pow2(52), ey);
      RoundAtMonotone(P(ey + 52), y, ey);
    }
  }

  // ---- and nearest where it cannot -----------------------------------------------------------------------------

  function Abs(x: real): real {
    if x < 0.0 then -x else x
  }

  /** x sits between two neighbouring multiples of 2^e, at the fraction its quotient has. */
  lemma Bracket(x: real, e: int)
    ensures var t := Over(x, P(e));
            var n := t.Floor;
            && Scaled(n, e) <= x < Scaled(n + 1, e)
            && Scaled(n + 1, e) == Scaled(n, e) + P(e)
            && x - Scaled(n, e) == Times(t - n as real, P(e))
  {
    hide Times, Over, P;
    var p := P(e);
    var t := Over(x, p);
    var r := t.Floor as real;
    assert (t.Floor + 1) as real == r + 1.0;
    OverUndone(x, p);
    TimesOrder(r, t, p);
    TimesOrder(t, r + 1.0, p);
    TimesSum(r, 1.0, p);
    TimesUnits(p);
    TimesSum(t - r, r, p);
  }

  lemma HalfOf(d: real, p: real)
    requires p > 0.0
    ensures d <= 0.5 ==> Times(d, p) <= p - Times(d, p)
    ensures d >= 0.5 ==> p - Times(d, p) <= Times(d, p)
    ensures d < 0.5 ==> Times(d, p) < p - Times(d, p)
    ensures d > 0.5 ==> p - Times(d, p) < Times(d, p)
  {
    hide Times;
    TimesOrder(d, 0.5, p);
    TimesOrder(0.5, d, p);
    TimesSum(0.5, 0.5, p);
    TimesUnits(p);
  }

  /** No representable magnitude lies nearer to x than the rounded one: the definition is IEEE 754's. */
  lemma MagnitudeIsNearest(x: real, z: real)
    requires x >= 0.0 && z >= 0.0 && Representable(z)
    ensures Abs(x - RoundMagnitude(x)) <= Abs(x - z)
  {
    hide Times, Over, P, Exponent, Representable, Scaled;
    var e := Exponent(x, MIN_EXP);
    var t := Over(x, P(e));
    Bracket(x, e);
    NothingBetween(x, z);
    HalfOf(t - t.Floor as real, P(e));
  }

  /** Between the two neighbouring multiples of its unit in the last place that enclose x nothing is representable. */
  lemma NothingBetween(x: real, z: real)
    requires x >= 0.0 && z >= 0.0 && Representable(z)
    ensures var e := Exponent(x, MIN_EXP);
            var n := Over(x, P(e)).Floor;
            z <= Scaled(n, e) || z >= Scaled(n + 1, e)
  {
    hide P, Exponent, Pow2, Scaled, Over, RoundAt;
    var e, ez := Exponent(x, MIN_EXP), Exponent(z, MIN_EXP);
    var n := Over(x, P(e)).Floor;
    MagnitudeExact(z);
    var k :| z == Scaled(k, ez);
    if ez >= e {
      ScaledLower(k, ez, e);
      ScaledOrder(k * Pow2(ez - e), n, e);
      ScaledOrder(n + 1, k * Pow2(ez - e), e);
    } else {
      PMonotone(ez + 53, e + 52);
      GridAbove(x, e);
    }
  }

  lemma FloorAtLeast(t: real, n: int)
    requires n as real <= t
    ensures n <= t.Floor
  {
  }

  lemma GridAbove(x: real, e: int)
    requires x >= P(e + 52)
    ensures Scaled(Over(x, P(e)).Floor, e) >= P(e + 52)
  {
    hide Times, P, Pow2, Over;
    PowerIsScaled(e, 52);
    TimesUndone(Pow2(52) as real, P(e));
    OverOrder(P(e + 52), x, P(e));
    FloorAtLeast(Over(x, P(e)), Pow2(52));
    ScaledOrder(Pow2(52), Over(x, P(e)).Floor, e);
  }

  // ---- and a value -----------------------------------------------------------------------------------------------

  lemma SignificandBound(x: real, e: int)
    requires 0.0 <= x < (if e < MAX_EXP then P(e + 53) else Overflow()) && e <= MAX_EXP
    ensures 0 <= RoundEven(Over(x, P(e))) <= SIGNIFICAND
    ensures e == MAX_EXP ==> RoundEven(Over(x, P(e))) < SIGNIFICAND
  {
    hide Times, P, Pow2, Over;
    TimesUnits(P(e));
    TimesUndone(0.0, P(e));
    OverOrder(0.0, x, P(e));
    if e < MAX_EXP {
      PowerIsScaled(e, 53);
      Pow2Values();
      OverBelow(x, SIGNIFICAND as real, P(e));
    } else {
      PStep(970);
      var half := 0x1f_ffff_ffff_ffff as real + 0.5;
      TimesDouble(half, P(970));
      HalvedFactor(half, P(970));
      OverBelow(x, half, P(e));
    }
  }

  lemma HalvedFactor(h: real, p: real)
    ensures Times(h, 2.0 * p) == Times(2.0 * h, p)
  {
  }

  /** Rounding a magnitude below the overflow threshold gives a value binary64 can hold. */
  lemma MagnitudeIsRepresentable(x: real)
    requires 0.0 <= x < Overflow()
    ensures Representable(RoundMagnitude(x))
  {
    hide P, Exponent, Overflow, Over, RoundEven, Scaled, Pow2;
    var e := Exponent(x, MIN_EXP);
    SignificandBound(x, e);
    var k := RoundEven(Over(x, P(e)));
    if k < SIGNIFICAND {
      assert IsForm(RoundMagnitude(x), k, e);
    } else {
      Pow2Values();
      PowerIsScaled(e, 53);
      PowerIsScaled(e + 1, 52);
      assert IsForm(RoundMagnitude(x), 0x10_0000_0000_0000, e + 1);
    }
  }

  // ---- the laws of rounding, signed ----------------------------------------------------------------------------

  lemma MirrorIsRepresentable(x: real)
    requires Representable(x)
    ensures Representable(-x) && Representable(Abs(x))
  {
    hide P;
    var m, e :| IsForm(x, m, e);
    assert IsForm(-x, -m, e);
  }

  /** The threshold lies beyond every value binary64 can hold. */
  lemma RepresentableIsFinite(x: real)
    requires Representable(x)
    ensures -Overflow() < x < Overflow()
  {
    hide P, Pow2, Scaled;
    var m, e :| IsForm(x, m, e);
    FormIsFinite(m, e);
    FormIsFinite(-m, e);
    ScaledSum(m, -m, e);
    ScaledUnits(e);
  }

  lemma FormIsFinite(m: int, e: int)
    requires m < SIGNIFICAND && MIN_EXP <= e <= MAX_EXP
    ensures Scaled(m, e) < Overflow()
  {
    hide P, Pow2, Times;
    ScaledLower(SIGNIFICAND - 1, 971, 970);
    Pow2OfOne();
    ScaledOrder(2 * (SIGNIFICAND - 1), 0x3f_ffff_ffff_ffff, 970);
    ScaledOrder(m, SIGNIFICAND - 1, e);
    PMonotone(e, 971);
    TimesCommutes((SIGNIFICAND - 1) as real, P(e));
    TimesCommutes((SIGNIFICAND - 1) as real, P(971));
    if P(e) < P(971) {
      TimesOrder(P(e), P(971), (SIGNIFICAND - 1) as real);
    }
  }

  lemma Pow2OfOne()
    ensures Pow2(1) == 2
  {
  }

  lemma RoundedMagnitude(x: real)
    requires x >= 0.0
    ensures RoundMagnitude(x) >= 0.0 && Representable(0.0) && RoundMagnitude(0.0) == 0.0
  {
    hide P, RoundMagnitude;
    ZeroIsRepresentable();
    MagnitudeExact(0.0);
    MagnitudeMonotone(0.0, x);
  }

  lemma ZeroIsRepresentable()
    ensures Representable(0.0)
  {
    hide P, Scaled;
    ScaledUnits(0);
    assert IsForm(0.0, 0, 0);
  }

  /** A value binary64 can hold is its own rounding. */
  lemma RoundExact(x: real)
    requires Representable(x)
    ensures Round(x) == Fin(x)
  {
    hide Overflow, RoundMagnitude, Representable;
    RepresentableIsFinite(x);
    MirrorIsRepresentable(x);
    MagnitudeExact(Abs(x));
  }

  /** Rounding is monotone over all reals, the infinities it overflows to included. */
  lemma RoundMonotone(x: real, y: real)
    requires x <= y
    ensures AtLeast(Round(y), Round(x))
  {
    hide Overflow, RoundMagnitude;
    OverflowIsPositive();
    RoundedMagnitude(Abs(x));
    RoundedMagnitude(Abs(y));
    if 0.0 <= x {
      MagnitudeMonotone(x, y);
    } else if y < 0.0 {
      MagnitudeMonotone(-y, -x);
    }
  }

  lemma OverflowIsPositive()
    ensures Overflow() > 0.0
  {
    hide P, Scaled;
    ScaledUnits(970);
    ScaledOrder(0, 0x3f_ffff_ffff_ffff, 970);
  }

  /** Below the overflow threshold the rounded value is one binary64 can hold, and none it can hold is nearer. */
  lemma RoundIsNearest(x: real, z: real)
    requires -Overflow() < x < Overflow() && Representable(z)
    ensures Round(x).Fin? && Valid(Round(x)) && Abs(x - Round(x).x) <= Abs(x - z)
  {
    hide Overflow, RoundMagnitude, Representable;
    var a := Abs(x);
    RoundedMagnitude(a);
    MagnitudeIsRepresentable(a);
    MirrorIsRepresentable(RoundMagnitude(a));
    MirrorIsRepresentable(z);
    var w := if x < 0.0 then -z else z;
    MagnitudeIsNearest(a, if w < 0.0 then 0.0 else w);
  }

  /** Where two values are equally near the one with the even significand is taken: x has a neighbour z it is no farther
      from, so the result is an even multiple of the unit x is rounded to. */
  lemma TieGoesToEven(x: real, z: real) returns (k: int)
    requires -Overflow() < x < Overflow() && Representable(z)
    requires Round(x).Fin? && z != Round(x).x && Abs(x - z) == Abs(x - Round(x).x)
    ensures 0 <= k <= SIGNIFICAND && k % 2 == 0 && Abs(Round(x).x) == Scaled(k, Exponent(Abs(x), MIN_EXP))
  {
    hide Overflow, RoundMagnitude, Representable, Scaled, Exponent, P, Over, RoundEven;
    var a := Abs(x);
    RoundedMagnitude(a);
    MirrorIsRepresentable(z);
    MagnitudeTie(a, if x < 0.0 then -z else z);
    k := RoundEven(Over(a, P(Exponent(a, MIN_EXP))));
    TiedSignificand(a);
  }

  lemma TiedSignificand(a: real)
    requires 0.0 <= a < Overflow()
    ensures
      var e := Exponent(a, MIN_EXP);
      RoundMagnitude(a) == Scaled(RoundEven(Over(a, P(e))), e) && 0 <= RoundEven(Over(a, P(e))) <= SIGNIFICAND
  {
    hide P, Overflow, Over, RoundEven, Scaled;
    SignificandBound(a, Exponent(a, MIN_EXP));
  }

  lemma MagnitudeTie(x: real, z: real)
    requires x >= 0.0 && Representable(z)
    requires z != RoundMagnitude(x) && Abs(x - z) == Abs(x - RoundMagnitude(x))
    ensures RoundEven(Over(x, P(Exponent(x, MIN_EXP)))) % 2 == 0
  {
    hide Times, Over, P, Exponent, Representable, Scaled;
    var e := Exponent(x, MIN_EXP);
    var p := P(e);
    var t := Over(x, p);
    var d := t - t.Floor as real;
    Bracket(x, e);
    Neighbours(x, z);
    HalfOf(d, p);
  }

  /** As NothingBetween, for values of either sign. */
  lemma Neighbours(x: real, z: real)
    requires x >= 0.0 && Representable(z)
    ensures
      var e := Exponent(x, MIN_EXP);
      var n := Over(x, P(e)).Floor;
      z <= Scaled(n, e) || z >= Scaled(n + 1, e)
  {
    hide P, Exponent, Representable, Over, Scaled;
    ZeroIsRepresentable();
    NothingBetween(x, if z < 0.0 then 0.0 else z);
    if z < 0.0 {
      var e := Exponent(x, MIN_EXP);
      FloorIsNatural(x, e);
    }
  }

  lemma FloorIsNatural(x: real, e: int)
    requires x >= 0.0
    ensures Scaled(Over(x, P(e)).Floor, e) >= 0.0
  {
    hide P, Times, Over;
    TimesUnits(P(e));
    TimesUndone(0.0, P(e));
    OverOrder(0.0, x, P(e));
    ScaledUnits(e);
    ScaledOrder(0, Over(x, P(e)).Floor, e);
  }
}
