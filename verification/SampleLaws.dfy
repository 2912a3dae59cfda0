/** What each conversion does to the bytes of a sample and to the number they stand for, told without the functions that
    compute it. */
module SampleLaws {
  import opened Wire
  import opened Types
  import opened Binary64
  import opened Quantizer
  import opened Companded
  import opened Samples

  // ---- stored integers -----------------------------------------------------------------------------------------

  /** A stored sample is its bytes read little-endian: biased by 128 at 8 bits, two's complement above. */
  lemma StoredValue(bits: int, s: seq<byte>)
    requires IntDepth(bits) && |s| == bits / 8
    ensures
      var v, full: int := Dec(bits, s), Pow2(bits - 1);
      && -full <= v < full
      && (if bits == 8 then v == s[0] as int - 128 else v == Spelled(s) || v == Spelled(s) - 2 * full)
  {
    hide Pow2;
    Pow2Values();
    SpelledOut(s);
  }

  lemma SpelledOut(s: seq<byte>)
    ensures |s| == 1 ==> Spelled(s) == s[0]
    ensures |s| == 2 ==> Spelled(s) == s[0] as int + 0x100 * s[1] as int
    ensures |s| == 3 ==> Spelled(s) == s[0] as int + 0x100 * s[1] as int + 0x1_0000 * s[2] as int
    ensures |s| == 4 ==>
      Spelled(s) == s[0] as int + 0x100 * s[1] as int + 0x1_0000 * s[2] as int + 0x100_0000 * s[3] as int
  {
    if |s| > 1 {
      assert s[1..][1..] == s[2..];
      if |s| > 2 {
        assert s[2..][1..] == s[3..];
        if |s| > 3 {
          assert s[3..][1..] == s[4..];
        }
      }
    }
  }

  // ---- integers to integers ------------------------------------------------------------------------------------

  /** Narrowing rounds toward negative infinity, widening multiplies: for every pair of depths and every sample. */
  lemma RequantFloors(a: int, b: int, s: seq<byte>)
    requires IntDepth(a) && IntDepth(b) && |s| == a / 8
    ensures
      var v, r := Dec(a, s), Dec(b, One(Job(PCM, a, b), s));
      && (b < a ==> r * Pow2(a - b) <= v < (r + 1) * Pow2(a - b))
      && (b >= a ==> r == v * Pow2(b - a))
  {
    hide Dec, Enc, Pow2;
    var v := Dec(a, s);
    RequantInRange(v, a, b);
    DecOfEnc(b, Requant(v, a, b));
    DepthPowers();
  }

  lemma DepthPowers()
    ensures Pow2(0) == 1 && Pow2(8) == 0x100 && Pow2(16) == 0x1_0000 && Pow2(24) == 0x100_0000
  {
    hide Pow2;
    Pow2Values();
    Pow2Zero();
    Pow2Step(7);
    Pow2Step(15);
    Pow2Step(23);
  }

  lemma Pow2Zero()
    ensures Pow2(0) == 1
  {
  }

  /** The 8-bit bias: 128 added in one byte. */
  function Biased(c: byte): byte {
    if c < 128 then c + 128 else c - 128
  }

  /** The bytes of a sample converted from a to b bits: the most significant bytes that fit survive, zeros fill in below
      them, and the top byte is biased when exactly one of the depths is 8. */
  function Requantised(a: int, b: int, s: seq<byte>): seq<byte>
    requires IntDepth(a) && IntDepth(b) && |s| == a / 8
  {
    var top := if (a == 8) != (b == 8) then s[..|s| - 1] + [Biased(s[|s| - 1])] else s;
    if b <= a then top[(a - b) / 8..] else Zeros((b - a) / 8) + top
  }

  /** Integer conversion is a movement of bytes. */
  lemma RequantMovesBytes(a: int, b: int, s: seq<byte>)
    requires IntDepth(a) && IntDepth(b) && |s| == a / 8
    ensures One(Job(PCM, a, b), s) == Requantised(a, b, s)
  {
    hide Enc, Dec, Requant;
    MovedValue(a, b, s);
    EncOfDec(b, Requantised(a, b, s));
    assert Value(Job(PCM, a, b), s) == Requant(Dec(a, s), a, b);
  }

  lemma MovedValue(a: int, b: int, s: seq<byte>)
    requires IntDepth(a) && IntDepth(b) && |s| == a / 8
    ensures |Requantised(a, b, s)| == b / 8 && Dec(b, Requantised(a, b, s)) == Requant(Dec(a, s), a, b)
  {
    if a == 8 {
      From8(b, s);
    } else if b == 8 {
      To8(a, s);
    } else if b <= a {
      Narrowed(a, b, s);
    } else {
      Widened(a, b, s);
    }
  }

  lemma From8(b: int, s: seq<byte>)
    requires IntDepth(b) && |s| == 1
    ensures |Requantised(8, b, s)| == b / 8 && Dec(b, Requantised(8, b, s)) == Requant(Dec(8, s), 8, b)
  {
  }

  lemma To8(a: int, s: seq<byte>)
    requires IntDepth(a) && a > 8 && |s| == a / 8
    ensures |Requantised(a, 8, s)| == 1 && Dec(8, Requantised(a, 8, s)) == Requant(Dec(a, s), a, 8)
  {
  }

  lemma Narrowed(a: int, b: int, s: seq<byte>)
    requires IntDepth(a) && IntDepth(b) && 8 < b <= a && |s| == a / 8
    ensures |Requantised(a, b, s)| == b / 8 && Dec(b, Requantised(a, b, s)) == Requant(Dec(a, s), a, b)
  {
  }

  lemma Widened(a: int, b: int, s: seq<byte>)
    requires IntDepth(a) && IntDepth(b) && 8 < a < b && |s| == a / 8
    ensures |Requantised(a, b, s)| == b / 8 && Dec(b, Requantised(a, b, s)) == Requant(Dec(a, s), a, b)
  {
  }

  // ---- companded codes and floats ------------------------------------------------------------------------------

  /** A companded code becomes the value of its own law, scaled from 16 bits as an integer sample is. */
  lemma ExpansionFloors(format: SampleFormat, b: int, code: byte)
    requires format.Companded() && IntDepth(b)
    ensures
      var v := if format == ALaw then DecodeALaw(ToBits(code)) else DecodeMuLaw(ToBits(code));
      var r := Dec(b, One(Job(format, 8, b), [code]));
      && (b == 8 ==> r * 0x100 <= v < (r + 1) * 0x100)
      && (b >= 16 ==> r == v * Pow2(b - 16))
  {
    hide Dec, Enc, Pow2, DecodeALaw, DecodeMuLaw, ToBits;
    DecOfEnc(b, Value(Job(format, 8, b), [code]));
    DepthPowers();
  }

  /** The integer next to v, the one farther from zero of two equally near. */
  predicate Nearest(r: int, v: real) {
    && Abs(r as real - v) <= 0.5
    && (Abs(r as real - v) == 0.5 ==> Abs(r as real) > Abs(v))
  }

  /** A float sample becomes the integer nearest to its value times full scale, clamped to the range of the depth;
      infinities clamp and NaN is silence. */
  lemma FloatsAreScaled(bits: int, b: int, s: seq<byte>)
    requires bits in {32, 64} && IntDepth(b) && |s| == bits / 8
    ensures
      var r, full: int := Dec(b, One(Job(Float, bits, b), s)), Pow2(b - 1);
      match DecodeFloat(bits, s)
      case NaN => r == 0
      case PosInf => r == full - 1
      case NegInf => r == -full
      case Fin(x) =>
        var v := Times(x, full as real);
        if v >= full as real - 1.0 then r == full - 1
        else if v <= -(full as real) then r == -full
        else Nearest(r, v)
  {
    hide Dec, Enc, Pow2, DecodeFloat, Times, Nearest, Clamp, RoundHalfAway, FullScale;
    var f := DecodeFloat(bits, s);
    DecodedFloatIsValid(bits, s);
    DecOfEnc(b, Value(Job(Float, bits, b), s));
    FullScaleIsPower(b);
    if f.Fin? {
      ClampedIsNearest(Times(f.x, FullScale(b) as real), FullScale(b));
    }
  }

  lemma ClampedIsNearest(v: real, full: int)
    requires full > 0
    ensures
      var r := Clamp(RoundHalfAway(v), -full, full - 1);
      if v >= full as real - 1.0 then r == full - 1
      else if v <= -(full as real) then r == -full
      else Nearest(r, v)
  {
  }

  // ---- whole streams -------------------------------------------------------------------------------------------

  /** Every sample is converted by itself and keeps its place among the others; a partial one at the end is dropped. */
  lemma EverySampleInItsPlace(j: Job, before: seq<byte>, s: seq<byte>, behind: seq<byte>)
    requires j.Valid() && |before| % j.SrcWidth() == 0 && |s| == j.SrcWidth()
    ensures All(j, before + (s + behind)) == All(j, before) + (One(j, s) + All(j, behind))
    ensures |All(j, before)| == |before| / j.SrcWidth() * j.DstWidth()
    ensures |behind| < j.SrcWidth() ==> All(j, behind) == []
  {
    hide All, One;
    AllSplit(j, before, s + behind);
    AllSplit(j, s, behind);
    AllOfOne(j, s);
    if |behind| < j.SrcWidth() {
      AllNone(j, behind);
    }
  }
}
