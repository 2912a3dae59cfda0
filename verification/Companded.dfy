/** G.711 expansion (section 3 of ITU-T G.711) as the code performs it, bit by bit. */
module Companded {
  import opened Wire

  const SIGN_BIT: bv8 := 0x80
  const SEG_MASK: bv8 := 0x70
  const MANT_MASK: bv8 := 0x0f
  const ALAW_INVERT: bv8 := 0x55
  const MULAW_BIAS := 0x84

  /** The bits of a byte. */
  function ToBits(b: byte): (v: bv8)
    ensures v as int == b
    decreases b as int
  {
    if b == 0 then 0
    else
      var p := ToBits(b - 1);
      NextBits(p);
      p + 1
  }

  lemma NextBits(v: bv8)
    requires v as int < 255
    ensures (v + 1) as int == v as int + 1
  {
  }

  function Shl(x: int, n: int): int {
    match n
    case 0 => x
    case 1 => 2 * x
    case 2 => 4 * x
    case 3 => 8 * x
    case 4 => 16 * x
    case 5 => 32 * x
    case 6 => 64 * x
    case _ => 128 * x
  }

  function DecodeALaw(code: bv8): (v: int16)
    ensures -32256 <= v <= 32256
  {
    var c := code ^ ALAW_INVERT;
    var seg, mant := Segment(c), Mantissa(c);
    var mag := 16 * mant;
    var mag := if seg == 0 then mag + 8 else if seg == 1 then mag + 0x108 else Shl(mag + 0x108, seg - 1);
    if c & SIGN_BIT != 0 then mag else -mag
  }

  /** The three-bit segment of a code, and its four-bit mantissa. */
  function Segment(c: bv8): (n: nat)
    ensures n < 8
  {
    ((c & SEG_MASK) >> 4) as int
  }

  function Mantissa(c: bv8): (n: nat)
    ensures n < 16
  {
    (c & MANT_MASK) as int
  }

  function DecodeMuLaw(code: bv8): (v: int16)
    ensures -32124 <= v <= 32124
  {
    var c := !code;
    var mag := 8 * Mantissa(c) + MULAW_BIAS;
    var mag := Shl(mag, Segment(c));
    if c & SIGN_BIT != 0 then MULAW_BIAS - mag else mag - MULAW_BIAS
  }

  /** Both laws are odd: flipping the sign bit of a code negates its sample. */
  lemma LawsAreOdd(code: bv8)
    ensures DecodeALaw(code ^ SIGN_BIT) == -DecodeALaw(code)
    ensures DecodeMuLaw(code ^ SIGN_BIT) == -DecodeMuLaw(code)
  {
    hide Shl, Segment, Mantissa;
    FlippedFields(code, ALAW_INVERT);
    FlippedComplement(code);
  }

  lemma FlippedComplement(code: bv8)
    ensures var a, b := !code, !(code ^ SIGN_BIT);
            Segment(a) == Segment(b) && Mantissa(a) == Mantissa(b) && (a & SIGN_BIT != 0 <==> b & SIGN_BIT == 0)
  {
    var a, b := !code, !(code ^ SIGN_BIT);
    assert a & SEG_MASK == b & SEG_MASK && a & MANT_MASK == b & MANT_MASK;
  }

  lemma FlippedFields(code: bv8, mask: bv8)
    ensures var a, b := code ^ mask, (code ^ SIGN_BIT) ^ mask;
            Segment(a) == Segment(b) && Mantissa(a) == Mantissa(b) && (a & SIGN_BIT != 0 <==> b & SIGN_BIT == 0)
  {
    var a, b := code ^ mask, (code ^ SIGN_BIT) ^ mask;
    assert a & SEG_MASK == b & SEG_MASK && a & MANT_MASK == b & MANT_MASK;
  }

  // ---- the values of the laws ----------------------------------------------------------------------------------

  /** A-law, counted up from its smallest positive code: 32 equal steps of 16 from 8 on, then every segment doubles the
      one below it. With oddness this fixes all 256 values. */
  lemma ALawSegmentsDouble(c: bv8)
    requires c >= 0x80
    ensures
      var v, n := DecodeALaw(c ^ ALAW_INVERT), c as int - 128;
      && (n < 32 ==> v == 16 * n + 8)
      && (n >= 32 ==> v == 2 * DecodeALaw((c - 16) ^ ALAW_INVERT))
  {
    hide Segment, Mantissa, DecodeALaw;
    FieldsOfCode(c);
    ALawByFields(c);
    if c as int >= 160 {
      OneSegmentDown(c);
      ALawByFields(c - 16);
    }
  }

  lemma ALawByFields(c: bv8)
    requires c >= 0x80
    ensures
      var seg, mant := Segment(c), Mantissa(c);
      DecodeALaw(c ^ ALAW_INVERT) == if seg == 0 then 16 * mant + 8 else Shl(16 * mant + 264, seg - 1)
  {
    hide Segment, Mantissa;
    assert (c ^ ALAW_INVERT) ^ ALAW_INVERT == c && c & SIGN_BIT != 0;
  }

  /** mu-law, counted up from its positive zero, which is the top code: 16 equal steps of 8, then, past a bias of 132,
      every segment doubles the one below it. With oddness this fixes all 256 values. */
  lemma MuLawSegmentsDouble(c: bv8)
    requires c >= 0x80
    ensures
      var v, n := DecodeMuLaw(c), 255 - c as int;
      && (n < 16 ==> v == 8 * n)
      && (n >= 16 ==> v + 132 == 2 * (DecodeMuLaw(c + 16) + 132))
  {
    hide Segment, Mantissa, DecodeMuLaw;
    FieldsOfComplement(c);
    MuLawByFields(c);
    if c as int < 240 {
      OneSegmentUp(c);
      MuLawByFields(c + 16);
    }
  }

  lemma MuLawByFields(c: bv8)
    requires c >= 0x80
    ensures DecodeMuLaw(c) == Shl(8 * Mantissa(!c) + 132, Segment(!c)) - 132
  {
    hide Segment, Mantissa, Shl;
    assert !c & SIGN_BIT == 0;
  }

  lemma FieldsOfCode(c: bv8)
    requires c >= 0x80
    ensures c as int == 128 + 16 * Segment(c) + Mantissa(c)
  {
  }

  lemma OneSegmentDown(c: bv8)
    requires c as int >= 144
    ensures c - 16 >= 0x80 && Segment(c - 16) == Segment(c) - 1 && Mantissa(c - 16) == Mantissa(c)
  {
    hide Segment, Mantissa;
    assert c - 16 >= 0x80 && (c - 16) as int == c as int - 16;
    FieldsOfCode(c);
    FieldsOfCode(c - 16);
  }

  lemma FieldsOfComplement(c: bv8)
    requires c >= 0x80
    ensures 255 - c as int == 16 * Segment(!c) + Mantissa(!c)
  {
  }

  lemma OneSegmentUp(c: bv8)
    requires c >= 0x80 && c as int < 240
    ensures c + 16 >= 0x80 && Segment(!(c + 16)) == Segment(!c) - 1 && Mantissa(!(c + 16)) == Mantissa(!c)
  {
    hide Segment, Mantissa;
    assert c + 16 >= 0x80 && (c + 16) as int == c as int + 16;
    FieldsOfComplement(c);
    FieldsOfComplement(c + 16);
  }

  /** The expansion table of a law, filled code by code. */
  method BuildTable(law: bv8 -> int16) returns (t: array<int16>)
    ensures fresh(t) && t.Length == 256
    ensures forall code :: 0 <= code < 256 ==> t[code] == law(ToBits(code))
  {
    t := new int16[256](_ => 0);
    var code := 0;
    while code < 256
      invariant 0 <= code <= 256
      invariant forall k :: 0 <= k < code ==> t[k] == law(ToBits(k))
    {
      t[code] := law(ToBits(code));
      code := code + 1;
    }
  }
}
