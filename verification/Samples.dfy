/** What converting samples means: decode one sample, requantise or quantise it, encode it. */
module Samples {
  import opened Wire
  import opened Types
  import opened Arith
  import opened Binary64
  import opened Quantizer
  import opened Companded

  /** A conversion to signed integer PCM of dstBits. */
  datatype Job = Job(format: SampleFormat, srcBits: int, dstBits: int) {
    predicate Valid() {
      ValidDepth(format, srcBits) && ValidDepth(PCM, dstBits)
    }

    function SrcWidth(): (w: nat)
      requires Valid()
      ensures w in {1, 2, 3, 4, 8} && w == BytesPerSample(srcBits)
    {
      srcBits / 8
    }

    function DstWidth(): (w: nat)
      requires Valid()
      ensures w in {1, 2, 3, 4} && w == BytesPerSample(dstBits)
    {
      dstBits / 8
    }
  }

  predicate InRange(v: int, bits: int) {
    -FullScale(bits) <= v < FullScale(bits)
  }

  predicate IntDepth(bits: int) {
    bits in {8, 16, 24, 32}
  }

  /** The unsigned little-endian number a sample's bytes spell. */
  function Unsigned(bits: int, s: seq<byte>): (u: int)
    requires IntDepth(bits) && |s| == bits / 8
    ensures 0 <= u < 2 * FullScale(bits)
  {
    if bits == 8 then s[0]
    else if bits == 16 then U16(s, 0)
    else if bits == 24 then U16(s, 0) as int + 0x1_0000 * s[2] as int
    else U32(s, 0)
  }

  /** Stored integer PCM as a signed value: biased by 128 at 8 bits, two's complement above. */
  function Dec(bits: int, s: seq<byte>): (v: int)
    requires IntDepth(bits) && |s| == bits / 8
    ensures InRange(v, bits)
  {
    var u := Unsigned(bits, s);
    if bits == 8 then u - 128 else if u >= FullScale(bits) then u - 2 * FullScale(bits) else u
  }

  function Pack(bits: int, u: int): (s: seq<byte>)
    requires IntDepth(bits) && 0 <= u < 2 * FullScale(bits)
    ensures |s| == bits / 8
  {
    if bits == 8 then [u]
    else if bits == 16 then Le16(u)
    else if bits == 24 then Le16(u % 0x1_0000) + [u / 0x1_0000]
    else Le32(u)
  }

  function Enc(bits: int, v: int): (s: seq<byte>)
    requires IntDepth(bits) && InRange(v, bits)
    ensures |s| == bits / 8
  {
    Pack(bits, if bits == 8 then v + 128 else if v < 0 then v + 2 * FullScale(bits) else v)
  }

  lemma UnsignedOfPack(bits: int, u: int)
    requires IntDepth(bits) && 0 <= u < 2 * FullScale(bits)
    ensures Unsigned(bits, Pack(bits, u)) == u
  {
    if bits == 32 {
      ReadBack32([], u, []);
      assert [] + Le32(u) + [] == Le32(u);
    }
  }

  lemma PackOfUnsigned(bits: int, s: seq<byte>)
    requires IntDepth(bits) && |s| == bits / 8
    ensures Pack(bits, Unsigned(bits, s)) == s
  {
    if bits == 32 {
      WriteBack32(s);
    } else if bits == 24 {
      WriteBack16(s[..2]);
      assert Unsigned(bits, s) % 0x1_0000 == U16(s[..2], 0);
    } else if bits == 16 {
      WriteBack16(s);
    }
  }

  lemma DecOfEnc(bits: int, v: int)
    requires IntDepth(bits) && InRange(v, bits)
    ensures Dec(bits, Enc(bits, v)) == v
  {
    hide Pack, Unsigned;
    UnsignedOfPack(bits, if bits == 8 then v + 128 else if v < 0 then v + 2 * FullScale(bits) else v);
  }

  lemma EncOfDec(bits: int, s: seq<byte>)
    requires IntDepth(bits) && |s| == bits / 8
    ensures Enc(bits, Dec(bits, s)) == s
  {
    hide Pack, Unsigned;
    PackOfUnsigned(bits, s);
  }

  function Scale(n: int): (k: nat)
    ensures k > 0
  {
    if n == 8 then 0x100 else if n == 16 then 0x1_0000 else if n == 24 then 0x100_0000 else 1
  }

  /** Widening is a left shift, narrowing an arithmetic right shift, which rounds toward negative infinity. */
  function Requant(v: int, a: int, b: int): int {
    if b >= a then v * Scale(b - a) else v / Scale(a - b)
  }

  lemma RequantInRange(v: int, a: int, b: int)
    requires IntDepth(a) && IntDepth(b) && InRange(v, a)
    ensures InRange(Requant(v, a, b), b)
  {
  }

  /** The IEEE 754 value a binary32 or binary64 pattern stands for. */
  function DecodeFloat(bits: int, s: seq<byte>): F64
    requires bits in {32, 64} && |s| == bits / 8
  {
    if bits == 32 then
      var u := U32(s, 0);
      Assemble(u / 0x8000_0000 == 1, u / 0x80_0000 % 0x100, u % 0x80_0000, 0xff, 0x80_0000, -149)
    else
      var u := U64(s, 0);
      Assemble(u / 0x8000_0000_0000_0000 == 1, u / 0x10_0000_0000_0000 % 0x800, u % 0x10_0000_0000_0000, 0x7ff,
               0x10_0000_0000_0000, -1074)
  }

  function Assemble(negative: bool, exponent: nat, fraction: nat, top: nat, hidden: nat, least: int): F64 {
    var sign := if negative then -1 else 1;
    if exponent == top then (if fraction != 0 then NaN else if negative then NegInf else PosInf)
    else if exponent == 0 then Fin(Scaled(sign * fraction, least))
    else Fin(Scaled(sign * (hidden + fraction), least + exponent - 1))
  }

  /** Every bit pattern decodes to a value binary64 holds; widening binary32 to binary64 is exact. */
  lemma DecodedFloatIsValid(bits: int, s: seq<byte>)
    requires bits in {32, 64} && |s| == bits / 8
    ensures Valid(DecodeFloat(bits, s))
  {
    hide P;
    if bits == 32 {
      var u := U32(s, 0);
      AssembledIsValid(u / 0x8000_0000 == 1, u / 0x80_0000 % 0x100, u % 0x80_0000, 0xff, 0x80_0000, -149);
    } else {
      var u := U64(s, 0);
      AssembledIsValid(u / 0x8000_0000_0000_0000 == 1, u / 0x10_0000_0000_0000 % 0x800, u % 0x10_0000_0000_0000, 0x7ff,
                       0x10_0000_0000_0000, -1074);
    }
  }

  lemma AssembledIsValid(negative: bool, exponent: nat, fraction: nat, top: nat, hidden: nat, least: int)
    requires fraction < hidden <= 0x10_0000_0000_0000 && exponent <= top
    requires MIN_EXP <= least && least + top - 2 <= MAX_EXP
    requires top > 0 && least <= MAX_EXP
    ensures Valid(Assemble(negative, exponent, fraction, top, hidden, least))
  {
    hide P, Scaled;
    var sign := if negative then -1 else 1;
    if exponent == 0 {
      assert IsForm(Scaled(sign * fraction, least), sign * fraction, least);
    } else if exponent < top {
      assert IsForm(Scaled(sign * (hidden + fraction), least + exponent - 1), sign * (hidden + fraction),
        least + exponent - 1);
    }
  }

  /** One source sample as a value at the destination depth. */
  function Value(j: Job, s: seq<byte>): (v: int)
    requires j.Valid() && |s| == j.SrcWidth()
    ensures InRange(v, j.dstBits)
  {
    match j.format
    case PCM =>
      RequantInRange(Dec(j.srcBits, s), j.srcBits, j.dstBits);
      Requant(Dec(j.srcBits, s), j.srcBits, j.dstBits)
    case ALaw =>
      RequantInRange(DecodeALaw(ToBits(s[0])), 16, j.dstBits);
      Requant(DecodeALaw(ToBits(s[0])), 16, j.dstBits)
    case MuLaw =>
      RequantInRange(DecodeMuLaw(ToBits(s[0])), 16, j.dstBits);
      Requant(DecodeMuLaw(ToBits(s[0])), 16, j.dstBits)
    case Float =>
      DecodedFloatIsValid(j.srcBits, s);
      QuantizeIsIdeal(DecodeFloat(j.srcBits, s), j.dstBits);
      Ideal(DecodeFloat(j.srcBits, s), j.dstBits)
  }

  /** The values of the whole samples of src; a trailing partial sample is ignored. */
  function Values(j: Job, src: seq<byte>): (vs: seq<int>)
    requires j.Valid()
    ensures |vs| == |src| / j.SrcWidth()
    ensures forall v <- vs :: InRange(v, j.dstBits)
    decreases |src|
  {
    var w := j.SrcWidth();
    if |src| < w then []
    else
      OneLess(|src|, w);
      [Value(j, src[..w])] + Values(j, src[w..])
  }

  function Encs(bits: int, vs: seq<int>): (s: seq<byte>)
    requires IntDepth(bits) && forall v <- vs :: InRange(v, bits)
    ensures |s| == |vs| * (bits / 8)
    decreases |vs|
  {
    if vs == [] then [] else
      EncsLen(|vs|, bits / 8);
      Enc(bits, vs[0]) + Encs(bits, vs[1..])
  }

  lemma EncsLen(n: nat, w: nat)
    requires n > 0
    ensures (n - 1) * w + w == n * w
  {
  }

  /** The converted form of a byte string. */
  function All(j: Job, src: seq<byte>): (out: seq<byte>)
    requires j.Valid()
    ensures |out| == |src| / j.SrcWidth() * j.DstWidth()
  {
    Encs(j.dstBits, Values(j, src))
  }

  /** One sample converted. */
  function One(j: Job, s: seq<byte>): (out: seq<byte>)
    requires j.Valid() && |s| == j.SrcWidth()
    ensures |out| == j.DstWidth()
  {
    Enc(j.dstBits, Value(j, s))
  }

  lemma AllStep(j: Job, src: seq<byte>)
    requires j.Valid() && |src| >= j.SrcWidth()
    ensures All(j, src) == One(j, src[..j.SrcWidth()]) + All(j, src[j.SrcWidth()..])
  {
    hide Value, Enc;
    var w := j.SrcWidth();
    var vs := Values(j, src);
    assert vs[0] == Value(j, src[..w]) && vs[1..] == Values(j, src[w..]);
  }

  lemma AllNone(j: Job, src: seq<byte>)
    requires j.Valid() && |src| < j.SrcWidth()
    ensures All(j, src) == []
  {
  }

  /** Conversion distributes over a split at a sample boundary. */
  lemma {:induction false} AllSplit(j: Job, x: seq<byte>, y: seq<byte>)
    requires j.Valid() && |x| % j.SrcWidth() == 0
    ensures All(j, x + y) == All(j, x) + All(j, y)
    decreases |x|
  {
    hide All, One;
    var w := j.SrcWidth();
    if |x| < w {
      AllNone(j, x);
      assert x + y == y;
    } else {
      AllStep(j, x);
      AllStep(j, x + y);
      assert (x + y)[..w] == x[..w] && (x + y)[w..] == x[w..] + y;
      OneLess(|x|, w);
      AllSplit(j, x[w..], y);
    }
  }

  // ---- requantisation composes ---------------------------------------------------------------------------------

  lemma RequantComposes(v: int, a: int, b: int, c: int)
    requires IntDepth(a) && IntDepth(b) && IntDepth(c) && b >= Min(a, c)
    ensures Requant(Requant(v, a, b), b, c) == Requant(v, a, c)
  {
  }

  /** A value that shows the stop at b: exact at a and c, lost at b. */
  function Witness(a: int, c: int): int {
    if c >= a then 1 else Scale(a - c)
  }

  lemma RequantLoses(a: int, b: int, c: int)
    requires IntDepth(a) && IntDepth(b) && IntDepth(c) && b < Min(a, c)
    ensures InRange(Witness(a, c), a)
    ensures Requant(Requant(Witness(a, c), a, b), b, c) != Requant(Witness(a, c), a, c)
  {
  }

  lemma OneComposes(s: seq<byte>, a: int, b: int, c: int)
    requires IntDepth(a) && IntDepth(b) && IntDepth(c) && b >= Min(a, c) && |s| == a / 8
    ensures One(Job(PCM, b, c), One(Job(PCM, a, b), s)) == One(Job(PCM, a, c), s)
  {
    hide Enc, Dec, Requant;
    RequantInRange(Dec(a, s), a, b);
    DecOfEnc(b, Requant(Dec(a, s), a, b));
    RequantComposes(Dec(a, s), a, b, c);
  }

  lemma {:induction false} AllComposes(src: seq<byte>, first: Job, second: Job, direct: Job)
    requires first.Valid() && second.Valid() && direct.Valid()
    requires second.format == PCM && first.dstBits == second.srcBits
    requires direct == Job(first.format, first.srcBits, second.dstBits)
    requires forall s: seq<byte> :: |s| == first.SrcWidth() ==> One(second, One(first, s)) == One(direct, s)
    ensures All(second, All(first, src)) == All(direct, src)
    decreases |src|
  {
    hide All, One;
    var w := first.SrcWidth();
    if |src| < w {
      AllNone(first, src);
      AllNone(direct, src);
      AllNone(second, []);
    } else {
      AllStep(first, src);
      AllStep(direct, src);
      var one, rest := One(first, src[..w]), All(first, src[w..]);
      AllStep(second, one + rest);
      assert (one + rest)[..|one|] == one && (one + rest)[|one|..] == rest;
      AllComposes(src[w..], first, second, direct);
    }
  }

  lemma AllOfOne(j: Job, s: seq<byte>)
    requires j.Valid() && |s| == j.SrcWidth()
    ensures All(j, s) == One(j, s)
  {
    hide All, One;
    AllStep(j, s);
    AllNone(j, s[j.SrcWidth()..]);
    assert s[..j.SrcWidth()] == s;
  }

  /** Converting a to b and then b to c is converting a to c, for every byte string, exactly when b is at least the
      smaller of a and c. Widening then narrowing back (c = a) is the instance b >= a. */
  lemma RequantisationComposes(a: int, b: int, c: int)
    requires IntDepth(a) && IntDepth(b) && IntDepth(c)
    ensures (forall src: seq<byte> :: All(Job(PCM, b, c), All(Job(PCM, a, b), src)) == All(Job(PCM, a, c), src))
       <==> b >= Min(a, c)
  {
    hide All, One, Enc, Dec, Requant;
    var ab, bc, ac := Job(PCM, a, b), Job(PCM, b, c), Job(PCM, a, c);
    if b >= Min(a, c) {
      forall s: seq<byte> | |s| == ab.SrcWidth() ensures One(bc, One(ab, s)) == One(ac, s) {
        OneComposes(s, a, b, c);
      }
      forall src: seq<byte> ensures All(bc, All(ab, src)) == All(ac, src) {
        AllComposes(src, ab, bc, ac);
      }
    } else {
      RequantLoses(a, b, c);
      var s := Enc(a, Witness(a, c));
      StopLosesSample(s, a, b, c);
      AllOfOne(ab, s);
      AllOfOne(bc, One(ab, s));
      AllOfOne(ac, s);
    }
  }

  lemma StopLosesSample(s: seq<byte>, a: int, b: int, c: int)
    requires IntDepth(a) && IntDepth(b) && IntDepth(c) && b < Min(a, c)
    requires InRange(Witness(a, c), a) && s == Enc(a, Witness(a, c))
    ensures One(Job(PCM, b, c), One(Job(PCM, a, b), s)) != One(Job(PCM, a, c), s)
  {
    hide Enc, Dec, Requant;
    var v := Witness(a, c);
    RequantLoses(a, b, c);
    DecOfEnc(a, v);
    RequantInRange(v, a, b);
    DecOfEnc(b, Requant(v, a, b));
    RequantInRange(Requant(v, a, b), b, c);
    RequantInRange(v, a, c);
    DecOfEnc(c, Requant(Requant(v, a, b), b, c));
    DecOfEnc(c, Requant(v, a, c));
  }

  lemma RequantToSameDepth(v: int, a: int)
    ensures Requant(v, a, a) == v
  {
  }

  /** A companded stream converted straight to any depth is the stream expanded to 16 bits and then requantised. */
  lemma CompandedGoesThrough16(format: SampleFormat, d: int, src: seq<byte>)
    requires format.Companded() && IntDepth(d)
    ensures All(Job(PCM, 16, d), All(Job(format, 8, 16), src)) == All(Job(format, 8, d), src)
  {
    hide All;
    var first, second, direct := Job(format, 8, 16), Job(PCM, 16, d), Job(format, 8, d);
    forall s: seq<byte> | |s| == first.SrcWidth() ensures One(second, One(first, s)) == One(direct, s) {
      hide Enc, Dec, Requant, DecodeALaw, DecodeMuLaw, ToBits;
      RequantToSameDepth(if format == ALaw then DecodeALaw(ToBits(s[0])) else DecodeMuLaw(ToBits(s[0])), 16);
      DecOfEnc(16, Value(first, s));
    }
    AllComposes(src, first, second, direct);
  }

  /** At equal depths conversion is the identity on whole samples. */
  lemma {:induction false} SameDepthIsCopy(a: int, src: seq<byte>)
    requires IntDepth(a) && |src| % (a / 8) == 0
    ensures All(Job(PCM, a, a), src) == src
    decreases |src|
  {
    hide All, Enc, Dec, Requant;
    var j := Job(PCM, a, a);
    var w := j.SrcWidth();
    if |src| < w {
      AllNone(j, src);
    } else {
      AllStep(j, src);
      EncOfDec(a, src[..w]);
      RequantToSameDepth(Dec(a, src[..w]), a);
      OneLess(|src|, w);
      SameDepthIsCopy(a, src[w..]);
      assert src == src[..w] + src[w..];
    }
  }
}
