/** The conversion loops: single-pass byte kernels and 1024-sample blocks, all refining the per-sample meaning. Every
    loop writes a window of dst and says so as a splice. */
module Conversion {
  import opened Wire
  import opened Types
  import opened Arith
  import opened Quantizer
  import opened Companded
  import opened Samples

  const BLOCK_SAMPLES := 1024

  // ---- planning ------------------------------------------------------------------------------------------------

  /** The destination size, or None when a platform int of the given maximum cannot express it. */
  function ConvertedLen(srcLen: int, srcBits: int, dstBits: int, maxInt: nat): Option<nat> {
    var srcWidth, dstWidth := BytesPerSample(srcBits), BytesPerSample(dstBits);
    if srcLen <= 0 || srcWidth <= 0 || dstWidth <= 0 then Some(0)
    else
      var samples := srcLen / srcWidth;
      if samples > maxInt / dstWidth then None else Some(samples * dstWidth)
  }

  function ConvertPlan(srcLen: nat, dstLen: nat, j: Job, maxInt: nat): Result<nat> {
    if !ValidDepth(j.format, j.srcBits) || !ValidDepth(PCM, j.dstBits) then Err(Unsupported)
    else
      match ConvertedLen(srcLen, j.srcBits, j.dstBits, maxInt)
      case None => Err(ShortBuffer)
      case Some(need) => if dstLen < need then Err(ShortBuffer) else Ok(need)
  }

  /** The plan succeeds exactly when the depths are supported and the converted form fits both the platform and the
      destination, and it names the converted length. */
  lemma PlanIsExact(src: seq<byte>, dstLen: nat, j: Job, maxInt: nat)
    requires dstLen <= maxInt
    ensures ConvertPlan(|src|, dstLen, j, maxInt)
         == if !j.Valid() then Err(Unsupported) else if |All(j, src)| > dstLen then Err(ShortBuffer)
           else Ok(|All(j, src)|)
  {
    if j.Valid() {
      ProductGuard(|src| / j.SrcWidth(), j.DstWidth(), maxInt);
      if src == [] {
        ZeroSamples(j.SrcWidth(), j.DstWidth());
      }
    }
  }

  lemma ZeroSamples(w: nat, d: nat)
    requires w > 0
    ensures 0 / w * d == 0
  {
  }

  // ---- sequences of values -------------------------------------------------------------------------------------

  /** The stored values of the samples of src. */
  function Decs(bits: int, src: seq<byte>): (vs: seq<int>)
    requires IntDepth(bits)
    ensures forall v <- vs :: InRange(v, bits)
    decreases |src|
  {
    if |src| < bits / 8 then [] else [Dec(bits, src[..bits / 8])] + Decs(bits, src[bits / 8..])
  }

  function Requants(vs: seq<int>, a: int, b: int): (ws: seq<int>)
    ensures |ws| == |vs| && forall i :: 0 <= i < |vs| ==> ws[i] == Requant(vs[i], a, b)
  {
    seq(|vs|, i requires 0 <= i < |vs| => Requant(vs[i], a, b))
  }

  /** Decoding a block and requantising every value of it yields the block's converted values. */
  lemma {:induction false} ValuesAreRequants(j: Job, src: seq<byte>)
    requires j.Valid() && j.format == PCM
    ensures Values(j, src) == Requants(Decs(j.srcBits, src), j.srcBits, j.dstBits)
    decreases |src|
  {
    hide Dec, Requant;
    var w := j.SrcWidth();
    if |src| < w {
    } else {
      ValuesAreRequants(j, src[w..]);
    }
  }

  function Expand(format: SampleFormat, code: byte): int16
    requires format.Companded()
  {
    if format == ALaw then DecodeALaw(ToBits(code)) else DecodeMuLaw(ToBits(code))
  }

  function Expands(format: SampleFormat, codes: seq<byte>): (vs: seq<int>)
    requires format.Companded()
    ensures |vs| == |codes| && forall i :: 0 <= i < |vs| ==> vs[i] == Expand(format, codes[i])
  {
    seq(|codes|, i requires 0 <= i < |codes| => Expand(format, codes[i]))
  }

  lemma {:induction false} ValuesAreExpansions(j: Job, src: seq<byte>)
    requires j.Valid() && j.format.Companded()
    ensures Values(j, src) == Requants(Expands(j.format, src), 16, j.dstBits)
    decreases |src|
  {
    hide Requant, Expand, DecodeALaw, DecodeMuLaw, ToBits;
    if src == [] {
    } else {
      ValuesAreExpansions(j, src[1..]);
      assert Value(j, src[..1]) == Requant(Expand(j.format, src[0]), 16, j.dstBits) by {
        FirstExpansion(j, src[..1]);
      }
      assert Requants(Expands(j.format, src), 16, j.dstBits)[1..]
        == Requants(Expands(j.format, src[1..]), 16, j.dstBits);
    }
  }

  lemma FirstExpansion(j: Job, s: seq<byte>)
    requires j.Valid() && j.format.Companded() && |s| == 1
    ensures Value(j, s) == Requant(Expand(j.format, s[0]), 16, j.dstBits)
  {
    hide Requant, DecodeALaw, DecodeMuLaw, ToBits;
  }

  // ---- block helpers -------------------------------------------------------------------------------------------

  /** Reads a block of stored samples into the staging buffer; the width is switched on once. */
  method DecodeBlock(tmp: array<int32>, n: nat, src: seq<byte>, bits: int)
    requires IntDepth(bits) && n <= tmp.Length && |src| == n * (bits / 8)
    modifies tmp
    ensures tmp[..n] == Decs(bits, src)
  {
    match bits {
      case 8 => DecodeBlock8(tmp, n, src);
      case 16 => DecodeBlock16(tmp, n, src);
      case 24 => DecodeBlock24(tmp, n, src);
      case _ => DecodeBlock32(tmp, n, src);
    }
  }

  method DecodeBlock8(tmp: array<int32>, n: nat, src: seq<byte>)
    requires n <= tmp.Length && |src| == n
    modifies tmp
    ensures tmp[..n] == Decs(8, src)
  {
    hide Dec, Decs, U32;
    assert src[0..] == src;
    assert tmp[..0] == [];
    var i := 0;
    while i < n
      invariant 0 <= i <= n
      invariant tmp[..i] + Decs(8, src[i..]) == Decs(8, src)
    {
      tmp[i] := src[i] as int - 128;
      DecAt(8, src, i);
      DecsStep(8, src, i, tmp[i]);
      i := i + 1;
      assert tmp[..i] == tmp[..i - 1] + [tmp[i - 1]];
    }
    DecsEnd(8, src);
  }

  method DecodeBlock16(tmp: array<int32>, n: nat, src: seq<byte>)
    requires n <= tmp.Length && |src| == 2 * n
    modifies tmp
    ensures tmp[..n] == Decs(16, src)
  {
    hide Dec, Decs, U32;
    assert src[0..] == src;
    assert tmp[..0] == [];
    var i := 0;
    while i < n
      invariant 0 <= i <= n
      invariant tmp[..i] + Decs(16, src[2 * i..]) == Decs(16, src)
    {
      var u: int := U16(src, 2 * i);
      tmp[i] := if u >= 0x8000 then u - 0x1_0000 else u;
      DecAt(16, src, 2 * i);
      DecsStep(16, src, 2 * i, tmp[i]);
      i := i + 1;
      assert tmp[..i] == tmp[..i - 1] + [tmp[i - 1]];
    }
    DecsEnd(16, src);
  }

  method DecodeBlock24(tmp: array<int32>, n: nat, src: seq<byte>)
    requires n <= tmp.Length && |src| == 3 * n
    modifies tmp
    ensures tmp[..n] == Decs(24, src)
  {
    hide Dec, Decs, U32;
    assert src[0..] == src;
    assert tmp[..0] == [];
    var i := 0;
    while i < n
      invariant 0 <= i <= n
      invariant tmp[..i] + Decs(24, src[3 * i..]) == Decs(24, src)
    {
      var b := src[3 * i..3 * i + 3];
      var u: int := b[2] as int * 0x1_0000 + b[0] as int + b[1] as int * 0x100;
      if u >= 0x80_0000 {
        u := u - 0x100_0000;
      }
      tmp[i] := u;
      DecAt(24, src, 3 * i);
      DecsStep(24, src, 3 * i, tmp[i]);
      i := i + 1;
      assert tmp[..i] == tmp[..i - 1] + [tmp[i - 1]];
    }
    DecsEnd(24, src);
  }

  method DecodeBlock32(tmp: array<int32>, n: nat, src: seq<byte>)
    requires n <= tmp.Length && |src| == 4 * n
    modifies tmp
    ensures tmp[..n] == Decs(32, src)
  {
    hide Dec, Decs, U32;
    assert src[0..] == src;
    assert tmp[..0] == [];
    var i := 0;
    while i < n
      invariant 0 <= i <= n
      invariant tmp[..i] + Decs(32, src[4 * i..]) == Decs(32, src)
    {
      var u: int := U32(src, 4 * i);
      tmp[i] := if u >= 0x8000_0000 then u - 0x1_0000_0000 else u;
      DecAt(32, src, 4 * i);
      DecsStep(32, src, 4 * i, tmp[i]);
      i := i + 1;
      assert tmp[..i] == tmp[..i - 1] + [tmp[i - 1]];
    }
    DecsEnd(32, src);
  }

  lemma DecsEnd(bits: int, src: seq<byte>)
    requires IntDepth(bits)
    ensures Decs(bits, src[|src|..]) == []
  {
  }

  /** The stored value at an offset, byte by byte. */
  lemma DecAt(bits: int, src: seq<byte>, at: nat)
    requires IntDepth(bits) && at + bits / 8 <= |src|
    ensures var v := Dec(bits, src[at..at + bits / 8]);
      && (bits == 8 ==> v == src[at] as int - 128)
      && (bits == 16 ==> var u: int := U16(src, at); v == if u >= 0x8000 then u - 0x1_0000 else u)
      && (bits == 24 ==> var u: int := src[at + 2] as int * 0x1_0000 + src[at] as int + src[at + 1] as int * 0x100;
                         v == if u >= 0x80_0000 then u - 0x100_0000 else u)
      && (bits == 32 ==> var u: int := U32(src, at); v == if u >= 0x8000_0000 then u - 0x1_0000_0000 else u)
  {
    var s := src[at..at + bits / 8];
    assert bits == 32 ==> U32(s, 0) == U32(src, at);
  }

  lemma DecsStep(bits: int, src: seq<byte>, at: nat, v: int)
    requires IntDepth(bits) && at + bits / 8 <= |src| && v == Dec(bits, src[at..at + bits / 8])
    ensures Decs(bits, src[at..]) == [v] + Decs(bits, src[at + bits / 8..])
  {
    hide Dec;
    var w := bits / 8;
    assert src[at..][..w] == src[at..at + w] && src[at..][w..] == src[at + w..];
  }

  /** Shifts every staged value left or right, in place. */
  method ShiftBlock(tmp: array<int32>, n: nat, a: int, b: int)
    requires IntDepth(a) && IntDepth(b) && n <= tmp.Length
    requires forall i :: 0 <= i < n ==> InRange(tmp[i], a)
    modifies tmp
    ensures tmp[..n] == Requants(old(tmp[..n]), a, b)
  {
    var i := 0;
    while i < n
      invariant 0 <= i <= n
      invariant forall k :: 0 <= k < i ==> tmp[k] == Requant(old(tmp[k]), a, b)
      invariant forall k :: i <= k < n ==> tmp[k] == old(tmp[k])
    {
      RequantInRange(tmp[i], a, b);
      if b > a {
        tmp[i] := tmp[i] * Scale(b - a);
      } else if b < a {
        tmp[i] := tmp[i] / Scale(a - b);
      }
      i := i + 1;
    }
  }

  /** Writes the staged values at the destination width. */
  method EncodeBlock(dst: array<byte>, at: nat, tmp: array<int32>, n: nat, bits: int)
    requires IntDepth(bits) && n <= tmp.Length && forall i :: 0 <= i < n ==> InRange(tmp[i], bits)
    requires at + |Encs(bits, tmp[..n])| <= dst.Length
    modifies dst
    ensures dst[..] == Splice(old(dst[..]), at, Encs(bits, tmp[..n]))
  {
    hide Enc, Splice, Encs, InRange;
    ghost var before, vs: seq<int> := dst[..], tmp[..n];
    ghost var done: seq<byte> := [];
    SpliceNothing(before, at);
    assert vs[0..] == vs;
    var i, o := 0, at;
    while i < n
      invariant 0 <= i <= n && o == at + |done| && done + Encs(bits, vs[i..]) == Encs(bits, vs)
      invariant dst[..] == Splice(before, at, done)
      invariant tmp[..n] == vs
    {
      EncsRoom(bits, vs, done, i);
      EncsStep(bits, vs, i);
      var b := EncodeOne(bits, tmp[i]);
      Put(dst, o, b);
      SpliceWithin(before, at, done, b);
      done := done + b;
      o := o + |b|;
      i := i + 1;
    }
    EncsEnd(bits, vs, done);
  }

  lemma EncsStep(bits: int, vs: seq<int>, i: nat)
    requires IntDepth(bits) && i < |vs| && forall v <- vs :: InRange(v, bits)
    ensures Encs(bits, vs[i..]) == Enc(bits, vs[i]) + Encs(bits, vs[i + 1..])
  {
    hide Enc;
    assert vs[i..][0] == vs[i] && vs[i..][1..] == vs[i + 1..];
  }

  lemma EncsEnd(bits: int, vs: seq<int>, done: seq<byte>)
    requires IntDepth(bits) && forall v <- vs :: InRange(v, bits)
    ensures done + Encs(bits, vs[|vs|..]) == done
  {
    assert vs[|vs|..] == [];
  }

  lemma EncsRoom(bits: int, vs: seq<int>, done: seq<byte>, i: nat)
    requires IntDepth(bits) && i < |vs| && forall v <- vs :: InRange(v, bits)
    requires done + Encs(bits, vs[i..]) == Encs(bits, vs)
    ensures |done| + bits / 8 <= |Encs(bits, vs)|
  {
    EncsStep(bits, vs, i);
  }

  /** One value at a width: the truncating stores of the encoder's four arms. */
  method EncodeOne(bits: int, v: int32) returns (b: seq<byte>)
    requires IntDepth(bits) && InRange(v, bits)
    ensures b == Enc(bits, v)
  {
    hide Enc, Le16, Le32;
    TruncatedBytes(bits, v);
    if bits == 8 {
      b := [(v + 128) % 0x100];
    } else if bits == 16 {
      b := Le16(v % 0x1_0000);
    } else if bits == 24 {
      var u: uint32 := v % 0x1_0000_0000;
      b := [u % 0x100, u / 0x100 % 0x100, u / 0x1_0000 % 0x100];
      Bytes24(v, u);
    } else {
      b := Le32(v % 0x1_0000_0000);
    }
  }

  lemma TruncatedBytes(bits: int, v: int)
    requires IntDepth(bits) && InRange(v, bits)
    ensures bits == 8 ==> Enc(bits, v) == [(v + 128) % 0x100]
    ensures bits == 16 ==> Enc(bits, v) == Le16(v % 0x1_0000)
    ensures bits == 32 ==> Enc(bits, v) == Le32(v % 0x1_0000_0000)
  {
    hide Le16, Le32;
  }

  lemma Bytes24(v: int, u: int)
    requires InRange(v, 24) && u == v % 0x1_0000_0000
    ensures Enc(24, v) == [u % 0x100, u / 0x100 % 0x100, u / 0x1_0000 % 0x100]
  {
    var p := if v < 0 then v + 0x100_0000 else v;
    var lo, mid, hi := p % 0x100, p / 0x100 % 0x100, p / 0x1_0000;
    ThreeByteDigits(p);
    Split24(p, lo, mid, hi);
    assert Enc(24, v) == [lo, mid, hi];
    hide Enc;
    if v < 0 {
      assert u == p + 0xff00 * 0x1_0000;
      Split24(u, lo, mid, hi + 0xff00);
    }
  }

  lemma ThreeByteDigits(p: nat)
    ensures p == p % 0x100 + 0x100 * (p / 0x100 % 0x100) + 0x1_0000 * (p / 0x1_0000)
  {
  }

  lemma Split24(p: int, lo: int, mid: int, hi: int)
    requires 0 <= lo < 0x100 && 0 <= mid < 0x100 && p == lo + 0x100 * mid + 0x1_0000 * hi
    ensures p % 0x100 == lo && p / 0x100 % 0x100 == mid && p / 0x1_0000 == hi
    ensures p % 0x1_0000 % 0x100 == lo && p % 0x1_0000 / 0x100 == mid
  {
    assert p / 0x100 == mid + 0x100 * hi;
    assert p % 0x1_0000 == lo + 0x100 * mid;
  }

  lemma SpliceNothing(b: seq<byte>, at: nat)
    requires at <= |b|
    ensures Splice(b, at, []) == b
  {
  }

  // ---- the four single-pass kernels ----------------------------------------------------------------------------

  /** What every kernel is handed: a destination window of exactly the converted size of src. */
  ghost predicate Fits(dst: array<byte>, at: nat, len: nat, src: seq<byte>, j: Job) {
    && j.Valid() && at + len <= dst.Length && len == |All(j, src)| && |src| % j.SrcWidth() == 0
  }

  /** The state of a kernel that has written done and still has rest to convert. */
  ghost predicate Midway(now: seq<byte>, before: seq<byte>, at: nat, done: seq<byte>, rest: seq<byte>, src: seq<byte>,
                         j: Job) {
    && j.Valid() && at + |done| <= |before| && now == Splice(before, at, done) && done + All(j, rest) == All(j, src)
  }

  /** Converting one more sample keeps the kernel midway, one sample further on. */
  lemma KernelStep(before: seq<byte>, at: nat, done: seq<byte>, rest: seq<byte>, src: seq<byte>, j: Job, b: seq<byte>)
    requires j.Valid() && |rest| >= j.SrcWidth() && b == One(j, rest[..j.SrcWidth()])
    requires at + |done| + |b| <= |before| && done + All(j, rest) == All(j, src)
    ensures Midway(Splice(Splice(before, at, done), at + |done|, b), before, at, done + b, rest[j.SrcWidth()..], src, j)
  {
    hide All, One, Splice;
    AllStep(j, rest);
    SpliceWithin(before, at, done, b);
  }

  lemma KernelRoom(done: seq<byte>, rest: seq<byte>, src: seq<byte>, j: Job)
    requires j.Valid() && |rest| >= j.SrcWidth() && done + All(j, rest) == All(j, src)
    ensures |done| + j.DstWidth() <= |All(j, src)|
  {
    hide All, One;
    AllStep(j, rest);
  }

  lemma KernelDone(now: seq<byte>, before: seq<byte>, at: nat, done: seq<byte>, rest: seq<byte>, src: seq<byte>, j: Job)
    requires Midway(now, before, at, done, rest, src, j) && |rest| < j.SrcWidth()
    ensures now == Splice(before, at, All(j, src))
  {
    hide All, Splice;
    AllNone(j, rest);
    assert done + [] == done;
  }

  /** Flips the top bit of a byte, which removes the bias of an 8-bit sample. */
  function FlipTop(b: byte): (r: byte)
    ensures r == (b + 128) % 256
  {
    FlipBits(ToBits(b));
    (ToBits(b) ^ 0x80) as int
  }

  lemma FlipBits(v: bv8)
    ensures (v ^ 0x80) as int == (v as int + 128) % 256
  {
  }

  method Convert8to16(dst: array<byte>, at: nat, len: nat, src: seq<byte>)
    requires Fits(dst, at, len, src, Job(PCM, 8, 16))
    modifies dst
    ensures dst[..] == Splice(old(dst[..]), at, All(Job(PCM, 8, 16), src))
  {
    hide All, Splice, One;
    ghost var j, before, done := Job(PCM, 8, 16), dst[..], [];
    SpliceNothing(before, at);
    assert src[0..] == src;
    var i := 0;
    while i < |src|
      invariant 0 <= i <= |src| && |done| == 2 * i && Midway(dst[..], before, at, done, src[i..], src, j)
    {
      KernelRoom(done, src[i..], src, j);
      var b := Le16(FlipTop(src[i]) * 0x100);
      Kernel8to16Bytes(src[i..][..1]);
      Put(dst, at + 2 * i, b);
      KernelStep(before, at, done, src[i..], src, j, b);
      assert src[i..][1..] == src[i + 1..];
      done := done + b;
      i := i + 1;
    }
    KernelDone(dst[..], before, at, done, src[i..], src, j);
  }

  lemma Kernel8to16Bytes(s: seq<byte>)
    requires |s| == 1
    ensures One(Job(PCM, 8, 16), s) == Le16(FlipTop(s[0]) * 0x100)
  {
    hide ToBits;
  }

  method Convert16to32(dst: array<byte>, at: nat, len: nat, src: seq<byte>)
    requires Fits(dst, at, len, src, Job(PCM, 16, 32))
    modifies dst
    ensures dst[..] == Splice(old(dst[..]), at, All(Job(PCM, 16, 32), src))
  {
    hide All, Splice, One;
    ghost var j, before, done := Job(PCM, 16, 32), dst[..], [];
    SpliceNothing(before, at);
    var s, o := src, at;
    while |s| >= 2 && at + len - o >= 4
      invariant o == at + |done| && Midway(dst[..], before, at, done, s, src, j)
      decreases |s|
    {
      var b := Le32(U16(s, 0) * 0x1_0000);
      Kernel16to32Bytes(s[..2]);
      Put(dst, o, b);
      KernelStep(before, at, done, s, src, j, b);
      done := done + b;
      s := s[2..];
      o := o + 4;
    }
    if |s| >= 2 {
      KernelRoom(done, s, src, j);
    }
    KernelDone(dst[..], before, at, done, s, src, j);
  }

  lemma Kernel16to32Bytes(s: seq<byte>)
    requires |s| == 2
    ensures One(Job(PCM, 16, 32), s) == Le32(U16(s, 0) * 0x1_0000)
  {
  }

  method Convert24to32(dst: array<byte>, at: nat, len: nat, src: seq<byte>)
    requires Fits(dst, at, len, src, Job(PCM, 24, 32))
    modifies dst
    ensures dst[..] == Splice(old(dst[..]), at, All(Job(PCM, 24, 32), src))
  {
    hide All, Splice, One;
    ghost var j, before, done := Job(PCM, 24, 32), dst[..], [];
    SpliceNothing(before, at);
    var s, o := src, at;
    while |s| >= 3 && at + len - o >= 4
      invariant o == at + |done| && Midway(dst[..], before, at, done, s, src, j)
      decreases |s|
    {
      var b := Le32(s[0] as int * 0x100 + s[1] as int * 0x1_0000 + s[2] as int * 0x100_0000);
      Kernel24to32Bytes(s[..3]);
      Put(dst, o, b);
      KernelStep(before, at, done, s, src, j, b);
      done := done + b;
      s := s[3..];
      o := o + 4;
    }
    if |s| >= 3 {
      KernelRoom(done, s, src, j);
    }
    KernelDone(dst[..], before, at, done, s, src, j);
  }

  lemma Kernel24to32Bytes(s: seq<byte>)
    requires |s| == 3
    ensures One(Job(PCM, 24, 32), s) == Le32(s[0] as int * 0x100 + s[1] as int * 0x1_0000 + s[2] as int * 0x100_0000)
  {
  }

  method Convert24to16(dst: array<byte>, at: nat, len: nat, src: seq<byte>)
    requires Fits(dst, at, len, src, Job(PCM, 24, 16))
    modifies dst
    ensures dst[..] == Splice(old(dst[..]), at, All(Job(PCM, 24, 16), src))
  {
    hide All, Splice, One;
    ghost var j, before, done := Job(PCM, 24, 16), dst[..], [];
    SpliceNothing(before, at);
    var s, o := src, at;
    while |s| >= 3 && at + len - o >= 2
      invariant o == at + |done| && Midway(dst[..], before, at, done, s, src, j)
      decreases |s|
    {
      var b := Le16(s[2] as int * 0x100 + s[1] as int);
      Kernel24to16Bytes(s[..3]);
      Put(dst, o, b);
      KernelStep(before, at, done, s, src, j, b);
      done := done + b;
      s := s[3..];
      o := o + 2;
    }
    if |s| >= 3 {
      KernelRoom(done, s, src, j);
    }
    KernelDone(dst[..], before, at, done, s, src, j);
  }

  lemma Kernel24to16Bytes(s: seq<byte>)
    requires |s| == 3
    ensures One(Job(PCM, 24, 16), s) == Le16(s[2] as int * 0x100 + s[1] as int)
  {
  }

  // ---- the blocked loops ---------------------------------------------------------------------------------------

  /** The first n samples of what is left. */
  lemma BlockLen(s: seq<byte>, w: nat, total: nat, n: nat)
    requires |s| == total * w && n <= total
    ensures n * w <= |s| && |s| - n * w == (total - n) * w
  {
    assert total * w == n * w + (total - n) * w;
  }

  /** Converting one block more keeps the loop midway, one block further on. */
  lemma BlockStep(before: seq<byte>, at: nat, done: seq<byte>, rest: seq<byte>, src: seq<byte>, j: Job, k: nat)
    requires j.Valid() && k <= |rest| && k % j.SrcWidth() == 0 && done + All(j, rest) == All(j, src)
    requires at + |done| + |All(j, rest[..k])| <= |before|
    ensures Midway(Splice(Splice(before, at, done), at + |done|, All(j, rest[..k])), before, at,
                   done + All(j, rest[..k]), rest[k..], src, j)
  {
    hide All, Splice;
    assert rest == rest[..k] + rest[k..];
    AllSplit(j, rest[..k], rest[k..]);
    SpliceWithin(before, at, done, All(j, rest[..k]));
  }

  lemma BlockRoom(done: seq<byte>, rest: seq<byte>, src: seq<byte>, j: Job, k: nat)
    requires j.Valid() && k <= |rest| && k % j.SrcWidth() == 0 && done + All(j, rest) == All(j, src)
    ensures |done| + |All(j, rest[..k])| <= |All(j, src)|
  {
    hide All;
    assert rest == rest[..k] + rest[k..];
    AllSplit(j, rest[..k], rest[k..]);
  }

  /** t expands every code of a companded format; the other formats use no table. */
  ghost predicate IsTable(t: array<int16>, format: SampleFormat)
    reads t
  {
    format.Companded() ==> t.Length == 256 && forall code: byte :: t[code] == Expand(format, code)
  }

  /** Stages the converted values of one block. */
  method FillBlock(tmp: array<int32>, n: nat, block: seq<byte>, j: Job, law: array<int16>)
    requires j.Valid() && n <= tmp.Length && |block| == n * j.SrcWidth()
    requires IsTable(law, j.format)
    modifies tmp
    ensures tmp[..n] == Values(j, block) && forall i :: 0 <= i < n ==> InRange(tmp[i], j.dstBits)
  {
    hide Value, Requant, Dec, IsTable, DecodeFloat;
    ProductDiv(n, j.SrcWidth());
    match j.format {
      case PCM =>
        DecodeBlock(tmp, n, block, j.srcBits);
        assert forall i :: 0 <= i < n ==> InRange(tmp[..n][i], j.srcBits);
        ShiftBlock(tmp, n, j.srcBits, j.dstBits);
        ValuesAreRequants(j, block);
      case ALaw | MuLaw =>
        LookUpBlock(tmp, n, block, j.format, law);
        assert forall i :: 0 <= i < n ==> tmp[i] == tmp[..n][i] && InRange(tmp[i], 16);
        ShiftBlock(tmp, n, 16, j.dstBits);
        ValuesAreExpansions(j, block);
      case Float =>
        QuantizeBlock(tmp, n, block, j);
    }
    assert forall i :: 0 <= i < n ==> tmp[i] == tmp[..n][i];
  }

  method LookUpBlock(tmp: array<int32>, n: nat, codes: seq<byte>, format: SampleFormat, law: array<int16>)
    requires format.Companded() && n <= tmp.Length && |codes| == n
    requires IsTable(law, format)
    modifies tmp
    ensures tmp[..n] == Expands(format, codes)
  {
    var i := 0;
    while i < n
      invariant 0 <= i <= n
      invariant forall k :: 0 <= k < i ==> tmp[k] == Expand(format, codes[k])
    {
      tmp[i] := law[codes[i]];
      i := i + 1;
    }
  }

  method QuantizeBlock(tmp: array<int32>, n: nat, block: seq<byte>, j: Job)
    requires j.Valid() && j.format == Float && n <= tmp.Length && |block| == n * j.SrcWidth()
    modifies tmp
    ensures tmp[..n] == Values(j, block)
  {
    hide DecodeFloat, Quantize, Ideal, Values, Value, Limits, Job.SrcWidth, Job.DstWidth, InRange, FullScale;
    var (fullScale, posLimit, negLimit) := Limits(j.dstBits);
    var w := j.SrcWidth();
    var i, s := 0, block;
    while i < n
      invariant 0 <= i <= n && |s| == (n - i) * w
      invariant tmp[..i] + Values(j, s) == Values(j, block)
    {
      BlockLen(s, w, n - i, 1);
      ValuesStep(j, s);
      IdealValue(j, s[..w]);
      var f := DecodeFloat(j.srcBits, s[..w]);
      tmp[i] := Quantize(f, fullScale, posLimit, negLimit);
      s := s[w..];
      i := i + 1;
      assert tmp[..i] == tmp[..i - 1] + [tmp[i - 1]];
    }
    NoValues(j, s);
  }

  lemma ValuesStep(j: Job, s: seq<byte>)
    requires j.Valid() && |s| >= j.SrcWidth()
    ensures Values(j, s) == [Value(j, s[..j.SrcWidth()])] + Values(j, s[j.SrcWidth()..])
  {
    hide Value;
  }

  lemma NoValues(j: Job, s: seq<byte>)
    requires j.Valid()
    ensures |s| < j.SrcWidth() ==> Values(j, s) == []
  {
  }

  /** What the quantiser makes of a stored float is the value of the sample. */
  lemma IdealValue(j: Job, s: seq<byte>)
    requires j.Valid() && j.format == Float && |s| == j.SrcWidth()
    ensures
      var (full, pos, neg) := Limits(j.dstBits);
      && pos.Fin? && neg.Fin? && -2147483648.0 <= neg.x && pos.x <= 2147483648.0
      && Quantize(DecodeFloat(j.srcBits, s), full, pos, neg) == Value(j, s)
      && -0x8000_0000 <= Value(j, s) < 0x8000_0000
  {
    hide DecodeFloat, Quantize, Limits, Ideal;
    DecodedFloatIsValid(j.srcBits, s);
    QuantizeIsIdeal(DecodeFloat(j.srcBits, s), j.dstBits);
  }

  /** One block staged and written. */
  method ConvertBlock(dst: array<byte>, at: nat, tmp: array<int32>, n: nat, block: seq<byte>, j: Job, law: array<int16>)
    requires j.Valid() && n <= tmp.Length && |block| == n * j.SrcWidth() && at + |All(j, block)| <= dst.Length
    requires IsTable(law, j.format)
    modifies dst, tmp
    ensures dst[..] == Splice(old(dst[..]), at, All(j, block))
  {
    hide Value, Splice, Encs, Values, InRange, IsTable;
    FillBlock(tmp, n, block, j, law);
    EncodeBlock(dst, at, tmp, n, j.dstBits);
  }

  /** The general path, 1024 samples at a time through the staging buffer: integer pairs without a kernel of their
      own, companded codes through their table, and floats. */
  method ConvertBlocked(dst: array<byte>, at: nat, len: nat, src: seq<byte>, j: Job, law: array<int16>)
    requires Fits(dst, at, len, src, j)
    requires IsTable(law, j.format)
    modifies dst
    ensures dst[..] == Splice(old(dst[..]), at, All(j, src))
  {
    hide IsTable, Splice, All;
    ghost var before, out := dst[..], [];
    SpliceNothing(before, at);
    var tmp := new int32[BLOCK_SAMPLES](_ => 0);
    var srcWidth, dstWidth := j.SrcWidth(), j.DstWidth();
    var total := |src| / srcWidth;
    var done, s, o := 0, src, at;
    while done < total
      invariant 0 <= done <= total && |s| == (total - done) * srcWidth && o == at + |out|
      invariant Midway(dst[..], before, at, out, s, src, j)
    {
      var n := if BLOCK_SAMPLES < total - done then BLOCK_SAMPLES else total - done;
      BlockLen(s, srcWidth, total - done, n);
      ProductDiv(n, srcWidth);
      var k := n * srcWidth;
      BlockRoom(out, s, src, j, k);
      ConvertBlock(dst, o, tmp, n, s[..k], j, law);
      BlockStep(before, at, out, s, src, j, k);
      out := out + All(j, s[..k]);
      o := o + n * dstWidth;
      s := s[k..];
      done := done + n;
    }
    KernelDone(dst[..], before, at, out, s, src, j);
  }

  /** Rewrites the whole samples of src at the destination depth into dst from `at` on, or refuses and leaves dst
      alone. */
  method Convert(dst: array<byte>, at: nat, src: seq<byte>, j: Job, maxInt: nat) returns (r: Result<nat>)
    requires at <= dst.Length <= maxInt
    modifies dst
    ensures r == if !j.Valid() then Err(Unsupported) else if |All(j, src)| > dst.Length - at then Err(ShortBuffer)
      else Ok(|All(j, src)|)
    ensures dst[..] == if r.Ok? then Splice(old(dst[..]), at, All(j, src)) else old(dst[..])
  {
    hide All, Splice, One;
    PlanIsExact(src, dst.Length - at, j, maxInt);
    r := ConvertPlan(|src|, dst.Length - at, j, maxInt);
    if r.Err? {
      return;
    }
    var need := r.value;
    if need == 0 {
      SpliceNothing(dst[..], at);
      return;
    }
    var whole := src[..Whole(|src|, j.SrcWidth())];
    WholeIsMultiple(|src|, j.SrcWidth());
    TrailingIgnored(src, j);
    if j.format == PCM && j.srcBits == j.dstBits {
      SameDepthIsCopy(j.srcBits, whole);
      Put(dst, at, whole);
    } else if j.format == PCM && j.srcBits == 8 && j.dstBits == 16 {
      Convert8to16(dst, at, need, whole);
    } else if j.format == PCM && j.srcBits == 16 && j.dstBits == 32 {
      Convert16to32(dst, at, need, whole);
    } else if j.format == PCM && j.srcBits == 24 && j.dstBits == 32 {
      Convert24to32(dst, at, need, whole);
    } else if j.format == PCM && j.srcBits == 24 && j.dstBits == 16 {
      Convert24to16(dst, at, need, whole);
    } else {
      var law := LawTable(j.format);
      ConvertBlocked(dst, at, need, whole, j, law);
    }
  }

  /** The expansion table of a companded format; other formats have none. */
  method LawTable(format: SampleFormat) returns (t: array<int16>)
    ensures fresh(t)
    ensures IsTable(t, format)
  {
    hide DecodeALaw, DecodeMuLaw, ToBits;
    if format == ALaw {
      t := BuildTable(DecodeALaw);
    } else if format == MuLaw {
      t := BuildTable(DecodeMuLaw);
    } else {
      t := new int16[0];
    }
  }

  /** A trailing partial sample contributes nothing. */
  lemma TrailingIgnored(src: seq<byte>, j: Job)
    requires j.Valid()
    ensures All(j, src[..Whole(|src|, j.SrcWidth())]) == All(j, src)
  {
    hide All;
    var k := Whole(|src|, j.SrcWidth());
    WholeIsMultiple(|src|, j.SrcWidth());
    assert src == src[..k] + src[k..];
    AllSplit(j, src[..k], src[k..]);
    AllNone(j, src[k..]);
  }
}
