/** The fmt chunk byte by byte, as written and as read: what stands at each offset and what it must say. */
module FmtLaws {
  import opened Wire
  import opened Types
  import opened Format

  /** What every extensible sub-format ends with behind its two-byte tag. */
  const GUID_TAIL: seq<byte> := [0, 0, 0, 0, 0x10, 0, 0x80, 0, 0, 0xaa, 0, 0x38, 0x9b, 0x71]

  const FRONT_LEFT := 0x1
  const FRONT_RIGHT := 0x2
  const FRONT_CENTER := 0x4
  const LOW_FREQUENCY := 0x8
  const BACK_LEFT := 0x10
  const BACK_RIGHT := 0x20
  const BACK_CENTER := 0x100
  const SIDE_LEFT := 0x200
  const SIDE_RIGHT := 0x400

  /** The speakers a mask stands for where none was asked for: one for each of up to eight channels, none beyond. */
  lemma MaskNamesItsSpeakers()
    ensures ConventionalMask(1) == FRONT_CENTER
    ensures ConventionalMask(2) == FRONT_LEFT + FRONT_RIGHT
    ensures ConventionalMask(3) == FRONT_LEFT + FRONT_RIGHT + FRONT_CENTER
    ensures ConventionalMask(4) == FRONT_LEFT + FRONT_RIGHT + BACK_LEFT + BACK_RIGHT
    ensures ConventionalMask(5) == ConventionalMask(4) + FRONT_CENTER
    ensures ConventionalMask(6) == ConventionalMask(5) + LOW_FREQUENCY
    ensures ConventionalMask(7) == ConventionalMask(3) + LOW_FREQUENCY + BACK_CENTER + SIDE_LEFT + SIDE_RIGHT
    ensures ConventionalMask(8) == ConventionalMask(6) + SIDE_LEFT + SIDE_RIGHT
    ensures forall n :: n < 1 || n > 8 ==> ConventionalMask(n) == 0
  {
  }

  /** A format can be written exactly when it is a supported one whose channels, rate, frame and byte rate fit. */
  lemma WritableExactly(f: Format)
    ensures Writable(f) <==>
      && ((f.format == PCM && f.bitDepth in {8, 16, 24, 32}) || (f.format == Float && f.bitDepth in {32, 64}))
      && 1 <= f.channels <= 65535 && 1 <= f.sampleRate <= 2147483647
      && f.bitDepth / 8 * f.channels <= 65535
      && f.bitDepth / 8 * f.channels * f.sampleRate <= 4294967295
  {
    hide ConventionalMask;
    if f.bitDepth in {8, 16, 24, 32, 64} && 1 <= f.channels && 1 <= f.sampleRate {
      assert FrameWidth(f.bitDepth, f.channels) == f.bitDepth / 8 * f.channels;
      assert f.bitDepth / 8 * f.channels * f.sampleRate >= 0;
    }
  }

  /** The printed chunk, offset by offset. The block align is the width of a frame and the byte rate the bytes of a
      second of them; the long form is taken for what the short ones cannot say. */
  lemma PrintedFields(f: Format)
    requires Writable(f)
    ensures
      var b := FmtBody(f);
      var long := f.extensible || f.channelMask != 0 || f.channels > 2 || (f.format == PCM && f.bitDepth > 16);
      && |b| == (if long then 40 else if f.format == Float then 18 else 16)
      && U16(b, 0) == (if long then 0xfffe else if f.format == Float then 3 else 1)
      && U16(b, 2) == f.channels && U32(b, 4) == f.sampleRate && U16(b, 14) == f.bitDepth
      && U16(b, 12) == f.bitDepth / 8 * f.channels && U32(b, 8) == U32(b, 4) * U16(b, 12)
      && (!long && f.format == Float ==> U16(b, 16) == 0)
      && (long ==>
            && U16(b, 16) == 22
            && U16(b, 18) == (if 0 < f.validBits < f.bitDepth then f.validBits else f.bitDepth)
            && U32(b, 20) == (if f.channelMask != 0 then f.channelMask else ConventionalMask(f.channels))
            && U16(b, 24) == (if f.format == Float then 3 else 1) && b[26..40] == GUID_TAIL)
  {
    hide U16, U32, Le32, ByteRate, FmtBody, FmtTail, ConventionalMask;
    var b := FmtBody(f);
    FmtHeadFields(f);
    RateIsProduct(f);
    if NeedsExtensible(f) {
      FmtTailFields(f);
      ExtensionFields(f, b);
    } else if f.format == Float {
      ExtendedField(f, b);
    }
  }

  lemma RateIsProduct(f: Format)
    requires Writable(f)
    ensures FrameWidth(f.bitDepth, f.channels) == f.bitDepth / 8 * f.channels
    ensures ByteRate(FrameWidth(f.bitDepth, f.channels), f.sampleRate)
      == f.sampleRate * FrameWidth(f.bitDepth, f.channels)
  {
  }

  lemma ExtensionFields(f: Format, b: seq<byte>)
    requires Writable(f) && NeedsExtensible(f) && |b| == 40 && b[16..] == FmtTail(f)
    requires b[24..40] == Guid(SampleTag(f.format))
    ensures U16(b, 16) == 22
    ensures U16(b, 24) == (if f.format == Float then 3 else 1) && b[26..40] == GUID_TAIL
  {
    hide Le32, ConventionalMask;
    assert b[16] == b[16..][0] == 22 && b[17] == b[16..][1] == 0;
    assert b[24] == b[24..40][0] && b[25] == b[24..40][1];
    assert b[26..40] == b[24..40][2..];
  }

  lemma ExtendedField(f: Format, b: seq<byte>)
    requires Writable(f) && !NeedsExtensible(f) && f.format == Float && |b| == 18 && b[16..] == FmtTail(f)
    ensures U16(b, 16) == 0
  {
    assert b[16] == b[16..][0] && b[17] == b[16..][1];
  }

  // ---- reading -------------------------------------------------------------------------------------------------

  /** The tag a payload names its samples by: its own, or the one its sub-format starts with. */
  function NamedTag(b: seq<byte>): Option<uint16>
    requires |b| >= 16
  {
    if U16(b, 0) != 0xfffe then Some(U16(b, 0))
    else if |b| >= 40 && b[26..40] == GUID_TAIL then Some(U16(b, 24))
    else None
  }

  /** Which payloads are accepted and what each byte of an accepted one means. Beyond the bytes named here a payload may
      hold anything; the byte rate and the block align it states are not believed. */
  lemma ReadFields(b: seq<byte>)
    ensures ParseFmt(b) == Err(CorruptStream) <==>
      || |b| < 16 || U16(b, 2) == 0 || !(1 <= U32(b, 4) <= 2147483647) || (U16(b, 0) == 0xfffe && |b| < 40)
    ensures ParseFmt(b).Ok? ==> |b| >= 16
    ensures ParseFmt(b) == Err(CorruptStream) || ParseFmt(b) == Err(Unsupported) || ParseFmt(b).Ok?
    ensures |b| >= 16 && ParseFmt(b) != Err(CorruptStream) ==>
      var tag, depth := NamedTag(b), U16(b, 14);
      ParseFmt(b).Ok? <==>
        || (tag == Some(1) && depth in {8, 16, 24, 32})
        || (tag == Some(3) && depth in {32, 64})
        || (tag in {Some(6), Some(7)} && depth == 8)
    ensures ParseFmt(b).Ok? ==>
      var f, tag, long := ParseFmt(b).value, NamedTag(b).value, U16(b, 0) == 0xfffe;
      && f.channels == U16(b, 2) && f.sampleRate == U32(b, 4) && f.bitDepth == U16(b, 14)
      && f.blockAlign == f.bitDepth / 8 * f.channels
      && (f.format == PCM <==> tag == 1) && (f.format == Float <==> tag == 3)
      && (f.format == ALaw <==> tag == 6) && (f.format == MuLaw <==> tag == 7)
      && f.extensible == long
      && f.validBits == (if long && U16(b, 18) <= f.bitDepth then U16(b, 18) else 0)
      && f.channelMask == (if long then U32(b, 20) else 0)
  {
    hide U16, U32, TagOfGuid;
    if |b| >= 40 {
      SubFormats(b);
    }
  }

  lemma SubFormats(b: seq<byte>)
    requires |b| >= 40
    ensures
      TagOfGuid(b[24..40]) ==
        if b[26..40] == GUID_TAIL && U16(b, 24) in {1, 3, 6, 7} then Some(U16(b, 24)) else None
  {
    var g := b[24..40];
    assert g[2..] == b[26..40] && g[0] == b[24] && g[1] == b[25];
    SubFormat(g, 1);
    SubFormat(g, 3);
    SubFormat(g, 6);
    SubFormat(g, 7);
  }

  lemma SubFormat(g: seq<byte>, tag: uint16)
    requires |g| == 16
    ensures g == Guid(tag) <==> U16(g, 0) == tag && g[2..] == GUID_TAIL
  {
    assert Guid(tag)[2..] == GUID_TAIL;
    if U16(g, 0) == tag && g[2..] == GUID_TAIL {
      assert g == g[..2] + g[2..] && g[..2] == Le16(tag);
    }
  }
}
