/** The fmt chunk: its printed form, the parser, and the normal form they agree on. */
module Format {
  import opened Wire
  import opened Types
  import opened Chunks

  const TAG_PCM: uint16 := 0x0001
  const TAG_FLOAT: uint16 := 0x0003
  const TAG_ALAW: uint16 := 0x0006
  const TAG_MULAW: uint16 := 0x0007
  const TAG_EXTENSIBLE: uint16 := 0xfffe

  const FMT_SIZE_PCM := 16
  const FMT_SIZE_EXTENDED := 18
  const FMT_SIZE_EXTENSIBLE := 40
  const CB_SIZE: uint16 := 22

  const MAX_SAMPLE_RATE: uint32 := 0x7fff_ffff

  datatype Format = Format(
    sampleRate: int, channels: int, bitDepth: int, validBits: int, blockAlign: int,
    format: SampleFormat, extensible: bool, channelMask: uint32)

  function Guid(tag: uint16): (g: seq<byte>)
    ensures |g| == 16
  {
    Le16(tag) + [0x00, 0x00, 0x00, 0x00, 0x10, 0x00, 0x80, 0x00, 0x00, 0xAA, 0x00, 0x38, 0x9B, 0x71]
  }

  function ConventionalMask(channels: int): uint32 {
    match channels
    case 1 => 0x4
    case 2 => 0x3
    case 3 => 0x7
    case 4 => 0x33
    case 5 => 0x37
    case 6 => 0x3f
    case 7 => 0x70f
    case 8 => 0x63f
    case _ => 0
  }

  predicate NeedsExtensible(f: Format) {
    f.extensible || f.channelMask != 0 || f.channels > 2 || (f.format == PCM && f.bitDepth > 16)
  }

  function FmtPayloadLen(f: Format): (n: nat)
    ensures n % 2 == 0 && n <= FMT_SIZE_EXTENSIBLE
  {
    if NeedsExtensible(f) then FMT_SIZE_EXTENSIBLE
    else if f.format != PCM then FMT_SIZE_EXTENDED
    else FMT_SIZE_PCM
  }

  /** Bytes per inter-channel frame, written out by width so that it stays linear. */
  function FrameWidth(bits: int, channels: int): int {
    match bits
    case 8 => channels
    case 16 => 2 * channels
    case 24 => 3 * channels
    case 32 => 4 * channels
    case 64 => 8 * channels
    case _ => 0
  }

  lemma FrameWidthIsProduct(bits: int, channels: int)
    ensures FrameWidth(bits, channels) == BytesPerSample(bits) * channels
  {
  }

  function ByteRate(align: int, rate: int): int {
    align * rate
  }

  /** The formats whose every field fits the width the fmt chunk gives it. */
  predicate Writable(f: Format) {
    && (f.format == PCM || f.format == Float)
    && ValidDepth(f.format, f.bitDepth)
    && 0 < f.channels <= 0xffff
    && 0 < f.sampleRate <= MAX_SAMPLE_RATE
    && FrameWidth(f.bitDepth, f.channels) <= 0xffff
    && 0 <= ByteRate(FrameWidth(f.bitDepth, f.channels), f.sampleRate) <= MAX_UINT32
  }

  function EffectiveValidBits(f: Format): int {
    if f.validBits <= 0 || f.validBits > f.bitDepth then f.bitDepth else f.validBits
  }

  function EffectiveMask(f: Format): uint32 {
    if f.channelMask == 0 then ConventionalMask(f.channels) else f.channelMask
  }

  function SampleTag(format: SampleFormat): uint16 {
    match format
    case PCM => TAG_PCM
    case Float => TAG_FLOAT
    case ALaw => TAG_ALAW
    case MuLaw => TAG_MULAW
  }

  /** The fmt payload describing f. */
  function FmtBody(f: Format): (b: seq<byte>)
    requires Writable(f)
    ensures |b| == FmtPayloadLen(f)
  {
    FmtHead(f) + FmtTail(f)
  }

  function FmtHead(f: Format): (b: seq<byte>)
    requires Writable(f)
    ensures |b| == 16
  {
    var align := FrameWidth(f.bitDepth, f.channels);
    var tag := if NeedsExtensible(f) then TAG_EXTENSIBLE else SampleTag(f.format);
    Le16(tag) + Le16(f.channels) + Le32(f.sampleRate) + Le32(ByteRate(align, f.sampleRate)) + Le16(align)
      + Le16(f.bitDepth)
  }

  function FmtTail(f: Format): (b: seq<byte>)
    requires Writable(f)
    ensures |b| == FmtPayloadLen(f) - 16
  {
    if NeedsExtensible(f) then
      Le16(CB_SIZE) + Le16(EffectiveValidBits(f)) + Le32(EffectiveMask(f)) + Guid(SampleTag(f.format))
    else if f.format != PCM then Le16(0)
    else []
  }

  function FormatOfTag(tag: uint16): Option<SampleFormat> {
    if tag == TAG_PCM then Some(PCM)
    else if tag == TAG_FLOAT then Some(Float)
    else if tag == TAG_ALAW then Some(ALaw)
    else if tag == TAG_MULAW then Some(MuLaw)
    else None
  }

  function TagOfGuid(g: seq<byte>): Option<uint16> {
    if g == Guid(TAG_PCM) then Some(TAG_PCM)
    else if g == Guid(TAG_FLOAT) then Some(TAG_FLOAT)
    else if g == Guid(TAG_ALAW) then Some(TAG_ALAW)
    else if g == Guid(TAG_MULAW) then Some(TAG_MULAW)
    else None
  }

  /** Decodes a fmt payload of any length. */
  function ParseFmt(b: seq<byte>): Result<Format> {
    if |b| < FMT_SIZE_PCM then Err(CorruptStream)
    else
      var channels, rate, depth := U16(b, 2), U32(b, 4), U16(b, 14);
      if channels == 0 || rate == 0 || rate > MAX_SAMPLE_RATE then Err(CorruptStream)
      else if U16(b, 0) != TAG_EXTENSIBLE then
        FinishFmt(U16(b, 0), channels, rate, depth, 0, false, 0)
      else if |b| < FMT_SIZE_EXTENSIBLE then Err(CorruptStream)
      else
        match TagOfGuid(b[24..40])
        case None => Err(Unsupported)
        case Some(tag) => FinishFmt(tag, channels, rate, depth, U16(b, 18), true, U32(b, 20))
  }

  function FinishFmt(tag: uint16, channels: uint16, rate: uint32, depth: uint16, valid: uint16, ext: bool, mask: uint32)
    : Result<Format>
  {
    match FormatOfTag(tag)
    case None => Err(Unsupported)
    case Some(format) =>
      if !ValidDepth(format, depth) then Err(Unsupported)
      else Ok(Format(rate, channels, depth, if valid > depth then 0 else valid,
                     FrameWidth(depth, channels), format, ext, mask))
  }

  /** What the parser promises of every format it accepts. */
  predicate Sound(f: Format) {
    && ValidDepth(f.format, f.bitDepth)
    && 0 < f.channels <= 0xffff
    && 0 < f.sampleRate <= MAX_SAMPLE_RATE
    && f.blockAlign == BytesPerSample(f.bitDepth) * f.channels
    && 0 <= f.validBits <= f.bitDepth
  }

  lemma ParsedFmtIsSound(b: seq<byte>)
    ensures ParseFmt(b).Ok? ==> Sound(ParseFmt(b).value)
  {
  }

  /** The description a reader gets of a format a writer was given: extensible promotion applied, the valid
      bits and the speaker mask made explicit, the block align derived. */
  function Normalised(f: Format): Format {
    var ext := NeedsExtensible(f);
    f.(validBits := if ext then EffectiveValidBits(f) else 0,
       blockAlign := FrameWidth(f.bitDepth, f.channels),
       extensible := ext,
       channelMask := if ext then EffectiveMask(f) else 0)
  }

  lemma GuidsDiffer()
    ensures TagOfGuid(Guid(TAG_PCM)) == Some(TAG_PCM)
    ensures TagOfGuid(Guid(TAG_FLOAT)) == Some(TAG_FLOAT)
  {
    assert Guid(TAG_PCM)[0] != Guid(TAG_FLOAT)[0];
  }

  /** The sixteen bytes every form of the chunk starts with. */
  lemma FmtHeadFields(f: Format)
    requires Writable(f)
    ensures var b := FmtBody(f);
            && U16(b, 0) == (if NeedsExtensible(f) then TAG_EXTENSIBLE else SampleTag(f.format))
            && U16(b, 2) == f.channels && U32(b, 4) == f.sampleRate && U16(b, 14) == f.bitDepth
            && U32(b, 8) == ByteRate(FrameWidth(f.bitDepth, f.channels), f.sampleRate)
            && U16(b, 12) == FrameWidth(f.bitDepth, f.channels)
            && b[16..] == FmtTail(f)
  {
    hide Le16, Le32, U16, U32, FmtTail, ByteRate;
    var align := FrameWidth(f.bitDepth, f.channels);
    var tag := if NeedsExtensible(f) then TAG_EXTENSIBLE else SampleTag(f.format);
    var p0 := Le16(tag);
    var p1 := p0 + Le16(f.channels);
    var p2 := p1 + Le32(f.sampleRate);
    var p3 := p2 + Le32(ByteRate(align, f.sampleRate));
    var p4 := p3 + Le16(align);
    var b := FmtBody(f);
    ReadBack16([], tag, b[2..]);
    assert b == [] + Le16(tag) + b[2..];
    ReadBack16(p0, f.channels, b[4..]);
    assert b == p0 + Le16(f.channels) + b[4..];
    ReadBack32(p1, f.sampleRate, b[8..]);
    assert b == p1 + Le32(f.sampleRate) + b[8..];
    ReadBack32(p2, ByteRate(align, f.sampleRate), b[12..]);
    assert b == p2 + Le32(ByteRate(align, f.sampleRate)) + b[12..];
    ReadBack16(p3, align, b[14..]);
    assert b == p3 + Le16(align) + b[14..];
    ReadBack16(p4, f.bitDepth, b[16..]);
    assert b == p4 + Le16(f.bitDepth) + b[16..];
  }

  lemma FmtTailFields(f: Format)
    requires Writable(f) && NeedsExtensible(f)
    ensures var b := FmtBody(f);
            && U16(b, 18) == EffectiveValidBits(f) && U32(b, 20) == EffectiveMask(f)
            && b[24..40] == Guid(SampleTag(f.format))
  {
    hide Le16, Le32, U16, U32, FmtHead, Guid;
    FmtHeadFields(f);
    var b := FmtBody(f);
    var valid, mask, guid := Le16(EffectiveValidBits(f)), Le32(EffectiveMask(f)), Guid(SampleTag(f.format));
    ReadBack16(b[..18], EffectiveValidBits(f), mask + guid);
    assert b[16..] == Le16(CB_SIZE) + valid + mask + guid;
    assert b == b[..18] + valid + (mask + guid);
    ReadBack32(b[..20], EffectiveMask(f), guid);
    assert b == b[..20] + mask + guid;
  }

  /** Parsing a printed fmt chunk gives the normal form of the format printed. */
  lemma ParseOfPrintedFmt(f: Format)
    requires Writable(f)
    ensures ParseFmt(FmtBody(f)) == Ok(Normalised(f))
  {
    FmtHeadFields(f);
    if NeedsExtensible(f) {
      FmtTailFields(f);
      GuidsDiffer();
    }
  }

  /** The normal form is reached in one step: printing what was parsed changes nothing further. */
  lemma PrintedFmtIsStable(f: Format)
    requires Writable(f)
    ensures Writable(Normalised(f)) && FmtBody(Normalised(f)) == FmtBody(f)
    ensures ParseFmt(FmtBody(Normalised(f))) == Ok(Normalised(f))
  {
    ParseOfPrintedFmt(f);
  }

  /** Appends a complete fmt chunk, refusing exactly the formats whose fields do not fit. */
  method AppendFmt(dst: seq<byte>, f: Format) returns (r: Result<seq<byte>>)
    requires f.format == PCM || f.format == Float
    requires ValidDepth(f.format, f.bitDepth) && f.channels > 0 && f.sampleRate > 0
    requires f.channels <= MAX_INT64 && f.sampleRate <= MAX_SAMPLE_RATE
    ensures r == if Writable(f) then Ok(dst + Chunk(FMT, FmtBody(f))) else Err(TooLarge)
  {
    hide Le16, FrameWidth, ByteRate, FmtHead, FmtTail;
    var payload := FmtPayloadLen(f);
    var blockAlign: int64 := Wrap64(FrameWidth(f.bitDepth, f.channels));
    var byteRate: int64 := Wrap64(ByteRate(blockAlign, f.sampleRate));
    WrappedChecks(f);
    if !(0 <= blockAlign <= 0xffff) || !(0 <= byteRate <= MAX_UINT32) || f.channels > 0xffff {
      return Err(TooLarge);
    }
    var buf := new byte[8 + payload](_ => 0);
    assert buf[..] == [] + Zeros(8 + payload);
    PutNext(buf, [], 0, FMT);
    PutNext(buf, FMT, 4, Le32(payload));
    PutFmtHead(buf, f, blockAlign, byteRate);
    PutFmtTail(buf, f, FMT + Le32(payload) + FmtHead(f));
    assert buf[..] == Chunk(FMT, FmtBody(f)) by {
      assert FMT + Le32(payload) + FmtHead(f) + FmtTail(f) == FMT + Le32(payload) + FmtBody(f);
    }
    return Ok(dst + buf[..]);
  }

  method PutFmtHead(buf: array<byte>, f: Format, blockAlign: int64, byteRate: int64)
    requires Writable(f) && buf.Length == 8 + FmtPayloadLen(f)
    requires blockAlign == FrameWidth(f.bitDepth, f.channels) && byteRate == ByteRate(blockAlign, f.sampleRate)
    requires buf[..] == FMT + Le32(FmtPayloadLen(f)) + Zeros(FmtPayloadLen(f))
    modifies buf
    ensures buf[..] == FMT + Le32(FmtPayloadLen(f)) + FmtHead(f) + Zeros(FmtPayloadLen(f) - 16)
  {
    hide Le16, Le32, Zeros, ByteRate;
    var tag := if f.format == Float then TAG_FLOAT else TAG_PCM;
    if NeedsExtensible(f) {
      tag := TAG_EXTENSIBLE;
    }
    ghost var front := FMT + Le32(FmtPayloadLen(f));
    ghost var c, r, br, al := Le16(f.channels), Le32(f.sampleRate), Le32(byteRate), Le16(blockAlign);
    PutNext(buf, front, 8, Le16(tag));
    PutNext(buf, front + Le16(tag), 10, Le16(f.channels));
    PutNext(buf, front + Le16(tag) + c, 12, Le32(f.sampleRate));
    PutNext(buf, front + Le16(tag) + c + r, 16, Le32(byteRate));
    PutNext(buf, front + Le16(tag) + c + r + br, 20, Le16(blockAlign));
    PutNext(buf, front + Le16(tag) + c + r + br + al, 22, Le16(f.bitDepth));
    ConcatHead(front, Le16(tag), c, r, br, al, Le16(f.bitDepth));
  }

  lemma ConcatHead(h: seq<byte>, a: seq<byte>, b: seq<byte>, c: seq<byte>, d: seq<byte>, e: seq<byte>, g: seq<byte>)
    ensures h + a + b + c + d + e + g == h + (a + b + c + d + e + g)
  {
  }

  method PutFmtTail(buf: array<byte>, f: Format, ghost head: seq<byte>)
    requires Writable(f) && buf.Length == 8 + FmtPayloadLen(f)
    requires |head| == 24 && buf[..] == head + Zeros(FmtPayloadLen(f) - 16)
    modifies buf
    ensures buf[..] == head + FmtTail(f)
  {
    if NeedsExtensible(f) {
      PutExtension(buf, f, head);
    } else if FmtPayloadLen(f) == FMT_SIZE_EXTENDED {
      PutNext(buf, head, 24, Le16(0));
    }
  }

  method PutExtension(buf: array<byte>, f: Format, ghost head: seq<byte>)
    requires Writable(f) && NeedsExtensible(f) && buf.Length == 48
    requires |head| == 24 && buf[..] == head + Zeros(24)
    modifies buf
    ensures buf[..] == head + FmtTail(f)
  {
    var validBits := f.validBits;
    if validBits <= 0 || validBits > f.bitDepth {
      validBits := f.bitDepth;
    }
    var mask := f.channelMask;
    if mask == 0 {
      mask := ConventionalMask(f.channels);
    }
    var guid := if f.format == Float then Guid(TAG_FLOAT) else Guid(TAG_PCM);
    ghost var cb, valid, mask32 := Le16(CB_SIZE), Le16(validBits), Le32(mask);
    assert FmtTail(f) == cb + valid + mask32 + guid;
    PutNext(buf, head, 24, Le16(CB_SIZE));
    PutNext(buf, head + cb, 26, Le16(validBits));
    PutNext(buf, head + cb + valid, 28, Le32(mask));
    PutNext(buf, head + cb + valid + mask32, 32, guid);
    ConcatTail(head, cb, valid, mask32, guid);
  }

  lemma ConcatTail(h: seq<byte>, a: seq<byte>, b: seq<byte>, c: seq<byte>, d: seq<byte>)
    ensures h + a + b + c + d + [] == h + (a + b + c + d)
  {
  }

  /** The 16- and 32-bit field checks, made on products that may have wrapped, refuse exactly the formats that do
      not fit: a product that leaves int64 belongs to a channel count its own check refuses. */
  lemma WrappedChecks(f: Format)
    requires f.format == PCM || f.format == Float
    requires ValidDepth(f.format, f.bitDepth) && 0 < f.channels && 0 < f.sampleRate <= MAX_SAMPLE_RATE
    ensures var align := Wrap64(FrameWidth(f.bitDepth, f.channels));
            var rate := Wrap64(ByteRate(align, f.sampleRate));
            && (Writable(f) <==> 0 <= align <= 0xffff && 0 <= rate <= MAX_UINT32 && f.channels <= 0xffff)
            && (Writable(f) ==> align == FrameWidth(f.bitDepth, f.channels) && rate == ByteRate(align, f.sampleRate))
  {
    var align := Wrap64(FrameWidth(f.bitDepth, f.channels));
    if f.channels <= 0xffff && align <= 0xffff {
      ProductFits(align, f.sampleRate);
    }
  }

  lemma ProductFits(align: int, rate: int)
    requires 0 < align <= 0xffff && 0 < rate <= MAX_SAMPLE_RATE
    ensures 0 < ByteRate(align, rate) <= MAX_INT64
  {
    ProductOrder(1, align, rate);
    ProductOrder(align, 0xffff, rate);
  }

  lemma ProductOrder(a: int, b: int, c: int)
    requires a <= b && c > 0
    ensures ByteRate(a, c) <= ByteRate(b, c)
  {
  }
}
