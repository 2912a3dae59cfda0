/** Encoder configuration: what is accepted, and which container and header it leads to. */
module EncoderConfig {
  import opened Wire
  import opened Types
  import opened Chunks
  import opened Arith
  import opened Format
  import opened HeaderWriter
  import opened BextCodec

  datatype RF64Mode = Auto | Never | Always

  /** totalFrames 0 means unknown; bext None and an empty ixml write no such chunk. */
  datatype Config = Config(
    sampleRate: int, bitDepth: int, channels: int, format: SampleFormat, extensible: bool, channelMask: uint32,
    rf64: RF64Mode, totalFrames: uint64, bext: Option<Bext>, ixml: seq<byte>)

  function BytesPerFrame(cfg: Config): int {
    FrameWidth(cfg.bitDepth, cfg.channels)
  }

  /** Why a configuration is rejected, if it is. */
  function Rejection(cfg: Config, cal: Calendar): Option<Error> {
    if cfg.sampleRate <= 0 || cfg.sampleRate > MAX_SAMPLE_RATE || cfg.channels <= 0
      || cfg.channels > 0xffff
    then Some(BadConfig)
    else if cfg.format.Companded() || !ValidDepth(cfg.format, cfg.bitDepth) then Some(Unsupported)
    else if cfg.bext.Some? && !ValidBext(cfg.bext.value, cal) then Some(BadConfig)
    else if |cfg.ixml| > MAX_CHUNK_PAYLOAD then Some(TooLarge)
    else None
  }

  /** The checks in their order; the descriptor is validated field by field. */
  method Vet(cfg: Config, cal: Calendar) returns (rejection: Option<Error>)
    ensures rejection == Rejection(cfg, cal)
  {
    hide ValidBext;
    if cfg.sampleRate <= 0 || cfg.sampleRate > MAX_SAMPLE_RATE || cfg.channels <= 0 || cfg.channels > 0xffff {
      return Some(BadConfig);
    }
    if cfg.format.Companded() || !ValidDepth(cfg.format, cfg.bitDepth) {
      return Some(Unsupported);
    }
    if cfg.bext.Some? {
      var ok := Validate(cfg.bext.value, cal);
      if !ok {
        return Some(BadConfig);
      }
    }
    return if |cfg.ixml| > MAX_CHUNK_PAYLOAD then Some(TooLarge) else None;
  }

  lemma AcceptedFrame(cfg: Config, cal: Calendar)
    requires Rejection(cfg, cal).None?
    ensures 0 < BytesPerFrame(cfg) <= 8 * 0xffff
  {
  }

  /** A declared frame count in bytes, refused when it does not fit an int64. */
  function DeclaredDataSize(cfg: Config): (r: Result<int64>)
    requires BytesPerFrame(cfg) > 0
    ensures r == if cfg.totalFrames * BytesPerFrame(cfg) <= MAX_INT64 then Ok(cfg.totalFrames * BytesPerFrame(cfg))
      else Err(TooLarge)
    ensures r.Ok? ==> r.value >= 0
  {
    ProductGuard(cfg.totalFrames, BytesPerFrame(cfg), MAX_INT64);
    if cfg.totalFrames > MAX_INT64 / BytesPerFrame(cfg) then Err(TooLarge)
    else Ok(cfg.totalFrames * BytesPerFrame(cfg))
  }

  function FormatOf(cfg: Config): Format {
    Format(cfg.sampleRate, cfg.channels, cfg.bitDepth, 0, 0, cfg.format, cfg.extensible, cfg.channelMask)
  }

  function HeaderConfigOf(cfg: Config, bext: seq<byte>, container: Container, reserve: bool,
                          dataSize: int64): HeaderConfig {
    HeaderConfig(FormatOf(cfg), container, reserve, dataSize, cfg.totalFrames, bext, cfg.ixml)
  }

  /** Which container the header opens with, and whether it makes room for a later upgrade. */
  function Plan(cfg: Config, bext: seq<byte>, seekable: bool, framesKnown: bool): Result<(Container, bool)>
    requires BytesPerFrame(cfg) > 0
  {
    match cfg.rf64
    case Always => if !seekable && !framesKnown then Err(BadConfig) else Ok((RF64, false))
    case Never => Ok((RIFF, false))
    case Auto =>
      if !framesKnown then Ok((RIFF, seekable))
      else
        match DeclaredDataSize(cfg)
        case Err(e) => Err(e)
        case Ok(size) =>
          Ok((if FitsPlainRIFF(HeaderConfigOf(cfg, bext, RIFF, false, 0), size) then RIFF else RF64, false))
  }

  /** The header an accepted stream opens with, or the refusal. */
  function OpeningHeader(cfg: Config, bext: seq<byte>, seekable: bool, framesKnown: bool): Result<HeaderConfig>
    requires BytesPerFrame(cfg) > 0
  {
    match Plan(cfg, bext, seekable, framesKnown)
    case Err(e) => Err(e)
    case Ok((container, reserve)) =>
      match if framesKnown then DeclaredDataSize(cfg) else Ok(0)
      case Err(e) => Err(e)
      case Ok(size) => Ok(HeaderConfigOf(cfg, bext, container, reserve, size))
  }

  /** With a declared length, Auto chooses RIFF exactly when both 32-bit size fields fit it. */
  lemma AutoChoosesByFit(cfg: Config, bext: seq<byte>, seekable: bool)
    requires BytesPerFrame(cfg) > 0 && cfg.rf64 == Auto && OpeningHeader(cfg, bext, seekable, true).Ok?
    requires |bext| <= MAX_UINT32 && |cfg.ixml| <= MAX_UINT32
    ensures var h := OpeningHeader(cfg, bext, seekable, true).value;
            && h.dataSize == cfg.totalFrames * BytesPerFrame(cfg)
            && (h.container == RIFF <==>
              h.dataSize <= MAX_UINT32 && FileSize(HeaderLen(h.(container := RIFF)), h.dataSize) <= MAX_UINT32)
            && (h.container != RIFF ==> h.container == RF64)
  {
    hide RiffSizeForLen, FmtPayloadLen, BytesPerFrame, FileSize;
    var h := OpeningHeader(cfg, bext, seekable, true).value;
    var n := HeaderLen(h.(container := RIFF));
    assert n == HeaderLen(HeaderConfigOf(cfg, bext, RIFF, false, 0));
    RiffSizeIsExact(n, h.dataSize);
    if h.dataSize <= MAX_UINT32 {
      RiffSizeSign(n, h.dataSize);
    }
  }

  lemma RiffSizeSign(headerLen: int, dataSize: int64)
    requires 8 <= headerLen <= 0x1000_0000_0000_0000 && 0 <= dataSize <= MAX_UINT32
    ensures RiffSizeForLen(headerLen, dataSize) >= 0
  {
  }

  /** Under Auto an accepted configuration is refused on its declared length exactly when that many bytes leave int64.
      Otherwise the header built for it fails on a size field exactly when no length is declared and the header alone,
      which only an enormous bext body can bring about, outgrows the RIFF size field: the probe has chosen RF64 by then
      for a length that needs it. What else is refused are the fmt fields and a bext body beyond its own size field. */
  lemma AutoNeverFailsOnSize(cfg: Config, cal: Calendar, bext: seq<byte>, seekable: bool, framesKnown: bool)
    requires Rejection(cfg, cal).None? && cfg.rf64 == Auto && BytesPerFrame(cfg) > 0
    ensures
      var opening := OpeningHeader(cfg, bext, seekable, framesKnown);
      && (opening.Ok? <==> (framesKnown ==> cfg.totalFrames * BytesPerFrame(cfg) <= MAX_INT64))
      && (opening.Err? ==> opening.error == TooLarge)
      && (opening.Ok? ==>
            && HeaderLen(opening.value) >= 8
            && (BuildRefusal(opening.value).None? <==>
                  && Writable(FormatOf(cfg)) && |bext| <= MAX_UINT32
                  && (framesKnown || FileSize(HeaderLen(opening.value), 0) <= MAX_UINT32)))
  {
    hide FrameWidth, ByteRate, FmtPayloadLen, RiffSizeForLen, BytesPerFrame, ValidBext;
    var opening := OpeningHeader(cfg, bext, seekable, framesKnown);
    if opening.Ok? && |bext| <= MAX_UINT32 {
      var h := opening.value;
      if !framesKnown {
        RiffSizeIsExact(HeaderLen(h), 0);
        RiffSizeSign(HeaderLen(h), 0);
      } else if h.container == RIFF {
        assert HeaderLen(h) == HeaderLen(HeaderConfigOf(cfg, bext, RIFF, false, 0));
      }
    }
  }
}
