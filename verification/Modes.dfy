/** What a configuration's RF64 mode decides: which streams open, in which container, and what a run may hold. */
module Modes {
  import opened Wire
  import opened Types
  import opened Chunks
  import opened Arith
  import opened Format
  import opened HeaderWriter
  import opened BextCodec
  import opened EncoderConfig
  import opened Encoding
  import opened EncoderRuns
  import opened RoundTrips

  // ---- which configurations are accepted -----------------------------------------------------------------------

  predicate RateAndChannels(cfg: Config) {
    1 <= cfg.sampleRate <= 2147483647 && 1 <= cfg.channels <= 65535
  }

  predicate Samples(cfg: Config) {
    (cfg.format == PCM && cfg.bitDepth in {8, 16, 24, 32}) || (cfg.format == Float && cfg.bitDepth in {32, 64})
  }

  predicate Descriptor(cfg: Config, cal: Calendar) {
    cfg.bext.Some? ==> ValidBext(cfg.bext.value, cal)
  }

  /** A configuration is rejected for exactly one reason, the first that applies. */
  lemma RejectedExactly(cfg: Config, cal: Calendar)
    ensures Rejection(cfg, cal).None? <==>
      RateAndChannels(cfg) && Samples(cfg) && Descriptor(cfg, cal) && |cfg.ixml| <= 1048576
    ensures Rejection(cfg, cal) == Some(BadConfig) <==>
      !RateAndChannels(cfg) || (Samples(cfg) && !Descriptor(cfg, cal))
    ensures Rejection(cfg, cal) == Some(Unsupported) <==> RateAndChannels(cfg) && !Samples(cfg)
    ensures Rejection(cfg, cal) == Some(TooLarge) <==>
      RateAndChannels(cfg) && Samples(cfg) && Descriptor(cfg, cal) && |cfg.ixml| > 1048576
    ensures Rejection(cfg, cal).None? ==> BytesPerFrame(cfg) == cfg.bitDepth / 8 * cfg.channels
  {
    hide ValidBext;
  }

  // ---- the opening header --------------------------------------------------------------------------------------

  /** Whether n bytes behind a header of this length fit 32-bit size fields. */
  predicate Fits32(headerLen: int, n: int) {
    n <= 4294967295 && headerLen + n + n % 2 - 8 <= 4294967295
  }

  /** The length of the header without room for 64-bit sizes. */
  function BareLen(cfg: Config): int {
    HeaderLen(HeaderConfigOf(cfg, BextBody(cfg), RIFF, false, 0))
  }

  /** The bytes declared, 0 where none are. */
  function Declared(cfg: Config, framesKnown: bool): int {
    if framesKnown then cfg.totalFrames * BytesPerFrame(cfg) else 0
  }

  /** Which accepted configurations open a stream, why the others do not, and in which container: Never opens RIFF or
      not at all, Always opens RF64 and is refused as a bad configuration exactly on a plain sink with nothing declared,
      Auto opens RIFF where nothing is declared, with room for an upgrade on a seekable sink, and otherwise wherever the
      declared bytes fit. */
  lemma ModeDecidesOpening(cfg: Config, seekable: bool, framesKnown: bool, cal: Calendar)
    requires Rejection(cfg, cal).None?
    ensures BytesPerFrame(cfg) > 0
    ensures
      var opening, declared := Opening(cfg, seekable, framesKnown, cal), Declared(cfg, framesKnown);
      var fields := Writable(FormatOf(cfg)) && |BextBody(cfg)| <= 4294967295;
      match cfg.rf64
      case Never =>
        && (opening.Ok? <==> fields && Fits32(BareLen(cfg), declared))
        && (opening.Ok? ==> opening.value.container == RIFF && !opening.value.reserveDS64)
        && (opening.Err? ==> opening.error == TooLarge)
      case Always =>
        && (opening.Ok? <==> (seekable || framesKnown) && fields && declared <= MAX_INT64)
        && (opening.Ok? ==> opening.value.container == RF64 && !opening.value.reserveDS64)
        && (opening.Err? ==> opening.error == if seekable || framesKnown then TooLarge else BadConfig)
      case Auto =>
        && (opening.Ok? ==>
              && opening.value.reserveDS64 == (seekable && !framesKnown)
              && opening.value.container == if framesKnown && !Fits32(BareLen(cfg), declared) then RF64 else RIFF)
        && (opening.Err? ==> opening.error == TooLarge)
    ensures Opening(cfg, seekable, framesKnown, cal).Ok? ==>
      var h := Opening(cfg, seekable, framesKnown, cal).value;
      && h.format
         == Format(cfg.sampleRate, cfg.channels, cfg.bitDepth, 0, 0, cfg.format, cfg.extensible, cfg.channelMask)
      && h.dataSize == Declared(cfg, framesKnown) && h.frames == cfg.totalFrames
      && h.bext == BextBody(cfg) && h.ixml == cfg.ixml
  {
    hide FitsRIFF, FmtPayloadLen, Writable, Rejection, BytesPerFrame, Body, HeaderLen;
    AcceptedFrame(cfg, cal);
    RejectedExactly(cfg, cal);
    LengthsOf(cfg, Declared(cfg, framesKnown));
    if Declared(cfg, framesKnown) <= MAX_INT64 {
      SizeLeavesTheLength(cfg, Declared(cfg, framesKnown));
    }
  }

  lemma SizeLeavesTheLength(cfg: Config, n: int64)
    ensures HeaderLen(HeaderConfigOf(cfg, BextBody(cfg), RIFF, false, n)) == BareLen(cfg)
  {
    hide FmtPayloadLen, BextBody;
  }

  lemma LengthsOf(cfg: Config, n: int)
    requires |cfg.ixml| <= 1048576
    ensures |BextBody(cfg)| <= MAX_UINT32 ==> 28 <= BareLen(cfg) <= 0x2_0000_0000
    ensures |BextBody(cfg)| <= MAX_UINT32 && 0 <= n <= MAX_INT64 ==>
      (FitsRIFF(BareLen(cfg), n) <==> Fits32(BareLen(cfg), n))
  {
    hide FmtPayloadLen, BextBody;
  }

  // ---- the run -------------------------------------------------------------------------------------------------

  /** Whether a stream opened this way is held to 32-bit sizes for good. */
  predicate Held32(cfg: Config, seekable: bool, framesKnown: bool) {
    match cfg.rf64
    case Never => true
    case Always => false
    case Auto => if framesKnown then Fits32(BareLen(cfg), Declared(cfg, framesKnown)) else !seekable
  }

  /** How long the opening header is. */
  function OpeningLen(cfg: Config, seekable: bool, framesKnown: bool): int {
    match cfg.rf64
    case Never => BareLen(cfg)
    case Always => BareLen(cfg) + 36
    case Auto =>
      if framesKnown then (if Fits32(BareLen(cfg), Declared(cfg, framesKnown)) then BareLen(cfg) else BareLen(cfg) + 36)
      else if seekable then BareLen(cfg) + 36
      else BareLen(cfg)
  }

  /** What the mode leaves of a run on a willing sink: its audio is refused as too large exactly when its whole frames
      pass 2^63 - 1 bytes, or pass 32-bit sizes that the mode does not let go of, else for a partial frame, else for a
      wrong count. */
  lemma ModeDecidesRun(cfg: Config, seekable: bool, framesKnown: bool, cal: Calendar, n: nat)
    requires Opening(cfg, seekable, framesKnown, cal).Ok? && (cfg.totalFrames > 0 ==> framesKnown)
    ensures BytesPerFrame(cfg) > 0
    ensures
      var h, whole := Opening(cfg, seekable, framesKnown, cal).value, n - n % BytesPerFrame(cfg);
      var len := OpeningLen(cfg, seekable, framesKnown);
      && HeaderLen(h) == len
      && Verdict(cfg, h, seekable, framesKnown, n) ==
           if whole > MAX_INT64 || (Held32(cfg, seekable, framesKnown) && !Fits32(len, whole)) then Some(TooLarge)
           else if n != whole then Some(TrailingBytes)
           else if cfg.totalFrames > 0 && n != cfg.totalFrames * BytesPerFrame(cfg) then Some(FrameMismatch)
           else None
  {
    hide Opening, FitsFields, BytesPerFrame, Rejection, BextBody, HeaderLen, Fits32, BareLen, Declared;
    OpeningBext(cfg, seekable, framesKnown, cal);
    ModeDecidesOpening(cfg, seekable, framesKnown, cal);
    OpeningBounds(cfg, seekable, framesKnown, cal);
    FitsAs32(HeaderLen(Opening(cfg, seekable, framesKnown, cal).value), Whole(n, BytesPerFrame(cfg)));
  }

  /** The container a finished stream carries: RIFF for all audio under Never, RF64 under Always, and under Auto RIFF
      unless the declared bytes do not fit it or, where the header is stamped, the audio does not. */
  lemma ModeDecidesContainer(cfg: Config, seekable: bool, framesKnown: bool, cal: Calendar, n: int64, base: nat)
    requires Opening(cfg, seekable, framesKnown, cal).Ok? && (cfg.totalFrames > 0 ==> framesKnown)
    requires BytesPerFrame(cfg) > 0 && n >= 0
    requires Finishable(cfg, Opening(cfg, seekable, framesKnown, cal).value, seekable, framesKnown, n)
    ensures
      var container := Carried(cfg, Opening(cfg, seekable, framesKnown, cal).value, seekable, base, n).container;
      match cfg.rf64
      case Never => container == RIFF
      case Always => container == RF64
      case Auto =>
        && (framesKnown ==> container == if Fits32(BareLen(cfg), Declared(cfg, true)) then RIFF else RF64)
        && (!framesKnown && !Stamped(seekable, base) ==> container == RIFF)
        && (!framesKnown && Stamped(seekable, base) ==>
              container == if Fits32(BareLen(cfg) + 36, n) then RIFF else RF64)
  {
    hide Opening, FitsFields, BytesPerFrame, Rejection, BextBody, HeaderLen, Fits32, BareLen, Declared;
    OpeningBext(cfg, seekable, framesKnown, cal);
    ModeDecidesOpening(cfg, seekable, framesKnown, cal);
    OpeningBounds(cfg, seekable, framesKnown, cal);
    FitsAs32(HeaderLen(Opening(cfg, seekable, framesKnown, cal).value), n);
  }

  lemma OpeningBounds(cfg: Config, seekable: bool, framesKnown: bool, cal: Calendar)
    requires Opening(cfg, seekable, framesKnown, cal).Ok? && (cfg.totalFrames > 0 ==> framesKnown)
    ensures
      var h := Opening(cfg, seekable, framesKnown, cal).value;
      && 44 <= HeaderLen(h) <= 0x4_0000_0000
      && HeaderLen(h) == BareLen(cfg) + if h.container == RF64 || h.reserveDS64 then 36 else 0
  {
    hide Opening, BytesPerFrame, BextBody, FmtPayloadLen, FitsRIFF, Fits32, Writable;
    OpeningBext(cfg, seekable, framesKnown, cal);
    ModeDecidesOpening(cfg, seekable, framesKnown, cal);
    OpeningIsSound(cfg, seekable, framesKnown, cal);
    BelongingBounds(cfg, seekable, Opening(cfg, seekable, framesKnown, cal).value);
  }

  lemma FitsAs32(headerLen: int, n: nat)
    requires 44 <= headerLen <= 0x4_0000_0000
    ensures FitsFields(headerLen, n) <==> Fits32(headerLen, n)
  {
  }

  predicate SaysRIFF(file: seq<byte>) {
    Ascii("RIFF") <= file
  }

  predicate SaysRF64(file: seq<byte>) {
    Ascii("RF64") <= file
  }

  /** What a finished stream, which StreamInItsSink finds in its sink byte for byte, starts with: RIFF under Never and
      RF64 under Always, whatever the audio. */
  lemma FinishedMagic(cfg: Config, seekable: bool, framesKnown: bool, cal: Calendar, audio: seq<byte>, base: nat)
    requires Opening(cfg, seekable, framesKnown, cal).Ok? && (cfg.totalFrames > 0 ==> framesKnown)
    requires BytesPerFrame(cfg) > 0 && |audio| <= MAX_INT64
    requires Finishable(cfg, Opening(cfg, seekable, framesKnown, cal).value, seekable, framesKnown, |audio|)
    ensures
      var carried := Carried(cfg, Opening(cfg, seekable, framesKnown, cal).value, seekable, base, |audio|);
      && Buildable(carried) && SizesFit(carried)
      && (SaysRIFF(File(carried, audio)) <==> carried.container == RIFF)
      && (SaysRF64(File(carried, audio)) <==> carried.container == RF64)
      && (cfg.rf64 == Never ==> SaysRIFF(File(carried, audio)))
      && (cfg.rf64 == Always ==> SaysRF64(File(carried, audio)))
  {
    hide Opening, Head, BytesPerFrame, Finishable, HeaderLen, Ascii, Finished, Fits32, SizesFit, BareLen, Declared,
      Writable;
    var carried := Carried(cfg, Opening(cfg, seekable, framesKnown, cal).value, seekable, base, |audio|);
    CarriedIsWritable(cfg, seekable, framesKnown, cal, |audio|, base);
    ModeDecidesContainer(cfg, seekable, framesKnown, cal, |audio|, base);
    HeadStartsWithMagic(carried);
    ProbeMatchesEmission(carried);
    IdentifiersSpell();
    assert File(carried, audio)[..4] == Head(carried)[..4];
    assert RIFF_ID[1] != RF64_ID[1];
  }
}
