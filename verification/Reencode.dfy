/** Writing again what was read: the description a reader recovers leads back to the header it came from. */
module Reencoding {
  import opened Wire
  import opened Types
  import opened Chunks
  import opened Arith
  import opened Format
  import opened HeaderWriter
  import opened HeaderReader
  import opened HeaderLaws
  import opened BextCodec
  import opened EncoderConfig
  import opened Encoding
  import opened EncoderRuns
  import opened RoundTrips

  /** The format a writer is given to write what a reader described. */
  function FormatRead(f: Format): Format {
    var n := Normalised(f);
    Format(f.sampleRate, f.channels, f.bitDepth, 0, 0, f.format, n.extensible, n.channelMask)
  }

  /** The header configuration a parsed header leads to, with or without space for an upgrade. */
  function ConfigRead(hdr: Header, reserve: bool): HeaderConfig {
    var i := hdr.info;
    HeaderConfig(
      Format(i.sampleRate, i.channels, i.bitDepth, 0, 0, i.format, i.extensible, i.channelMask), i.container, reserve,
      if hdr.dataSize == SIZE_UNKNOWN then 0 else hdr.dataSize, i.totalFrames, Bytes(hdr.bext), Bytes(hdr.ixml))
  }

  /** Making the promotion and the mask explicit changes neither the form nor a byte of the fmt chunk. */
  lemma FmtIsReproduced(f: Format)
    requires Writable(f) && f.validBits == 0
    ensures
      var g := FormatRead(f);
      Writable(g) && g.format == f.format && FmtPayloadLen(g) == FmtPayloadLen(f) && FmtBody(g) == FmtBody(f)
  {
    hide ByteRate, FrameWidth, Le16, Le32, ConventionalMask, Guid;
  }

  lemma ReadConfig(cfg: HeaderConfig)
    requires Buildable(cfg)
    ensures
      ConfigRead(HeaderOf(cfg), cfg.reserveDS64) ==
        HeaderConfig(FormatRead(cfg.format), cfg.container, cfg.reserveDS64,
                     if cfg.dataSize <= MAX_DATA_SIZE && cfg.dataSize > 0 then cfg.dataSize else 0, KnownFrames(cfg),
                     if |cfg.bext| <= MAX_CHUNK_PAYLOAD then cfg.bext else [],
                     if |cfg.ixml| <= MAX_CHUNK_PAYLOAD then cfg.ixml else [])
  {
    hide NeedsExtensible, EffectiveMask, EffectiveValidBits, KnownFrames, ByteRate, FrameWidth;
  }

  /** A header is reproduced from what a reader learns of it exactly when the reader holds its metadata bodies and
      believes its length. */
  lemma HeaderIsReproduced(cfg: HeaderConfig)
    requires Buildable(cfg) && SizesFit(cfg) && cfg.format.validBits == 0
    requires cfg.dataSize <= MAX_DATA_SIZE ==> cfg.frames == KnownFrames(cfg)
    ensures
      var again := ConfigRead(HeaderOf(cfg), cfg.reserveDS64);
      && Buildable(again) && SizesFit(again)
      && (Head(again) == Head(cfg) <==>
            |cfg.bext| <= MAX_CHUNK_PAYLOAD && |cfg.ixml| <= MAX_CHUNK_PAYLOAD && cfg.dataSize <= MAX_DATA_SIZE)
  {
    hide Head, HeaderOf, ConfigRead, FormatRead, FmtPayloadLen, KnownFrames, Writable, RiffSizeForLen, SizesAreTrue;
    var again := ConfigRead(HeaderOf(cfg), cfg.reserveDS64);
    ReadConfig(cfg);
    FmtIsReproduced(cfg.format);
    SmallerStillFits(HeaderLen(cfg), HeaderLen(again), cfg.dataSize, again.dataSize, cfg.container);
    if |cfg.bext| > MAX_CHUNK_PAYLOAD || |cfg.ixml| > MAX_CHUNK_PAYLOAD {
      assert |Head(again)| == HeaderLen(again) < HeaderLen(cfg) == |Head(cfg)|;
    } else if cfg.dataSize > MAX_DATA_SIZE {
      HeaderStatesItsSizes(cfg, Zeros(cfg.dataSize));
      HeaderStatesItsSizes(again, Zeros(cfg.dataSize));
    } else {
      SameHead(cfg, again);
    }
  }

  lemma SmallerStillFits(large: int, small: int, n: int64, m: int64, container: Container)
    requires 44 <= small <= large <= 0x1000_0000_0000_0000 && 0 <= m <= n
    requires container.Sized64() || FitsRIFF(large, n)
    ensures container.Sized64() || FitsRIFF(small, m)
  {
  }

  /** Configurations that differ in how their format asks for the same fmt chunk have the same header. */
  lemma SameHead(a: HeaderConfig, b: HeaderConfig)
    requires Buildable(a) && SizesFit(a) && Buildable(b) && SizesFit(b)
    requires b == a.(format := b.format) && b.format.format == a.format.format
    requires FmtPayloadLen(a.format) == FmtPayloadLen(b.format) && FmtBody(a.format) == FmtBody(b.format)
    ensures Head(a) == Head(b)
  {
    hide Assemble, FieldsOf, FmtBody, FmtPayloadLen, MetaChunk, Chunk, Writable;
  }

  /** What a finished stream decodes to, written again with the same reservation, gives the same bytes exactly when the
      reader holds the descriptor and believes the length the header states. */
  lemma ReencodingReproduces(cfg: Config, seekable: bool, framesKnown: bool, cal: Calendar, audio: seq<byte>, base: nat)
    requires Opening(cfg, seekable, framesKnown, cal).Ok? && (cfg.totalFrames > 0 ==> framesKnown)
    requires BytesPerFrame(cfg) > 0 && |audio| <= MAX_INT64
    requires Finishable(cfg, Opening(cfg, seekable, framesKnown, cal).value, seekable, framesKnown, |audio|)
    ensures
      var carried := Carried(cfg, Opening(cfg, seekable, framesKnown, cal).value, seekable, base, |audio|);
      && Buildable(carried) && SizesFit(carried) && Parse(File(carried, audio)).Ok?
      && var again := ConfigRead(Parse(File(carried, audio)).value.header, carried.reserveDS64);
         && Buildable(again) && SizesFit(again)
         && (File(again, audio) == File(carried, audio) <==>
               |BextBody(cfg)| <= MAX_CHUNK_PAYLOAD
               && (Stamped(seekable, base) || cfg.totalFrames > 0 ==> |audio| <= MAX_DATA_SIZE))
  {
    hide Opening, Head, BytesPerFrame, Finishable, Parse, ConfigRead, HeaderLen, Buildable, SizesFit, BextBody,
      KnownFrames, HeaderOf, Carried, ContainerFor;
    var carried := Carried(cfg, Opening(cfg, seekable, framesKnown, cal).value, seekable, base, |audio|);
    CarriedIsWritable(cfg, seekable, framesKnown, cal, |audio|, base);
    IxmlIsHeld(cfg, seekable, framesKnown, cal);
    ParseOfHead(carried, audio + PadOf(|audio|));
    CarriedFrames(cfg, seekable, framesKnown, cal, |audio|, base);
    HeaderIsReproduced(carried);
    SameFront(Head(ConfigRead(HeaderOf(carried), carried.reserveDS64)), Head(carried), audio + PadOf(|audio|));
  }

  lemma IxmlIsHeld(cfg: Config, seekable: bool, framesKnown: bool, cal: Calendar)
    requires Opening(cfg, seekable, framesKnown, cal).Ok?
    ensures |cfg.ixml| <= MAX_CHUNK_PAYLOAD
  {
    hide OpeningHeader, BuildRefusal, ValidBext;
  }

  lemma SameFront(x: seq<byte>, y: seq<byte>, t: seq<byte>)
    ensures x + t == y + t <==> x == y
  {
    if x + t == y + t {
      assert |x| == |y|;
      assert (x + t)[..|x|] == x && (y + t)[..|y|] == y;
    }
  }

  /** The frame count a finished stream states is the one its length gives. */
  lemma CarriedFrames(cfg: Config, seekable: bool, framesKnown: bool, cal: Calendar, n: int64, base: nat)
    requires Opening(cfg, seekable, framesKnown, cal).Ok? && (cfg.totalFrames > 0 ==> framesKnown)
    requires BytesPerFrame(cfg) > 0 && n >= 0
    requires Finishable(cfg, Opening(cfg, seekable, framesKnown, cal).value, seekable, framesKnown, n)
    ensures
      var carried := Carried(cfg, Opening(cfg, seekable, framesKnown, cal).value, seekable, base, n);
      && Buildable(carried) && carried.format.validBits == 0
      && (carried.dataSize <= MAX_DATA_SIZE ==> carried.frames == KnownFrames(carried))
  {
    hide Opening, FrameWidth, HeaderLen, BuildRefusal, FitsFields, FitsRIFF, Writable, ContainerFor;
    OpeningIsSound(cfg, seekable, framesKnown, cal);
    CarriedIsWritable(cfg, seekable, framesKnown, cal, n, base);
    ProductDiv(cfg.totalFrames, BytesPerFrame(cfg));
    SmallWhole(0, BytesPerFrame(cfg));
  }
}
