/** Writer and reader agree: what a whole run of the encoder leaves in its sink decodes to what went in. */
module RoundTrips {
  import opened Wire
  import opened Types
  import opened Chunks
  import opened Arith
  import opened Format
  import opened Sinks
  import opened Sources
  import opened HeaderWriter
  import opened HeaderReader
  import opened WalkLaws
  import opened HeaderLaws
  import opened BextCodec
  import opened EncoderConfig
  import opened Encoding
  import opened EncoderRuns
  import opened Samples
  import opened Streams
  import opened OneShot

  /** The bytes a finished run leaves behind. */
  function File(final: HeaderConfig, audio: seq<byte>): seq<byte>
    requires Buildable(final) && SizesFit(final)
  {
    Head(final) + (audio + PadOf(|audio|))
  }

  /** Whether the header stamped at Close is the stream's own: the sink can seek and the stream begins at its front. */
  predicate Stamped(seekable: bool, base: nat) {
    seekable && base == 0
  }

  /** Whether the stamp spares the stream or is its own. */
  predicate Spared(seekable: bool, base: nat, headerLen: int) {
    !seekable || base == 0 || base >= headerLen
  }

  /** The header a finished stream begun at base carries: its final one where it is stamped, else its opening one. */
  function Carried(cfg: Config, h: HeaderConfig, seekable: bool, base: nat, n: int64): HeaderConfig
    requires BytesPerFrame(cfg) > 0 && n >= 0
  {
    Finished(cfg, h, Stamped(seekable, base), n)
  }

  /** Whether a reader of the finished stream learns the length of its audio: it was declared or stamped, and is one the
      reader believes. */
  predicate LengthRecovered(cfg: Config, stamped: bool, n: int) {
    (stamped || cfg.totalFrames > 0) && 1 <= n <= MAX_DATA_SIZE
  }

  /** The body of the bext chunk a configuration leads to. */
  function BextBody(cfg: Config): seq<byte> {
    if cfg.bext.Some? then Body(cfg.bext.value) else []
  }

  lemma CarriedIsWritable(cfg: Config, seekable: bool, framesKnown: bool, cal: Calendar, n: int64, base: nat)
    requires Opening(cfg, seekable, framesKnown, cal).Ok? && (cfg.totalFrames > 0 ==> framesKnown)
    requires BytesPerFrame(cfg) > 0 && n >= 0
    requires Finishable(cfg, Opening(cfg, seekable, framesKnown, cal).value, seekable, framesKnown, n)
    ensures
      var h := Opening(cfg, seekable, framesKnown, cal).value;
      var carried := Carried(cfg, h, seekable, base, n);
      && Buildable(carried) && SizesFit(carried)
      && carried.format == FormatOf(cfg) && carried.bext == BextBody(cfg) && carried.ixml == cfg.ixml
      && carried.dataSize == (if Stamped(seekable, base) || cfg.totalFrames > 0 then n else 0)
      && carried.container == (if Stamped(seekable, base) then ContainerFor(h.container, HeaderLen(h), n)
                                else h.container)
  {
    hide Opening, BytesPerFrame, FrameWidth, HeaderLen, BuildRefusal, FitsFields, Writable, ShapeOf, FrameCount, Body;
    OpeningIsSound(cfg, seekable, framesKnown, cal);
    OpeningBext(cfg, seekable, framesKnown, cal);
    var h := Opening(cfg, seekable, framesKnown, cal).value;
    var c := ContainerFor(h.container, HeaderLen(h), n);
    if Stamped(seekable, base) {
      FinalKeepsShape(h, c, n, FrameCount(n, BytesPerFrame(cfg)));
      FitsFieldsFitsRIFF(HeaderLen(h), n);
    }
  }

  lemma FitsFieldsFitsRIFF(headerLen: int, n: int64)
    ensures FitsFields(headerLen, n) ==> FitsRIFF(headerLen, n)
  {
  }

  lemma OpeningBext(cfg: Config, seekable: bool, framesKnown: bool, cal: Calendar)
    requires Opening(cfg, seekable, framesKnown, cal).Ok?
    ensures Opening(cfg, seekable, framesKnown, cal).value.bext == BextBody(cfg)
    ensures Rejection(cfg, cal).None?
  {
    hide Rejection, BuildRefusal, BytesPerFrame, FitsPlainRIFF, Body;
  }

  // ---- reading a finished file -----------------------------------------------------------------------------------

  lemma DecodedOf(b: seq<byte>, h: Header, audio: seq<byte>, o: Options)
    requires Parse(b) == Ok(Parsed(h, audio)) && Acceptable(o)
    ensures Renders(JobOf(h, o))
    ensures Decoded(b, o) == Ok((Render(JobOf(h, o), Bound(audio, Remaining(h, o))), InfoOf(h, o)))
  {
    hide Parse, Bounded, Render, Bound, InfoOf;
    ParseIsBounded(b);
    BoundedRenders(h, o);
  }

  lemma BoundAudio(audio: seq<byte>, pad: seq<byte>)
    ensures Bound(audio + pad, |audio|) == audio && Bound(audio + pad, SIZE_UNKNOWN) == audio + pad
  {
  }

  /** The description a reader recovers from a header written for this configuration. */
  predicate Describes(hdr: Header, cfg: Config, container: Container, known: bool, n: int)
    requires BytesPerFrame(cfg) > 0
  {
    var f := Normalised(FormatOf(cfg));
    && hdr.info.sampleRate == cfg.sampleRate && hdr.info.channels == cfg.channels
    && hdr.info.bitDepth == hdr.info.sourceBitDepth == cfg.bitDepth
    && hdr.info.format == hdr.info.sourceFormat == cfg.format
    && hdr.info.extensible == f.extensible && hdr.info.channelMask == f.channelMask && hdr.info.validBits == f.validBits
    && hdr.info.container == container && hdr.info.dataSizeKnown == known
    && hdr.dataSize == (if known then n else SIZE_UNKNOWN)
    && (known ==> hdr.info.totalFrames == n / BytesPerFrame(cfg))
    && hdr.bext == (if BextBody(cfg) == [] then None else Held(BextBody(cfg)))
    && hdr.ixml == (if cfg.ixml == [] then None else Some(cfg.ixml))
  }

  lemma HeaderDescribes(cfg: Config, cal: Calendar, final: HeaderConfig, n: int64, known: bool)
    requires Rejection(cfg, cal).None? && Buildable(final) && BytesPerFrame(cfg) > 0 && n >= 0
    requires final.format == FormatOf(cfg) && final.bext == BextBody(cfg) && final.ixml == cfg.ixml
    requires known <==> 1 <= final.dataSize <= MAX_DATA_SIZE
    requires known ==> final.dataSize == n
    ensures Describes(HeaderOf(final), cfg, final.container, known, n)
  {
    hide Body, ValidBext, NeedsExtensible, EffectiveMask, EffectiveValidBits, ByteRate;
    AcceptedFrame(cfg, cal);
  }

  /** Whole-run round trip. For every accepted configuration, all audio that can be finished, and a stream the stamp
      spares, at any position of any sink: the bytes left behind parse, the description is the one written, the metadata
      bodies come back, and decoding, with or without a conversion, yields the audio. Where no length reached the header
      the stream carries, or it is being ignored, the pad byte of an odd stream comes back with it. */
  lemma WholeRun(cfg: Config, seekable: bool, framesKnown: bool, cal: Calendar, audio: seq<byte>, o: Options, base: nat)
    requires Opening(cfg, seekable, framesKnown, cal).Ok? && (cfg.totalFrames > 0 ==> framesKnown)
    requires BytesPerFrame(cfg) > 0 && |audio| <= MAX_INT64 && Acceptable(o)
    requires Finishable(cfg, Opening(cfg, seekable, framesKnown, cal).value, seekable, framesKnown, |audio|)
    ensures
      var h := Opening(cfg, seekable, framesKnown, cal).value;
      var carried := Carried(cfg, h, seekable, base, |audio|);
      && Buildable(carried) && SizesFit(carried) && Parse(File(carried, audio)).Ok?
      && var parsed, known := Parse(File(carried, audio)).value, LengthRecovered(cfg, Stamped(seekable, base), |audio|);
         var job := Job(cfg.format, cfg.bitDepth, Target(o, cfg.format));
         && Describes(parsed.header, cfg, carried.container, known, |audio|)
         && carried.container
            == (if Stamped(seekable, base) then ContainerFor(h.container, HeaderLen(h), |audio|) else h.container)
         && parsed.audio == audio + PadOf(|audio|)
         && Renders(job)
         && Decoded(File(carried, audio), o)
            == Ok((Render(job, if known && !o.ignoreLength then audio else audio + PadOf(|audio|)),
              InfoOf(parsed.header, o)))
  {
    hide Opening, Head, HeaderOf, BytesPerFrame, Carried, Finishable, Parse, Rejection, Describes, Render, Bound,
      Decoded, Acceptable, HeaderLen, ContainerFor, BextBody, InfoOf;
    var h := Opening(cfg, seekable, framesKnown, cal).value;
    var carried := Carried(cfg, h, seekable, base, |audio|);
    var known := LengthRecovered(cfg, Stamped(seekable, base), |audio|);
    CarriedIsWritable(cfg, seekable, framesKnown, cal, |audio|, base);
    OpeningBext(cfg, seekable, framesKnown, cal);
    ParseOfHead(carried, audio + PadOf(|audio|));
    HeaderDescribes(cfg, cal, carried, |audio|, known);
    DecodedOf(File(carried, audio), HeaderOf(carried), audio + PadOf(|audio|), o);
    BoundAudio(audio, PadOf(|audio|));
    DescribedJob(HeaderOf(carried), cfg, carried.container, known, |audio|, o);
  }

  lemma DescribedJob(hdr: Header, cfg: Config, container: Container, known: bool, n: int64, o: Options)
    requires BytesPerFrame(cfg) > 0 && Describes(hdr, cfg, container, known, n) && (known ==> n >= 1)
    ensures JobOf(hdr, o) == Job(cfg.format, cfg.bitDepth, Target(o, cfg.format))
    ensures Remaining(hdr, o) == if known && !o.ignoreLength then n else SIZE_UNKNOWN
  {
    hide BextBody, Normalised;
  }

  /** Decoding as stored gives the audio back exactly when a length reached the header the stream carries, declared or
      stamped, or the audio is even. An odd stream with nothing declared gains its pad byte on a plain writer, and on a
      seekable one that did not stand at its front; so does one no reader believes. */
  lemma ExactUnlessOdd(cfg: Config, seekable: bool, framesKnown: bool, cal: Calendar, audio: seq<byte>, base: nat)
    requires Opening(cfg, seekable, framesKnown, cal).Ok? && (cfg.totalFrames > 0 ==> framesKnown)
    requires BytesPerFrame(cfg) > 0 && |audio| <= MAX_INT64
    requires Finishable(cfg, Opening(cfg, seekable, framesKnown, cal).value, seekable, framesKnown, |audio|)
    ensures
      var carried := Carried(cfg, Opening(cfg, seekable, framesKnown, cal).value, seekable, base, |audio|);
      && Buildable(carried) && SizesFit(carried)
      && var decoded := Decoded(File(carried, audio), Options(None, false));
         && decoded.Ok?
         && (decoded.value.0 == audio <==> LengthRecovered(cfg, Stamped(seekable, base), |audio|) || |audio| % 2 == 0)
  {
    hide Opening, Head, BytesPerFrame, Carried, Finishable, Parse, Rejection, Describes, Bound, Decoded, HeaderLen,
      ContainerFor, InfoOf;
    WholeRun(cfg, seekable, framesKnown, cal, audio, Options(None, false), base);
    OpeningIsPlain(cfg, seekable, framesKnown, cal);
    PaddedDiffers(audio);
  }

  lemma OpeningIsPlain(cfg: Config, seekable: bool, framesKnown: bool, cal: Calendar)
    requires Opening(cfg, seekable, framesKnown, cal).Ok?
    ensures !cfg.format.Companded()
  {
    hide OpeningHeader, BuildRefusal;
  }

  lemma PaddedDiffers(audio: seq<byte>)
    ensures audio + PadOf(|audio|) == audio <==> |audio| % 2 == 0
  {
    assert |audio + PadOf(|audio|)| == Padded(|audio|);
  }

  /** A finished stream states its sizes truly exactly when they were stamped into it, a length was declared, or there
      is no audio; otherwise they stay those of an empty stream. */
  lemma FinishedSizesAreTrue(cfg: Config, seekable: bool, framesKnown: bool, cal: Calendar, audio: seq<byte>, base: nat)
    requires Opening(cfg, seekable, framesKnown, cal).Ok? && (cfg.totalFrames > 0 ==> framesKnown)
    requires BytesPerFrame(cfg) > 0 && |audio| <= MAX_INT64
    requires Finishable(cfg, Opening(cfg, seekable, framesKnown, cal).value, seekable, framesKnown, |audio|)
    ensures
      var carried := Carried(cfg, Opening(cfg, seekable, framesKnown, cal).value, seekable, base, |audio|);
      && Buildable(carried) && SizesFit(carried) && |Head(carried)| >= 44
      && (SizesAreTrue(File(carried, audio), |Head(carried)|, carried.container.Sized64(), |audio|)
          <==> Stamped(seekable, base) || cfg.totalFrames > 0 || audio == [])
  {
    hide Opening, Head, BytesPerFrame, Carried, Finishable, SizesAreTrue, HeaderLen, ContainerFor, Buildable, SizesFit;
    CarriedIsWritable(cfg, seekable, framesKnown, cal, |audio|, base);
    HeaderStatesItsSizes(Carried(cfg, Opening(cfg, seekable, framesKnown, cal).value, seekable, base, |audio|), audio);
  }

  // ---- where the stream begins -----------------------------------------------------------------------------------

  /** The bytes of a spared stream, wherever it begins: the header it carries, its audio and its pad byte. */
  lemma StreamInItsSink(cfg: Config, h: HeaderConfig, sink: Sink, front: seq<byte>, framesKnown: bool, audio: seq<byte>)
    requires BytesPerFrame(cfg) > 0 && Delivered(cfg, h, sink, front, framesKnown, audio)
    requires Buildable(h) ==> Spared(sink.seekable, |front|, HeaderLen(h))
    ensures |audio| <= MAX_INT64 && |front| <= sink.pos <= |sink.data|
    ensures
      var carried := Carried(cfg, h, sink.seekable, |front|, |audio|);
      Buildable(carried) && SizesFit(carried) && sink.data[|front|..sink.pos] == File(carried, audio)
  {
    hide Head, Finishable, Outcome, BytesPerFrame, Buildable, SizesFit, FrameCount, HeaderLen;
    var final := Finished(cfg, h, sink.seekable, |audio|);
    WhereTheStreamSurvives(front, Head(h), audio + PadOf(|audio|), sink.seekable, Head(final));
    assert sink.data[|front|..sink.pos] == sink.data[..sink.pos][|front|..];
  }

  /** Stamping changes nothing exactly when a length was declared or there is no audio. */
  lemma StampIsIdle(cfg: Config, framesKnown: bool, cal: Calendar, audio: seq<byte>)
    requires Opening(cfg, true, framesKnown, cal).Ok? && (cfg.totalFrames > 0 ==> framesKnown)
    requires BytesPerFrame(cfg) > 0 && |audio| <= MAX_INT64
    requires Finishable(cfg, Opening(cfg, true, framesKnown, cal).value, true, framesKnown, |audio|)
    ensures
      var h := Opening(cfg, true, framesKnown, cal).value;
      var final := Finished(cfg, h, true, |audio|);
      && Buildable(h) && SizesFit(h) && Buildable(final) && SizesFit(final)
      && (Head(final) == Head(h) <==> cfg.totalFrames > 0 || audio == [])
  {
    hide Opening, Head, BytesPerFrame, Finishable, SizesAreTrue, HeaderLen, Buildable, SizesFit, ContainerFor,
      FrameCount;
    var h := Opening(cfg, true, framesKnown, cal).value;
    var final := Finished(cfg, h, true, |audio|);
    CarriedIsWritable(cfg, true, framesKnown, cal, |audio|, 0);
    CarriedIsWritable(cfg, true, framesKnown, cal, |audio|, 1);
    HeaderStatesItsSizes(h, audio);
    HeaderStatesItsSizes(final, audio);
    HeadStartsWithMagic(h);
    HeadStartsWithMagic(final);
    if cfg.totalFrames > 0 || audio == [] {
      IdleWhenKnown(cfg, framesKnown, cal, audio);
    }
  }

  lemma IdleWhenKnown(cfg: Config, framesKnown: bool, cal: Calendar, audio: seq<byte>)
    requires Opening(cfg, true, framesKnown, cal).Ok? && (cfg.totalFrames > 0 ==> framesKnown)
    requires BytesPerFrame(cfg) > 0 && |audio| <= MAX_INT64
    requires Finishable(cfg, Opening(cfg, true, framesKnown, cal).value, true, framesKnown, |audio|)
    requires cfg.totalFrames > 0 || audio == []
    ensures
      var h := Opening(cfg, true, framesKnown, cal).value;
      Finished(cfg, h, true, |audio|) == h
  {
    hide Opening, BytesPerFrame, FrameWidth, BuildRefusal, FitsRIFF, HeaderLen;
    OpeningIsSound(cfg, true, framesKnown, cal);
    var h, w := Opening(cfg, true, framesKnown, cal).value, BytesPerFrame(cfg);
    BelongingBounds(cfg, true, h);
    ProductDiv(cfg.totalFrames, w);
    SmallWhole(0, w);
    if cfg.totalFrames > 0 {
      DeclaredIsFinal(cfg, true, cal);
    } else {
      assert FrameCount(0, w) == 0;
    }
  }

  /** A stream begun behind the stamp of a seekable sink is the file its final header would describe exactly when a
      length was declared or there is no audio. */
  lemma SurvivesBehindTheStamp(cfg: Config, framesKnown: bool, cal: Calendar, front: seq<byte>, audio: seq<byte>)
    requires Opening(cfg, true, framesKnown, cal).Ok? && (cfg.totalFrames > 0 ==> framesKnown)
    requires BytesPerFrame(cfg) > 0 && |audio| <= MAX_INT64
    requires Finishable(cfg, Opening(cfg, true, framesKnown, cal).value, true, framesKnown, |audio|)
    requires |front| >= HeaderLen(Opening(cfg, true, framesKnown, cal).value)
    ensures
      var h := Opening(cfg, true, framesKnown, cal).value;
      var final := Finished(cfg, h, true, |audio|);
      && Buildable(h) && SizesFit(h) && Buildable(final) && SizesFit(final)
      && |front| <= |Outcome(front, Head(h), audio + PadOf(|audio|), true, Head(final))|
      && var stream := Outcome(front, Head(h), audio + PadOf(|audio|), true, Head(final))[|front|..];
         && stream == File(h, audio)
         && (stream == File(final, audio) <==> cfg.totalFrames > 0 || audio == [])
  {
    hide Opening, Head, BytesPerFrame, Finishable, HeaderLen, Buildable, SizesFit, Outcome, Finished;
    var h := Opening(cfg, true, framesKnown, cal).value;
    StampIsIdle(cfg, framesKnown, cal, audio);
    FinalHeaderLen(cfg, framesKnown, cal, audio);
    WhereTheStreamSurvives(front, Head(h), audio + PadOf(|audio|), true, Head(Finished(cfg, h, true, |audio|)));
  }

  lemma FinalHeaderLen(cfg: Config, framesKnown: bool, cal: Calendar, audio: seq<byte>)
    requires Opening(cfg, true, framesKnown, cal).Ok? && (cfg.totalFrames > 0 ==> framesKnown)
    requires BytesPerFrame(cfg) > 0 && |audio| <= MAX_INT64
    requires Finishable(cfg, Opening(cfg, true, framesKnown, cal).value, true, framesKnown, |audio|)
    ensures
      var h := Opening(cfg, true, framesKnown, cal).value;
      var final := Finished(cfg, h, true, |audio|);
      Buildable(h) && Buildable(final) && HeaderLen(final) == HeaderLen(h)
  {
    hide Opening, BytesPerFrame, FrameWidth, HeaderLen, BuildRefusal, FitsFields, Writable, ShapeOf, FrameCount;
    OpeningIsSound(cfg, true, framesKnown, cal);
    var h := Opening(cfg, true, framesKnown, cal).value;
    FinalKeepsShape(h, ContainerFor(h.container, HeaderLen(h), |audio|), |audio|,
      FrameCount(|audio|, BytesPerFrame(cfg)));
  }

  /** A stream begun one to three bytes into a seekable sink loses its magic to the stamp and is no WAVE file at all,
      whatever its configuration. */
  lemma TornStreamIsLost(front: seq<byte>, h: HeaderConfig, final: HeaderConfig, rest: seq<byte>)
    requires Buildable(h) && SizesFit(h) && Buildable(final) && SizesFit(final) && HeaderLen(final) == HeaderLen(h)
    requires 1 <= |front| <= 3
    ensures |front| <= |Outcome(front, Head(h), rest, true, Head(final))|
    ensures Parse(Outcome(front, Head(h), rest, true, Head(final))[|front|..]) == Err(NotRIFF)
  {
    hide Head, Buildable, SizesFit, Walk, Outcome, HeaderLen;
    WhereTheStreamSurvives(front, Head(h), rest, true, Head(final));
    ProbeMatchesEmission(final);
    HeadStartsWithMagic(final);
    var out := Outcome(front, Head(h), rest, true, Head(final));
    assert out[|front|] == Head(final)[..4][|front|];
  }

  // ---- where it goes wrong ---------------------------------------------------------------------------------------

  /** 8-bit mono with nothing declared. */
  const MONO := Config(8000, 8, 1, PCM, false, 0, Auto, 0, None, [])

  lemma MonoOpens(seekable: bool, cal: Calendar)
    ensures BytesPerFrame(MONO) == 1 && Rejection(MONO, cal).None?
    ensures OpeningHeader(MONO, [], seekable, false) == Ok(HeaderConfigOf(MONO, [], RIFF, seekable, 0))
    ensures Opening(MONO, seekable, false, cal) == Ok(HeaderConfigOf(MONO, [], RIFF, seekable, 0))
    ensures HeaderLen(HeaderConfigOf(MONO, [], RIFF, seekable, 0)) == if seekable then 80 else 44
  {
    hide BuildRefusal, RiffSizeForLen;
    AutoNeverFailsOnSize(MONO, cal, [], seekable, false);
  }

  /** One 8-bit sample with nothing declared comes back as two: from a plain writer, and from a seekable sink that held
      80 bytes before it. */
  lemma OddSampleGainsItsPad(seekable: bool, cal: Calendar)
    ensures BytesPerFrame(MONO) == 1 && Opening(MONO, seekable, false, cal).Ok?
    ensures
      var h, audio := Opening(MONO, seekable, false, cal).value, [0x80];
      && Finishable(MONO, h, seekable, false, 1) && !LengthRecovered(MONO, Stamped(seekable, 80), 1)
      && HeaderLen(h) <= 80 && Spared(seekable, 80, HeaderLen(h))
      && var carried := Carried(MONO, h, seekable, 80, 1);
         && Buildable(carried) && SizesFit(carried)
         && Decoded(File(carried, audio), Options(None, false)).Ok?
         && Decoded(File(carried, audio), Options(None, false)).value.0 == [0x80, 0x00] != audio
  {
    hide Opening, OpeningHeader, HeaderLen, BytesPerFrame, Finishable, Head, Carried, Parse, Decoded, Describes, InfoOf,
      ContainerFor, Buildable, SizesFit;
    MonoOpens(seekable, cal);
    FinishableExactly(MONO, seekable, false, cal, 1);
    WholeRun(MONO, seekable, false, cal, [0x80], Options(None, false), 80);
    assert [0x80] + PadOf(1) == [0x80, 0x00];
  }

  // ---- streams cut off -------------------------------------------------------------------------------------------

  /** A stream cut off before Close, or after a write failed, is still readable: its header parses, and with nothing
      declared it decodes to all that was written, in an unfailed encoder every whole frame accepted so far. A declared
      length bounds it as it does any file. */
  lemma UnclosedDecodes(enc: Encoder, o: Options)
    requires enc.Opened() && enc.Placed() && Acceptable(o)
    ensures
      var written, h := enc.accepted[..enc.written], HeaderOf(enc.head);
      var job := Job(enc.cfg.format, enc.cfg.bitDepth, Target(o, enc.cfg.format));
      && Parse(enc.Stream()) == Ok(Parsed(h, written))
      && Renders(job)
      && Decoded(enc.Stream(), o)
         == Ok((Render(job, Bound(written, if o.ignoreLength then SIZE_UNKNOWN else KnownSize(enc.head.dataSize))),
           InfoOf(h, o)))
      && (enc.cfg.totalFrames == 0 ==> Bound(written, KnownSize(enc.head.dataSize)) == written)
    ensures enc.Live() ==> enc.written == Whole(|enc.accepted|, enc.Width())
  {
    hide Head, FitsFields, Parse, Decoded, Render, Bound, HeaderLen, Buildable, SizesFit, BytesPerFrame, InfoOf;
    var written := enc.accepted[..enc.written];
    ParseOfHead(enc.head, written);
    DecodedOf(enc.Stream(), HeaderOf(enc.head), written, o);
    HeaderReads(enc.head, enc.cfg, o);
    UnknownBoundKeepsAll(written);
    if enc.Live() {
      WholeShift(enc.written, |enc.carry|, enc.Width());
      SmallWhole(|enc.carry|, enc.Width());
    }
  }

  lemma HeaderReads(h: HeaderConfig, cfg: Config, o: Options)
    requires Buildable(h) && h.format == FormatOf(cfg)
    ensures JobOf(HeaderOf(h), o) == Job(cfg.format, cfg.bitDepth, Target(o, cfg.format))
    ensures Remaining(HeaderOf(h), o) == if o.ignoreLength then SIZE_UNKNOWN else KnownSize(h.dataSize)
  {
    hide NeedsExtensible, EffectiveMask, EffectiveValidBits, ByteRate, FrameWidth;
  }

  lemma UnknownBoundKeepsAll(s: seq<byte>)
    ensures Bound(s, SIZE_UNKNOWN) == s
  {
  }

  /** The descriptor a file was given is the one a reader parses out of it exactly within the widths of its date and
      time and the size a reader holds. */
  lemma BextComesBack(cfg: Config, container: Container, known: bool, n: int, hdr: Header, cal: Calendar)
    requires BytesPerFrame(cfg) > 0 && Describes(hdr, cfg, container, known, n)
    requires cfg.bext.Some? && ValidBext(cfg.bext.value, cal) && cal.Sane()
    ensures hdr.bext.Some? <==> |Body(cfg.bext.value)| <= MAX_CHUNK_PAYLOAD
    ensures hdr.bext.Some? && ParseBext(hdr.bext.value) == Ok(cfg.bext.value)
       <==> |Body(cfg.bext.value)| <= MAX_CHUNK_PAYLOAD
            && |cfg.bext.value.originationDate| <= DATE_SIZE && |cfg.bext.value.originationTime| <= TIME_SIZE
  {
    hide Body, ValidBext, ParseBext, Normalised, BytesPerFrame;
    BextRoundTrip(cfg.bext.value, cal);
  }

  /** Both machines end to end: an encoder writes the chunks into a new sink, a decoder reads the sink's bytes. */
  method EncodeThenDecode(cfg: Config, seekable: bool, chunks: seq<seq<byte>>, o: Options, cal: Calendar, maxInt: nat)
    returns (e: Option<Error>, r: Result<(seq<byte>, StreamInfo)>)
    requires Platform(maxInt) && Acceptable(o) && forall c <- chunks :: |c| <= MAX_INT64
    ensures
      match Opening(cfg, seekable, cfg.totalFrames > 0, cal)
      case Err(refusal) => e == Some(refusal)
      case Ok(h) =>
        && BytesPerFrame(cfg) > 0 && e == Verdict(cfg, h, seekable, cfg.totalFrames > 0, |Joined(chunks)|)
        && (e.None? ==>
              var audio, job := Joined(chunks), Job(cfg.format, cfg.bitDepth, Target(o, cfg.format));
              var stored := if LengthRecovered(cfg, Stamped(seekable, 0), |audio|) && !o.ignoreLength then audio
                else audio + PadOf(|audio|);
              && Renders(job)
              && if |Render(job, stored)| <= maxInt then r.Ok? && r.value.0 == Render(job, stored)
                else r == Err(DecodeLimit))
  {
    hide Opening, Head, BytesPerFrame, Finished, Finishable, Verdict, Parse, Describes, Render, Decoded, HeaderLen,
      ContainerFor, InfoOf, Joined, LengthRecovered, Target, Renders, Drop;
    var sink := new Sink(seekable, true);
    var enc := new Encoder();
    e := Session(enc, sink, cfg, cfg.totalFrames > 0, chunks, cal);
    r := Err(EOF);
    if Opening(cfg, seekable, cfg.totalFrames > 0, cal).Ok? {
      VerdictOnFinishable(cfg, Opening(cfg, seekable, cfg.totalFrames > 0, cal).value, seekable, cfg.totalFrames > 0,
        |Joined(chunks)|);
    }
    if e.Some? {
      return;
    }
    WholeRun(cfg, seekable, cfg.totalFrames > 0, cal, Joined(chunks), o, 0);
    StreamInItsSink(cfg, Opening(cfg, seekable, cfg.totalFrames > 0, cal).value, sink, [], cfg.totalFrames > 0,
      Joined(chunks));
    var file := sink.data[0..sink.pos];
    var src := new Source(file, false, false);
    DropNothing(file);
    r := DecodeInterleavedLimit(src, 0, o, maxInt);
  }
}
