/** A header and a finished file spelled out: every identifier, size and field in its place. */
module Anatomy {
  import opened Wire
  import opened Types
  import opened Chunks
  import opened Format
  import opened FmtLaws
  import opened HeaderWriter
  import opened BextCodec
  import opened EncoderConfig
  import opened Encoding
  import opened EncoderRuns
  import opened RoundTrips

  /** A chunk as it stands in a file: identifier, length, body, and a zero byte behind an odd body. */
  function Boxed(id: seq<byte>, body: seq<byte>): seq<byte>
    requires |body| <= 4294967295
  {
    id + Le32(|body|) + body + (if |body| % 2 == 1 then [0] else [])
  }

  /** The length of a file behind its first eight bytes. */
  function Behind8(headerLen: nat, dataSize: nat): int {
    headerLen + dataSize + dataSize % 2 - 8
  }

  /** What stands between the file header and the fmt chunk: the 64-bit sizes, room for them, or nothing. */
  function SizeBox(cfg: HeaderConfig, file: uint64): seq<byte>
    requires cfg.dataSize >= 0
  {
    if cfg.container == RF64 then
      Ascii("ds64") + Le32(28) + (Le64(file) + Le64(cfg.dataSize) + Le64(cfg.frames) + Le32(0))
    else if cfg.reserveDS64 then Ascii("JUNK") + Le32(28) + Zeros(28)
    else []
  }

  /** The length and frame count of float audio: a fact chunk whose count stops at all ones. */
  function CountBox(cfg: HeaderConfig): seq<byte> {
    if cfg.format.format != Float then []
    else Ascii("fact") + Le32(4) + Le32(if cfg.frames < 4294967295 then cfg.frames else 4294967295)
  }

  /** Whether the sizes behind a header of this length can be spelled. */
  predicate Spellable(cfg: HeaderConfig, file: int) {
    && Buildable(cfg) && cfg.dataSize >= 0 && 0 <= file < 0x1_0000_0000_0000_0000
    && (cfg.container != RF64 ==> file <= 4294967295 && cfg.dataSize <= 4294967295)
  }

  /** A header spelled out, for a file of this length behind its first eight bytes. 32-bit size fields hold the sizes,
      or all ones where 64-bit ones hold them. */
  function Spelling(cfg: HeaderConfig, file: int): seq<byte>
    requires Spellable(cfg, file)
  {
    var wide := cfg.container == RF64;
    (if wide then Ascii("RF64") else Ascii("RIFF")) + Le32(if wide then 4294967295 else file) + Ascii("WAVE")
    + SizeBox(cfg, file)
    + Boxed(Ascii("fmt "), FmtBody(cfg.format))
    + (if cfg.bext == [] then [] else Boxed(Ascii("bext"), cfg.bext))
    + (if cfg.ixml == [] then [] else Boxed(Ascii("iXML"), cfg.ixml))
    + CountBox(cfg)
    + Ascii("data") + Le32(if wide then 4294967295 else cfg.dataSize)
  }

  /** The header of every configuration is its spelling, whole. */
  lemma HeadSpelled(cfg: HeaderConfig)
    requires Buildable(cfg) && SizesFit(cfg)
    ensures
      var file := Behind8(|Head(cfg)|, cfg.dataSize);
      Spellable(cfg, file) && Head(cfg) == Spelling(cfg, file)
  {
    hide Le32, Le64, Zeros, FmtBody, Ascii, ByteRate, FrameWidth, Chunk, Boxed, MetaChunk, FitsRIFF;
    IdentifiersSpell();
    SizeIsSpelled(cfg);
    var s, f := ShapeOf(cfg), FieldsFor(cfg);
    MetaIsBoxed(FMT, FmtBody(cfg.format));
    MetaIsBoxed(BEXT, cfg.bext);
    MetaIsBoxed(IXML, cfg.ixml);
    ConcatFlat(f.magic, f.riff, WAVE, BoxPart(s, f), Boxed(FMT, FmtBody(cfg.format)), MetaChunk(BEXT, cfg.bext),
      MetaChunk(IXML, cfg.ixml), FactPart(s, f), DATA, f.data);
    ConcatThree(f.boxId, Le32(28), f.box);
    ConcatThree(FACT, Le32(4), f.fact);
  }

  lemma SizeIsSpelled(cfg: HeaderConfig)
    requires Buildable(cfg) && SizesFit(cfg)
    ensures
      var file := Behind8(|Head(cfg)|, cfg.dataSize);
      && 0 <= file < 0x1_0000_0000_0000_0000 && file == FileSize(HeaderLen(cfg), cfg.dataSize)
      && (cfg.container != RF64 ==> file <= 4294967295 && cfg.dataSize <= 4294967295)
  {
    hide Head, FmtPayloadLen, RiffSizeForLen;
    ProbeMatchesEmission(cfg);
    if cfg.container == RIFF {
      FitsIsMonotone(HeaderLen(cfg), cfg.dataSize, cfg.dataSize);
    }
  }

  lemma MetaIsBoxed(id: seq<byte>, body: seq<byte>)
    requires |id| == 4 && |body| <= MAX_UINT32
    ensures body != [] ==> MetaChunk(id, body) == Boxed(id, body)
    ensures |body| % 2 == 0 ==> Chunk(id, body) == Boxed(id, body)
  {
    hide Le32;
    assert Chunk(id, body) + [] == Chunk(id, body);
  }

  lemma ConcatFlat(a: seq<byte>, b: seq<byte>, c: seq<byte>, d: seq<byte>, e: seq<byte>, f: seq<byte>, g: seq<byte>,
                   h: seq<byte>, i: seq<byte>, j: seq<byte>)
    ensures a + (b + (c + (d + ((e + f + g) + (h + (i + j)))))) == a + b + c + d + e + f + g + h + i + j
  {
  }

  lemma ConcatThree(a: seq<byte>, b: seq<byte>, c: seq<byte>)
    ensures a + (b + c) == a + b + c
  {
  }

  // ---- the fmt chunk where a reader finds it ---------------------------------------------------------------------

  /** The offset of the fmt payload: behind the file header, the box of a wide or upgradable header, and its own
      identifier and length. */
  function FmtAt(cfg: HeaderConfig): nat {
    if cfg.container == RF64 || cfg.reserveDS64 then 56 else 20
  }

  lemma FmtInPlace(cfg: HeaderConfig, tail: seq<byte>)
    requires Buildable(cfg) && SizesFit(cfg)
    ensures
      var file, p, b := Head(cfg) + tail, FmtAt(cfg), FmtBody(cfg.format);
      && p + |b| <= |file| && file[p - 8..p - 4] == Ascii("fmt ") && U32(file, p - 4) == |b| && file[p..p + |b|] == b
  {
    hide Le32, Le64, U32, Zeros, FmtBody, ByteRate, FrameWidth, Ascii;
    IdentifiersSpell();
    var s, f, b := ShapeOf(cfg), FieldsFor(cfg), FmtBody(cfg.format);
    var front := f.magic + f.riff + WAVE + BoxPart(s, f);
    var rest := MetaChunk(BEXT, cfg.bext) + MetaChunk(IXML, cfg.ixml) + (FactPart(s, f) + (DATA + f.data)) + tail;
    ConcatFront(f.magic, f.riff, WAVE, BoxPart(s, f), FMT, Le32(|b|), b, MetaChunk(BEXT, cfg.bext),
      MetaChunk(IXML, cfg.ixml), FactPart(s, f) + (DATA + f.data), tail);
    assert |front| + 8 == FmtAt(cfg);
    BehindFront(front, FMT, b, rest);
  }

  lemma ConcatFront(a: seq<byte>, b: seq<byte>, c: seq<byte>, d: seq<byte>, e: seq<byte>, f: seq<byte>, g: seq<byte>,
                    h: seq<byte>, i: seq<byte>, j: seq<byte>, t: seq<byte>)
    ensures a + (b + (c + (d + ((e + f + g + h + i) + j)))) + t == (a + b + c + d) + (e + (f + (g + (h + i + j + t))))
  {
  }

  lemma BehindFront(front: seq<byte>, id: seq<byte>, b: seq<byte>, rest: seq<byte>)
    requires |id| == 4 && |b| <= MAX_UINT32
    ensures
      var file, p := front + (id + (Le32(|b|) + (b + rest))), |front| + 8;
      file[p - 8..p - 4] == id && U32(file, p - 4) == |b| && file[p..p + |b|] == b
  {
    hide Le32, U32;
    ReadBack32(front + id, |b|, b + rest);
    assert front + (id + (Le32(|b|) + (b + rest))) == front + id + Le32(|b|) + (b + rest);
  }

  lemma FieldsInside(file: seq<byte>, p: nat, b: seq<byte>)
    requires p + |b| <= |file| && file[p..p + |b|] == b
    ensures forall k :: 0 <= k <= |b| - 2 ==> U16(file, p + k) == U16(b, k)
    ensures forall k :: 0 <= k <= |b| - 4 ==> U32(file, p + k) == U32(b, k)
  {
    assert forall k :: 0 <= k < |b| ==> file[p + k] == b[k];
  }

  /** What a file says of its samples at p, where its fmt payload starts: tag, channels, rate, bytes per second, bytes
      per frame, bits, and where they are spelled out the valid bits, the speakers and the sub-format. */
  predicate States(file: seq<byte>, p: nat, cfg: Config) {
    var long := cfg.extensible || cfg.channelMask != 0 || cfg.channels > 2 || (cfg.format == PCM && cfg.bitDepth > 16);
    var tag := if cfg.format == Float then 3 else 1;
    && 8 <= p && p + 24 <= |file| && file[p - 8..p - 4] == Ascii("fmt ")
    && U32(file, p - 4) == (if long then 40 else if cfg.format == Float then 18 else 16)
    && U16(file, p) == (if long then 0xfffe else tag)
    && U16(file, p + 2) == cfg.channels && U32(file, p + 4) == cfg.sampleRate && U16(file, p + 14) == cfg.bitDepth
    && U16(file, p + 12) == cfg.bitDepth / 8 * cfg.channels
    && U32(file, p + 8) == U32(file, p + 4) * U16(file, p + 12)
    && (long ==>
          && p + 40 <= |file| && U16(file, p + 16) == 22 && U16(file, p + 18) == cfg.bitDepth
          && U32(file, p + 20) == (if cfg.channelMask != 0 then cfg.channelMask else ConventionalMask(cfg.channels))
          && U16(file, p + 24) == tag && file[p + 26..p + 40] == GUID_TAIL)
  }

  /** A finished file states its format straight from the configuration, where a reader looks for it. */
  lemma FileStatesItsFormat(cfg: Config, seekable: bool, framesKnown: bool, cal: Calendar, audio: seq<byte>, base: nat)
    requires Opening(cfg, seekable, framesKnown, cal).Ok? && (cfg.totalFrames > 0 ==> framesKnown)
    requires BytesPerFrame(cfg) > 0 && |audio| <= MAX_INT64
    requires Finishable(cfg, Opening(cfg, seekable, framesKnown, cal).value, seekable, framesKnown, |audio|)
    ensures
      var carried := Carried(cfg, Opening(cfg, seekable, framesKnown, cal).value, seekable, base, |audio|);
      Buildable(carried) && SizesFit(carried) && States(File(carried, audio), FmtAt(carried), cfg)
  {
    hide Opening, Head, BytesPerFrame, Carried, Finishable, HeaderLen, ContainerFor, U16, U32, FmtBody, Writable,
      ConventionalMask, SizesFit, Ascii;
    var carried := Carried(cfg, Opening(cfg, seekable, framesKnown, cal).value, seekable, base, |audio|);
    CarriedIsWritable(cfg, seekable, framesKnown, cal, |audio|, base);
    var b, p, tail := FmtBody(carried.format), FmtAt(carried), audio + PadOf(|audio|);
    FmtInPlace(carried, tail);
    PrintedFields(carried.format);
    FieldsInside(Head(carried) + tail, p, b);
    if |b| == 40 {
      assert (Head(carried) + tail)[p + 26..p + 40] == b[26..40];
    }
    DataFollows(carried, tail);
  }

  /** Behind the shortest fmt payload there is at least the data chunk's own header. */
  lemma DataFollows(cfg: HeaderConfig, tail: seq<byte>)
    requires Buildable(cfg) && SizesFit(cfg)
    ensures |Head(cfg) + tail| >= FmtAt(cfg) + 24
  {
    hide Head, Writable;
    ProbeMatchesEmission(cfg);
  }

  /** Which headers can be built at all, and why the others cannot: an unsupported format or container, a description
      that makes no sense, or a field that does not hold its value. */
  lemma RefusedExactly(cfg: HeaderConfig)
    ensures BuildRefusal(cfg).None? <==>
      && Writable(cfg.format) && cfg.container in {RIFF, RF64}
      && |cfg.bext| <= 4294967295 && |cfg.ixml| <= 4294967295 && cfg.dataSize >= 0
      && (cfg.container == RIFF ==>
            cfg.dataSize <= 4294967295 && Behind8(HeaderLen(cfg), cfg.dataSize) <= 4294967295)
    ensures BuildRefusal(cfg) == Some(Unsupported) <==>
      || cfg.format.format in {ALaw, MuLaw}
      || (cfg.format.format == PCM && cfg.format.bitDepth !in {8, 16, 24, 32})
      || (cfg.format.format == Float && cfg.format.bitDepth !in {32, 64})
      || (cfg.container == BW64 && cfg.format.channels > 0 && 1 <= cfg.format.sampleRate <= 2147483647)
    ensures BuildRefusal(cfg).Some? ==> BuildRefusal(cfg).value in {Unsupported, BadConfig, TooLarge}
  {
    hide ByteRate, FrameWidth, FmtPayloadLen;
  }
}
