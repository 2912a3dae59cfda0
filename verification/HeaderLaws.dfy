/** The writer's header read back by the reader. */
module HeaderLaws {
  import opened Wire
  import opened Types
  import opened Chunks
  import opened Format
  import opened HeaderWriter
  import opened HeaderReader
  import opened WalkLaws

  // ---- the header as a list of chunks --------------------------------------------------------------------------

  function Only(present: bool, id: seq<byte>, body: seq<byte>): seq<Piece> {
    if present then [Piece(id, body, true)] else []
  }

  function BoxPieces(cfg: HeaderConfig): seq<Piece>
    requires Buildable(cfg) && SizesFit(cfg)
  {
    Only(cfg.container.Sized64() || cfg.reserveDS64, FieldsFor(cfg).boxId, FieldsFor(cfg).box)
  }

  function MetaPieces(cfg: HeaderConfig): seq<Piece>
    requires Buildable(cfg) && SizesFit(cfg)
  {
    Only(true, FMT, FmtBody(cfg.format)) + Only(cfg.bext != [], BEXT, cfg.bext) + Only(cfg.ixml != [], IXML, cfg.ixml)
  }

  function FactPieces(cfg: HeaderConfig): seq<Piece>
    requires Buildable(cfg) && SizesFit(cfg)
  {
    Only(cfg.format.format == Float, FACT, FieldsFor(cfg).fact)
  }

  /** Every chunk ahead of data, in the order the writer emits them. */
  function HeadPieces(cfg: HeaderConfig): (ps: seq<Piece>)
    requires Buildable(cfg) && SizesFit(cfg)
    ensures GoodPieces(ps)
  {
    BoxPieces(cfg) + MetaPieces(cfg) + FactPieces(cfg)
  }

  function DataField(cfg: HeaderConfig): uint32
    requires Buildable(cfg) && SizesFit(cfg)
  {
    if cfg.container.Sized64() then SENTINEL32 else cfg.dataSize
  }

  function FileField(cfg: HeaderConfig): uint32
    requires Buildable(cfg) && SizesFit(cfg)
  {
    if cfg.container.Sized64() then SENTINEL32 else FileSize(HeaderLen(cfg), cfg.dataSize)
  }

  lemma {:induction false} LayOutJoin(ps: seq<Piece>, qs: seq<Piece>, tail: seq<byte>)
    requires GoodPieces(ps) && GoodPieces(qs)
    ensures LayOut(ps + qs, tail) == LayOut(ps, LayOut(qs, tail))
    decreases |ps|
  {
    hide PieceBytes;
    if ps == [] {
      assert ps + qs == qs;
    } else {
      assert (ps + qs)[1..] == ps[1..] + qs;
      LayOutJoin(ps[1..], qs, tail);
    }
  }

  /** An optional chunk laid out ahead of a tail. */
  lemma LayOutOnly(present: bool, id: seq<byte>, body: seq<byte>, tail: seq<byte>)
    requires |id| == 4 && id != DATA && |body| <= MAX_UINT32
    ensures LayOut(Only(present, id, body), tail) == (if present then Chunk(id, body) + PadOf(|body|) else []) + tail
  {
    hide Chunk, PadOf;
    var ps := Only(present, id, body);
    if present {
      assert ps[1..] == [];
      assert LayOut(ps, tail) == PieceBytes(ps[0]) + LayOut(ps[1..], tail);
    } else {
      assert [] + tail == tail;
    }
  }

  lemma EvenChunk(id: seq<byte>, body: seq<byte>, tail: seq<byte>)
    requires |id| == 4 && |body| <= MAX_UINT32 && |body| % 2 == 0
    ensures Chunk(id, body) + PadOf(|body|) + tail == id + (Le32(|body|) + body) + tail
  {
    hide Le32;
  }

  lemma BoxLaidOut(cfg: HeaderConfig, tail: seq<byte>)
    requires Buildable(cfg) && SizesFit(cfg)
    ensures LayOut(BoxPieces(cfg), tail) == BoxPart(ShapeOf(cfg), FieldsFor(cfg)) + tail
  {
    hide Le32, Le64, LayOut, Middle, Chunk, PadOf, Zeros;
    var f := FieldsFor(cfg);
    LayOutOnly(cfg.container.Sized64() || cfg.reserveDS64, f.boxId, f.box, tail);
    EvenChunk(f.boxId, f.box, tail);
  }

  lemma FactLaidOut(cfg: HeaderConfig, tail: seq<byte>)
    requires Buildable(cfg) && SizesFit(cfg)
    ensures LayOut(FactPieces(cfg), tail) == FactPart(ShapeOf(cfg), FieldsFor(cfg)) + tail
  {
    hide Le32, Le64, LayOut, Middle, Chunk, PadOf, Zeros;
    var f := FieldsFor(cfg);
    LayOutOnly(cfg.format.format == Float, FACT, f.fact, tail);
    EvenChunk(FACT, f.fact, tail);
  }

  lemma MetaLaidOut(cfg: HeaderConfig, tail: seq<byte>)
    requires Buildable(cfg) && SizesFit(cfg)
    ensures LayOut(MetaPieces(cfg), tail) == Middle(cfg) + tail
  {
    hide LayOut, Chunk, Only, FmtBody;
    var fmt, bext, ixml := Only(true, FMT, FmtBody(cfg.format)), Only(cfg.bext != [], BEXT, cfg.bext),
      Only(cfg.ixml != [], IXML, cfg.ixml);
    MetaPiecesAreGood(cfg);
    LayOutOnly(cfg.ixml != [], IXML, cfg.ixml, tail);
    LayOutOnly(cfg.bext != [], BEXT, cfg.bext, MetaChunk(IXML, cfg.ixml) + tail);
    LayOutOnly(true, FMT, FmtBody(cfg.format), MetaChunk(BEXT, cfg.bext) + (MetaChunk(IXML, cfg.ixml) + tail));
    LayOutJoin(fmt, bext, LayOut(ixml, tail));
    LayOutJoin(fmt + bext, ixml, tail);
    ConcatAssociates(Chunk(FMT, FmtBody(cfg.format)), MetaChunk(BEXT, cfg.bext), MetaChunk(IXML, cfg.ixml), tail);
  }

  lemma MetaPiecesAreGood(cfg: HeaderConfig)
    requires Buildable(cfg)
    ensures GoodPieces(Only(true, FMT, FmtBody(cfg.format)))
    ensures GoodPieces(Only(cfg.bext != [], BEXT, cfg.bext)) && GoodPieces(Only(cfg.ixml != [], IXML, cfg.ixml))
  {
    hide FmtBody;
  }

  lemma ConcatAssociates(a: seq<byte>, b: seq<byte>, c: seq<byte>, d: seq<byte>)
    ensures a + [] + (b + (c + d)) == a + b + c + d
  {
  }

  lemma ConcatSpread(a: seq<byte>, b: seq<byte>, c: seq<byte>, d: seq<byte>, e: seq<byte>, f: seq<byte>, g: seq<byte>,
               h: seq<byte>, t: seq<byte>)
    ensures a + (b + (c + (d + (e + (f + (g + h)))))) + t == a + b + c + (d + (e + (f + (g + h + t))))
  {
  }

  /** The header, byte for byte, is its chunks laid out behind the file header. */
  lemma HeadAsPieces(cfg: HeaderConfig, audio: seq<byte>)
    requires Buildable(cfg) && SizesFit(cfg)
    ensures Head(cfg) + audio
         == Magic(cfg.container) + Le32(FileField(cfg)) + WAVE
           + LayOut(HeadPieces(cfg), DataTail(DataField(cfg), audio))
  {
    hide Le32, Le64, Zeros, Middle, LayOut, BoxPieces, MetaPieces, FactPieces, BoxPart, FactPart;
    var s, f, tail := ShapeOf(cfg), FieldsFor(cfg), DataTail(DataField(cfg), audio);
    PiecesAreGood(cfg);
    FactLaidOut(cfg, tail);
    MetaLaidOut(cfg, FactPart(s, f) + tail);
    BoxLaidOut(cfg, Middle(cfg) + (FactPart(s, f) + tail));
    LayOutJoin(BoxPieces(cfg), MetaPieces(cfg), LayOut(FactPieces(cfg), tail));
    LayOutJoin(BoxPieces(cfg) + MetaPieces(cfg), FactPieces(cfg), tail);
    ConcatSpread(f.magic, f.riff, WAVE, BoxPart(s, f), s.middle, FactPart(s, f), DATA, f.data, audio);
  }

  lemma PiecesAreGood(cfg: HeaderConfig)
    requires Buildable(cfg) && SizesFit(cfg)
    ensures GoodPieces(BoxPieces(cfg)) && GoodPieces(MetaPieces(cfg)) && GoodPieces(FactPieces(cfg))
  {
    hide FmtBody, Le64, Le32;
  }

  // ---- what the chunks mean ------------------------------------------------------------------------------------

  lemma {:induction false} FoldJoin(a: Seen, ps: seq<Piece>, qs: seq<Piece>)
    ensures Fold(a, ps + qs) == match Fold(a, ps) { case Err(e) => Err(e) case Ok(b) => Fold(b, qs) }
    decreases |ps|
  {
    hide Absorb;
    if ps == [] {
      assert ps + qs == qs;
    } else {
      assert (ps + qs)[1..] == ps[1..] + qs;
      if Absorb(a, ps[0].id, Held(ps[0].body)).Ok? {
        FoldJoin(Absorb(a, ps[0].id, Held(ps[0].body)).value, ps[1..], qs);
      }
    }
  }

  lemma FoldOnly(a: Seen, present: bool, id: seq<byte>, body: seq<byte>)
    ensures Fold(a, Only(present, id, body)) == if present then Absorb(a, id, Held(body)) else Ok(a)
  {
    hide Absorb;
    var ps := Only(present, id, body);
    if present {
      assert ps[1..] == [];
      assert Fold(a, ps) == match Absorb(a, ps[0].id, Held(ps[0].body)) {
        case Err(e) => Err(e)
        case Ok(b) => Fold(b, ps[1..])
      };
    }
  }

  function SeenOf(cfg: HeaderConfig): Seen
    requires Buildable(cfg) && SizesFit(cfg)
  {
    Seen(Some(Normalised(cfg.format)),
         if cfg.container.Sized64()
         then Some(DS64Info(FileSize(HeaderLen(cfg), cfg.dataSize), cfg.dataSize, cfg.frames))
         else None,
         if cfg.format.format == Float then FactField(cfg.frames) else 0,
         if cfg.bext != [] then Some(Held(cfg.bext)) else None,
         if cfg.ixml != [] then Some(Held(cfg.ixml)) else None)
  }

  lemma DS64ReadBack(riffSize: uint64, dataSize: uint64, frames: uint64)
    ensures ParseDS64(Le64(riffSize) + Le64(dataSize) + Le64(frames) + Le32(0))
      == Ok(DS64Info(riffSize, dataSize, frames))
  {
    hide Le32, Le64, U64;
    var x, y, z, w := Le64(riffSize), Le64(dataSize), Le64(frames), Le32(0);
    var b := x + y + z + w;
    ReadBack64([], riffSize, y + z + w);
    assert b == [] + x + (y + z + w);
    ReadBack64(x, dataSize, z + w);
    assert b == x + y + (z + w);
    ReadBack64(x + y, frames, w);
  }

  lemma FactReadBack(v: uint32)
    ensures U32(Le32(v), 0) == v
  {
    ReadBack32([], v, []);
    assert [] + Le32(v) + [] == Le32(v);
  }

  lemma HeadFolds(cfg: HeaderConfig)
    requires Buildable(cfg) && SizesFit(cfg)
    ensures Fold(NOTHING_SEEN, HeadPieces(cfg)) == Ok(SeenOf(cfg))
  {
    hide Le32, Le64, U32, FmtBody, ParseFmt, ParseDS64, Fold, Only, FileSize, Normalised;
    var f, s := FieldsFor(cfg), SeenOf(cfg);
    var size := FileSize(HeaderLen(cfg), cfg.dataSize);
    var sized, box := cfg.container.Sized64(), BoxPieces(cfg);
    var fmt, bext, ixml := Only(true, FMT, FmtBody(cfg.format)), Only(cfg.bext != [], BEXT, cfg.bext),
      Only(cfg.ixml != [], IXML, cfg.ixml);
    FoldJoin(NOTHING_SEEN, box + MetaPieces(cfg), FactPieces(cfg));
    FoldJoin(NOTHING_SEEN, box, MetaPieces(cfg));
    var a0 := NOTHING_SEEN.(ds64 := s.ds64);
    assert Fold(NOTHING_SEEN, box) == Ok(a0) by {
      FoldOnly(NOTHING_SEEN, sized || cfg.reserveDS64, f.boxId, f.box);
      if sized {
        DS64ReadBack(size, cfg.dataSize, cfg.frames);
      }
    }
    FoldJoin(a0, fmt + bext, ixml);
    FoldJoin(a0, fmt, bext);
    var a1 := a0.(fmt := s.fmt);
    FoldOnly(a0, true, FMT, FmtBody(cfg.format));
    ParseOfPrintedFmt(cfg.format);
    var a2 := a1.(bext := s.bext);
    FoldOnly(a1, cfg.bext != [], BEXT, cfg.bext);
    var a3 := a2.(ixml := s.ixml);
    FoldOnly(a2, cfg.ixml != [], IXML, cfg.ixml);
    FoldOnly(a3, cfg.format.format == Float, FACT, f.fact);
    FactReadBack(FactField(cfg.frames));
  }

  // ---- the round trip ------------------------------------------------------------------------------------------

  /** The length a reader learns of the one declared: 0 means nothing was declared, more than 2^62 is not believed. */
  function KnownSize(dataSize: int64): int64 {
    if 1 <= dataSize <= MAX_DATA_SIZE then dataSize else SIZE_UNKNOWN
  }

  /** The frame count a reader reports: derived from a known length, else the declared count while it is credible. */
  function KnownFrames(cfg: HeaderConfig): uint64
    requires Buildable(cfg)
  {
    var align := FrameWidth(cfg.format.bitDepth, cfg.format.channels);
    if KnownSize(cfg.dataSize) != SIZE_UNKNOWN then cfg.dataSize / align
    else if cfg.container.Sized64() then (if cfg.frames <= MAX_DATA_SIZE / align then cfg.frames else 0)
    else if cfg.format.format == Float && cfg.frames < SENTINEL32 then cfg.frames
    else 0
  }

  /** The header a reader recovers from one the writer emitted. */
  function HeaderOf(cfg: HeaderConfig): Header
    requires Buildable(cfg)
  {
    var n := Normalised(cfg.format);
    Header(
      StreamInfo(n.sampleRate, n.channels, n.bitDepth, n.bitDepth, n.validBits, n.format, n.format, cfg.container,
                 n.extensible, n.channelMask, KnownFrames(cfg), KnownSize(cfg.dataSize) != SIZE_UNKNOWN),
      KnownSize(cfg.dataSize), n.blockAlign,
      if cfg.bext != [] then Held(cfg.bext) else None,
      if cfg.ixml != [] then Held(cfg.ixml) else None)
  }

  lemma LimitIsWide(align: int)
    requires 0 < align <= 0xffff
    ensures MAX_UINT32 <= MAX_DATA_SIZE / align
  {
    assert MAX_UINT32 * align <= MAX_UINT32 * 0xffff;
  }

  lemma HeadConcludes(cfg: HeaderConfig)
    requires Buildable(cfg) && SizesFit(cfg)
    ensures Conclude(cfg.container, SeenOf(cfg), DataField(cfg)) == Ok(HeaderOf(cfg))
  {
    hide ByteRate, NeedsExtensible, EffectiveMask, EffectiveValidBits, FileSize, HeaderLen, RiffSizeForLen,
      FmtPayloadLen;
    var align := FrameWidth(cfg.format.bitDepth, cfg.format.channels);
    LimitIsWide(align);
    if !cfg.container.Sized64() {
      DataFieldFits(cfg);
    }
    var known := ResolveDataSize(DataField(cfg), cfg.container, SeenOf(cfg).ds64);
    assert known == KnownSize(cfg.dataSize);
  }

  lemma DataFieldFits(cfg: HeaderConfig)
    requires Buildable(cfg) && SizesFit(cfg) && !cfg.container.Sized64()
    ensures cfg.dataSize < SENTINEL32
  {
    hide RiffSizeForLen;
    ProbeMatchesEmission(cfg);
    FitsIsMonotone(HeaderLen(cfg), cfg.dataSize, cfg.dataSize);
  }

  /** Parsing an emitted header followed by any bytes at all recovers what the header was built from and stops on the
      first byte behind it. */
  lemma ParseOfHead(cfg: HeaderConfig, audio: seq<byte>)
    requires Buildable(cfg) && SizesFit(cfg)
    ensures Parse(Head(cfg) + audio) == Ok(Parsed(HeaderOf(cfg), audio))
  {
    hide Walk, LayOut, DataTail, Separable, Fold, Conclude, HeadPieces, Head, Le32, HeaderOf, SeenOf;
    HeadAsPieces(cfg, audio);
    ParseBehindFileHeader(Magic(cfg.container), FileField(cfg),
      LayOut(HeadPieces(cfg), DataTail(DataField(cfg), audio)));
    HeadIsSeparable(cfg, DataTail(DataField(cfg), audio));
    WalkToData(HeadPieces(cfg), DataField(cfg), audio, cfg.container, NOTHING_SEEN);
    HeadFolds(cfg);
    HeadConcludes(cfg);
  }

  lemma {:induction false} PaddedIsSeparable(ps: seq<Piece>, tail: seq<byte>)
    requires GoodPieces(ps) && forall p <- ps :: p.pad
    ensures Separable(ps, tail)
    decreases |ps|
  {
    if ps == [] {
    } else {
      PaddedIsSeparable(ps[1..], tail);
    }
  }

  lemma HeadIsSeparable(cfg: HeaderConfig, tail: seq<byte>)
    requires Buildable(cfg) && SizesFit(cfg)
    ensures Separable(HeadPieces(cfg), tail)
  {
    hide FmtBody, Separable, FieldsFor;
    PaddedIsSeparable(HeadPieces(cfg), tail);
  }

  // ---- the sizes a file states ---------------------------------------------------------------------------------

  lemma FieldReadBack(a: seq<byte>, v: uint32, rest: seq<byte>, n: nat)
    requires |a| == n
    ensures U32(a + (Le32(v) + rest), n) == v
  {
    hide Le32, U32;
    ReadBack32(a, v, rest);
    assert a + (Le32(v) + rest) == a + Le32(v) + rest;
  }

  lemma WideFieldReadBack(a: seq<byte>, v: uint64, rest: seq<byte>, n: nat)
    requires |a| == n
    ensures U64(a + (Le64(v) + rest), n) == v
  {
    hide Le64, U64;
    ReadBack64(a, v, rest);
    assert a + (Le64(v) + rest) == a + Le64(v) + rest;
  }

  /** Where the patchable size fields of a header stand, whatever follows it. */
  lemma SizeFieldsStand(s: Shape, f: Fields, tail: seq<byte>)
    requires GoodFields(f)
    ensures
      var front, back := WAVE + (BoxPart(s, f) + (s.middle + (FactPart(s, f) + (DATA + f.data)))) + tail,
                         f.magic + (f.riff + (WAVE + (BoxPart(s, f) + (s.middle + (FactPart(s, f) + DATA)))));
      && Assemble(s, f) + tail == f.magic + (f.riff + front)
      && Assemble(s, f) + tail == back + (f.data + tail) && |back| == ShapeLen(s) - 4
  {
    ConcatRegroup(f.magic, f.riff, WAVE, BoxPart(s, f), s.middle, FactPart(s, f), DATA, f.data, tail);
  }

  lemma ConcatRegroup(a: seq<byte>, b: seq<byte>, c: seq<byte>, d: seq<byte>, e: seq<byte>, f: seq<byte>, g: seq<byte>,
                h: seq<byte>, t: seq<byte>)
    ensures a + (b + (c + (d + (e + (f + (g + h)))))) + t == a + (b + (c + (d + (e + (f + (g + h)))) + t))
    ensures a + (b + (c + (d + (e + (f + (g + h)))))) + t == a + (b + (c + (d + (e + (f + g))))) + (h + t)
  {
  }

  /** Where the four fields of a ds64 payload stand. */
  lemma DS64FieldsStand(s: Shape, f: Fields, x: uint64, y: uint64, z: uint64, tail: seq<byte>)
    requires GoodFields(f) && s.box && f.box == Le64(x) + Le64(y) + Le64(z) + Le32(0)
    ensures
      var file := Assemble(s, f) + tail;
      U64(file, 20) == x && U64(file, 28) == y && U64(file, 36) == z
  {
    hide Le32, Le64, U64;
    var rest := s.middle + (FactPart(s, f) + (DATA + f.data)) + tail;
    var front := f.magic + f.riff + WAVE + f.boxId + Le32(DS64_PAYLOAD_SIZE);
    var file := Assemble(s, f) + tail;
    ConcatUnboxed(f.magic, f.riff, WAVE, f.boxId, Le32(DS64_PAYLOAD_SIZE), f.box,
      s.middle + (FactPart(s, f) + (DATA + f.data)), tail);
    ConcatUnpack(front, Le64(x), Le64(y), Le64(z), Le32(0), rest);
    WideFieldReadBack(front, x, Le64(y) + Le64(z) + Le32(0) + rest, 20);
    WideFieldReadBack(front + Le64(x), y, Le64(z) + Le32(0) + rest, 28);
    WideFieldReadBack(front + Le64(x) + Le64(y), z, Le32(0) + rest, 36);
  }

  lemma ConcatUnboxed(a: seq<byte>, b: seq<byte>, c: seq<byte>, d: seq<byte>, e: seq<byte>, box: seq<byte>,
                      m: seq<byte>, t: seq<byte>)
    ensures a + (b + (c + (d + (e + box) + m))) + t == a + b + c + d + e + (box + (m + t))
  {
  }

  lemma ConcatUnpack(a: seq<byte>, x: seq<byte>, y: seq<byte>, z: seq<byte>, w: seq<byte>, t: seq<byte>)
    ensures a + (x + y + z + w + t) == a + (x + (y + z + w + t))
    ensures a + (x + y + z + w + t) == a + x + (y + (z + w + t))
    ensures a + (x + y + z + w + t) == a + x + y + (z + (w + t))
  {
  }

  /** The size fields of a file of n bytes of audio are true: the RIFF size field, or the ds64 one behind its sentinel,
      holds the length of the whole file less eight, pad byte included, and the data size field n. */
  predicate SizesAreTrue(file: seq<byte>, headerLen: nat, sized64: bool, n: nat)
    requires 44 <= headerLen <= |file|
  {
    if sized64 then
      U32(file, 4) == SENTINEL32 && U32(file, headerLen - 4) == SENTINEL32
      && U64(file, 20) == |file| - 8 && U64(file, 28) == n
    else U32(file, 4) == |file| - 8 && U32(file, headerLen - 4) == n
  }

  /** A header states its sizes truly exactly when what follows is the audio it was built for, whose frame count a
      64-bit header states as well. */
  lemma HeaderStatesItsSizes(cfg: HeaderConfig, audio: seq<byte>)
    requires Buildable(cfg) && SizesFit(cfg)
    ensures |Head(cfg)| >= 44
    ensures
      var file := Head(cfg) + (audio + PadOf(|audio|));
      && (SizesAreTrue(file, |Head(cfg)|, cfg.container.Sized64(), |audio|) <==> |audio| == cfg.dataSize)
      && (cfg.container.Sized64() ==> U64(file, 36) == cfg.frames)
  {
    hide Le32, Le64, U32, U64, Middle, Assemble, BoxPart, FactPart, Zeros, ByteRate;
    var s, f, tail := ShapeOf(cfg), FieldsFor(cfg), audio + PadOf(|audio|);
    var n := HeaderLen(cfg);
    var front := WAVE + (BoxPart(s, f) + (s.middle + (FactPart(s, f) + (DATA + f.data)))) + tail;
    var back := f.magic + (f.riff + (WAVE + (BoxPart(s, f) + (s.middle + (FactPart(s, f) + DATA)))));
    SizeFieldsStand(s, f, tail);
    assert |Head(cfg) + tail| == n + Padded(|audio|);
    FieldReadBack(f.magic, FileField(cfg), front, 4);
    FieldReadBack(back, DataField(cfg), tail, n - 4);
    if cfg.container.Sized64() {
      DS64FieldsStand(s, f, FileSize(n, cfg.dataSize), cfg.dataSize, cfg.frames, tail);
    }
  }
}
