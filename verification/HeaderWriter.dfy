/** Building, measuring, patching and upgrading the WAVE header. */
module HeaderWriter {
  import opened Wire
  import opened Types
  import opened Chunks
  import opened Format
  import opened Sinks

  datatype HeaderConfig = HeaderConfig(
    format: Format, container: Container, reserveDS64: bool, dataSize: int64, frames: uint64,
    bext: seq<byte>, ixml: seq<byte>)

  /** An emitted header and the offsets of its patchable fields; -1 marks an absent one. */
  datatype Layout = Layout(
    bytes: seq<byte>, riffSizeAt: int64, dataSizeAt: int64, ds64At: int64, factAt: int64, dataOffset: int64)

  // ---- the header as a function of its patchable fields ------------------------------------------------------

  /** What patching never changes: whether there is a ds64 or JUNK box, the chunks from fmt to iXML, and whether a
      fact chunk follows. */
  datatype Shape = Shape(box: bool, middle: seq<byte>, fact: bool)

  /** The fields patching may change; box is the ds64 or JUNK payload. */
  datatype Fields = Fields(magic: seq<byte>, riff: seq<byte>, boxId: seq<byte>, box: seq<byte>, fact: seq<byte>,
                           data: seq<byte>)

  predicate GoodFields(f: Fields) {
    |f.magic| == 4 && |f.riff| == 4 && |f.boxId| == 4 && |f.box| == DS64_PAYLOAD_SIZE && |f.fact| == 4 && |f.data| == 4
  }

  function BoxPart(s: Shape, f: Fields): seq<byte> {
    if s.box then f.boxId + (Le32(DS64_PAYLOAD_SIZE) + f.box) else []
  }

  function FactPart(s: Shape, f: Fields): seq<byte> {
    if s.fact then FACT + (Le32(FACT_PAYLOAD_SIZE) + f.fact) else []
  }

  function Assemble(s: Shape, f: Fields): (b: seq<byte>)
    requires GoodFields(f)
    ensures |b| == ShapeLen(s)
  {
    f.magic + (f.riff + (WAVE + (BoxPart(s, f) + (s.middle + (FactPart(s, f) + (DATA + f.data))))))
  }

  function ShapeLen(s: Shape): nat {
    FILE_HEADER_SIZE + (if s.box then DS64_CHUNK_SIZE else 0) + |s.middle|
    + (if s.fact then CHUNK_HEADER_SIZE + FACT_PAYLOAD_SIZE else 0) + CHUNK_HEADER_SIZE
  }

  predicate Buildable(cfg: HeaderConfig) {
    Writable(cfg.format) && |cfg.bext| <= MAX_UINT32 && |cfg.ixml| <= MAX_UINT32 && !cfg.container.BW64?
  }

  /** The chunks between the file header and the fact or data chunk. */
  function Middle(cfg: HeaderConfig): (b: seq<byte>)
    requires Buildable(cfg)
  {
    Chunk(FMT, FmtBody(cfg.format)) + MetaChunk(BEXT, cfg.bext) + MetaChunk(IXML, cfg.ixml)
  }

  function ShapeOf(cfg: HeaderConfig): (s: Shape)
    requires Buildable(cfg)
    ensures ShapeLen(s) == HeaderLen(cfg)
  {
    Shape(cfg.container.Sized64() || cfg.reserveDS64, Middle(cfg), cfg.format.format == Float)
  }

  /** The frame count a fact field keeps of the one declared. */
  function FactField(frames: uint64): uint32 {
    if frames > MAX_UINT32 then SENTINEL32 else frames
  }

  /** The size every container states: the whole file, audio padded, less magic and size field. */
  function FileSize(headerLen: nat, dataSize: nat): nat
    requires headerLen >= 8
  {
    headerLen + Padded(dataSize) - 8
  }

  /** The field values a header of the given kind and sizes carries. */
  function FieldsOf(container: Container, headerLen: nat, dataSize: nat, frames: uint64): (f: Fields)
    requires headerLen >= 8
    requires if container.Sized64() then dataSize <= MAX_INT64 && headerLen <= MAX_INT64
      else FileSize(headerLen, dataSize) <= MAX_UINT32
    ensures GoodFields(f)
  {
    var fact := Le32(FactField(frames));
    var size := FileSize(headerLen, dataSize);
    if container.Sized64() then
      Fields(Magic(container), Le32(SENTINEL32), DS64,
        Le64(size) + Le64(dataSize) + Le64(frames) + Le32(0), fact, Le32(SENTINEL32))
    else
      Fields(Magic(container), Le32(size), JUNK, Zeros(DS64_PAYLOAD_SIZE), fact, Le32(dataSize))
  }

  /** Whether the declared sizes fit the fields the container has for them. */
  predicate SizesFit(cfg: HeaderConfig) {
    cfg.dataSize >= 0 && (cfg.container.Sized64() || FitsRIFF(HeaderLen(cfg), cfg.dataSize))
  }

  /** The field values of cfg's header. */
  function FieldsFor(cfg: HeaderConfig): (f: Fields)
    requires Buildable(cfg) && SizesFit(cfg)
    ensures GoodFields(f)
  {
    FieldsOf(cfg.container, HeaderLen(cfg), cfg.dataSize, cfg.frames)
  }

  /** The complete header of cfg: what a writer who knows every size from the start emits. */
  function Head(cfg: HeaderConfig): (b: seq<byte>)
    requires Buildable(cfg) && SizesFit(cfg)
    ensures |b| == HeaderLen(cfg)
  {
    Assemble(ShapeOf(cfg), FieldsFor(cfg))
  }

  function LayoutOf(cfg: HeaderConfig): Layout
    requires Buildable(cfg) && SizesFit(cfg)
  {
    var n := HeaderLen(cfg);
    Layout(Head(cfg), 4, n - 4, if cfg.container.Sized64() || cfg.reserveDS64 then 12 else -1,
           if cfg.format.format == Float then n - 12 else -1, n)
  }

  // ---- size arithmetic ----------------------------------------------------------------------------------------

  /** The int64 arithmetic of the size field, which wraps when a 64-bit data size is near 2^63. */
  function RiffSizeForLen(headerLen: int, dataSize: int64): int64 {
    Wrap64(Wrap64(headerLen + Wrap64(Padded(dataSize))) - 8)
  }

  /** Reinterpreting an int64 as a uint64. */
  function AsUint64(x: int64): uint64 {
    if x < 0 then x + 0x1_0000_0000_0000_0000 else x
  }

  lemma RiffSizeIsExact(headerLen: int, dataSize: int64)
    requires 8 <= headerLen <= 0x1000_0000_0000_0000 && 0 <= dataSize
    ensures AsUint64(RiffSizeForLen(headerLen, dataSize)) == FileSize(headerLen, dataSize)
    ensures 0 <= RiffSizeForLen(headerLen, dataSize) <= MAX_UINT32 <==> FileSize(headerLen, dataSize) <= MAX_UINT32
  {
  }

  /** Whether dataSize bytes behind a header of the given length can be described by 32-bit fields. */
  predicate FitsRIFF(headerLen: int, dataSize: int64) {
    0 <= dataSize <= MAX_UINT32 && RiffSizeForLen(headerLen, dataSize) <= MAX_UINT32
  }

  function HeaderLen(cfg: HeaderConfig): int {
    var n := FILE_HEADER_SIZE;
    var n := if cfg.container.Sized64() || cfg.reserveDS64 then n + DS64_CHUNK_SIZE else n;
    var n := n + CHUNK_HEADER_SIZE + FmtPayloadLen(cfg.format);
    var n := if |cfg.bext| > 0 then n + CHUNK_HEADER_SIZE + Padded(|cfg.bext|) else n;
    var n := if |cfg.ixml| > 0 then n + CHUNK_HEADER_SIZE + Padded(|cfg.ixml|) else n;
    var n := if cfg.format.format == Float then n + CHUNK_HEADER_SIZE + FACT_PAYLOAD_SIZE else n;
    n + CHUNK_HEADER_SIZE
  }

  /** Whether dataSize bytes described by cfg fit a plain RIFF header, without building one. */
  predicate FitsPlainRIFF(cfg: HeaderConfig, dataSize: int64) {
    FitsRIFF(HeaderLen(cfg), dataSize)
  }

  /** The probe, the emission and the recorded data offset agree on the length of every header. */
  lemma ProbeMatchesEmission(cfg: HeaderConfig)
    requires Buildable(cfg) && SizesFit(cfg)
    ensures HeaderLen(cfg) == |Head(cfg)| == LayoutOf(cfg).dataOffset
    ensures 44 <= HeaderLen(cfg)
  {
  }

  /** A length that fits leaves room for every shorter one, and never collides with the unknown-size sentinel. */
  lemma FitsIsMonotone(headerLen: int, small: int64, large: int64)
    requires 44 <= headerLen <= 0x1000_0000_0000_0000 && 0 <= small <= large
    requires FitsRIFF(headerLen, large)
    ensures FitsRIFF(headerLen, small)
    ensures FileSize(headerLen, large) <= MAX_UINT32 && large < SENTINEL32
  {
  }

  // ---- splicing one field -------------------------------------------------------------------------------------

  lemma SpliceHere(x: seq<byte>, c: seq<byte>, v: seq<byte>)
    requires |v| == |x|
    ensures Splice(x + c, 0, v) == v + c
  {
  }

  lemma SpliceInside(x: seq<byte>, c: seq<byte>, at: nat, v: seq<byte>)
    requires at + |v| <= |x|
    ensures Splice(x + c, at, v) == Splice(x, at, v) + c
  {
  }

  lemma SpliceSkip(a: seq<byte>, c: seq<byte>, at: nat, v: seq<byte>)
    requires |a| <= at && at + |v| <= |a| + |c|
    ensures Splice(a + c, at, v) == a + Splice(c, at - |a|, v)
  {
  }

  /** Overwriting the bytes at a field's offset changes that field and nothing else. */
  lemma SpliceMagic(s: Shape, f: Fields, v: seq<byte>)
    requires GoodFields(f) && |v| == 4
    ensures Splice(Assemble(s, f), 0, v) == Assemble(s, f.(magic := v))
  {
    SpliceHere(f.magic, f.riff + (WAVE + (BoxPart(s, f) + (s.middle + (FactPart(s, f) + (DATA + f.data))))), v);
  }

  lemma SpliceRiff(s: Shape, f: Fields, v: seq<byte>)
    requires GoodFields(f) && |v| == 4
    ensures Splice(Assemble(s, f), 4, v) == Assemble(s, f.(riff := v))
  {
    var c := WAVE + (BoxPart(s, f) + (s.middle + (FactPart(s, f) + (DATA + f.data))));
    SpliceSkip(f.magic, f.riff + c, 4, v);
    SpliceHere(f.riff, c, v);
  }

  lemma SpliceBoxPart(s: Shape, f: Fields, at: nat, v: seq<byte>)
    requires GoodFields(f) && s.box && at + |v| <= DS64_CHUNK_SIZE
    ensures Splice(Assemble(s, f), 12 + at, v)
         == f.magic + (f.riff + (WAVE
           + (Splice(BoxPart(s, f), at, v) + (s.middle + (FactPart(s, f) + (DATA + f.data))))))
  {
    var c2 := s.middle + (FactPart(s, f) + (DATA + f.data));
    var c1 := BoxPart(s, f) + c2;
    SpliceSkip(f.magic, f.riff + (WAVE + c1), 12 + at, v);
    SpliceSkip(f.riff, WAVE + c1, 8 + at, v);
    SpliceSkip(WAVE, c1, 4 + at, v);
    SpliceInside(BoxPart(s, f), c2, at, v);
  }

  lemma SpliceBoxId(s: Shape, f: Fields, v: seq<byte>)
    requires GoodFields(f) && |v| == 4 && s.box
    ensures Splice(Assemble(s, f), 12, v) == Assemble(s, f.(boxId := v))
  {
    SpliceBoxPart(s, f, 0, v);
    SpliceHere(f.boxId, Le32(DS64_PAYLOAD_SIZE) + f.box, v);
  }

  lemma SpliceBox(s: Shape, f: Fields, v: seq<byte>)
    requires GoodFields(f) && |v| == DS64_PAYLOAD_SIZE && s.box
    ensures Splice(Assemble(s, f), 20, v) == Assemble(s, f.(box := v))
  {
    hide Le32;
    SpliceBoxPart(s, f, 8, v);
    SpliceSkip(f.boxId, Le32(DS64_PAYLOAD_SIZE) + f.box, 8, v);
    SpliceSkip(Le32(DS64_PAYLOAD_SIZE), f.box, 4, v);
    SpliceWhole(f.box, v);
  }

  lemma SpliceTail(s: Shape, f: Fields, at: nat, v: seq<byte>)
    requires GoodFields(f) && ShapeLen(s) - |FactPart(s, f)| - 8 <= at && at + |v| <= ShapeLen(s)
    ensures Splice(Assemble(s, f), at, v)
         == f.magic + (f.riff + (WAVE + (BoxPart(s, f) + (s.middle +
              Splice(FactPart(s, f) + (DATA + f.data), at - (ShapeLen(s) - |FactPart(s, f)| - 8), v)))))
  {
    hide Splice, Le32;
    var c4 := FactPart(s, f) + (DATA + f.data);
    var c3 := s.middle + c4;
    var c2 := BoxPart(s, f) + c3;
    SpliceSkip(f.magic, f.riff + (WAVE + c2), at, v);
    SpliceSkip(f.riff, WAVE + c2, at - 4, v);
    SpliceSkip(WAVE, c2, at - 8, v);
    SpliceSkip(BoxPart(s, f), c3, at - 12, v);
    SpliceSkip(s.middle, c4, at - 12 - |BoxPart(s, f)|, v);
  }

  lemma SpliceFact(s: Shape, f: Fields, v: seq<byte>)
    requires GoodFields(f) && |v| == 4 && s.fact
    ensures Splice(Assemble(s, f), ShapeLen(s) - 12, v) == Assemble(s, f.(fact := v))
  {
    hide Le32, Splice;
    SpliceTail(s, f, ShapeLen(s) - 12, v);
    SpliceInside(FactPart(s, f), DATA + f.data, 8, v);
    SpliceSkip(FACT, Le32(FACT_PAYLOAD_SIZE) + f.fact, 8, v);
    SpliceSkip(Le32(FACT_PAYLOAD_SIZE), f.fact, 4, v);
    SpliceWhole(f.fact, v);
  }

  lemma SpliceData(s: Shape, f: Fields, v: seq<byte>)
    requires GoodFields(f) && |v| == 4
    ensures Splice(Assemble(s, f), ShapeLen(s) - 4, v) == Assemble(s, f.(data := v))
  {
    SpliceTail(s, f, ShapeLen(s) - 4, v);
    SpliceSkip(FactPart(s, f), DATA + f.data, |FactPart(s, f)| + 4, v);
    SpliceSkip(DATA, f.data, 4, v);
    SpliceWhole(f.data, v);
  }

  lemma NoFactField(s: Shape, f: Fields, v: seq<byte>)
    requires GoodFields(f) && |v| == 4 && !s.fact
    ensures Assemble(s, f) == Assemble(s, f.(fact := v))
  {
  }

  // ---- writing sizes ------------------------------------------------------------------------------------------

  /** The offsets of lay are those of a header of shape s. */
  predicate Places(lay: Layout, s: Shape) {
    && lay.riffSizeAt == 4 && lay.dataSizeAt == ShapeLen(s) - 4 && lay.dataOffset == ShapeLen(s)
    && lay.ds64At == (if s.box then 12 else -1)
    && lay.factAt == (if s.fact then ShapeLen(s) - 12 else -1)
  }

  /** Stamps the sizes into an in-memory header. Magic and box identifier are left as they are; whatever size
      fields were there before are gone. */
  method WriteSizesInto(bytes: array<byte>, lay: Layout, container: Container, dataSize: int64, frames: uint64,
                        ghost s: Shape, ghost f: Fields) returns (refusal: Option<Error>)
    requires GoodFields(f) && Places(lay, s) && ShapeLen(s) <= 0x1000_0000_0000_0000 && bytes[..] == Assemble(s, f)
    requires container.Sized64() || f.box == Zeros(DS64_PAYLOAD_SIZE)
    modifies bytes
    ensures refusal.None? <==>
      dataSize >= 0 && (if container.Sized64() then s.box else FitsRIFF(ShapeLen(s), dataSize))
    ensures refusal.Some? ==> refusal.value == if dataSize >= 0 && !container.Sized64() then TooLarge else BadConfig
    ensures refusal.None? ==>
      && FieldsOf.requires(container, ShapeLen(s), dataSize, frames)
      && bytes[..] == Assemble(s,
        FieldsOf(container, ShapeLen(s), dataSize, frames).(magic := f.magic, boxId := f.boxId))
  {
    hide Le32, Le64, Splice, Assemble;
    if dataSize < 0 {
      return Some(BadConfig);
    }
    ghost var g := f;
    var riffSize := RiffSizeForLen(lay.dataOffset, dataSize);
    RiffSizeIsExact(ShapeLen(s), dataSize);
    if container.Sized64() {
      Put(bytes, lay.riffSizeAt, Le32(SENTINEL32));
      SpliceRiff(s, g, Le32(SENTINEL32));
      g := g.(riff := Le32(SENTINEL32));
      Put(bytes, lay.dataSizeAt, Le32(SENTINEL32));
      SpliceData(s, g, Le32(SENTINEL32));
      g := g.(data := Le32(SENTINEL32));
      if lay.ds64At < 0 {
        return Some(BadConfig);
      }
      var box := StampDS64(bytes, lay.ds64At + CHUNK_HEADER_SIZE, AsUint64(riffSize), dataSize, frames);
      SpliceBox(s, g, box);
      g := g.(box := box);
    } else {
      if riffSize < 0 || riffSize > MAX_UINT32 || dataSize > MAX_UINT32 {
        return Some(TooLarge);
      }
      Put(bytes, lay.riffSizeAt, Le32(riffSize));
      SpliceRiff(s, g, Le32(riffSize));
      g := g.(riff := Le32(riffSize));
      Put(bytes, lay.dataSizeAt, Le32(dataSize));
      SpliceData(s, g, Le32(dataSize));
      g := g.(data := Le32(dataSize));
    }
    ghost var fact := Le32(FactField(frames));
    if lay.factAt >= 0 {
      var f32: uint32 := frames % 0x1_0000_0000;
      if frames > MAX_UINT32 {
        f32 := SENTINEL32;
      }
      Put(bytes, lay.factAt, Le32(f32));
      SpliceFact(s, g, fact);
    } else {
      NoFactField(s, g, fact);
    }
    assert bytes[..] == Assemble(s, g.(fact := fact));
    return None;
  }

  /** The four fields of a ds64 payload, stamped one after another. */
  method StampDS64(bytes: array<byte>, p: nat, riffSize: uint64, dataSize: uint64, frames: uint64)
    returns (ghost box: seq<byte>)
    requires p + DS64_PAYLOAD_SIZE <= bytes.Length
    modifies bytes
    ensures box == Le64(riffSize) + Le64(dataSize) + Le64(frames) + Le32(0)
    ensures bytes[..] == Splice(old(bytes[..]), p, box)
  {
    ghost var b := bytes[..];
    Put(bytes, p, Le64(riffSize));
    Put(bytes, p + 8, Le64(dataSize));
    SpliceWithin(b, p, Le64(riffSize), Le64(dataSize));
    Put(bytes, p + 16, Le64(frames));
    SpliceWithin(b, p, Le64(riffSize) + Le64(dataSize), Le64(frames));
    Put(bytes, p + 24, Le32(0));
    SpliceWithin(b, p, Le64(riffSize) + Le64(dataSize) + Le64(frames), Le32(0));
    box := Le64(riffSize) + Le64(dataSize) + Le64(frames) + Le32(0);
  }

  // ---- building -----------------------------------------------------------------------------------------------

  /** Why a configuration cannot be built, if it cannot. */
  function BuildRefusal(cfg: HeaderConfig): Option<Error> {
    if !ValidDepth(cfg.format.format, cfg.format.bitDepth) || cfg.format.format.Companded() then Some(Unsupported)
    else if cfg.format.channels <= 0 || cfg.format.sampleRate <= 0
      || cfg.format.sampleRate > MAX_SAMPLE_RATE
    then Some(BadConfig)
    else if cfg.container.BW64? then Some(Unsupported)
    else if !Writable(cfg.format) || |cfg.bext| > MAX_UINT32 || |cfg.ixml| > MAX_UINT32 then Some(TooLarge)
    else if cfg.dataSize < 0 then Some(BadConfig)
    else if !SizesFit(cfg) then Some(TooLarge)
    else None
  }

  /** Appends a metadata chunk, or nothing when there is no body. */
  method AppendMeta(dst: seq<byte>, id: seq<byte>, body: seq<byte>) returns (r: Result<seq<byte>>)
    requires |id| == 4
    ensures r == if |body| <= MAX_UINT32 then Ok(dst + MetaChunk(id, body)) else Err(TooLarge)
  {
    if |body| == 0 {
      assert dst + MetaChunk(id, body) == dst;
      return Ok(dst);
    }
    if |body| > MAX_UINT32 {
      return Err(TooLarge);
    }
    var buf := dst + Chunk(id, body);
    if |body| % 2 != 0 {
      buf := buf + [0];
    }
    assert buf == dst + MetaChunk(id, body);
    return Ok(buf);
  }

  /** Appends everything between the file header and the fact or data chunk. */
  method AppendMiddle(dst: seq<byte>, cfg: HeaderConfig) returns (r: Result<seq<byte>>)
    requires cfg.format.format == PCM || cfg.format.format == Float
    requires ValidDepth(cfg.format.format, cfg.format.bitDepth) && !cfg.container.BW64?
    requires 0 < cfg.format.channels <= MAX_INT64 && 0 < cfg.format.sampleRate <= MAX_SAMPLE_RATE
    ensures r == if Buildable(cfg) then Ok(dst + Middle(cfg)) else Err(TooLarge)
  {
    r := AppendFmt(dst, cfg.format);
    if r.Ok? {
      r := AppendMeta(r.value, BEXT, cfg.bext);
    }
    if r.Ok? {
      r := AppendMeta(r.value, IXML, cfg.ixml);
    }
    if Buildable(cfg) {
      Concat3(dst, Chunk(FMT, FmtBody(cfg.format)), MetaChunk(BEXT, cfg.bext), MetaChunk(IXML, cfg.ixml));
    }
  }

  lemma Concat3(d: seq<byte>, a: seq<byte>, b: seq<byte>, c: seq<byte>)
    ensures d + a + b + c == d + (a + b + c)
  {
  }

  lemma ConcatNest(a: seq<byte>, b: seq<byte>, c: seq<byte>, d: seq<byte>, e: seq<byte>, f: seq<byte>, g: seq<byte>,
                   h: seq<byte>)
    ensures a + b + c + d + e + f + g + h == a + (b + (c + (d + (e + (f + (g + h))))))
  {
  }

  /** The placeholder fields a header is grown with before its sizes are stamped. */
  function Blank(container: Container): (f: Fields)
    ensures GoodFields(f)
  {
    Fields(Magic(container), Zeros(4), if container.Sized64() then DS64 else JUNK,
      Zeros(DS64_PAYLOAD_SIZE), Zeros(4), Zeros(4))
  }

  /** Emits a complete header: grown chunk by chunk with zero size fields whose offsets are recorded, then stamped. */
  method BuildHeader(cfg: HeaderConfig) returns (r: Result<Layout>)
    requires cfg.format.channels <= MAX_INT64
    ensures BuildRefusal(cfg).None? <==> Buildable(cfg) && SizesFit(cfg)
    ensures r == match BuildRefusal(cfg) case Some(e) => Err(e) case None => Ok(LayoutOf(cfg))
  {
    hide Le32, Le64, Splice, Assemble, Middle, Zeros, ByteRate;
    if !ValidDepth(cfg.format.format, cfg.format.bitDepth) || cfg.format.format.Companded() {
      return Err(Unsupported);
    }
    if cfg.format.channels <= 0 || cfg.format.sampleRate <= 0 || cfg.format.sampleRate > MAX_SAMPLE_RATE {
      return Err(BadConfig);
    }
    if cfg.container.BW64? {
      return Err(Unsupported);
    }
    var grown := Grow(cfg);
    if grown.Err? {
      return Err(grown.error);
    }
    var lay := grown.value;
    var bytes := new byte[|lay.bytes|](i requires 0 <= i < |lay.bytes| => lay.bytes[i]);
    assert bytes[..] == lay.bytes;
    var refusal := WriteSizesInto(bytes, lay, cfg.container, cfg.dataSize, cfg.frames, ShapeOf(cfg),
      Blank(cfg.container));
    if refusal.Some? {
      return Err(refusal.value);
    }
    return Ok(lay.(bytes := bytes[..]));
  }

  method Grow(cfg: HeaderConfig) returns (r: Result<Layout>)
    requires cfg.format.format == PCM || cfg.format.format == Float
    requires ValidDepth(cfg.format.format, cfg.format.bitDepth) && !cfg.container.BW64?
    requires 0 < cfg.format.channels <= MAX_INT64 && 0 < cfg.format.sampleRate <= MAX_SAMPLE_RATE
    ensures if Buildable(cfg)
      then r.Ok? && r.value.bytes == Assemble(ShapeOf(cfg), Blank(cfg.container)) && Places(r.value, ShapeOf(cfg))
      else r == Err(TooLarge)
  {
    hide Le32, Middle, Zeros, ByteRate;
    ghost var f := Blank(cfg.container);
    var ds64At, factAt: int64 := -1, -1;
    var box, fact := [], [];
    var buf := Magic(cfg.container) + Zeros(4) + WAVE;
    if cfg.container.Sized64() {
      ds64At := |buf|;
      box := DS64 + (Le32(DS64_PAYLOAD_SIZE) + Zeros(DS64_PAYLOAD_SIZE));
    } else if cfg.reserveDS64 {
      ds64At := |buf|;
      box := JUNK + (Le32(DS64_PAYLOAD_SIZE) + Zeros(DS64_PAYLOAD_SIZE));
    }
    buf := buf + box;
    var middle := AppendMiddle(buf, cfg);
    if middle.Err? {
      return Err(middle.error);
    }
    buf := middle.value;
    ghost var s := ShapeOf(cfg);
    assert ShapeLen(s) == HeaderLen(cfg);
    if cfg.format.format == Float {
      factAt := |buf| + CHUNK_HEADER_SIZE;
      fact := FACT + (Le32(FACT_PAYLOAD_SIZE) + Zeros(4));
    }
    buf := buf + fact + DATA;
    var dataSizeAt: int64 := |buf|;
    buf := buf + Zeros(4);
    assert box == BoxPart(s, f) && fact == FactPart(s, f);
    ConcatNest(f.magic, f.riff, WAVE, box, s.middle, fact, DATA, f.data);
    return Ok(Layout(buf, 4, dataSizeAt, ds64At, factAt, |buf|));
  }

  // ---- patching -----------------------------------------------------------------------------------------------

  /** Writes b at the start of the sink and returns to the position it had. */
  method RewriteHead(w: Sink, b: seq<byte>) returns (ok: bool)
    requires w.seekable
    modifies w
    ensures w.reliable ==> ok
    ensures ok ==> w.data == Overwrite(old(w.data), 0, b) && w.pos == old(w.pos)
  {
    var end := w.pos;
    ok := w.SeekTo(0);
    if ok {
      var n;
      n, ok := w.Write(b);
      if ok {
        assert b[..n] == b;
        ok := w.SeekTo(end);
      }
    }
  }

  /** The configuration whose header describes the stream once its container and sizes are final. */
  function Final(cfg: HeaderConfig, container: Container, dataSize: int64, frames: uint64): HeaderConfig {
    cfg.(container := container, dataSize := dataSize, frames := frames)
  }

  lemma FinalKeepsShape(cfg: HeaderConfig, container: Container, dataSize: int64, frames: uint64)
    requires Buildable(cfg) && !container.BW64?
    requires container == cfg.container || ((cfg.container.Sized64() || cfg.reserveDS64) && container.Sized64())
    ensures ShapeOf(Final(cfg, container, dataSize, frames)) == ShapeOf(cfg)
    ensures HeaderLen(Final(cfg, container, dataSize, frames)) == HeaderLen(cfg)
  {
    hide FmtBody, Chunk, MetaChunk;
  }

  lemma HeadStartsWithMagic(cfg: HeaderConfig)
    requires Buildable(cfg) && SizesFit(cfg)
    ensures Head(cfg)[..4] == Magic(cfg.container)
  {
    hide Le32, Le64, Middle;
  }

  /** Restamps an emitted header in place for the container it was built for. What lands in the file is the header
      that would have been emitted had the sizes been known from the start. */
  method PatchSizes(w: Sink, lay: Layout, container: Container, dataSize: int64, frames: uint64,
                    ghost cfg: HeaderConfig)
    returns (refusal: Option<Error>)
    requires w.seekable && Buildable(cfg) && SizesFit(cfg) && lay == LayoutOf(cfg)
    modifies w
    ensures container != cfg.container ==>
      && refusal == Some(WrongContainer) && w.data == old(w.data) && w.pos == old(w.pos)
    ensures container == cfg.container && !SizesFit(Final(cfg, container, dataSize, frames)) ==>
      refusal == Some(if dataSize < 0 then BadConfig else TooLarge) && w.data == old(w.data) && w.pos == old(w.pos)
    ensures container == cfg.container && SizesFit(Final(cfg, container, dataSize, frames)) ==>
      && (refusal.None? || refusal == Some(SinkFailure)) && (w.reliable ==> refusal.None?)
      && (refusal.None? ==>
            w.data == Overwrite(old(w.data), 0, Head(Final(cfg, container, dataSize, frames))) && w.pos == old(w.pos))
  {
    hide Le32, Le64, Splice, Middle, Zeros, ByteRate, Overwrite, Assemble;
    ghost var s := ShapeOf(cfg);
    ghost var f := FieldsFor(cfg);
    HeadStartsWithMagic(cfg);
    if lay.bytes[..4] != Magic(container) {
      return Some(WrongContainer);
    }
    assert container == cfg.container;
    FinalKeepsShape(cfg, container, dataSize, frames);
    var patched := new byte[|lay.bytes|](i requires 0 <= i < |lay.bytes| => lay.bytes[i]);
    assert patched[..] == lay.bytes == Assemble(s, f);
    refusal := WriteSizesInto(patched, lay, container, dataSize, frames, s, f);
    if refusal.Some? {
      return;
    }
    assert patched[..] == Head(Final(cfg, container, dataSize, frames));
    var ok := RewriteHead(w, patched[..]);
    return if ok then None else Some(SinkFailure);
  }

  /** Turns an emitted header into an RF64 one in place: the magic changes, the reserved JUNK becomes a ds64. What
      lands in the file is the header a native RF64 writer would have emitted. */
  method UpgradeToRF64(w: Sink, lay: Layout, container: Container, dataSize: int64, frames: uint64,
                       ghost cfg: HeaderConfig)
    returns (refusal: Option<Error>)
    requires w.seekable && Buildable(cfg) && SizesFit(cfg) && lay == LayoutOf(cfg)
    modifies w
    ensures !container.RF64? || !ShapeOf(cfg).box ==>
      refusal == Some(WrongContainer) && w.data == old(w.data) && w.pos == old(w.pos)
    ensures container.RF64? && ShapeOf(cfg).box && dataSize < 0 ==>
      refusal == Some(BadConfig) && w.data == old(w.data) && w.pos == old(w.pos)
    ensures container.RF64? && ShapeOf(cfg).box && dataSize >= 0 ==>
      && (refusal.None? || refusal == Some(SinkFailure)) && (w.reliable ==> refusal.None?)
      && (refusal.None? ==>
            w.data == Overwrite(old(w.data), 0, Head(Final(cfg, RF64, dataSize, frames))) && w.pos == old(w.pos))
  {
    hide Le32, Le64, Splice, Middle, Zeros, ByteRate, Overwrite, Assemble;
    if !container.RF64? || lay.ds64At < 0 {
      return Some(WrongContainer);
    }
    ghost var s := ShapeOf(cfg);
    ghost var f := FieldsFor(cfg);
    var patched := new byte[|lay.bytes|](i requires 0 <= i < |lay.bytes| => lay.bytes[i]);
    assert patched[..] == lay.bytes == Assemble(s, f);
    Put(patched, 0, Magic(container));
    SpliceMagic(s, f, Magic(container));
    f := f.(magic := Magic(container));
    Put(patched, lay.ds64At, DS64);
    SpliceBoxId(s, f, DS64);
    f := f.(boxId := DS64);
    refusal := WriteSizesInto(patched, lay, container, dataSize, frames, s, f);
    if refusal.Some? {
      return;
    }
    FinalKeepsShape(cfg, RF64, dataSize, frames);
    assert patched[..] == Head(Final(cfg, RF64, dataSize, frames));
    var ok := RewriteHead(w, patched[..]);
    return if ok then None else Some(SinkFailure);
  }
}
