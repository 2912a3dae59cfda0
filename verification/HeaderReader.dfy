/** The parser: a walk over chunks that ends on the first byte of audio. */
module HeaderReader {
  import opened Wire
  import opened Types
  import opened Chunks
  import opened Format
  import opened Sources

  datatype DS64Info = DS64Info(riffSize: uint64, dataSize: uint64, sampleCount: uint64)

  /** A parsed header. dataSize is SIZE_UNKNOWN when the stream declared no usable length; a metadata body is None
      when there was none or it was too large to hold. */
  datatype Header = Header(info: StreamInfo, dataSize: int64, blockAlign: int, bext: Option<seq<byte>>,
                           ixml: Option<seq<byte>>)

  /** What the chunks walked so far established. For bext and iXML the outer Some records that the chunk was met. */
  datatype Seen = Seen(
    fmt: Option<Format>, ds64: Option<DS64Info>, fact: uint32,
    bext: Option<Option<seq<byte>>>, ixml: Option<Option<seq<byte>>>)

  const NOTHING_SEEN := Seen(None, None, 0, None, None)

  /** A header together with the bytes that follow the data chunk's own header. */
  datatype Parsed = Parsed(header: Header, audio: seq<byte>)

  function ParseDS64(b: seq<byte>): Result<DS64Info> {
    if |b| < DS64_PAYLOAD_SIZE then Err(CorruptStream) else Ok(DS64Info(U64(b, 0), U64(b, 8), U64(b, 16)))
  }

  function ResolveDataSize(size: uint32, container: Container, ds64: Option<DS64Info>): int64 {
    if container.Sized64() && ds64.Some? then
      if ds64.value.dataSize == 0 || ds64.value.dataSize > MAX_DATA_SIZE then SIZE_UNKNOWN else ds64.value.dataSize
    else if size == 0 || size == SENTINEL32 then SIZE_UNKNOWN
    else size
  }

  function BoundedFrames(frames: uint64, blockAlign: int64): uint64 {
    var limit := if blockAlign > 0 then MAX_DATA_SIZE / blockAlign else MAX_DATA_SIZE;
    if frames > limit then 0 else frames
  }

  function ResolveFrames(dataSize: int64, blockAlign: int64, ds64: Option<DS64Info>, fact: uint32): uint64
    requires dataSize >= -1
  {
    if dataSize != SIZE_UNKNOWN && blockAlign > 0 then dataSize / blockAlign
    else if ds64.Some? && ds64.value.sampleCount != 0 then BoundedFrames(ds64.value.sampleCount, blockAlign)
    else if fact == SENTINEL32 then 0
    else BoundedFrames(fact, blockAlign)
  }

  // ---- the walk as a function of the bytes that remain ---------------------------------------------------------

  /** The payload handed to the parser: nothing for an oversized chunk, only what exists for a truncated one. */
  function Payload(s: seq<byte>, size: uint32): Option<seq<byte>> {
    if size > MAX_CHUNK_PAYLOAD then None else Some(Take(s, size))
  }

  function SkipPad(s: seq<byte>, size: uint32): (t: seq<byte>)
    ensures |t| <= |s|
  {
    if size % 2 == 0 || |s| < 4 || Plausible(s) then s else s[1..]
  }

  function Bytes(b: Option<seq<byte>>): seq<byte> {
    if b.Some? then b.value else []
  }

  /** Takes one chunk other than data into account. */
  function Absorb(a: Seen, id: seq<byte>, payload: Option<seq<byte>>): Result<Seen> {
    if id == DS64 then
      match ParseDS64(Bytes(payload)) case Err(e) => Err(e) case Ok(d) => Ok(a.(ds64 := Some(d)))
    else if id == FMT then
      match ParseFmt(Bytes(payload)) case Err(e) => Err(e) case Ok(f) => Ok(a.(fmt := Some(f)))
    else if id == FACT then
      Ok(if |Bytes(payload)| >= FACT_PAYLOAD_SIZE then a.(fact := U32(Bytes(payload), 0)) else a)
    else if id == BEXT then Ok(if a.bext.Some? then a else a.(bext := Some(payload)))
    else if id == IXML then Ok(if a.ixml.Some? then a else a.(ixml := Some(payload)))
    else Ok(a)
  }

  /** The header once the data chunk is reached, or the reason there is none. */
  function Conclude(container: Container, a: Seen, size: uint32): Result<Header> {
    if a.fmt.None? || (container.Sized64() && a.ds64.None?) then Err(CorruptStream)
    else
      var f := a.fmt.value;
      var dataSize := ResolveDataSize(size, container, a.ds64);
      Ok(Header(
           StreamInfo(f.sampleRate, f.channels, f.bitDepth, f.bitDepth, f.validBits, f.format, f.format, container,
                      f.extensible, f.channelMask, ResolveFrames(dataSize, Wrap64(f.blockAlign), a.ds64, a.fact),
                      dataSize != SIZE_UNKNOWN),
           dataSize, f.blockAlign,
           if a.bext.Some? then a.bext.value else None,
           if a.ixml.Some? then a.ixml.value else None))
  }

  function Walk(s: seq<byte>, container: Container, a: Seen): Result<Parsed>
    decreases |s|
  {
    if |s| < CHUNK_HEADER_SIZE then Err(CorruptStream)
    else
      var id, size := s[..4], U32(s, 4);
      if id == DATA then
        match Conclude(container, a, size) case Err(e) => Err(e) case Ok(h) => Ok(Parsed(h, s[8..]))
      else
        match Absorb(a, id, Payload(s[8..], size))
        case Err(e) => Err(e)
        case Ok(a') => Walk(SkipPad(Drop(s[8..], size), size), container, a')
  }

  function ContainerOf(magic: seq<byte>): Option<Container> {
    if magic == RIFF_ID then Some(RIFF)
    else if magic == RF64_ID then Some(RF64)
    else if magic == BW64_ID then Some(BW64)
    else None
  }

  /** The meaning of a byte string as a WAVE stream. */
  function Parse(s: seq<byte>): Result<Parsed> {
    if |s| < FILE_HEADER_SIZE || s[8..12] != WAVE then Err(NotRIFF)
    else
      match ContainerOf(s[..4])
      case None => Err(NotRIFF)
      case Some(c) => Walk(s[12..], c, NOTHING_SEEN)
  }

  // ---- the parser over a source --------------------------------------------------------------------------------

  /** Skips n bytes in steps a platform int can hold, stopping early only at the end of the source. */
  method DiscardN(src: Source, n: int64)
    requires n >= 0
    modifies src`pos
    ensures src.Rest() == Drop(old(src.Rest()), n) && src.pos == old(src.pos) + |Take(old(src.Rest()), n)|
  {
    hide Take, Drop;
    ghost var s, skipped := src.Rest(), 0;
    TakeDropStep(s, 0, 0);
    var step, left := 0x4000_0000, n;
    while left > 0
      invariant 0 <= left <= n && left == n - skipped
      invariant src.Rest() == Drop(s, skipped) && src.pos == old(src.pos) + |Take(s, skipped)|
    {
      var want := if left < step then left else step;
      var got := src.Discard(want);
      TakeDropStep(s, skipped, want);
      if got < want {
        TakeDropEnd(s, skipped, want, n);
        return;
      }
      left := left - got;
      skipped := skipped + want;
    }
  }

  method ReadPayload(src: Source, size: uint32) returns (payload: Option<seq<byte>>)
    modifies src`pos
    ensures payload == Payload(old(src.Rest()), size)
    ensures src.Rest() == Drop(old(src.Rest()), size) && src.pos == old(src.pos) + |Take(old(src.Rest()), size)|
  {
    if size > MAX_CHUNK_PAYLOAD {
      DiscardN(src, size);
      return None;
    }
    var buf := src.ReadFull(size);
    return Some(buf);
  }

  /** Consumes the pad byte behind an odd-sized chunk, unless a chunk identifier already stands in its place. */
  method SkipPadByte(src: Source, size: uint32)
    modifies src`pos
    ensures src.Rest() == SkipPad(old(src.Rest()), size)
    ensures src.pos == old(src.pos) + |old(src.Rest())| - |src.Rest()|
  {
    hide Plausible;
    if size % 2 == 0 {
      return;
    }
    var next := src.Peek(4);
    PlausibleFront(src.Rest());
    if |next| < 4 || Plausible(next) {
      return;
    }
    var _ := src.Discard(1);
  }

  lemma PlausibleFront(s: seq<byte>)
    ensures |s| >= 4 ==> |Take(s, 4)| == 4 && (Plausible(Take(s, 4)) <==> Plausible(s))
  {
    if |s| >= 4 {
      assert forall i :: 0 <= i < 4 ==> s[..4][i] == s[i];
    }
  }

  method ReadFileHeader(src: Source) returns (r: Result<Container>)
    modifies src`pos
    ensures var s := old(src.Rest());
      r == if |s| < FILE_HEADER_SIZE || s[8..12] != WAVE then Err(NotRIFF)
           else match ContainerOf(s[..4]) case None => Err(NotRIFF) case Some(c) => Ok(c)
    ensures src.Rest() == Drop(old(src.Rest()), FILE_HEADER_SIZE)
    ensures src.pos == old(src.pos) + |Take(old(src.Rest()), FILE_HEADER_SIZE)|
  {
    var hdr := src.ReadFull(FILE_HEADER_SIZE);
    if |hdr| < FILE_HEADER_SIZE || hdr[8..12] != WAVE {
      return Err(NotRIFF);
    }
    match ContainerOf(hdr[..4])
    case None => return Err(NotRIFF);
    case Some(c) => return Ok(c);
  }

  /** Takes the chunk whose header was just read into account and leaves the source behind it. */
  method TakeChunk(src: Source, id: seq<byte>, size: uint32, seen: Seen) returns (r: Result<Seen>)
    requires id != DATA
    modifies src`pos
    ensures r == Absorb(seen, id, Payload(old(src.Rest()), size))
    ensures r.Ok? ==> src.Rest() == SkipPad(Drop(old(src.Rest()), size), size)
    ensures r.Ok? ==> src.pos == old(src.pos) + |old(src.Rest())| - |src.Rest()|
  {
    hide ParseFmt, ParseDS64, Plausible, U32;
    if id in {DS64, FMT, FACT, BEXT, IXML} {
      var payload := ReadPayload(src, size);
      r := Absorb(seen, id, payload);
      if r.Err? {
        return;
      }
    } else {
      DiscardN(src, size);
      r := Ok(seen);
    }
    SkipPadByte(src, size);
  }

  /** Reads a header and leaves the source on the first byte of audio. */
  method ParseHeader(src: Source) returns (r: Result<Header>)
    modifies src`pos
    ensures match Parse(old(src.Rest()))
            case Err(e) => r == Err(e)
            case Ok(p) => r == Ok(p.header) && src.Rest() == p.audio
                          && src.pos == old(src.pos) + |old(src.Rest())| - |p.audio|
  {
    hide Absorb, Conclude, ContainerOf, Payload, SkipPad, Plausible;
    ghost var s := src.Rest();
    var start := ReadFileHeader(src);
    if start.Err? {
      return Err(start.error);
    }
    var container := start.value;
    var seen := NOTHING_SEEN;
    assert Drop(s, 12) == s[12..];
    while true
      invariant Parse(s) == Walk(src.Rest(), container, seen)
      invariant src.pos == old(src.pos) + |s| - |src.Rest()|
      decreases |src.Rest()|
    {
      ghost var here := src.Rest();
      var hdr := src.ReadFull(CHUNK_HEADER_SIZE);
      if |hdr| < CHUNK_HEADER_SIZE {
        return Err(CorruptStream);
      }
      var id, size := hdr[..4], U32(hdr, 4);
      HeaderPrefix(here);
      if id == DATA {
        r := Conclude(container, seen, size);
        return;
      }
      var taken := TakeChunk(src, id, size, seen);
      if taken.Err? {
        return Err(taken.error);
      }
      seen := taken.value;
    }
  }

  lemma HeaderPrefix(s: seq<byte>)
    requires |s| >= 8
    ensures s[..8][..4] == s[..4] && U32(s[..8], 4) == U32(s, 4)
  {
  }
}
