/** What the parser makes of the bytes it meets, told in literal identifiers, offsets and bounds. */
module ParseLaws {
  import opened Wire
  import opened Types
  import opened Chunks
  import opened Arith
  import opened Format
  import opened Sources
  import opened HeaderReader
  import opened WalkLaws

  // ---- the file header -----------------------------------------------------------------------------------------

  lemma {:induction false} WalkKeepsContainer(s: seq<byte>, container: Container, a: Seen)
    ensures
      match Walk(s, container, a)
      case Err(e) => e in {CorruptStream, Unsupported}
      case Ok(p) => p.header.info.container == container
    decreases |s|
  {
    hide Conclude, Absorb, SkipPad, Drop, Payload, U32;
    if |s| < CHUNK_HEADER_SIZE {
    } else {
      var id, size, payload := s[..4], U32(s, 4), Payload(s[8..], U32(s, 4));
      ConcludesInKind(container, a, size);
      if id != DATA {
        AbsorbsInKind(a, id, payload);
        if Absorb(a, id, payload).Ok? {
          BehindIsSuffix(s);
          WalkKeepsContainer(Behind(s), container, Absorb(a, id, payload).value);
        }
      }
    }
  }

  lemma ConcludesInKind(container: Container, a: Seen, size: uint32)
    ensures
      match Conclude(container, a, size)
      case Err(e) => e == CorruptStream
      case Ok(h) => h.info.container == container
  {
  }

  lemma AbsorbsInKind(a: Seen, id: seq<byte>, payload: Option<seq<byte>>)
    ensures Absorb(a, id, payload).Err? ==> Absorb(a, id, payload).error in {CorruptStream, Unsupported}
  {
  }

  /** A stream is taken for WAVE exactly by its twelve-byte file header, whose magic names the container it is read
      as. */
  lemma MagicDecides(s: seq<byte>)
    ensures Parse(s) == Err(NotRIFF) <==>
      || |s| < 12 || s[8..12] != Ascii("WAVE") || s[..4] !in [Ascii("RIFF"), Ascii("RF64"), Ascii("BW64")]
    ensures Parse(s).Ok? ==>
      |s| >= 12 && s[..4] == match Parse(s).value.header.info.container
        case RIFF => Ascii("RIFF")
        case RF64 => Ascii("RF64")
        case BW64 => Ascii("BW64")
  {
    hide Walk;
    IdentifiersSpell();
    if |s| >= 12 && ContainerOf(s[..4]).Some? {
      WalkKeepsContainer(s[12..], ContainerOf(s[..4]).value, NOTHING_SEEN);
    }
  }

  // ---- one chunk -----------------------------------------------------------------------------------------------

  /** A payload is held whole up to 2^20 bytes, cut where the stream ends, and not at all beyond. */
  lemma PayloadIsHeld(s: seq<byte>, size: uint32)
    ensures Payload(s, size) ==
      if size > 1048576 then None else Some(if size <= |s| then s[..size] else s)
    ensures forall body: seq<byte> :: Held(body).Some? <==> |body| <= 1048576
  {
  }

  /** Behind a chunk of odd size one byte is skipped exactly when at least four follow and one of those is no printable
      character: four printable ones are taken for the next identifier. */
  lemma PadIsSkipped(s: seq<byte>, size: uint32)
    ensures
      var skips := size % 2 == 1 && |s| >= 4 && exists i :: 0 <= i < 4 && (s[i] < 32 || s[i] > 126);
      SkipPad(s, size) == if skips then s[1..] else s
  {
    if |s| >= 4 && !Plausible(s) {
      var i :| 0 <= i < 4 && !(0x20 <= s[i] <= 0x7e);
      assert s[i] < 32 || s[i] > 126;
    }
  }

  /** A ds64 payload: file size, data size and sample count, 64 bits each; the table length behind them is not read. */
  lemma DS64Fields(b: seq<byte>)
    ensures ParseDS64(b) ==
      if |b| < 28 then Err(CorruptStream) else Ok(DS64Info(U64(b, 0), U64(b, 8), U64(b, 16)))
  {
  }

  /** The chunks ahead of the audio are accepted exactly when every fmt and every ds64 among them is; nothing else they
      hold can fail a stream. */
  lemma {:induction false} ChunksAreAccepted(a: Seen, ps: seq<Piece>)
    ensures Fold(a, ps).Ok? <==>
      forall p <- ps ::
        && (p.id == Ascii("fmt ") ==> ParseFmt(Bytes(Held(p.body))).Ok?)
        && (p.id == Ascii("ds64") ==> ParseDS64(Bytes(Held(p.body))).Ok?)
    decreases |ps|
  {
    hide ParseFmt, ParseDS64, Held, Ascii;
    IdentifiersSpell();
    if ps == [] {
    } else {
      assert ps == [ps[0]] + ps[1..];
      var absorbed := Absorb(a, ps[0].id, Held(ps[0].body));
      if absorbed.Ok? {
        ChunksAreAccepted(absorbed.value, ps[1..]);
      }
    }
  }

  // ---- what a data chunk concludes -----------------------------------------------------------------------------

  /** The length a stream states: in its data chunk for RIFF, where all ones means none, in its ds64 otherwise. */
  function Stated(container: Container, size: uint32, ds64: Option<DS64Info>): nat
    requires container != RIFF ==> ds64.Some?
  {
    if container != RIFF then ds64.value.dataSize else if size == 4294967295 then 0 else size
  }

  /** The frame count a stream claims beside its length. */
  function Claimed(ds64: Option<DS64Info>, fact: uint32): nat {
    if ds64.Some? && ds64.value.sampleCount > 0 then ds64.value.sampleCount
    else if fact == 4294967295 then 0
    else fact
  }

  /** The header a data chunk concludes, for every container, every combination of chunks seen and every size field. A
      length is believed from 1 to 2^62 bytes; the frame count follows from it, or else is the one claimed as long as
      that many frames stay within 2^62 bytes. */
  lemma ConcludedExactly(container: Container, a: Seen, size: uint32)
    requires a.fmt.Some? ==> Sound(a.fmt.value)
    ensures Conclude(container, a, size).Ok? <==> a.fmt.Some? && (container == RIFF || a.ds64.Some?)
    ensures Conclude(container, a, size).Err? ==> Conclude(container, a, size).error == CorruptStream
    ensures Conclude(container, a, size).Ok? ==>
      var h, f := Conclude(container, a, size).value, a.fmt.value;
      var stated, claimed := Stated(container, size, a.ds64), Claimed(a.ds64, a.fact);
      var known := 1 <= stated <= 4611686018427387904;
      && f.blockAlign > 0
      && h.dataSize == (if known then stated else -1) && h.info.dataSizeKnown == known && h.blockAlign == f.blockAlign
      && h.info.totalFrames ==
         (if known then stated / f.blockAlign
          else if claimed * f.blockAlign <= 4611686018427387904 then claimed else 0)
      && h.info.sampleRate == f.sampleRate && h.info.channels == f.channels && h.info.container == container
      && h.info.bitDepth == h.info.sourceBitDepth == f.bitDepth && h.info.validBits == f.validBits
      && h.info.format == h.info.sourceFormat == f.format
      && h.info.extensible == f.extensible && h.info.channelMask == f.channelMask
      && h.bext == (if a.bext.Some? then a.bext.value else None)
      && h.ixml == (if a.ixml.Some? then a.ixml.value else None)
  {
    if a.fmt.Some? && (container == RIFF || a.ds64.Some?) {
      SoundAlign(a.fmt.value);
      ProductGuard(Claimed(a.ds64, a.fact), a.fmt.value.blockAlign, 4611686018427387904);
    }
  }

  lemma SoundAlign(f: Format)
    requires Sound(f)
    ensures 0 < f.blockAlign <= 8 * 65535
  {
  }
}
