/** The encoder: a state machine over a sink that carries partial frames, polices the 32-bit size limit on every emit,
    may flip RIFF to RF64 in mid-stream, and finalises the header at Close. */
module Encoding {
  import opened Wire
  import opened Types
  import opened Chunks
  import opened Arith
  import opened Format
  import opened Sinks
  import opened HeaderWriter
  import opened BextCodec
  import opened EncoderConfig

  /** The field values of an encoder that was never bound. */
  const NO_LAYOUT := Layout([], 0, 0, 0, 0, 0)
  const NO_CONFIG := Config(8000, 16, 1, PCM, false, 0, Auto, 0, None, [])
  const NO_HEADER := HeaderConfigOf(NO_CONFIG, [], RIFF, false, 0)

  /** Whether a stream behind this header can still be described once it holds total bytes. */
  predicate Describable(cont: Container, rescuable: bool, headerLen: int, total: int) {
    total <= MAX_INT64 && (cont.Sized64() || FitsFields(headerLen, total) || rescuable)
  }

  predicate FitsFields(headerLen: int, total: int) {
    0 <= total <= MAX_INT64 && FitsRIFF(headerLen, total)
  }

  /** The container after total bytes: RIFF until the 32-bit fields overflow. */
  function ContainerFor(cont: Container, headerLen: int, total: int): Container {
    if cont == RIFF && !FitsFields(headerLen, total) then RF64 else cont
  }

  /** The whole inter-channel frames among n bytes. */
  function FrameCount(n: int64, width: int): uint64
    requires n >= 0 && width > 0
  {
    n / width
  }

  /** A shorter stream is describable when a longer one is, and settling on a container on the way changes nothing. */
  lemma DescribableBelow(cont: Container, rescuable: bool, headerLen: int, small: int, large: int)
    requires 44 <= headerLen <= 0x1000_0000_0000_0000 && 0 <= small <= large && !cont.BW64?
    ensures FitsFields(headerLen, large) ==> FitsFields(headerLen, small)
    ensures Describable(cont, rescuable, headerLen, large) ==> Describable(cont, rescuable, headerLen, small)
    ensures var c := ContainerFor(cont, headerLen, small);
            ContainerFor(c, headerLen, large) == ContainerFor(cont, headerLen, large)
            && (Describable(cont, rescuable, headerLen, small) ==>
                  (Describable(c, rescuable, headerLen, large) <==> Describable(cont, rescuable, headerLen, large)))
  {
    if FitsFields(headerLen, large) {
      FitsIsMonotone(headerLen, small, large);
    }
    hide RiffSizeForLen;
  }

  lemma OverwriteAppends(data: seq<byte>, base: nat, pos: nat, p: seq<byte>)
    requires base <= pos <= |data|
    ensures var r := Overwrite(data, pos, p);
            pos + |p| <= |r| && r[base..pos + |p|] == data[base..pos] + p && r[..base] == data[..base]
  {
  }

  /** Replacing a header at the front in place leaves everything behind it. */
  lemma Restamped(data: seq<byte>, pos: nat, h: seq<byte>, x: seq<byte>, g: seq<byte>)
    requires pos <= |data| && data[0..pos] == h + x && |g| == |h|
    ensures |Overwrite(data, 0, g)| == |data| && Overwrite(data, 0, g)[0..pos] == g + x
    ensures Overwrite(data, 0, g)[|h|..] == data[|h|..]
  {
    assert data[0..pos][|h|..] == data[|h|..pos] == x;
    assert Overwrite(data, 0, g)[|h|..pos] == x;
  }

  lemma BehindTheStamp(data: seq<byte>, base: nat, pos: nat, g: seq<byte>)
    requires |g| <= base <= pos <= |data|
    ensures Overwrite(data, 0, g)[base..pos] == data[base..pos]
  {
  }

  /** The header h describes the configuration cfg: its format, its declared length, and space for a ds64 only where
      an upgrade may need it. */
  predicate Belongs(cfg: Config, seekable: bool, h: HeaderConfig) {
    && Buildable(h) && SizesFit(h)
    && h == HeaderConfigOf(cfg, h.bext, h.container, h.reserveDS64, h.dataSize)
    && 0 < BytesPerFrame(cfg) <= 0xffff
    && h.dataSize == cfg.totalFrames * BytesPerFrame(cfg)
    && (h.reserveDS64 ==> seekable && cfg.rf64 == Auto && h.container == RIFF)
  }

  class Encoder {
    var w: Sink?
    var cfg: Config
    var lay: Layout
    var cont: Container
    /** Audio bytes handed to the sink. */
    var written: int64
    /** A partial frame between calls to Write. */
    var carry: seq<byte>
    var headerWritten: bool
    var closed: bool
    /** The first failure, reported by every later call. */
    var err: Option<Error>

    /** The header the stream was opened with, the sink position it was put at, and every byte offered since. */
    ghost var head: HeaderConfig
    ghost var base: nat
    ghost var accepted: seq<byte>

    constructor ()
      ensures w == null && err.None? && !closed
    {
      w, cfg, lay, cont, written, carry := null, NO_CONFIG, NO_LAYOUT, RIFF, 0, [];
      headerWritten, closed, err := false, false, None;
      head, base, accepted := NO_HEADER, 0, [];
    }

    ghost function Width(): int
      reads `cfg
    {
      BytesPerFrame(cfg)
    }

    /** What the sink holds of this stream. */
    ghost function Stream(): seq<byte>
      reads `w, `base, w
    {
      if w != null && base <= w.pos <= |w.data| then w.data[base..w.pos] else []
    }

    /** Whether a stream that outgrows RIFF can be upgraded. */
    ghost predicate Rescuable()
      reads `w, `cfg, `lay
    {
      w != null && w.seekable && cfg.rf64 == Auto && lay.ds64At >= 0
    }

    /** The configuration, the emitted header and the recorded layout belong together. */
    ghost predicate Opened()
      reads `w, `cfg, `lay, `head
    {
      w != null && Belongs(cfg, w.seekable, head) && lay == LayoutOf(head)
    }

    /** RIFF is claimed only while it can describe what is written, and RF64 over a RIFF magic only where the upgrade
        has room. */
    ghost predicate Accounted()
      reads `w, `cfg, `lay, `head, `written, `cont
    {
      && w != null && 0 < Width() <= 0xffff
      && |lay.bytes| == lay.dataOffset && 44 <= lay.dataOffset <= 0x4_0000_0000 && !cont.BW64?
      && 0 <= written
      && (cont == head.container || (cont == RF64 && head.container == RIFF && Rescuable()))
      && (cont == RIFF ==> FitsFields(lay.dataOffset, written))
    }

    /** The sink holds the header and then the first `written` accepted bytes. */
    ghost predicate Placed()
      reads `w, `cfg, `lay, `head, `base, `written, `accepted, `cont, w
    {
      && Accounted()
      && base <= w.pos <= |w.data| && written <= |accepted|
      && Stream() == lay.bytes + accepted[..written]
    }

    /** The invariant of every unfailed, unclosed encoder. */
    ghost predicate Live()
      reads this, w
    {
      && Opened() && Placed() && err.None? && !closed
      && carry == accepted[written..] && |carry| < Width() && written % Width() == 0
    }

    /** Whether a call to Write or Close reaches the stream at all. */
    predicate Usable()
      reads this
    {
      err.None? && !closed && w != null
    }

    /** The header that describes the stream as it stands. */
    ghost function FinalHead(): HeaderConfig
      requires Width() > 0 && written >= 0
      reads `cfg, `head, `cont, `written
    {
      Final(head, cont, written, FrameCount(written, Width()))
    }

    // ---- capacity ----------------------------------------------------------------------------------------------

    /** Grants n more bytes if the stream can still be described with them, settling the container on the way. */
    method CheckCapacity(n: int64) returns (e: Option<Error>)
      requires Placed() && n >= 0
      modifies this`cont
      ensures Placed()
      ensures e == if Describable(old(cont), Rescuable(), lay.dataOffset, written + n) then None else Some(TooLarge)
      ensures cont == if e.None? then ContainerFor(old(cont), lay.dataOffset, written + n) else old(cont)
    {
      hide RiffSizeForLen, BytesPerFrame;
      var next := Wrap64(written + n);
      if next < 0 {
        return Some(TooLarge);
      }
      if cont.Sized64() || FitsRIFF(lay.dataOffset, next) {
        return None;
      }
      if cfg.rf64 == Auto && w.seekable && lay.ds64At >= 0 {
        cont := RF64;
        return None;
      }
      return Some(TooLarge);
    }

    /** Hands bytes to the sink and counts those it took. */
    method Deliver(b: seq<byte>) returns (ok: bool)
      requires w != null && base <= w.pos <= |w.data| && 0 <= written && written + |b| <= MAX_INT64
      modifies this`written, w
      ensures old(written) <= written <= old(written) + |b|
      ensures (ok ==> written == old(written) + |b|) && (w.reliable ==> ok)
      ensures base <= w.pos <= |w.data| && w.data[..base] == old(w.data[..base])
      ensures Stream() == old(Stream()) + b[..written - old(written)]
    {
      hide Overwrite;
      var n;
      n, ok := w.Write(b);
      OverwriteAppends(old(w.data), base, old(w.pos), b[..n]);
      written := written + n;
    }

    /** Hands whole frames to the sink, once the stream is known to stay describable, and accounts for them. */
    method Emit(b: seq<byte>) returns (e: Option<Error>)
      requires Placed() && err.None? && |b| <= MAX_INT64
      requires written + |b| <= |accepted| && b == accepted[written..written + |b|]
      modifies this`cont, this`written, this`err, w
      ensures Placed() && w.data[..base] == old(w.data[..base])
      ensures e.None? ==>
        && err.None? && written == old(written) + |b|
        && cont == ContainerFor(old(cont), lay.dataOffset, written)
      ensures e.Some? ==> err == e && e.value in {TooLarge, SinkFailure}
      ensures e == Some(TooLarge) <==> !Describable(old(cont), Rescuable(), lay.dataOffset, old(written) + |b|)
      ensures e == Some(TooLarge) ==>
        && written == old(written) && cont == old(cont)
        && w.data == old(w.data) && w.pos == old(w.pos)
      ensures w.reliable ==> e != Some(SinkFailure)
    {
      hide FitsFields, FitsRIFF, Stream, Rescuable, BytesPerFrame;
      e := CheckCapacity(|b|);
      if e.Some? {
        err := e;
        return;
      }
      ghost var goal := written + |b|;
      var ok := Deliver(b);
      JoinSplit(lay.bytes, accepted[..old(written)], b[..written - old(written)]);
      TakeMore(accepted, old(written), written, b);
      FitsOnTheWay(lay.dataOffset, written, goal);
      if !ok {
        e := Some(SinkFailure);
        err := e;
      }
    }

    // ---- Write -------------------------------------------------------------------------------------------------

    /** Writes without a carried frame: what is left over of p becomes the carry. */
    method WriteAligned(p: seq<byte>) returns (e: Option<Error>)
      requires Opened() && Placed() && err.None? && !closed && carry == [] && |p| <= MAX_INT64 && written % Width() == 0
      requires accepted[written..] == [] + p
      modifies this`cont, this`written, this`carry, this`err, w
      ensures Placed() && w.data[..base] == old(w.data[..base])
      ensures e.None? ==>
        && Live() && written == Whole(|accepted|, Width())
        && cont == ContainerFor(old(cont), lay.dataOffset, written)
      ensures e.Some? ==> err == e && e.value in {TooLarge, SinkFailure}
      ensures e == Some(TooLarge) <==> !Describable(old(cont), Rescuable(), lay.dataOffset, Whole(|accepted|, Width()))
      ensures w.reliable ==> e != Some(SinkFailure)
    {
      hide FitsFields, Describable, ContainerFor, Opened, BytesPerFrame, Rescuable, Stream;
      assert w != null && Width() > 0 && 0 <= written <= |accepted|;
      hide Placed;
      var width := BytesPerFrame(cfg);
      var whole := |p| - |p| % width;
      WholeShift(written, |p|, width);
      WholeIsMultiple(|p|, width);
      SplitTail(accepted, written, [], p, whole);
      if whole > 0 {
        e := Emit(p[..whole]);
        if e.Some? {
          return;
        }
      } else {
        SettledAlready();
        e := None;
      }
      carry := p[whole..];
      WholeIsMultiple(|accepted|, width);
      assert written == Whole(|accepted|, width) && written % Width() == 0;
    }

    /** What is already written is describable, and its container settled. */
    lemma SettledAlready()
      requires Placed()
      ensures Describable(cont, Rescuable(), lay.dataOffset, written)
      ensures ContainerFor(cont, lay.dataOffset, written) == cont
    {
      hide FitsFields;
    }

    /** Encodes interleaved samples, any chunk size accepted. A success extends the stream by every whole frame now
        complete and carries the rest; a refusal as too large happens exactly when the whole frames can no longer be
        described, and is latched. */
    method Write(p: seq<byte>) returns (n: nat, e: Option<Error>)
      requires Usable() ==> Live()
      requires |p| <= MAX_INT64
      modifies this`cont, this`written, this`carry, this`err, this`accepted, w
      ensures old(!Usable()) ==> n == 0 && e == Some(if old(err).Some? then old(err).value else EncoderClosed)
      ensures old(!Usable()) || p == [] ==>
        unchanged(this) && (w != null ==> unchanged(w))
      ensures old(Usable()) && p == [] ==> n == 0 && e.None? && Live()
      ensures old(Usable()) && p != [] ==>
        && Placed() && w.data[..base] == old(w.data[..base]) && accepted == old(accepted) + p
        && (e.None? ==> Live() && n == |p| && written == Whole(|accepted|, Width())
                        && cont == ContainerFor(old(cont), lay.dataOffset, written))
        && (e.Some? ==> err == e && n in {0, Width() - |old(carry)|} && e.value in {TooLarge, SinkFailure})
        && (e == Some(TooLarge) ==> !Describable(old(cont), Rescuable(), lay.dataOffset, Whole(|accepted|, Width())))
        && (e.None? ==> Describable(old(cont), Rescuable(), lay.dataOffset, Whole(|accepted|, Width())))
        && (w.reliable ==>
              e == if Describable(old(cont), Rescuable(), lay.dataOffset, Whole(|accepted|, Width())) then None
                else Some(TooLarge))
    {
      hide FitsFields, ContainerFor, Opened, BytesPerFrame, Rescuable, Stream, Describable;
      if err.Some? {
        return 0, err;
      }
      if closed || w == null {
        return 0, Some(EncoderClosed);
      }
      if |p| == 0 {
        return 0, None;
      }
      accepted := accepted + p;
      assert accepted[..written] == old(accepted)[..written] && accepted[written..] == carry + p;
      if |carry| == 0 {
        assert [] + p == p;
        e := WriteAligned(p);
        return if e.None? then |p| else 0, e;
      }
      n, e := CompleteCarry(p);
    }

    /** The part of Write that finds a carried frame: completes it first, then goes on aligned. */
    method CompleteCarry(p: seq<byte>) returns (n: nat, e: Option<Error>)
      requires Opened() && Placed() && err.None? && !closed && written % Width() == 0
      requires 0 < |carry| < Width() && p != [] && |p| <= MAX_INT64 && accepted[written..] == carry + p
      modifies this`cont, this`written, this`carry, this`err, w
      ensures Placed() && w.data[..base] == old(w.data[..base])
      ensures e.None? ==> Live() && n == |p| && written == Whole(|accepted|, Width())
                          && cont == ContainerFor(old(cont), lay.dataOffset, written)
      ensures e.Some? ==> err == e && n in {0, Width() - |old(carry)|} && e.value in {TooLarge, SinkFailure}
      ensures e == Some(TooLarge) ==> !Describable(old(cont), Rescuable(), lay.dataOffset, Whole(|accepted|, Width()))
      ensures e.None? ==> Describable(old(cont), Rescuable(), lay.dataOffset, Whole(|accepted|, Width()))
      ensures w.reliable ==>
        e == if Describable(old(cont), Rescuable(), lay.dataOffset, Whole(|accepted|, Width())) then None
          else Some(TooLarge)
    {
      hide FitsFields, ContainerFor, Opened, BytesPerFrame, Rescuable, Stream, Describable;
      var width := BytesPerFrame(cfg);
      var need := width - |carry|;
      WholeShift(written, |accepted| - written, width);
      if |p| < need {
        carry := carry + p;
        SettledAlready();
        SmallWhole(|carry|, width);
        return |p|, None;
      }
      WholeAbove(|accepted| - written, width);
      DescribableBelow(cont, Rescuable(), lay.dataOffset, written + width, Whole(|accepted|, width));
      SplitTail(accepted, written, carry, p, need);
      carry := carry + p[..need];
      e := EmitFrame();
      if e.Some? {
        return 0, e;
      }
      e := WriteAligned(p[need..]);
      return if e.None? then |p| else need, e;
    }

    /** Emits a carried frame that is complete. */
    method EmitFrame() returns (e: Option<Error>)
      requires Placed() && err.None? && written % Width() == 0
      requires |carry| == Width() && written + |carry| <= |accepted| && carry == accepted[written..written + |carry|]
      modifies this`cont, this`written, this`carry, this`err, w
      ensures Placed() && w.data[..base] == old(w.data[..base])
      ensures e.None? ==> err.None? && carry == [] && written == old(written) + Width() && written % Width() == 0
                          && cont == ContainerFor(old(cont), lay.dataOffset, written)
      ensures e.Some? ==> err == e && e.value in {TooLarge, SinkFailure}
      ensures e == Some(TooLarge) <==> !Describable(old(cont), Rescuable(), lay.dataOffset, old(written) + Width())
      ensures w.reliable ==> e != Some(SinkFailure)
    {
      hide FitsFields, ContainerFor, Opened, BytesPerFrame, Rescuable, Stream, Describable;
      WholeShift(written, Width(), Width());
      e := Emit(carry);
      if e.None? {
        carry := [];
      }
    }

    /** Where no upgrade is possible, under RF64Never or on an undeclared plain writer, the sink never holds more than
        the 32-bit fields can describe, whether or not a write was refused. */
    lemma NeverPastTheFields()
      requires Placed() && head.container == RIFF && !Rescuable()
      ensures cont == RIFF && |Stream()| == lay.dataOffset + written
      ensures written <= MAX_UINT32 && FileSize(lay.dataOffset, written) <= MAX_UINT32
    {
      FitsIsMonotone(lay.dataOffset, written, written);
    }

    // ---- Close -------------------------------------------------------------------------------------------------

    /** Whether the frames written contradict a declared count. */
    ghost predicate Mismatched()
      requires Width() > 0 && written >= 0
      reads `cfg, `written
    {
      cfg.totalFrames > 0 && FrameCount(written, Width()) != cfg.totalFrames
    }

    /** The header can be stamped with what was written, in the container the stream now has. */
    lemma Finalisable()
      requires Opened() && Accounted()
      ensures Buildable(FinalHead()) && SizesFit(FinalHead())
      ensures ShapeOf(head).box <==> lay.ds64At >= 0
      ensures cont != head.container ==> cont == RF64 && lay.ds64At >= 0 && cfg.rf64 == Auto
    {
      hide Head, BytesPerFrame, RiffSizeForLen, FrameWidth, Stream, Writable, Middle, FmtPayloadLen, FrameCount;
      FinalKeepsShape(head, cont, written, FrameCount(written, Width()));
    }

    /** Finalises the header in place. With the invariant in force only the sink can make it fail. */
    method Settle() returns (e: Option<Error>)
      requires Opened() && Accounted() && w.seekable
      modifies w
      ensures e.None? || e == Some(SinkFailure)
      ensures w.reliable ==> e.None?
      ensures Buildable(FinalHead()) && SizesFit(FinalHead())
      ensures e.None? ==> w.data == Overwrite(old(w.data), 0, Head(FinalHead())) && w.pos == old(w.pos)
    {
      hide Head, ShapeOf, HeaderLen, BytesPerFrame, FitsRIFF, RiffSizeForLen, FrameWidth, Stream, Overwrite, Writable,
        FrameCount;
      var frames := FrameCount(written, BytesPerFrame(cfg));
      Finalisable();
      if cont.Sized64() && lay.ds64At >= 0 && cfg.rf64 == Auto {
        e := UpgradeToRF64(w, lay, cont, written, frames, head);
      } else {
        e := PatchSizes(w, lay, cont, written, frames, head);
      }
    }

    /** Finalises the header at the front of the sink. A stream that starts there gets its header, and what follows
        stays; a stream that starts behind the stamped bytes keeps the header it was opened with. */
    method Restamp(ghost audio: seq<byte>) returns (e: Option<Error>)
      requires Opened() && Accounted() && w.seekable && base <= w.pos <= |w.data| && Stream() == lay.bytes + audio
      modifies w
      ensures e.None? || e == Some(SinkFailure)
      ensures w.reliable ==> e.None?
      ensures Buildable(FinalHead()) && SizesFit(FinalHead())
      ensures e.None? ==> w.data == Overwrite(old(w.data), 0, Head(FinalHead())) && w.pos == old(w.pos)
      ensures e.None? && base == 0 ==> Stream() == Head(FinalHead()) + audio
      ensures e.None? && base >= |lay.bytes| ==> Stream() == lay.bytes + audio
    {
      hide Head, BytesPerFrame, Overwrite, FitsFields, LayoutOf, Writable;
      e := Settle();
      HeadsAgree();
      if e.None? && base == 0 {
        Restamped(old(w.data), w.pos, lay.bytes, audio, Head(FinalHead()));
      }
      if e.None? && base >= |lay.bytes| {
        BehindTheStamp(old(w.data), base, w.pos, Head(FinalHead()));
      }
    }

    lemma HeadsAgree()
      requires Opened() && Accounted() && Buildable(FinalHead()) && SizesFit(FinalHead())
      ensures |Head(FinalHead())| == |lay.bytes|
    {
      hide Head, BytesPerFrame, RiffSizeForLen, FrameWidth, Writable, Middle, FmtPayloadLen, FrameCount;
      FinalKeepsShape(head, cont, written, FrameCount(written, Width()));
    }

    /** The sink holds this header, all accepted bytes and their padding. */
    ghost predicate Complete(h: HeaderConfig)
      reads `w, `base, `accepted, w
    {
      Buildable(h) && SizesFit(h) && Stream() == Head(h) + (accepted + PadOf(|accepted|))
    }

    /** Brings the audio to an even length. */
    method Pad() returns (ok: bool)
      requires Placed() && written == |accepted|
      modifies w
      ensures base <= w.pos <= |w.data| && w.data[..base] == old(w.data[..base]) && (w.reliable ==> ok)
      ensures ok ==> Stream() == lay.bytes + (accepted + PadOf(|accepted|))
      ensures ok ==>
        && w.data == Overwrite(old(w.data), old(w.pos), PadOf(|accepted|))
        && w.pos == old(w.pos) + |PadOf(|accepted|)|
    {
      hide Overwrite, FitsFields, BytesPerFrame;
      ghost var pad := PadOf(|accepted|);
      TakeMore(accepted, 0, written, accepted);
      JoinSplit(lay.bytes, accepted, pad);
      ok := true;
      if written % 2 != 0 {
        var n;
        n, ok := w.Write([0]);
        OverwriteAppends(old(w.data), base, old(w.pos), [0][..n]);
        assert ok ==> [0][..n] == pad;
      } else {
        OverwriteNothing(w.data, w.pos);
        assert accepted + pad == accepted;
      }
    }

    /** Pads, checks the declared frame count and finalises the header. */
    method Finish() returns (e: Option<Error>)
      requires Live() && carry == []
      modifies this`closed, this`err, w
      ensures closed && err == e
      ensures e.Some? ==> e.value in {FrameMismatch, SinkFailure}
      ensures (e.None? ==> !Mismatched()) && (e == Some(FrameMismatch) ==> Mismatched())
      ensures w.reliable ==> e == if Mismatched() then Some(FrameMismatch) else None
      ensures e.None? && !w.seekable ==> Complete(head)
      ensures e.None? && w.seekable && base == 0 ==> Complete(FinalHead())
      ensures e.None? && w.seekable && base >= lay.dataOffset ==> Complete(head)
      ensures e.None? || e == Some(FrameMismatch) ==> w.pos == old(w.pos) + |PadOf(|accepted|)|
      ensures e == Some(FrameMismatch) || (e.None? && !w.seekable) ==>
        w.data == Overwrite(old(w.data), old(w.pos), PadOf(|accepted|))
      ensures e.None? && w.seekable ==>
        && Buildable(FinalHead()) && SizesFit(FinalHead())
        && w.data == Overwrite(Overwrite(old(w.data), old(w.pos), PadOf(|accepted|)), 0, Head(FinalHead()))
    {
      hide FitsFields, BytesPerFrame, FrameCount, Overwrite, Head, Stream;
      closed := true;
      var ok := Pad();
      if !ok {
        e := Some(SinkFailure);
        err := e;
        return;
      }
      if cfg.totalFrames > 0 && FrameCount(written, BytesPerFrame(cfg)) != cfg.totalFrames {
        e := Some(FrameMismatch);
        err := e;
        return;
      }
      if !w.seekable {
        return None;
      }
      e := Restamp(accepted + PadOf(|accepted|));
      if e.Some? {
        err := e;
      }
    }

    /** Finishes the stream, once: a later call changes nothing and reports the same result. An outstanding partial
        frame is an error, and so is a frame count other than the one declared, which leaves the header as it was;
        otherwise only the sink can make the header finalisation fail. */
    method Close() returns (e: Option<Error>)
      requires Usable() ==> Live()
      modifies this`closed, this`err, w
      ensures old(closed) || w == null ==>
        e == (if old(closed) then err else Some(EncoderClosed)) && unchanged(this) && (w != null ==> unchanged(w))
      ensures old(!closed && w != null) ==> closed && err == e
      ensures old(!closed && w != null && err.Some?) ==> err == old(err) && unchanged(w)
      ensures old(Usable() && carry != []) ==> e == Some(TrailingBytes) && unchanged(w)
      ensures old(Usable() && carry == []) ==>
        && (e.Some? ==> e.value in {FrameMismatch, SinkFailure})
        && (e.None? ==> !Mismatched()) && (e == Some(FrameMismatch) ==> Mismatched())
        && (w.reliable ==> e == if Mismatched() then Some(FrameMismatch) else None)
        && (e.None? && !w.seekable ==> Complete(head))
        && (e.None? && w.seekable && base == 0 ==> Complete(FinalHead()))
        && (e.None? && w.seekable && base >= lay.dataOffset ==> Complete(head))
        && (e.None? || e == Some(FrameMismatch) ==> w.pos == old(w.pos) + |PadOf(|accepted|)|)
        && (e == Some(FrameMismatch) || (e.None? && !w.seekable) ==>
              w.data == Overwrite(old(w.data), old(w.pos), PadOf(|accepted|)))
        && (e.None? && w.seekable ==>
              && Buildable(FinalHead()) && SizesFit(FinalHead())
              && w.data == Overwrite(Overwrite(old(w.data), old(w.pos), PadOf(|accepted|)), 0, Head(FinalHead())))
    {
      hide FitsFields, BytesPerFrame, FrameCount, Head, Stream, Opened, Complete, Mismatched;
      if closed {
        return err;
      }
      if w == null {
        return Some(EncoderClosed);
      }
      if err.Some? || |carry| != 0 {
        closed := true;
        if err.None? {
          err := Some(TrailingBytes);
        }
        return err;
      }
      e := Finish();
    }

    // ---- Reset -------------------------------------------------------------------------------------------------

    /** Forgets the stream; every later call answers with e. */
    method Invalidate(e: Error)
      modifies this
      ensures w == null && closed && err == Some(e) && carry == []
    {
      w, cfg, lay, cont, written, carry := null, NO_CONFIG, NO_LAYOUT, RIFF, 0, [];
      headerWritten, closed, err := false, true, Some(e);
    }

    /** Starts over on sink, where the opening header now stands. After a rejection the sink is as it was and the
        encoder refuses everything. */
    method Reset(sink: Sink?, config: Config, framesKnown: bool, cal: Calendar) returns (e: Option<Error>)
      requires config.totalFrames > 0 ==> framesKnown
      modifies this, sink
      ensures sink == null ==> e == Some(NilWriter)
      ensures sink != null && Opening(config, sink.seekable, framesKnown, cal).Err? ==>
        e == Some(Opening(config, sink.seekable, framesKnown, cal).error) && unchanged(sink)
      ensures sink == null || Opening(config, sink.seekable, framesKnown, cal).Err? ==> w == null && closed && err == e
      ensures sink != null && Opening(config, sink.seekable, framesKnown, cal).Ok? ==>
        && w == sink && cfg == config && head == Opening(config, sink.seekable, framesKnown, cal).value
        && base == old(sink.pos) && accepted == [] && err == e && !closed
        && (e.Some? ==> e.value == SinkFailure) && (sink.reliable ==> e.None?)
        && (e.None? ==> Live() && cont == head.container && sink.data[..base] == Front(old(sink.data), base))
    {
      hide Opening, BuildRefusal, Head, LayoutOf, Belongs, FitsFields, Stream;
      if sink == null {
        Invalidate(NilWriter);
        return err;
      }
      var plan := Choose(config, sink.seekable, framesKnown, cal);
      if plan.Err? {
        Invalidate(plan.error);
        return err;
      }
      var built := BuildHeader(plan.value);
      if built.Err? {
        Invalidate(built.error);
        return err;
      }
      OpeningIsSound(config, sink.seekable, framesKnown, cal);
      e := Bind(sink, config, plan.value.container, built.value, plan.value);
    }

    /** Takes over a sink and emits the header. */
    method Bind(sink: Sink, config: Config, container: Container, layout: Layout, ghost h: HeaderConfig)
      returns (e: Option<Error>)
      requires Belongs(config, sink.seekable, h) && layout == LayoutOf(h) && container == h.container
      modifies this, sink
      ensures w == sink && cfg == config && head == h && base == old(sink.pos) && accepted == [] && err == e && !closed
      ensures (e.Some? ==> e.value == SinkFailure) && (sink.reliable ==> e.None?)
      ensures e.None? ==> Live() && cont == head.container && sink.data[..base] == Front(old(sink.data), base)
    {
      hide Belongs, BytesPerFrame, LayoutOf, Placed, Accounted, Opened, Head;
      WidthIsPositive(config, sink.seekable, h);
      Clear(sink, config, container, layout, h);
      FreshStateIsAccounted();
      var ok := PutHeader();
      headerWritten := ok;
      if !ok {
        err := Some(SinkFailure);
      }
      return err;
    }

    /** The state of an encoder that has taken over a sink and written nothing yet. */
    method Clear(sink: Sink, config: Config, container: Container, layout: Layout, ghost h: HeaderConfig)
      modifies this
      ensures w == sink && cfg == config && lay == layout && cont == container && written == 0 && carry == []
      ensures !closed && err.None? && head == h && base == sink.pos && accepted == []
    {
      w, cfg, lay, cont, written, carry := sink, config, layout, container, 0, [];
      headerWritten, closed, err := false, false, None;
      head, base, accepted := h, sink.pos, [];
    }

    lemma FreshStateIsAccounted()
      requires w != null && Belongs(cfg, w.seekable, head) && lay == LayoutOf(head)
      requires cont == head.container && written == 0
      ensures Opened() && Accounted()
    {
      hide Belongs, FitsFields, BytesPerFrame, LayoutOf, HeaderLen, Rescuable;
      BelongingBounds(cfg, w.seekable, head);
    }

    /** Puts the header down at the sink's position. */
    method PutHeader() returns (ok: bool)
      requires Accounted() && base == w.pos && written == 0 && accepted == []
      modifies w
      ensures (ok ==> Placed() && w.data[..base] == Front(old(w.data), base)) && (w.reliable ==> ok)
    {
      hide FitsFields, BytesPerFrame, Overwrite;
      var n;
      n, ok := w.Write(lay.bytes);
      HeaderPlaced(old(w.data), base, lay.bytes, n);
    }
  }

  /** The header an encoder opens a stream with, or the reason it refuses to. */
  function Opening(cfg: Config, seekable: bool, framesKnown: bool, cal: Calendar): Result<HeaderConfig> {
    match Rejection(cfg, cal)
    case Some(e) => Err(e)
    case None =>
      AcceptedFrame(cfg, cal);
      var bext := if cfg.bext.Some? then Body(cfg.bext.value) else [];
      match OpeningHeader(cfg, bext, seekable, framesKnown)
      case Err(e) => Err(e)
      case Ok(h) => match BuildRefusal(h) case Some(e) => Err(e) case None => Ok(h)
  }

  /** Validation, serialisation of the metadata and the choice of container, in the order an encoder makes them. */
  method Choose(cfg: Config, seekable: bool, framesKnown: bool, cal: Calendar) returns (r: Result<HeaderConfig>)
    ensures Opening(cfg, seekable, framesKnown, cal) ==
      match r
      case Err(e) => Err(e)
      case Ok(h) => match BuildRefusal(h) { case Some(e) => Err(e) case None => Ok(h) }
    ensures r.Ok? ==> r.value.format.channels <= 0xffff
  {
    hide BuildRefusal, Body;
    var rejection := Vet(cfg, cal);
    if rejection.Some? {
      return Err(rejection.value);
    }
    AcceptedFrame(cfg, cal);
    var bext: seq<byte> := [];
    if cfg.bext.Some? {
      bext := Serialize(cfg.bext.value);
    }
    return OpeningHeader(cfg, bext, seekable, framesKnown);
  }

  /** Exactly which accepted configurations RF64Auto opens a stream for. */
  lemma AutoOpensExactly(cfg: Config, seekable: bool, framesKnown: bool, cal: Calendar)
    requires Rejection(cfg, cal).None? && cfg.rf64 == Auto
    ensures BytesPerFrame(cfg) > 0
    ensures
      var bext := if cfg.bext.Some? then Body(cfg.bext.value) else [];
      var bare := HeaderLen(HeaderConfigOf(cfg, bext, RIFF, seekable, 0));
      && bare >= 8
      && (Opening(cfg, seekable, framesKnown, cal).Ok? <==>
            && Writable(FormatOf(cfg)) && |bext| <= MAX_UINT32
            && (if framesKnown then cfg.totalFrames * BytesPerFrame(cfg) <= MAX_INT64
              else FileSize(bare, 0) <= MAX_UINT32))
  {
    hide Body, BuildRefusal, FmtPayloadLen, Rejection, BytesPerFrame, FileSize, Writable;
    AcceptedFrame(cfg, cal);
    AutoNeverFailsOnSize(cfg, cal, if cfg.bext.Some? then Body(cfg.bext.value) else [], seekable, framesKnown);
  }

  /** A descriptor whose body is as long as a chunk can be. */
  function HugeBext(): (b: Bext)
    ensures |Body(b)| == MAX_UINT32
  {
    Bext([], [], [], [], [], 0, 0, NO_UMID, NO_LOUDNESS, seq(MAX_UINT32 - FIXED_SIZE, _ => 0x20))
  }

  /** The one way RF64Auto fails on a size field, and how a declared length avoids it: the descriptor passes validation,
      the header then outgrows the RIFF size field, and nothing but a length makes the probe choose RF64. */
  lemma HugeBextNeedsALength(cal: Calendar)
    ensures
      var cfg := Config(48000, 16, 2, PCM, false, 0, Auto, 0, Some(HugeBext()), []);
      && Rejection(cfg, cal).None?
      && Opening(cfg, true, false, cal) == Err(TooLarge)
      && Opening(cfg.(totalFrames := 1), true, true, cal).Ok?
  {
    hide Body, RiffSizeForLen;
    var b := HugeBext();
    assert Text(b.codingHistory) by {
      forall c | c in b.codingHistory ensures TextByte(c) {
        var i :| 0 <= i < |b.codingHistory| && b.codingHistory[i] == c;
      }
    }
    var cfg := Config(48000, 16, 2, PCM, false, 0, Auto, 0, Some(b), []);
    assert ValidBext(b, cal);
    AutoNeverFailsOnSize(cfg, cal, Body(b), true, false);
    AutoNeverFailsOnSize(cfg.(totalFrames := 1), cal, Body(b), true, true);
  }

  /** What every accepted opening header guarantees. */
  lemma OpeningIsSound(cfg: Config, seekable: bool, framesKnown: bool, cal: Calendar)
    requires Opening(cfg, seekable, framesKnown, cal).Ok? && (cfg.totalFrames > 0 ==> framesKnown)
    ensures var h := Opening(cfg, seekable, framesKnown, cal).value;
      && Belongs(cfg, seekable, h) && BuildRefusal(h).None?
      && (h.reserveDS64 <==> seekable && cfg.rf64 == Auto && !framesKnown)
  {
    hide FitsPlainRIFF, FitsRIFF, HeaderLen, ValidBext, FrameWidth, ByteRate;
    AcceptedFrame(cfg, cal);
  }

  lemma WidthIsPositive(cfg: Config, seekable: bool, h: HeaderConfig)
    requires Belongs(cfg, seekable, h)
    ensures BytesPerFrame(cfg) > 0
  {
  }

  lemma BelongingBounds(cfg: Config, seekable: bool, h: HeaderConfig)
    requires Belongs(cfg, seekable, h)
    ensures 44 <= HeaderLen(h) <= 0x4_0000_0000 && 0 < BytesPerFrame(cfg) <= 0xffff && !h.container.BW64?
    ensures LayoutOf(h).dataOffset == HeaderLen(h) == |LayoutOf(h).bytes|
    ensures h.container == RIFF ==> FitsFields(HeaderLen(h), 0)
  {
    hide RiffSizeForLen, ByteRate, BytesPerFrame, FrameWidth, Head;
    HeaderLenBounds(h);
    if h.container == RIFF {
      FitsIsMonotone(HeaderLen(h), 0, h.dataSize);
    }
  }

  lemma HeaderPlaced(data: seq<byte>, pos: nat, h: seq<byte>, n: nat)
    requires n <= |h| && h != []
    ensures
      var r := Overwrite(data, pos, h[..n]);
      n == |h| ==> pos + n <= |r| && r[pos..pos + n] == h + [] && r[..pos] == Front(data, pos)
  {
  }

  lemma TakeMore(s: seq<byte>, i: nat, j: nat, b: seq<byte>)
    requires i <= j <= i + |b| <= |s| && b == s[i..i + |b|]
    ensures s[..i] + b[..j - i] == s[..j]
  {
  }

  lemma FitsOnTheWay(headerLen: int, small: nat, large: nat)
    requires 44 <= headerLen <= 0x4_0000_0000 && small <= large
    ensures FitsFields(headerLen, large) ==> FitsFields(headerLen, small)
  {
    DescribableBelow(RIFF, false, headerLen, small, large);
  }

  lemma SplitTail(s: seq<byte>, i: nat, c: seq<byte>, p: seq<byte>, k: nat)
    requires i <= |s| && s[i..] == c + p && k <= |p|
    ensures i + |c| + |p| == |s| && s[i..i + |c| + k] == c + p[..k] && s[i + |c| + k..] == p[k..]
    ensures [] + p[..k] == p[..k]
  {
    assert s[i..i + |c| + k] == s[i..][..|c| + k];
    assert s[i + |c| + k..] == s[i..][|c| + k..];
  }

  lemma JoinSplit(a: seq<byte>, b: seq<byte>, c: seq<byte>)
    ensures a + b + c == a + (b + c)
  {
  }

  lemma HeaderLenBounds(h: HeaderConfig)
    requires Buildable(h)
    ensures 44 <= HeaderLen(h) <= 0x4_0000_0000
  {
    hide ByteRate;
  }
}
