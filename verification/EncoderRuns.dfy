/** Whole runs of the encoder: any split of the audio into writes, from Reset to Close. */
module EncoderRuns {
  import opened Wire
  import opened Types
  import opened Chunks
  import opened Arith
  import opened Format
  import opened Sinks
  import opened HeaderWriter
  import opened BextCodec
  import opened EncoderConfig
  import opened Encoding

  /** The audio a list of writes adds up to. */
  function Joined(chunks: seq<seq<byte>>): seq<byte> {
    if chunks == [] then [] else Joined(chunks[..|chunks| - 1]) + chunks[|chunks| - 1]
  }

  lemma JoinedGrows(chunks: seq<seq<byte>>, i: nat)
    requires i < |chunks|
    ensures Joined(chunks[..i + 1]) == Joined(chunks[..i]) + chunks[i]
  {
    assert chunks[..i + 1][..i] == chunks[..i];
  }

  lemma JoinedNothing(chunks: seq<seq<byte>>)
    ensures Joined(chunks[..0]) == []
  {
  }

  lemma {:induction false} JoinedIsLongest(chunks: seq<seq<byte>>, i: nat)
    requires i <= |chunks|
    ensures |Joined(chunks[..i])| <= |Joined(chunks)|
    decreases |chunks| - i
  {
    if i == |chunks| {
      assert chunks[..i] == chunks;
    } else {
      JoinedGrows(chunks, i);
      JoinedIsLongest(chunks, i + 1);
    }
  }

  /** Whether a stream opened undeclared can turn from RIFF into RF64 at Close. */
  predicate Upgradable(cfg: Config, seekable: bool, framesKnown: bool) {
    seekable && cfg.rf64 == Auto && !framesKnown
  }

  /** Whether n bytes of audio can be finished behind the opening header h. */
  predicate Finishable(cfg: Config, h: HeaderConfig, seekable: bool, framesKnown: bool, n: nat)
    requires BytesPerFrame(cfg) > 0
  {
    && n % BytesPerFrame(cfg) == 0
    && (cfg.totalFrames > 0 ==> n == cfg.totalFrames * BytesPerFrame(cfg))
    && Describable(h.container, Upgradable(cfg, seekable, framesKnown), HeaderLen(h), n)
  }

  /** What a run of n bytes of audio ends with on a sink that does not fail: too much to describe is refused first,
      then a partial frame, then a frame count other than the one declared. */
  function Verdict(cfg: Config, h: HeaderConfig, seekable: bool, framesKnown: bool, n: nat): Option<Error>
    requires BytesPerFrame(cfg) > 0
  {
    var w := BytesPerFrame(cfg);
    if !Describable(h.container, Upgradable(cfg, seekable, framesKnown), HeaderLen(h), Whole(n, w)) then Some(TooLarge)
    else if n % w != 0 then Some(TrailingBytes)
    else if cfg.totalFrames > 0 && n != cfg.totalFrames * w then Some(FrameMismatch)
    else None
  }

  lemma VerdictOnFinishable(cfg: Config, h: HeaderConfig, seekable: bool, framesKnown: bool, n: nat)
    requires BytesPerFrame(cfg) > 0
    ensures Verdict(cfg, h, seekable, framesKnown, n).None? <==> Finishable(cfg, h, seekable, framesKnown, n)
  {
    hide BytesPerFrame, HeaderLen, Describable;
  }

  /** The header a finished stream of n bytes carries: on a seekable sink the one a writer who knew the container, the
      size and the frame count from the start would have emitted; otherwise the opening header. */
  function Finished(cfg: Config, h: HeaderConfig, seekable: bool, n: int64): HeaderConfig
    requires BytesPerFrame(cfg) > 0 && n >= 0
  {
    if seekable then Final(h, ContainerFor(h.container, HeaderLen(h), n), n, FrameCount(n, BytesPerFrame(cfg))) else h
  }

  /** The container is the one the opening container settles on for what was accepted, and that is describable. */
  ghost predicate Kept(enc: Encoder)
    reads enc
  {
    && CanHold(enc, |enc.accepted|)
    && enc.cont == ContainerFor(enc.head.container, enc.lay.dataOffset, Whole(|enc.accepted|, enc.Width()))
  }

  /** Whether the whole frames among n bytes can be described behind the opening header. */
  ghost predicate CanHold(enc: Encoder, n: nat)
    reads enc`w, enc`cfg, enc`lay, enc`head
  {
    enc.Width() > 0 && Describable(enc.head.container, enc.Rescuable(), enc.lay.dataOffset, Whole(n, enc.Width()))
  }

  lemma SettledStep(c: Container, rescuable: bool, headerLen: int, w: nat, a: nat, b: nat)
    requires 44 <= headerLen <= 0x1000_0000_0000_0000 && !c.BW64? && w > 0 && a <= b
    requires Describable(c, rescuable, headerLen, Whole(a, w))
    ensures var d := ContainerFor(c, headerLen, Whole(a, w));
      && ContainerFor(d, headerLen, Whole(b, w)) == ContainerFor(c, headerLen, Whole(b, w))
      && (Describable(d, rescuable, headerLen, Whole(b, w)) <==> Describable(c, rescuable, headerLen, Whole(b, w)))
  {
    hide FitsFields, Whole;
    WholeMonotone(a, b, w);
    DescribableBelow(c, rescuable, headerLen, Whole(a, w), Whole(b, w));
  }

  /** What can be held can be held on the way there. */
  lemma HeldOnTheWay(enc: Encoder, a: nat, b: nat)
    requires enc.Live() && a <= b && CanHold(enc, b)
    ensures CanHold(enc, a)
  {
    hide FitsFields, Whole, BytesPerFrame;
    WholeMonotone(a, b, enc.Width());
    DescribableBelow(enc.head.container, enc.Rescuable(), enc.lay.dataOffset, Whole(a, enc.Width()),
      Whole(b, enc.Width()));
  }

  /** The stream begins at the end of front, which is what the sink holds before it. */
  ghost predicate StandsBehind(enc: Encoder, sink: Sink, front: seq<byte>)
    reads enc`base, sink
  {
    enc.base == |front| <= |sink.data| && sink.data[..|front|] == front
  }

  method WriteNext(enc: Encoder, sink: Sink, p: seq<byte>, ghost front: seq<byte>) returns (e: Option<Error>)
    requires enc.w == sink && enc.Live() && Kept(enc) && |p| <= MAX_INT64 && StandsBehind(enc, sink, front)
    modifies enc`cont, enc`written, enc`carry, enc`err, enc`accepted, sink
    ensures e.None? ==>
      && enc.Live() && Kept(enc) && enc.accepted == old(enc.accepted) + p
      && StandsBehind(enc, sink, front)
    ensures sink.reliable ==> e == if CanHold(enc, |old(enc.accepted)| + |p|) then None else Some(TooLarge)
  {
    hide FitsFields, Whole, Encoder.Opened, Encoder.Stream, Encoder.Rescuable, BytesPerFrame, Describable, ContainerFor;
    SettledStep(enc.head.container, enc.Rescuable(), enc.lay.dataOffset, enc.Width(), |enc.accepted|,
      |enc.accepted| + |p|);
    assert p == [] ==> enc.accepted + p == enc.accepted;
    hide Encoder.Placed;
    var n;
    n, e := enc.Write(p);
  }

  /** Writes the chunks in order until one is refused. */
  method WriteAll(enc: Encoder, sink: Sink, chunks: seq<seq<byte>>, ghost front: seq<byte>) returns (e: Option<Error>)
    requires enc.w == sink && enc.Live() && enc.accepted == [] && Kept(enc) && StandsBehind(enc, sink, front)
    requires forall c <- chunks :: |c| <= MAX_INT64
    modifies enc`cont, enc`written, enc`carry, enc`err, enc`accepted, sink
    ensures e.None? ==> enc.Live() && Kept(enc) && enc.accepted == Joined(chunks) && StandsBehind(enc, sink, front)
    ensures sink.reliable ==> e == if CanHold(enc, |Joined(chunks)|) then None else Some(TooLarge)
  {
    hide Encoder.Live, CanHold, Joined, StandsBehind;
    JoinedNothing(chunks);
    e := None;
    var i := 0;
    while i < |chunks|
      invariant 0 <= i <= |chunks| && e.None?
      invariant enc.Live() && Kept(enc) && enc.accepted == Joined(chunks[..i]) && StandsBehind(enc, sink, front)
    {
      JoinedGrows(chunks, i);
      JoinedIsLongest(chunks, i + 1);
      if CanHold(enc, |Joined(chunks)|) {
        HeldOnTheWay(enc, |Joined(chunks[..i + 1])|, |Joined(chunks)|);
      }
      e := WriteNext(enc, sink, chunks[i], front);
      if e.Some? {
        return;
      }
      i := i + 1;
    }
    assert chunks[..i] == chunks;
  }

  // ---- from binding to closing ---------------------------------------------------------------------------------

  lemma FreshEncoderIsKept(enc: Encoder, sink: Sink, framesKnown: bool, cal: Calendar)
    requires enc.Live() && enc.accepted == [] && enc.cont == enc.head.container && enc.w == sink
    requires enc.cfg.totalFrames > 0 ==> framesKnown
    requires Opening(enc.cfg, sink.seekable, framesKnown, cal) == Ok(enc.head)
    ensures Kept(enc) && BoundTo(enc, sink, framesKnown, cal)
  {
    hide FitsFields, Opening, BytesPerFrame, Belongs, LayoutOf, Whole, Encoder.Rescuable, Encoder.Stream;
    SmallWhole(0, enc.Width());
  }

  /** The encoder enc was bound to sink by an accepted opening. */
  ghost predicate BoundTo(enc: Encoder, sink: Sink, framesKnown: bool, cal: Calendar)
    reads enc`w, enc`cfg, enc`lay, enc`head
  {
    && enc.w == sink && enc.Opened() && (enc.cfg.totalFrames > 0 ==> framesKnown)
    && Opening(enc.cfg, sink.seekable, framesKnown, cal) == Ok(enc.head)
  }

  /** What the recorded layout says of the opening header. */
  lemma LayoutMatchesHeader(enc: Encoder, sink: Sink, framesKnown: bool, cal: Calendar)
    requires BoundTo(enc, sink, framesKnown, cal)
    ensures BytesPerFrame(enc.cfg) > 0 && enc.lay.dataOffset == HeaderLen(enc.head)
    ensures enc.head.container == RIFF ==> (enc.Rescuable() <==> Upgradable(enc.cfg, sink.seekable, framesKnown))
  {
    hide Opening, Head, HeaderLen, BytesPerFrame, FrameWidth, SizesFit, Buildable, BuildRefusal;
    OpeningIsSound(enc.cfg, sink.seekable, framesKnown, cal);
  }

  lemma VerdictByCapacity(enc: Encoder, sink: Sink, framesKnown: bool, cal: Calendar, n: nat)
    requires BoundTo(enc, sink, framesKnown, cal)
    ensures BytesPerFrame(enc.cfg) > 0
    ensures
      var w := BytesPerFrame(enc.cfg);
      Verdict(enc.cfg, enc.head, sink.seekable, framesKnown, n) ==
        if !CanHold(enc, n) then Some(TooLarge)
        else if n % w != 0 then Some(TrailingBytes)
        else if enc.cfg.totalFrames > 0 && n != enc.cfg.totalFrames * w then Some(FrameMismatch)
        else None
  {
    hide Encoder.Opened, Opening, HeaderLen, BytesPerFrame, FitsFields, Encoder.Rescuable, Upgradable;
    LayoutMatchesHeader(enc, sink, framesKnown, cal);
    BoundNeverBW64(enc, sink, framesKnown, cal);
  }

  lemma BoundNeverBW64(enc: Encoder, sink: Sink, framesKnown: bool, cal: Calendar)
    requires BoundTo(enc, sink, framesKnown, cal)
    ensures !enc.head.container.BW64?
  {
    hide Opening, LayoutOf, SizesFit, BytesPerFrame, FrameWidth;
  }

  /** A stream can be closed cleanly exactly when it is finishable, and the header it then carries is determined. */
  lemma VerdictAtClose(enc: Encoder, sink: Sink, framesKnown: bool, cal: Calendar)
    requires BoundTo(enc, sink, framesKnown, cal) && enc.Live() && Kept(enc)
    ensures BytesPerFrame(enc.cfg) > 0 && enc.written >= 0
    ensures Verdict(enc.cfg, enc.head, sink.seekable, framesKnown, |enc.accepted|) ==
      if enc.carry != [] then Some(TrailingBytes) else if enc.Mismatched() then Some(FrameMismatch) else None
    ensures enc.carry == [] ==>
      && |enc.accepted| <= MAX_INT64
      && Finished(enc.cfg, enc.head, sink.seekable, |enc.accepted|)
        == if sink.seekable then enc.FinalHead() else enc.head
  {
    hide Encoder.Opened, Opening, HeaderLen, BytesPerFrame, FitsFields, Encoder.Rescuable, Upgradable, Verdict, BoundTo,
      CanHold;
    var n, w := |enc.accepted|, enc.Width();
    LayoutMatchesHeader(enc, sink, framesKnown, cal);
    VerdictByCapacity(enc, sink, framesKnown, cal, n);
    if enc.carry == [] {
      assert enc.written == n;
      WholeOfMultiple(n, w);
      ProductDiv(enc.cfg.totalFrames, w);
      DivTimes(n, w);
    } else {
      CarryIsPartial(enc.written, n, w);
    }
  }

  lemma CarryIsPartial(written: nat, n: nat, w: nat)
    requires w > 0 && written % w == 0 && written < n < written + w
    ensures n % w != 0
  {
    WholeShift(written, n - written, w);
  }

  method CloseSession(enc: Encoder, sink: Sink, framesKnown: bool, cal: Calendar,
                      ghost cfg: Config, ghost h: HeaderConfig, ghost audio: seq<byte>, ghost front: seq<byte>)
    returns (e: Option<Error>)
    requires BytesPerFrame(cfg) > 0 && enc.cfg == cfg && enc.head == h && enc.accepted == audio
    requires BoundTo(enc, sink, framesKnown, cal) && enc.Live() && Kept(enc) && StandsBehind(enc, sink, front)
    modifies enc`closed, enc`err, sink
    ensures e.None? ==> Delivered(cfg, h, sink, front, framesKnown, audio)
    ensures sink.reliable ==> e == Verdict(cfg, h, sink.seekable, framesKnown, |audio|)
  {
    hide Head, BytesPerFrame, Finished, Finishable, Verdict, LayoutOf, FitsFields, Encoder.FinalHead,
      Encoder.Mismatched, Belongs, Opening, CanHold, Buildable, SizesFit, Encoder.Accounted,
      ContainerFor, Outcome, Overwrite;
    VerdictAtClose(enc, sink, framesKnown, cal);
    VerdictOnFinishable(cfg, h, sink.seekable, framesKnown, |audio|);
    if enc.carry == [] {
      SinkBeforeClose(enc, sink, front);
      ghost var g := if sink.seekable then Head(enc.FinalHead()) else Head(h);
      ClosedSinkHolds(sink.data, sink.pos, front, Head(h), audio, PadOf(|audio|), g, sink.seekable);
    }
    e := enc.Close();
  }

  /** The sink as it stands when a stream without a carried frame is about to be closed. */
  lemma SinkBeforeClose(enc: Encoder, sink: Sink, front: seq<byte>)
    requires enc.w == sink && enc.Live() && enc.carry == [] && StandsBehind(enc, sink, front)
    ensures enc.Width() > 0 && enc.written >= 0 && Buildable(enc.head) && SizesFit(enc.head)
    ensures Buildable(enc.FinalHead()) && SizesFit(enc.FinalHead()) && |Head(enc.FinalHead())| == |Head(enc.head)|
    ensures |front| <= sink.pos <= |sink.data| && sink.data[|front|..sink.pos] == Head(enc.head) + enc.accepted
  {
    hide Head, BytesPerFrame, HeaderLen, ShapeOf, FitsFields, Writable;
    enc.Finalisable();
    enc.HeadsAgree();
    assert enc.accepted[..enc.written] == enc.accepted;
  }

  /** What a sink holds up to its position when a stream opened behind front has been closed: the final header lands at
      the very front of a seekable sink, wherever the stream itself begins. */
  function Outcome(front: seq<byte>, opening: seq<byte>, rest: seq<byte>, seekable: bool, final: seq<byte>): seq<byte> {
    if seekable then Overwrite(front + (opening + rest), 0, final) else front + (opening + rest)
  }

  lemma ClosedSinkHolds(data: seq<byte>, pos: nat, front: seq<byte>, opening: seq<byte>, audio: seq<byte>,
                        pad: seq<byte>, g: seq<byte>, seekable: bool)
    requires |front| <= pos <= |data| && data[..|front|] == front
    requires data[|front|..pos] == opening + audio && |g| == |opening|
    ensures
      var padded := Overwrite(data, pos, pad);
      var closed := if seekable then Overwrite(padded, 0, g) else padded;
      pos + |pad| <= |closed| && closed[..pos + |pad|] == Outcome(front, opening, audio + pad, seekable, g)
  {
    hide Overwrite;
    var padded, whole := Overwrite(data, pos, pad), front + (opening + (audio + pad));
    OverwriteAppends(data, 0, pos, pad);
    assert padded[0..pos + |pad|] == data[0..pos] + pad;
    assert data[0..pos] == front + (opening + audio);
    assert data[0..pos] + pad == whole;
    OverwriteWithin(padded, pos + |pad|, g);
  }

  lemma OverwriteWithin(data: seq<byte>, n: nat, g: seq<byte>)
    requires |g| <= n <= |data|
    ensures Overwrite(data, 0, g)[..n] == Overwrite(data[..n], 0, g) && |Overwrite(data, 0, g)| == |data|
  {
  }

  /** Where the closed stream can be read. At the front of a seekable sink, and anywhere on a plain one, it carries its
      final header. Begun behind the stamped bytes it keeps its opening header, so it carries the final one exactly when
      the two are equal. Begun within them, its first bytes are the tail of the stamp. */
  lemma WhereTheStreamSurvives(front: seq<byte>, opening: seq<byte>, rest: seq<byte>, seekable: bool, final: seq<byte>)
    requires |final| == |opening| && (!seekable ==> final == opening)
    ensures
      var n, out := |front|, Outcome(front, opening, rest, seekable, final);
      && |out| == n + |opening| + |rest|
      && (!seekable || n == 0 ==> out[n..] == final + rest)
      && (seekable && n >= |final| ==> out[n..] == opening + rest && (out[n..] == final + rest <==> final == opening))
      && (seekable && n < |final| ==> out[n..] == final[n..] + (opening + rest)[|final| - n..])
  {
    var n, whole := |front|, front + (opening + rest);
    assert whole[n..] == opening + rest;
    if seekable && n >= |final| {
      assert Overwrite(whole, 0, final)[n..] == opening + rest;
      if opening + rest == final + rest {
        assert (opening + rest)[..|final|] == opening && (final + rest)[..|final|] == final;
      }
    } else if seekable {
      assert final + whole[|final|..] == Overwrite(whole, 0, final);
      assert whole[|final|..] == (opening + rest)[|final| - n..];
      if n == 0 {
        assert (opening + rest)[|final|..] == rest;
      }
    }
  }

  /** The sink holds what a closed stream leaves in it, up to its position. */
  ghost predicate Delivered(cfg: Config, h: HeaderConfig, sink: Sink, front: seq<byte>, framesKnown: bool,
                            audio: seq<byte>)
    requires BytesPerFrame(cfg) > 0
    reads sink
  {
    && |audio| <= MAX_INT64 && Finishable(cfg, h, sink.seekable, framesKnown, |audio|)
    && Buildable(h) && SizesFit(h)
    && var final := Finished(cfg, h, sink.seekable, |audio|);
       && Buildable(final) && SizesFit(final) && |Head(final)| == |Head(h)|
       && sink.pos <= |sink.data|
       && sink.data[..sink.pos] == Outcome(front, Head(h), audio + PadOf(|audio|), sink.seekable, Head(final))
  }

  /** The whole life of one stream: bind, write the chunks one after another, close. It succeeds, the sink willing,
      exactly when what was written can be finished, whatever the split into chunks and wherever the sink stands. */
  method Session(enc: Encoder, sink: Sink, cfg: Config, framesKnown: bool, chunks: seq<seq<byte>>, cal: Calendar)
    returns (e: Option<Error>)
    requires cfg.totalFrames > 0 ==> framesKnown
    requires forall c <- chunks :: |c| <= MAX_INT64
    modifies enc, sink
    ensures Opening(cfg, sink.seekable, framesKnown, cal).Err? ==>
      e == Some(Opening(cfg, sink.seekable, framesKnown, cal).error) && unchanged(sink)
    ensures Opening(cfg, sink.seekable, framesKnown, cal).Ok? ==> BytesPerFrame(cfg) > 0
    ensures Opening(cfg, sink.seekable, framesKnown, cal).Ok? ==>
      var h := Opening(cfg, sink.seekable, framesKnown, cal).value;
      && (e.None? ==> Delivered(cfg, h, sink, old(Front(sink.data, sink.pos)), framesKnown, Joined(chunks)))
      && (sink.reliable ==> e == Verdict(cfg, h, sink.seekable, framesKnown, |Joined(chunks)|))
  {
    hide Opening, Encoder.Live, CanHold, Kept, Verdict, Delivered, Joined, BoundTo, Front;
    OpeningHasWidth(cfg, sink.seekable, framesKnown, cal);
    e := enc.Reset(sink, cfg, framesKnown, cal);
    if e.Some? {
      return;
    }
    ghost var front := Front(old(sink.data), old(sink.pos));
    FreshEncoderIsKept(enc, sink, framesKnown, cal);
    BoundEncoderStandsBehind(enc, sink, front);
    VerdictByCapacity(enc, sink, framesKnown, cal, |Joined(chunks)|);
    e := WriteAll(enc, sink, chunks, front);
    if e.None? {
      e := CloseSession(enc, sink, framesKnown, cal, cfg, enc.head, Joined(chunks), front);
    }
  }

  lemma BoundEncoderStandsBehind(enc: Encoder, sink: Sink, front: seq<byte>)
    requires enc.w == sink && enc.Live() && |front| == enc.base && sink.data[..enc.base] == front
    ensures StandsBehind(enc, sink, front)
  {
  }

  lemma OpeningHasWidth(cfg: Config, seekable: bool, framesKnown: bool, cal: Calendar)
    ensures Opening(cfg, seekable, framesKnown, cal).Ok? ==> BytesPerFrame(cfg) > 0
  {
    hide ValidBext;
    if Rejection(cfg, cal).None? {
      AcceptedFrame(cfg, cal);
    }
  }

  // ---- what a run amounts to -----------------------------------------------------------------------------------

  /** Refusal is exact. A stream can be finished exactly when it is whole frames, as many as declared, short of 2^63
      bytes, and either written as RF64, or upgradable, or within what both 32-bit fields can express. */
  lemma FinishableExactly(cfg: Config, seekable: bool, framesKnown: bool, cal: Calendar, n: nat)
    requires Opening(cfg, seekable, framesKnown, cal).Ok? && (cfg.totalFrames > 0 ==> framesKnown)
    ensures
      var h, w := Opening(cfg, seekable, framesKnown, cal).value, BytesPerFrame(cfg);
      && w > 0 && HeaderLen(h) >= 8
      && (Finishable(cfg, h, seekable, framesKnown, n) <==>
            && n % w == 0 && (cfg.totalFrames > 0 ==> n == cfg.totalFrames * w) && n <= MAX_INT64
            && (h.container == RF64 || Upgradable(cfg, seekable, framesKnown)
                || (n <= MAX_UINT32 && FileSize(HeaderLen(h), n) <= MAX_UINT32)))
      && (Upgradable(cfg, seekable, framesKnown) ==>
        (Finishable(cfg, h, seekable, framesKnown, n) <==> n % w == 0 && n <= MAX_INT64))
      && (cfg.totalFrames > 0 ==> (Finishable(cfg, h, seekable, framesKnown, n) <==> n == cfg.totalFrames * w))
  {
    hide Opening, BytesPerFrame, FrameWidth, RiffSizeForLen, HeaderLen, BuildRefusal, Padded;
    OpeningIsSound(cfg, seekable, framesKnown, cal);
    var h, w := Opening(cfg, seekable, framesKnown, cal).value, BytesPerFrame(cfg);
    BelongingBounds(cfg, seekable, h);
    ProductDiv(cfg.totalFrames, w);
    if n <= MAX_INT64 {
      RiffSizeIsExact(HeaderLen(h), n);
    }
    if n <= MAX_UINT32 {
      RiffSizeSign(HeaderLen(h), n);
    }
  }

  /** A stream of declared length carries its opening header to the end, whether or not the sink can seek. */
  lemma DeclaredIsFinal(cfg: Config, seekable: bool, cal: Calendar)
    requires Opening(cfg, seekable, true, cal).Ok?
    ensures
      var h := Opening(cfg, seekable, true, cal).value;
      && BytesPerFrame(cfg) > 0 && h.dataSize == cfg.totalFrames * BytesPerFrame(cfg) && h.dataSize >= 0
      && Finishable(cfg, h, seekable, true, h.dataSize) && Finished(cfg, h, seekable, h.dataSize) == h
  {
    hide Opening, BytesPerFrame, FrameWidth, HeaderLen, BuildRefusal, FitsRIFF;
    OpeningIsSound(cfg, seekable, true, cal);
    var h, w := Opening(cfg, seekable, true, cal).value, BytesPerFrame(cfg);
    ProductDiv(cfg.totalFrames, w);
    assert h.frames == cfg.totalFrames && FrameCount(h.dataSize, w) == cfg.totalFrames;
  }

  /** The header an upgrade leaves behind is the one a writer who chose RF64 and knew its length from the start would
      have emitted. */
  lemma UpgradedEqualsNative(cfg: Config, bext: seq<byte>, declared: int64, size: int64, frames: uint64)
    requires Buildable(HeaderConfigOf(cfg, bext, RIFF, true, declared)) && size >= 0
    ensures
      var upgraded := Final(HeaderConfigOf(cfg, bext, RIFF, true, declared), RF64, size, frames);
      var native := HeaderConfigOf(cfg.(totalFrames := frames), bext, RF64, false, size);
      && Buildable(upgraded) && SizesFit(upgraded) && Buildable(native) && SizesFit(native)
      && Head(upgraded) == Head(native) && LayoutOf(upgraded) == LayoutOf(native)
  {
    hide Assemble, FieldsOf, FmtBody, ByteRate, MetaChunk, Chunk;
  }

  /** The sink holds, up to its position, one stream behind front that carries the header h, which a seekable sink has
      also at its very front. */
  ghost predicate Holds(sink: Sink, front: seq<byte>, h: HeaderConfig, pcm: seq<byte>)
    reads sink
  {
    && h.dataSize == |pcm| && Buildable(h) && SizesFit(h) && sink.pos <= |sink.data|
    && sink.data[..sink.pos] == Outcome(front, Head(h), pcm + PadOf(|pcm|), sink.seekable, Head(h))
  }

  /** One call for audio that is held whole: the length is declared, so the header is final from its first byte. */
  method EncodeInterleaved(sink: Sink?, cfg: Config, pcm: seq<byte>, cal: Calendar) returns (e: Option<Error>)
    requires |pcm| <= MAX_INT64
    modifies sink
    ensures sink == null ==> e == Some(NilWriter)
    ensures sink != null && Rejection(cfg, cal).Some? ==> e == Rejection(cfg, cal) && unchanged(sink)
    ensures sink != null && Rejection(cfg, cal).None? ==> BytesPerFrame(cfg) > 0
    ensures sink != null && Rejection(cfg, cal).None? && |pcm| % BytesPerFrame(cfg) != 0 ==>
      e == Some(TrailingBytes) && unchanged(sink)
    ensures sink != null && Rejection(cfg, cal).None? && |pcm| % BytesPerFrame(cfg) == 0 ==>
      match Opening(cfg.(totalFrames := FrameCount(|pcm|, BytesPerFrame(cfg))), sink.seekable, true, cal)
      case Err(refusal) => e == Some(refusal) && unchanged(sink)
      case Ok(h) => (sink.reliable ==> e.None?) && (e.None? ==> Holds(sink, old(Front(sink.data, sink.pos)), h, pcm))
  {
    hide Opening, Rejection, BytesPerFrame, Holds, FrameCount;
    if sink == null {
      return Some(NilWriter);
    }
    var rejection := Vet(cfg, cal);
    if rejection.Some? {
      return rejection;
    }
    AcceptedFrame(cfg, cal);
    var perFrame := BytesPerFrame(cfg);
    if |pcm| % perFrame != 0 {
      return Some(TrailingBytes);
    }
    var frames := FrameCount(|pcm|, perFrame);
    WholeFrames(cfg, |pcm|);
    e := EncodeDeclared(sink, cfg.(totalFrames := frames), pcm, cal);
  }

  lemma WholeFrames(cfg: Config, n: int64)
    requires BytesPerFrame(cfg) > 0 && n >= 0 && n % BytesPerFrame(cfg) == 0
    ensures BytesPerFrame(cfg.(totalFrames := FrameCount(n, BytesPerFrame(cfg)))) == BytesPerFrame(cfg)
    ensures FrameCount(n, BytesPerFrame(cfg)) * BytesPerFrame(cfg) == n
  {
    DivTimes(n, BytesPerFrame(cfg));
  }

  method EncodeDeclared(sink: Sink, cfg: Config, pcm: seq<byte>, cal: Calendar) returns (e: Option<Error>)
    requires |pcm| == cfg.totalFrames * BytesPerFrame(cfg) && |pcm| <= MAX_INT64
    modifies sink
    ensures
      match Opening(cfg, sink.seekable, true, cal)
      case Err(refusal) => e == Some(refusal) && unchanged(sink)
      case Ok(h) => (sink.reliable ==> e.None?) && (e.None? ==> Holds(sink, old(Front(sink.data, sink.pos)), h, pcm))
  {
    hide Opening, BytesPerFrame, Head, Finished, Finishable, Verdict, Joined, Writable, HeaderLen;
    if Opening(cfg, sink.seekable, true, cal).Ok? {
      DeclaredIsFinal(cfg, sink.seekable, cal);
      VerdictOnFinishable(cfg, Opening(cfg, sink.seekable, true, cal).value, sink.seekable, true, |pcm|);
    }
    JoinedOnce(pcm);
    var enc := new Encoder();
    e := Session(enc, sink, cfg, true, [pcm], cal);
  }

  lemma JoinedOnce(p: seq<byte>)
    ensures Joined([p]) == p
  {
    assert [p][..0] == [];
  }
}
