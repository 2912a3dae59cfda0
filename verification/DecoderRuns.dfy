/** Whole runs of the decoder: any interleaving of reads and seeks. */
module DecoderRuns {
  import opened Wire
  import opened Types
  import opened Arith
  import opened Sources
  import opened Streams
  import opened Decoding

  datatype Request = Fetch(size: nat) | Jump(frame: int64)

  /** What one request led to: bytes and whether the end was reported, the frame a seek reached, or a refusal. */
  datatype Event = Got(bytes: seq<byte>, end: bool) | Moved(frame: nat) | Refused

  /** The place in the output an event leaves the stream at; frames are frameSize output bytes long. */
  function After(pos: nat, e: Event, frameSize: nat): nat {
    match e
    case Got(bytes, _) => pos + |bytes|
    case Moved(frame) => frame * frameSize
    case Refused => pos
  }

  /** What a seek depends on: the whole frames of the audio where a length may be relied on, the offset of the audio (-1
      where the source cannot seek), the stored bytes of a frame, and whether the source's own seeks can fail. */
  datatype Seeking = Seeking(frames: Option<nat>, start: int64, frameBytes: int, dependable: bool) {
    predicate Unreachable(frame: int64) {
      frame < 0 || start < 0 || start + frame * frameBytes > MAX_INT64
    }
  }

  /** A request answered as a window over the output would answer it: a fetch gets what stands at the current place, at
      most what was asked, something unless nothing is left, and hears of the end only there; a seek is refused exactly
      when there is no such offset, unless the source itself fails, and otherwise moves the place to the frame asked
      for, or to the last one where the number of frames is known. */
  predicate Answers(output: seq<byte>, s: Seeking, pos: nat, r: Request, e: Event) {
    match r
    case Fetch(size) =>
      && e.Got? && |e.bytes| <= size && e.bytes == Take(Drop(output, pos), |e.bytes|)
      && (e.end ==> Drop(output, pos + |e.bytes|) == [])
      && (e.bytes == [] && size > 0 ==> e.end && Drop(output, pos) == [])
    case Jump(frame) =>
      if s.Unreachable(frame) then e.Refused?
      else
        || (e.Refused? && !s.dependable)
        || (e.Moved? && e.frame == if s.frames.Some? && frame > s.frames.value then s.frames.value else frame)
  }

  predicate Replays(output: seq<byte>, s: Seeking, pos: nat, requests: seq<Request>, log: seq<Event>, frameSize: nat)
    decreases |log|
  {
    if log == [] then true
    else |requests| > 0 && Answers(output, s, pos, requests[0], log[0])
         && Replays(output, s, After(pos, log[0], frameSize), requests[1..], log[1..], frameSize)
  }

  function Place(pos: nat, log: seq<Event>, frameSize: nat): nat
    decreases |log|
  {
    if log == [] then pos else After(Place(pos, log[..|log| - 1], frameSize), log[|log| - 1], frameSize)
  }

  lemma {:induction false} PlaceFrom(pos: nat, log: seq<Event>, frameSize: nat)
    requires log != []
    ensures Place(pos, log, frameSize) == Place(After(pos, log[0], frameSize), log[1..], frameSize)
    decreases |log|
  {
    var n := |log|;
    if n == 1 {
      assert log[..0] == [] && log[1..] == [];
    } else {
      PlaceFrom(pos, log[..n - 1], frameSize);
      assert log[..n - 1][1..] == log[1..][..n - 2] && log[1..][n - 2] == log[n - 1];
    }
  }

  /** One more answer at the place the log has reached extends the replay. */
  lemma {:induction false} ReplayGrows(output: seq<byte>, s: Seeking, pos: nat, requests: seq<Request>, log: seq<Event>,
                                       frameSize: nat, e: Event)
    requires |log| < |requests| && Replays(output, s, pos, requests, log, frameSize)
    requires Answers(output, s, Place(pos, log, frameSize), requests[|log|], e)
    ensures Replays(output, s, pos, requests, log + [e], frameSize)
    decreases |log|
  {
    hide Answers;
    if log == [] {
      assert (log + [e])[1..] == [];
    } else {
      PlaceFrom(pos, log, frameSize);
      ReplayGrows(output, s, After(pos, log[0], frameSize), requests[1..], log[1..], frameSize, e);
      assert (log + [e])[1..] == log[1..] + [e];
    }
  }

  lemma PlaceGrows(pos: nat, log: seq<Event>, e: Event, frameSize: nat)
    ensures Place(pos, log + [e], frameSize) == After(Place(pos, log, frameSize), e, frameSize)
  {
    assert (log + [e])[..|log|] == log;
  }

  lemma FetchAnswers(output: seq<byte>, pos: nat, before: seq<byte>, p: seq<byte>, n: nat, pending: seq<byte>,
                     end: bool, s: Seeking)
    requires pending == Drop(output, pos) && n <= |pending| && n <= |before|
    requires p == Splice(before, 0, pending[..n])
    requires (end ==> pending[n..] == []) && (!end ==> n > 0 || |before| == 0)
    ensures |p| == |before| && Answers(output, s, pos, Fetch(|before|), Got(p[..n], end))
  {
    DropMore(output, pos, n);
  }

  /** What seeking depends on, in terms of the description handed out: the frame it is clamped to is the total it states
      where it states a length, and a frame takes as many stored and as many delivered bytes as its widths say. */
  lemma SeekingAsDescribed(d: Decoder, frame: nat)
    requires d.Opened()
    ensures d.hdr.value.blockAlign == d.info.sourceBitDepth / 8 * d.info.channels
    ensures RenderedWidth(d.Work()) == d.info.bitDepth / 8
    ensures SeekingOf(d) ==
      Seeking(if d.info.dataSizeKnown then Some(d.info.totalFrames) else None, d.dataStart,
              d.info.sourceBitDepth / 8 * d.info.channels, d.src.reliable)
    ensures d.Reached(frame) ==
      if d.info.dataSizeKnown && frame > d.info.totalFrames then d.info.totalFrames else frame
  {
    var h := d.hdr.value;
    if LengthKnown(h, d.options) {
      ClampedFrame(frame, h.blockAlign, h.dataSize);
    }
  }

  lemma ClampedFrame(frame: nat, align: nat, size: nat)
    requires align > 0
    ensures (if frame * align > size then size / align else frame)
      == if frame > size / align then size / align else frame
  {
    ProductGuard(frame, align, size);
  }

  /** Fetches up to size bytes. */
  method AnswerFetch(d: Decoder, size: nat, ghost output: seq<byte>, ghost s: Seeking) returns (e: Event)
    requires d.Valid() && output == d.Output() && size <= d.maxInt
    modifies d`remaining, d`outBuf, d`outOff, d`at, d.src
    ensures d.Valid() && output == d.Output()
    ensures e.Got? && d.at == old(d.at) + |e.bytes| && Answers(output, s, old(d.at), Fetch(size), e)
  {
    hide Decoder.Opened, Decoder.Output, Decoder.Work, Decoder.Pending, Splice, Drop, Answers;
    ghost var pending := d.Pending();
    var p := new byte[size];
    ghost var before := p[..];
    var n, end := d.Read(p, 0, size);
    FetchAnswers(output, old(d.at), before, p[..], n, pending, end.Some?, s);
    e := Got(p[..n], end.Some?);
  }

  ghost function SeekingOf(d: Decoder): Seeking
    requires d.Opened()
    reads d`src, d`options, d`hdr, d`info, d`dataStart, d`convert, d`start
  {
    var h := d.hdr.value;
    var frames := if LengthKnown(h, d.options) then Some(h.dataSize / h.blockAlign) else None;
    Seeking(frames, d.dataStart, h.blockAlign, d.src.reliable)
  }

  /** Comparing byte offsets is comparing frame numbers. */
  lemma ReachedIsLeast(d: Decoder, frame: nat)
    requires d.Opened()
    ensures
      var s := SeekingOf(d);
      d.Reached(frame) == if s.frames.Some? && frame > s.frames.value then s.frames.value else frame
    ensures d.dataStart == SeekingOf(d).start && d.hdr.value.blockAlign == SeekingOf(d).frameBytes
    ensures d.src.reliable == SeekingOf(d).dependable
  {
    var h := d.hdr.value;
    if LengthKnown(h, d.options) {
      ProductGuard(frame, h.blockAlign, h.dataSize);
    }
  }

  lemma FrameOffsetAssociates(frame: int, channels: int, w: int)
    ensures frame * channels * w == frame * (channels * w)
  {
  }

  /** Seeks to a frame. */
  method AnswerJump(d: Decoder, frame: int64, ghost output: seq<byte>, ghost s: Seeking, ghost frameSize: nat)
    returns (e: Event)
    requires d.Valid() && output == d.Output() && s == SeekingOf(d)
    requires frameSize == d.info.channels * RenderedWidth(d.Work())
    modifies d`remaining, d`outBuf, d`outOff, d`at, d.src
    ensures d.Valid() && output == d.Output()
    ensures Answers(output, s, old(d.at), Jump(frame), e) && d.at == After(old(d.at), e, frameSize)
  {
    hide Decoder.Opened, Decoder.Output, Decoder.Work, Decoder.Pending, RenderedWidth, Take, Drop, Decoder.Reached;
    var reached, refusal := d.SeekToFrame(frame);
    if refusal.Some? {
      return Refused;
    }
    ReachedIsLeast(d, frame);
    FrameOffsetAssociates(reached, d.info.channels, RenderedWidth(d.Work()));
    e := Moved(reached);
  }

  /** Every interleaving of reads of any size and seeks to any frame, whatever short reads the source returns, replays
      the output: nothing is skipped, repeated or invented. */
  method Play(d: Decoder, requests: seq<Request>, ghost output: seq<byte>, ghost s: Seeking, ghost frameSize: nat)
    returns (log: seq<Event>)
    requires d.Valid() && output == d.Output() && s == SeekingOf(d)
    requires frameSize == d.info.channels * RenderedWidth(d.Work())
    requires forall r <- requests :: r.Fetch? ==> r.size <= d.maxInt
    modifies d`remaining, d`outBuf, d`outOff, d`at, d.src
    ensures d.Valid() && output == d.Output() && |log| == |requests|
    ensures Replays(output, s, old(d.at), requests, log, frameSize) && d.at == Place(old(d.at), log, frameSize)
  {
    hide Decoder.Opened, Decoder.Output, Decoder.Work, Decoder.Pending, Answers, Replays, Place, RenderedWidth, Drop,
      SeekingOf;
    log := [];
    ghost var pos := d.at;
    NothingPlayed(output, s, pos, requests, frameSize);
    while |log| < |requests|
      invariant d.Valid() && output == d.Output() && s == SeekingOf(d) && |log| <= |requests|
      invariant Replays(output, s, pos, requests, log, frameSize) && d.at == Place(pos, log, frameSize)
    {
      var e;
      match requests[|log|] {
        case Fetch(size) => e := AnswerFetch(d, size, output, s);
        case Jump(frame) => e := AnswerJump(d, frame, output, s, frameSize);
      }
      ReplayGrows(output, s, pos, requests, log, frameSize, e);
      PlaceGrows(pos, log, e, frameSize);
      log := log + [e];
    }
  }

  lemma NothingPlayed(output: seq<byte>, s: Seeking, pos: nat, requests: seq<Request>, frameSize: nat)
    ensures Replays(output, s, pos, requests, [], frameSize) && Place(pos, [], frameSize) == pos
  {
  }
}
