/** The one-shot decoders: a growing buffer with an exact ceiling, and a window onto a byte string held in memory. Both
    yield what the streaming decoder yields. */
module OneShot {
  import opened Wire
  import opened Types
  import opened Arith
  import opened Sources
  import opened Sinks
  import opened HeaderReader
  import opened WalkLaws
  import opened Samples
  import opened Conversion
  import opened Streams
  import opened Decoding

  const MAX_PRESIZE := 0x200_0000

  // ---- reserving -----------------------------------------------------------------------------------------------

  /** The bytes to reserve for a stream, or 0. The product is an int64 one and may wrap. */
  function PresizeHint(info: StreamInfo, maxBytes: int): int {
    var width := BytesPerSample(info.bitDepth);
    if info.totalFrames == 0 || info.channels <= 0 || width <= 0 then 0
    else
      var hint := Wrap64(Wrap64(Wrap64(info.totalFrames) * info.channels) * width);
      if hint <= 0 then 0
      else
        var hint := if hint > MAX_PRESIZE then MAX_PRESIZE else hint;
        if maxBytes > 0 && hint > maxBytes then maxBytes else hint
  }

  /** The bytes a stream of this description decodes to, were its frame count true. */
  function ClaimedSize(info: StreamInfo): int {
    info.totalFrames * info.channels * BytesPerSample(info.bitDepth)
  }

  /** For everything the parser can hand out the reservation is the claimed size held to 32 MiB and to a positive
      ceiling; a size that leaves the int64 range reserves nothing, the wrap never shows. */
  lemma PresizeIsExact(h: Header, o: Options, maxBytes: int)
    requires Bounded(h) && Acceptable(o)
    ensures
      var size := ClaimedSize(InfoOf(h, o));
      PresizeHint(InfoOf(h, o), maxBytes)
      == if size > MAX_INT64 then 0 else Min(Min(size, 33554432), if maxBytes > 0 then maxBytes else 33554432)
  {
    hide Wrap64, Bounded, Target;
    var info := InfoOf(h, o);
    var n, c, w := info.totalFrames, info.channels, BytesPerSample(info.bitDepth);
    InfoBound(h, o);
    assert ClaimedSize(info) == n * c * w;
    NoWrapInRange(n);
    NoWrapInRange(n * c);
    WrapOfProduct(n * c, w);
    ProductMonotone(1, w, n * c);
    if n == 0 {
      assert n * c * w == 0;
    }
  }

  /** What bounds the claimed size: frames times channels is at most 2^62, and a stored width of 8 bytes is counted
      in. */
  lemma InfoBound(h: Header, o: Options)
    requires Bounded(h) && Acceptable(o)
    ensures
      var info := InfoOf(h, o);
      var n, c, w := info.totalFrames, info.channels, BytesPerSample(info.bitDepth);
      && c > 0 && w in {1, 2, 3, 4, 8} && n <= n * c <= 0x4000_0000_0000_0000
      && (w == 8 ==> n * c * w <= 0x4000_0000_0000_0000) && (n > 0 ==> n * c > 0)
  {
    FramesBound(h.info.totalFrames, h.info.channels, BytesPerSample(h.info.bitDepth));
  }

  lemma NoWrapInRange(x: int)
    requires 0 <= x <= MAX_INT64
    ensures Wrap64(x) == x
  {
  }

  lemma FramesBound(n: nat, c: int, w: int)
    requires c > 0 && w > 0 && n * (w * c) <= 0x4000_0000_0000_0000
    ensures n <= n * c <= n * c * w == n * (w * c)
  {
    assert n * c * w == n * (w * c);
    ProductMonotone(1, c, n);
    ProductMonotone(1, w, n * c);
  }

  lemma WrapOfProduct(x: nat, w: int)
    requires x <= 0x4000_0000_0000_0000 && w in {1, 2, 3, 4, 8} && (w == 8 ==> x * w <= 0x4000_0000_0000_0000)
    ensures Wrap64(x * w) == if x * w <= MAX_INT64 then x * w else x * w - 0x1_0000_0000_0000_0000
  {
  }

  /** The capacity to grow to: double, but never past the limit. */
  function NextCap(c: nat, limit: nat): (d: nat)
    requires c < limit
    ensures c < d <= limit && (d == limit || d == if c == 0 then 65536 else 2 * c)
    ensures d <= if c == 0 then 65536 else 2 * c
  {
    if c == 0 then Min(WRITE_TO_BUFFER, limit) else c + Min(c, limit - c)
  }

  // ---- the growing buffer --------------------------------------------------------------------------------------

  /** Reads a decoder to the end, refusing an output of more than limit bytes. The ceiling is exact, the buffer never
      holds more than it, and the number of reads is bounded by it whatever the source does. */
  method ReadAllLimit(d: Decoder, hint: int, limit: nat) returns (r: Result<seq<byte>>, peak: nat, steps: nat)
    requires d.Valid() && 0 < limit <= d.maxInt && 1 <= d.maxInt
    modifies d`remaining, d`outBuf, d`outOff, d`at, d.src
    ensures r == if |old(d.Pending())| <= limit then Ok(old(d.Pending())) else Err(DecodeLimit)
    ensures peak <= limit && steps <= limit + 1
  {
    hide Decoder.Opened, Decoder.Pending, Decoder.Output, Decoder.Work, Splice, Drop, NextCap;
    var reserve := Min(hint, limit);
    var buf := new byte[if reserve > 0 then reserve else 0];
    var probe := new byte[1];
    var len := 0;
    peak, steps := buf.Length, 0;
    ghost var all := d.Pending();
    while true
      invariant d.Valid() && len <= buf.Length <= limit && peak <= limit && steps <= len <= |all|
      invariant fresh(buf) && fresh(probe) && buf != probe && probe.Length == 1
      invariant buf[..len] == all[..len] && d.Pending() == all[len..]
      decreases limit - len
    {
      steps := steps + 1;
      var over, ended;
      buf, len, over, ended := ReadOn(d, buf, probe, len, limit, all);
      if buf.Length > peak {
        peak := buf.Length;
      }
      if over {
        return Err(DecodeLimit), peak, steps;
      }
      if ended {
        return Ok(buf[..len]), peak, steps;
      }
    }
  }

  /** One read: into the spare capacity, or a probe byte that decides between growing, refusing and the end. */
  method ReadOn(d: Decoder, buf: array<byte>, probe: array<byte>, len: nat, limit: nat, ghost all: seq<byte>)
    returns (held: array<byte>, count: nat, over: bool, ended: bool)
    requires d.Valid() && len <= buf.Length <= limit <= d.maxInt && 1 <= d.maxInt && len <= |all|
    requires buf != probe && probe.Length == 1 && buf[..len] == all[..len] && d.Pending() == all[len..]
    modifies d`remaining, d`outBuf, d`outOff, d`at, d.src, buf, probe
    ensures held == buf || fresh(held)
    ensures d.Valid() && held.Length <= limit
    ensures over ==> |all| > limit
    ensures !over ==>
      && len <= count <= held.Length && count <= |all| && held != probe
      && held[..count] == all[..count] && d.Pending() == all[count..]
      && (ended ==> all[..count] == all) && (!ended ==> len < count)
  {
    hide Decoder.Opened, Decoder.Pending, Decoder.Output, Decoder.Work, Splice, Drop, NextCap;
    held, count, over := buf, len, false;
    var n, e;
    if len < buf.Length {
      n, e := ReadSpare(d, buf, len, all);
      count := len + n;
    } else {
      n, e := ReadProbe(d, probe, len, all);
      if n > 0 {
        if len >= limit {
          return held, count, true, false;
        }
        held := Grow(buf, NextCap(buf.Length, limit), probe[0]);
        TakeOneMore(all, len);
        count := len + 1;
      }
    }
    ended := e.Some?;
  }

  /** Reads into the spare capacity of buf behind its first len bytes. */
  method ReadSpare(d: Decoder, buf: array<byte>, len: nat, ghost all: seq<byte>) returns (n: nat, e: Option<Error>)
    requires d.Valid() && len < buf.Length <= d.maxInt && len <= |all|
    requires buf[..len] == all[..len] && d.Pending() == all[len..]
    modifies d`remaining, d`outBuf, d`outOff, d`at, d.src, buf
    ensures d.Valid() && len + n <= buf.Length && len + n <= |all|
    ensures buf[..len + n] == all[..len + n] && d.Pending() == all[len + n..]
    ensures (e.None? ==> n > 0) && (e.Some? ==> len + n == |all| && all[..len + n] == all)
  {
    hide Decoder.Opened, Decoder.Pending, Decoder.Output, Decoder.Work, Splice, Drop;
    ghost var before := buf[..];
    n, e := d.Read(buf, len, buf.Length);
    FillExtends(before, len, all, n);
  }

  /** Reads a single byte while the buffer is full. */
  method ReadProbe(d: Decoder, probe: array<byte>, len: nat, ghost all: seq<byte>) returns (n: nat, e: Option<Error>)
    requires d.Valid() && probe.Length == 1 <= d.maxInt && len <= |all| && d.Pending() == all[len..]
    modifies d`remaining, d`outBuf, d`outOff, d`at, d.src, probe
    ensures d.Valid() && n <= 1 && len + n <= |all| && d.Pending() == all[len + n..]
    ensures n == 1 ==> probe[0] == all[len]
    ensures (e.None? ==> n == 1) && (e.Some? ==> len + n == |all| && all[..len + n] == all)
  {
    hide Decoder.Opened, Decoder.Pending, Decoder.Output, Decoder.Work, Splice, Drop;
    ghost var before := probe[..];
    n, e := d.Read(probe, 0, 1);
    ProbeExtends(all, len, before, probe[..], n);
  }

  /** What a one-byte read delivered extends what was read before. */
  lemma ProbeExtends(all: seq<byte>, len: nat, before: seq<byte>, got: seq<byte>, n: nat)
    requires n <= 1 == |before| && len + n <= |all| && got == Splice(before, 0, all[len..][..n])
    ensures all[len..][n..] == all[len + n..] && (n == 1 ==> got[0] == all[len])
  {
  }

  lemma TakeOneMore(all: seq<byte>, len: nat)
    requires len < |all|
    ensures all[..len] + [all[len]] == all[..len + 1]
  {
  }

  /** A larger buffer with the old contents and one byte more. */
  method Grow(buf: array<byte>, cap: nat, b: byte) returns (grown: array<byte>)
    requires buf.Length < cap
    ensures fresh(grown) && grown.Length == cap && grown[..buf.Length + 1] == buf[..buf.Length] + [b]
  {
    grown := new byte[cap];
    Put(grown, 0, buf[..]);
    grown[buf.Length] := b;
  }

  /** The platform's largest length is at least that of a 32-bit int. */
  predicate Platform(maxInt: nat) {
    0x7fff_ffff <= maxInt <= MAX_INT64
  }

  /** Decodes a whole source; only a positive ceiling is below the platform's own. */
  method DecodeInterleavedLimit(src: Source, maxBytes: int, o: Options, maxInt: nat)
    returns (r: Result<(seq<byte>, StreamInfo)>)
    requires Platform(maxInt) && maxBytes <= maxInt && (src.seekable ==> |src.data| <= MAX_INT64)
    modifies src
    ensures
      var limit := if maxBytes > 0 then maxBytes else maxInt;
      r == match Decoded(old(src.Rest()), o)
           case Err(e) => Err(e)
           case Ok(whole) => if |whole.0| <= limit then Ok(whole) else Err(DecodeLimit)
  {
    hide Decoded, PresizeHint, Decoder.Opened, Decoder.Output, Drop;
    var d := new Decoder(maxInt);
    var e := d.Reset(src, o);
    if e.Some? {
      return Err(e.value);
    }
    var limit := if maxBytes > 0 then maxBytes else maxInt;
    var all, peak, steps := ReadAllLimit(d, PresizeHint(d.info, maxBytes), limit);
    return match all { case Err(x) => Err(x) case Ok(samples) => Ok((samples, d.info)) };
  }

  // ---- the window ----------------------------------------------------------------------------------------------

  /** Whether that many samples of dstWidth bytes are no more than limit bytes, asked by division. */
  predicate ConvertedBytesFit(samples: int, dstWidth: int, limit: nat) {
    samples <= 0 || dstWidth <= 0 || samples <= limit / dstWidth
  }

  /** Decodes a byte string held in memory. Stored bytes come back as the window of b they are; converted ones in one
      conversion of the whole window, refused when the platform cannot express its length. */
  method DecodeInterleavedBytes(b: seq<byte>, o: Options, maxInt: nat)
    returns (r: Result<(seq<byte>, StreamInfo)>, window: Option<(nat, nat)>)
    requires Platform(maxInt) && |b| <= maxInt && |b| < TWO_TO_62
    ensures r == match Decoded(b, o)
                 case Err(e) => Err(e)
                 case Ok(whole) => if |whole.0| <= maxInt then Ok(whole) else Err(UnrepresentableSize)
    ensures window.Some? ==>
      && r.Ok? && window.value.0 <= window.value.1 <= |b|
      && r.value.0 == b[window.value.0..window.value.1]
    ensures r.Ok? ==> (window.Some? <==> o.convertTo.None? && !r.value.1.sourceFormat.Companded())
  {
    hide Decoded, Decoder.Opened, Decoder.Output, Decoder.Pending, Drop, Decoder.Work, All, Splice;
    var src := new Source(b, true, true);
    DropNothing(b);
    var d := new Decoder(maxInt);
    var e := d.Reset(src, o);
    if e.Some? {
      return Err(e.value), None;
    }
    var start, end := Window(d, b);
    WindowRendersToOutput(d, b, start, end);
    var audio := b[start..end];
    if d.convert == 0 {
      return Ok((audio, d.info)), Some((start, end));
    }
    r := ConvertWhole(d, audio);
    window := None;
  }

  lemma DropNothing(b: seq<byte>)
    ensures Drop(b, 0) == b
  {
  }

  /** The extent of the audio within b: up to the declared length or the end of the buffer, whichever comes first. */
  method Window(d: Decoder, b: seq<byte>) returns (start: int64, end: int64)
    requires d.Opened() && d.src.data == b && d.dataStart == d.start && |b| < TWO_TO_62
    requires d.remaining == Remaining(d.hdr.value, d.options)
    ensures start == d.start && start <= end <= |b|
    ensures b[start..end] == Bound(Drop(b, d.start), Remaining(d.hdr.value, d.options))
  {
    start := d.dataStart;
    end := |b|;
    var declared: int64 := if d.remaining >= 0 then start + d.remaining else 0;
    if d.remaining >= 0 && declared < end {
      end := declared;
    }
  }

  /** The window is what the decoder renders. */
  lemma WindowRendersToOutput(d: Decoder, b: seq<byte>, start: nat, end: nat)
    requires d.Opened() && d.src.data == b && start <= end <= |b|
    requires b[start..end] == Bound(Drop(b, d.start), Remaining(d.hdr.value, d.options))
    ensures d.Output() == Render(d.Work(), b[start..end])
    ensures d.convert == 0 ==> d.Output() == b[start..end]
    ensures d.convert != 0 ==>
      && d.Work().Valid() && d.Work() == Job(d.info.sourceFormat, d.info.sourceBitDepth, d.convert)
      && d.Output() == All(d.Work(), b[start..end])
    ensures d.convert == 0 <==> d.options.convertTo.None? && !d.info.sourceFormat.Companded()
  {
    hide All, Bounded, Bound, Drop;
    d.FieldsGiveTheJob(b[start..end]);
  }

  /** One conversion of the whole window. */
  method ConvertWhole(d: Decoder, audio: seq<byte>) returns (r: Result<(seq<byte>, StreamInfo)>)
    requires d.convert != 0 && Platform(d.maxInt) && |audio| <= d.maxInt
    requires Job(d.info.sourceFormat, d.info.sourceBitDepth, d.convert).Valid()
    ensures
      var out := All(Job(d.info.sourceFormat, d.info.sourceBitDepth, d.convert), audio);
      r == if |out| <= d.maxInt then Ok((out, d.info)) else Err(UnrepresentableSize)
  {
    hide All;
    var job := Job(d.info.sourceFormat, d.info.sourceBitDepth, d.convert);
    var srcWidth, dstWidth := BytesPerSample(d.info.sourceBitDepth), BytesPerSample(d.convert);
    WholeFits(job, audio, d.maxInt);
    if !ConvertedBytesFit(|audio| / srcWidth, dstWidth, d.maxInt) {
      return Err(UnrepresentableSize);
    }
    var need := match ConvertedLen(|audio|, d.info.sourceBitDepth, d.convert, d.maxInt) {
      case Some(k) => k
      case None => 0
    };
    var out := new byte[need];
    SpliceWhole(out[..], All(job, audio));
    var n := Convert(out, 0, audio, job, d.maxInt);
    assert out[..n.value] == out[..];
    return Ok((out[..n.value], d.info));
  }

  /** The division guard admits a conversion exactly when its result is expressible, and the planned length is exact. */
  lemma WholeFits(j: Job, audio: seq<byte>, maxInt: nat)
    requires j.Valid()
    ensures ConvertedBytesFit(|audio| / j.SrcWidth(), j.DstWidth(), maxInt) <==> |All(j, audio)| <= maxInt
    ensures |All(j, audio)| <= maxInt ==> ConvertedLen(|audio|, j.srcBits, j.dstBits, maxInt) == Some(|All(j, audio)|)
  {
    hide All;
    ProductGuard(|audio| / j.SrcWidth(), j.DstWidth(), maxInt);
    if |audio| == 0 {
      ZeroSamples(j.SrcWidth(), j.DstWidth());
    }
  }

  // ---- the three drains side by side -----------------------------------------------------------------------------

  /** Streams what a source decodes to into a new sink. */
  method Stream(src: Source, o: Options, maxInt: nat) returns (r: Result<(seq<byte>, StreamInfo)>)
    requires Platform(maxInt) && (src.seekable ==> |src.data| <= MAX_INT64)
    modifies src
    ensures r == Decoded(old(src.Rest()), o)
  {
    hide Decoded, Decoder.Opened, Decoder.Output, Drop, Overwrite;
    var d := new Decoder(maxInt);
    var e := d.Reset(src, o);
    if e.Some? {
      return Err(e.value);
    }
    ghost var all := d.Pending();
    var sink := new Sink(false, true);
    var total, refusal := d.WriteTo(sink);
    OverwriteAll(all);
    assert all[..total] == all;
    return Ok((sink.data, d.info));
  }

  lemma OverwriteAll(p: seq<byte>)
    ensures Overwrite([], 0, p) == p
  {
  }

  /** For every byte string and every option the three drains agree: streaming, the growing buffer and the window give
      the same bytes and the same description or the same error, the one-shot forms refusing beyond that only what
      exceeds the ceiling and what the platform cannot express. */
  method DrainsAgree(b: seq<byte>, maxBytes: int, o: Options, maxInt: nat)
    returns (streamed: Result<(seq<byte>, StreamInfo)>, buffered: Result<(seq<byte>, StreamInfo)>,
             windowed: Result<(seq<byte>, StreamInfo)>)
    requires Platform(maxInt) && maxBytes <= maxInt && |b| <= maxInt && |b| < TWO_TO_62
    ensures streamed.Err? ==> buffered == windowed == streamed
    ensures streamed.Ok? ==>
      var n := |streamed.value.0|;
      && buffered == (if n <= (if maxBytes > 0 then maxBytes else maxInt) then streamed else Err(DecodeLimit))
      && windowed == (if n <= maxInt then streamed else Err(UnrepresentableSize))
  {
    hide Decoded, Drop;
    DropNothing(b);
    var pipe := new Source(b, false, false);
    streamed := Stream(pipe, o, maxInt);
    var file := new Source(b, false, false);
    buffered := DecodeInterleavedLimit(file, maxBytes, o, maxInt);
    var window;
    windowed, window := DecodeInterleavedBytes(b, o, maxInt);
  }
}
