/** The streaming decoder: Read, WriteTo and SeekToFrame over a source that may return short reads. */
module Decoding {
  import opened Wire
  import opened Types
  import opened Chunks
  import opened Arith
  import opened Sources
  import opened Sinks
  import opened HeaderReader
  import opened WalkLaws
  import opened Samples
  import opened Conversion
  import opened Streams

  const MAX_CONVERT_BATCH := 0x1_0000
  const WRITE_TO_BUFFER := 0x1_0000

  /** The field values of a decoder that was never bound. */
  const NO_INFO := StreamInfo(0, 0, 0, 0, 0, PCM, PCM, RIFF, false, 0, 0, false)

  /** Samples enough to fill the buffer, never none. */
  function Fill(bufLen: int, dstWidth: int): int
    requires dstWidth > 0
  {
    if bufLen / dstWidth > 1 then bufLen / dstWidth else 1
  }

  /** That many samples in stored bytes, held to the batch cap and to what remains. */
  function Batch(fill: int, srcWidth: int, remaining: int64): int
    requires srcWidth > 0
  {
    var cap := if MAX_CONVERT_BATCH / srcWidth > 1 then MAX_CONVERT_BATCH / srcWidth else 1;
    var want := (if fill < cap then fill else cap) * srcWidth;
    if 0 <= remaining < want then remaining - remaining % srcWidth else want
  }

  /** How many stored bytes one conversion takes, when bufLen bytes of room are left. */
  function ConvertBatchLen(bufLen: int, srcWidth: int, dstWidth: int, remaining: int64): int {
    if srcWidth <= 0 || dstWidth <= 0 then 0 else Batch(Fill(bufLen, dstWidth), srcWidth, remaining)
  }

  lemma FillIsExact(bufLen: int, dstWidth: int)
    requires bufLen > 0 && dstWidth in {1, 2, 3, 4}
    ensures var fill := Fill(bufLen, dstWidth);
      fill >= 1 && (fill + 1) * dstWidth > bufLen
        && (if bufLen >= dstWidth then fill * dstWidth <= bufLen else fill == 1)
  {
    WholeIsMultiple(bufLen, dstWidth);
    ProductMonotone(bufLen / dstWidth + 1, Fill(bufLen, dstWidth) + 1, dstWidth);
    if bufLen < dstWidth {
      DivModUnique(bufLen, 0, bufLen, dstWidth);
    } else {
      QuotientMonotone(dstWidth, bufLen, dstWidth);
      ProductDiv(1, dstWidth);
    }
  }

  lemma BatchIsExact(fill: int, srcWidth: int, remaining: int64)
    requires fill >= 1 && srcWidth in {1, 2, 3, 4, 8}
    ensures
      var want := Batch(fill, srcWidth, remaining);
      && 0 <= want <= MAX_CONVERT_BATCH && want % srcWidth == 0 && (remaining >= 0 ==> want <= remaining)
      && (want == 0 <==> 0 <= remaining < srcWidth)
      && want / srcWidth <= fill
      && (want + srcWidth > MAX_CONVERT_BATCH || want / srcWidth == fill || 0 <= remaining < want + srcWidth)
  {
    var cap := MAX_CONVERT_BATCH / srcWidth;
    assert cap in {0x1_0000, 0x8000, 0x5555, 0x4000, 0x2000};
    var full := if fill < cap then fill else cap;
    WholeBatch(full, cap, srcWidth);
    if 0 <= remaining < full * srcWidth {
      FloorBatch(remaining, full, srcWidth);
    }
  }

  lemma WholeBatch(n: int, cap: int, w: int)
    requires w in {1, 2, 3, 4, 8} && 1 <= n <= cap == MAX_CONVERT_BATCH / w
    ensures n * w <= MAX_CONVERT_BATCH && n * w % w == 0 && n * w / w == n && n * w >= w
    ensures n == cap ==> n * w + w > MAX_CONVERT_BATCH
  {
    ProductDiv(n, w);
    ProductGuard(n, w, MAX_CONVERT_BATCH);
    ProductGuard(n + 1, w, MAX_CONVERT_BATCH);
  }

  lemma FloorBatch(r: int, n: int, w: int)
    requires w in {1, 2, 3, 4, 8} && 0 <= r < n * w
    ensures 0 <= r - r % w <= r < r - r % w + w && (r - r % w) % w == 0 && (r - r % w) / w <= n
    ensures r - r % w == 0 <==> r < w
  {
    WholeIsMultiple(r, w);
    ProductGuard(n, w, r);
    if r < w {
      SmallWhole(r, w);
    } else {
      WholeAbove(r, w);
    }
  }

  /** A batch is whole samples, at most 64 KiB before and after the multiplication, and at most what remains; it is
      empty only when less than one sample is left; its converted form overruns the buffer only where the buffer is
      smaller than one converted sample; and it could not have been longer. */
  lemma BatchDiscipline(bufLen: int, srcWidth: int, dstWidth: int, remaining: int64)
    requires bufLen > 0 && srcWidth in {1, 2, 3, 4, 8} && dstWidth in {1, 2, 3, 4}
    ensures
      var want := ConvertBatchLen(bufLen, srcWidth, dstWidth, remaining);
      && 0 <= want <= 65536 && want % srcWidth == 0 && (remaining >= 0 ==> want <= remaining)
      && (want == 0 <==> 0 <= remaining < srcWidth)
      && (want / srcWidth * dstWidth <= bufLen || (bufLen < dstWidth && want == srcWidth))
      && (want + srcWidth > 65536 || (want / srcWidth + 1) * dstWidth > bufLen
        || 0 <= remaining < want + srcWidth)
  {
    hide Fill, Batch;
    var fill := Fill(bufLen, dstWidth);
    FillIsExact(bufLen, dstWidth);
    BatchIsExact(fill, srcWidth, remaining);
    var want := Batch(fill, srcWidth, remaining);
    ProductMonotone(want / srcWidth, fill, dstWidth);
    if bufLen < dstWidth {
      AtMostOne(want, srcWidth);
    }
  }

  /** A shortened batch still fits where the whole one does. */
  lemma BatchFits(j: Job, batch: seq<byte>, want: nat, room: nat)
    requires j.Valid() && |batch| <= want && |batch| % j.SrcWidth() == 0
    requires want / j.SrcWidth() * j.DstWidth() <= room || want == j.SrcWidth()
    ensures |All(j, batch)| <= room || |batch| == j.SrcWidth()
  {
    hide All;
    var w := j.SrcWidth();
    QuotientMonotone(|batch|, want, w);
    ProductMonotone(|batch| / w, want / w, j.DstWidth());
    if want == w {
      AtMostOne(|batch|, w);
    }
  }

  /** A batch of at least one sample converts to something, of a length every platform can express. */
  lemma BatchConverts(j: Job, batch: seq<byte>, maxInt: nat)
    requires j.Valid() && 0 < |batch| <= MAX_CONVERT_BATCH && |batch| % j.SrcWidth() == 0 && maxInt >= 0x7fff_ffff
    ensures ConvertedLen(|batch|, j.srcBits, j.dstBits, maxInt) == Some(|All(j, batch)|) && |All(j, batch)| > 0
    ensures |batch| == j.SrcWidth() ==> |All(j, batch)| == j.DstWidth()
  {
    hide All;
    var n, d := |batch| / j.SrcWidth(), j.DstWidth();
    assert 1 <= n <= MAX_CONVERT_BATCH;
    ProductGuard(n, d, maxInt);
    assert n * d <= 4 * MAX_CONVERT_BATCH && n * d > 0 && (n == 1 ==> n * d == d);
  }

  lemma WholeSlices(out: seq<byte>, rest: seq<byte>)
    ensures out[0..] == out && out[0..|out|] == out && out[|out|..] + rest == rest && [] + rest == rest
  {
  }

  lemma FrameBytes(frame: nat, w: nat, channels: int)
    requires channels > 0
    ensures frame * (w * channels) == frame * channels * w && frame * channels >= 0
  {
  }

  lemma AcceptableMeans(o: Options)
    ensures Acceptable(o) <==> !(o.convertTo.Some? && !ValidDepth(PCM, o.convertTo.value))
  {
  }

  /** Once a header has been read the cursor stands inside the data, on the first byte of audio. */
  lemma BehindTheHeader(r: Source, bytes: seq<byte>)
    requires |bytes| <= |r.data| && r.pos == |r.data| - |r.Rest()|
    ensures r.pos <= |r.data|
  {
  }

  lemma FillExtends(before: seq<byte>, filled: nat, all: seq<byte>, n: nat)
    requires filled + n <= |before| && filled + n <= |all| && before[..filled] == all[..filled]
    ensures Splice(before, filled, all[filled..][..n])[..filled + n] == all[..filled + n]
    ensures all[filled..][n..] == all[filled + n..]
  {
  }

  lemma DrainExtends(data: seq<byte>, pos: nat, all: seq<byte>, total: nat, block: seq<byte>, n: nat)
    requires total + |block| <= |all| && block == all[total..][..|block|] && n <= |block|
    ensures Overwrite(Overwrite(data, pos, all[..total]), pos + total, block[..n])
      == Overwrite(data, pos, all[..total + n])
    ensures all[total..][|block|..] == all[total + |block|..]
  {
    hide Overwrite;
    assert all[..total] + block[..n] == all[..total + n];
    OverwriteTwice(data, pos, all[..total], block[..n]);
  }

  /** The byte offset of a frame, clamped to the audio where its length is known, without leaving the int64 range. */
  method FrameOffset(frame: int64, perFrame: int64, dataStart: int64, known: bool, dataSize: int64)
    returns (offset: int64, reached: int64, addressable: bool)
    requires frame >= 0 && perFrame > 0 && dataStart >= 0 && (known ==> dataSize >= 0)
    ensures addressable <==> dataStart + frame * perFrame <= MAX_INT64
    ensures addressable ==>
      && reached == (if known && frame * perFrame > dataSize then dataSize / perFrame else frame)
      && reached <= frame && offset == reached * perFrame
      && 0 <= offset <= MAX_INT64 - dataStart && (known ==> offset <= dataSize)
  {
    ProductGuard(frame, perFrame, MAX_INT64 - dataStart);
    var maxFrame := (MAX_INT64 - dataStart) / perFrame;
    if frame > maxFrame {
      return 0, 0, false;
    }
    offset := frame * perFrame;
    if known && offset > dataSize {
      WholeIsMultiple(dataSize, perFrame);
      QuotientMonotone(dataSize, offset, perFrame);
      ProductDiv(frame, perFrame);
      offset := dataSize - dataSize % perFrame;
    } else {
      ProductDiv(frame, perFrame);
    }
    return offset, offset / perFrame, true;
  }

  /** The writes a sink was offered since `before` are blocks of 64 KiB. */
  ghost predicate AllFull(before: seq<nat>, now: seq<nat>) {
    before <= now && forall i :: |before| <= i < |now| ==> now[i] == 65536
  }

  /** As AllFull, except that the last may be shorter, though never empty. */
  ghost predicate InFullBlocks(before: seq<nat>, now: seq<nat>) {
    && before <= now
    && forall i :: |before| <= i < |now| ==>
        0 < now[i] <= 65536 && (i < |now| - 1 ==> now[i] == 65536)
  }

  lemma NoBlocks(before: seq<nat>)
    ensures AllFull(before, before) && InFullBlocks(before, before)
  {
  }

  lemma OneMoreBlock(before: seq<nat>, now: seq<nat>, n: nat)
    requires AllFull(before, now) && 0 < n <= WRITE_TO_BUFFER
    ensures InFullBlocks(before, now + [n]) && (n == WRITE_TO_BUFFER ==> AllFull(before, now + [n]))
  {
  }

  class Decoder {
    /** The largest length the platform can express. */
    const maxInt: nat
    var src: Source?
    var options: Options
    var hdr: Option<Header>
    var info: StreamInfo
    /** Stored audio still ahead, -1 where its end is not known in advance. */
    var remaining: int64
    /** The position of the first audio byte, or -1 when the source cannot seek. */
    var dataStart: int64
    /** The width samples are converted to, 0 for a pass-through. */
    var convert: int
    /** Converted bytes not yet handed out begin at outOff. */
    var outBuf: seq<byte>
    var outOff: nat
    var err: Option<Error>

    /** Where the audio begins, and how far into the output the next byte delivered stands. */
    ghost var start: nat
    ghost var at: nat

    constructor (maxInt: nat)
      ensures this.maxInt == maxInt && src == null && hdr.None?
    {
      this.maxInt := maxInt;
      src, options, hdr, info, remaining, dataStart, convert := null, Options(None, false), None, NO_INFO, 0, -1, 0;
      outBuf, outOff, err, start, at := [], 0, None, 0, 0;
    }

    /** A header has been read from the source and the fields derived from it are in place. */
    ghost predicate Opened()
      reads `src, `options, `hdr, `info, `dataStart, `convert, `start
    {
      && src != null && hdr.Some? && Bounded(hdr.value) && Acceptable(options)
      && info == InfoOf(hdr.value, options) && convert == Target(options, hdr.value.info.sourceFormat)
      && start <= |src.data| && (dataStart == -1 || (dataStart == start && src.seekable))
      && (src.seekable ==> |src.data| <= MAX_INT64) && 0x7fff_ffff <= maxInt
    }

    ghost function Work(): (j: Job)
      requires Opened()
      reads `src, `options, `hdr, `info, `dataStart, `convert, `start
      ensures Renders(j)
    {
      BoundedRenders(hdr.value, options);
      JobOf(hdr.value, options)
    }

    /** Everything this stream decodes to, from its first frame. */
    ghost function Output(): seq<byte>
      requires Opened()
      reads `src, `options, `hdr, `info, `dataStart, `convert, `start
    {
      Render(Work(), Bound(Drop(src.data, start), Remaining(hdr.value, options)))
    }

    /** Stored audio not yet taken from the source. */
    ghost function Raw(): seq<byte>
      requires src != null
      reads `src, `remaining, src
    {
      Bound(src.Rest(), remaining)
    }

    /** Everything reading on would deliver. */
    ghost function Pending(): seq<byte>
      requires Opened() && outOff <= |outBuf|
      reads this, src
    {
      outBuf[outOff..] + Render(Work(), Raw())
    }

    /** The invariant: what is still to come is what lies beyond the bytes delivered, and no more than one converted
        sample is ever staged. */
    ghost predicate Valid()
      reads this, src
    {
      && Opened() && err.None? && remaining >= -1
      && outOff <= |outBuf| <= (if convert == 0 then 0 else Work().DstWidth())
      && Pending() == Drop(Output(), at)
    }

    /** What the fields say of the job at hand. */
    lemma FieldsGiveTheJob(raw: seq<byte>)
      requires Opened()
      ensures convert == 0 ==> Render(Work(), raw) == raw && [] + raw == raw
      ensures convert != 0 ==>
        && Work().Valid() && Work() == Job(info.sourceFormat, info.sourceBitDepth, convert)
        && BytesPerSample(info.sourceBitDepth) == Work().SrcWidth() && BytesPerSample(convert) == Work().DstWidth()
        && Render(Work(), raw) == All(Work(), raw) && [] + All(Work(), raw) == All(Work(), raw)
    {
      hide All, Bounded;
      assert hdr.value.info.sourceFormat == info.sourceFormat && hdr.value.info.sourceBitDepth == info.sourceBitDepth;
      assert Bounded(hdr.value) ==> ValidDepth(info.sourceFormat, info.sourceBitDepth) by {
        BoundedRenders(hdr.value, options);
      }
    }

    // ---- Read --------------------------------------------------------------------------------------------------

    /** Fills p[from..to] with the next bytes, not necessarily all of it. Every call makes progress or reports the end,
        and the end stays the end. */
    method Read(p: array<byte>, from: nat, to: nat) returns (n: nat, e: Option<Error>)
      requires err.None? ==> Valid()
      requires from <= to <= p.Length <= maxInt
      modifies this`remaining, this`outBuf, this`outOff, this`at, src, p
      ensures old(err.Some?) ==> n == 0 && e == err && unchanged(this) && unchanged(p)
      ensures old(err.None?) && from == to ==> n == 0 && e.None? && unchanged(p)
      ensures old(err.None?) ==>
        && Valid() && n <= to - from && n <= |old(Pending())| && at == old(at) + n
        && p[..] == Splice(old(p[..]), from, old(Pending())[..n]) && Pending() == old(Pending())[n..]
        && (e.None? ==> n > 0 || from == to) && (e.Some? ==> e.value == EOF && Pending() == [])
        && (old(Pending()) == [] && from < to ==> n == 0 && e.Some?)
    {
      if err.Some? {
        return 0, err;
      }
      if from == to {
        return 0, None;
      }
      if convert == 0 {
        n, e := ReadRaw(p, from, to);
      } else {
        n, e := ReadConverted(p, from, to);
      }
    }

    /** A read of a decoder that does not convert: stored bytes, none of them from behind the audio. */
    method ReadRaw(p: array<byte>, from: nat, to: nat) returns (n: nat, e: Option<Error>)
      requires src != null && Valid() && convert == 0 && from < to <= p.Length
      modifies this`remaining, this`at, src, p
      ensures Valid() && n <= to - from && n <= |old(Pending())| && at == old(at) + n
      ensures p[..] == Splice(old(p[..]), from, old(Pending())[..n]) && Pending() == old(Pending())[n..]
      ensures (e.None? ==> n > 0) && (e.Some? ==> e.value == EOF && Pending() == [])
      ensures old(Pending()) == [] ==> n == 0 && e.Some?
    {
      hide Opened, Output, Work, Render, Raw, Drop, Splice;
      FieldsGiveTheJob(Raw());
      DropMore(Output(), at, 0);
      SpliceNothing(p[..], from);
      if remaining == 0 {
        NothingLeft();
        return 0, Some(EOF);
      }
      var want := to - from;
      if remaining > 0 && want > remaining {
        want := remaining;
      }
      ghost var raw := Raw();
      var q, eof := Pull(want);
      n := |q|;
      DropMore(Output(), at, n);
      Put(p, from, q);
      at := at + n;
      FieldsGiveTheJob(Raw());
      return n, if eof then Some(EOF) else None;
    }

    lemma NothingLeft()
      requires src != null && remaining == 0
      ensures Raw() == []
    {
    }

    /** One read of the source, accounted for. */
    method Pull(want: nat) returns (q: seq<byte>, eof: bool)
      requires src != null && want > 0 && remaining >= -1 && remaining != 0 && (remaining > 0 ==> want <= remaining)
      modifies this`remaining, src
      ensures |q| <= want && |q| <= |old(Raw())| && q == old(Raw())[..|q|] && Raw() == old(Raw())[|q|..]
      ensures remaining >= -1 && (eof ==> Raw() == []) && (!eof ==> |q| > 0)
    {
      hide Bound, Drop, Take;
      ghost var rest := src.Rest();
      q, eof := src.Read(want);
      BoundStep(rest, remaining, |q|);
      if remaining > 0 {
        remaining := remaining - |q|;
      }
      BoundEnds(src.Rest(), remaining);
      if eof {
        remaining := 0;
      }
    }

    /** A read of a decoder that converts. What one converted sample has over the room in p waits for the next read. */
    method ReadConverted(p: array<byte>, from: nat, to: nat) returns (n: nat, e: Option<Error>)
      requires src != null && Valid() && convert != 0 && from < to <= p.Length <= maxInt
      modifies this`remaining, this`outBuf, this`outOff, this`at, src, p
      ensures Valid() && n <= to - from && n <= |old(Pending())| && at == old(at) + n
      ensures p[..] == Splice(old(p[..]), from, old(Pending())[..n]) && Pending() == old(Pending())[n..]
      ensures (e.None? ==> n > 0) && (e.Some? ==> e.value == EOF && Pending() == [])
      ensures old(Pending()) == [] ==> n == 0 && e.Some?
    {
      hide Opened, Raw, Output, Work, Render, Drop, Splice, All, Job.DstWidth;
      if outOff < |outBuf| {
        n := ServeStaged(p, from, to);
        return n, None;
      }
      DropMore(Output(), at, 0);
      SpliceNothing(p[..], from);
      FieldsGiveTheJob(Raw());
      var batch := NextBatch(to - from);
      FieldsGiveTheJob(Raw());
      if batch == [] {
        return 0, Some(EOF);
      }
      n := Hand(p, from, to, batch);
      return n, None;
    }

    /** The next whole stored samples for a buffer with the given room, or nothing at the end of the audio. */
    method NextBatch(room: nat) returns (batch: seq<byte>)
      requires Opened() && convert != 0 && remaining >= -1 && room > 0 && Work().Valid()
      modifies this`remaining, src
      ensures |batch| % Work().SrcWidth() == 0 && remaining >= -1
      ensures All(Work(), old(Raw())) == All(Work(), batch) + All(Work(), Raw())
      ensures |batch| <= MAX_CONVERT_BATCH && (batch == [] ==> All(Work(), Raw()) == [])
      ensures |All(Work(), batch)| <= room || |batch| == Work().SrcWidth()
    {
      hide Output, Work, Render, Bound, Drop, Take, Bounded, ConvertBatchLen, All;
      FieldsGiveTheJob(Raw());
      BoundEnds(src.Rest(), remaining);
      BoundShort(src.Rest(), remaining);
      AllNone(Work(), []);
      var srcWidth, dstWidth := BytesPerSample(info.sourceBitDepth), BytesPerSample(convert);
      var want := 0;
      if remaining != 0 {
        want := ConvertBatchLen(room, srcWidth, dstWidth, remaining);
        BatchDiscipline(room, srcWidth, dstWidth, remaining);
      }
      batch := [];
      if want == 0 {
        AllNone(Work(), Raw());
      } else {
        batch := TakeBatch(want, srcWidth, Work());
        BatchFits(Work(), batch, want, room);
      }
      if batch == [] {
        BoundEnds(src.Rest(), 0);
        remaining := 0;
      }
    }

    /** Hands out what an earlier conversion left over. */
    method ServeStaged(p: array<byte>, from: nat, to: nat) returns (n: nat)
      requires Valid() && from < to <= p.Length && outOff < |outBuf|
      modifies this`outOff, this`at, p
      ensures Valid() && 0 < n <= to - from && n <= |old(Pending())| && at == old(at) + n
      ensures p[..] == Splice(old(p[..]), from, old(Pending())[..n]) && Pending() == old(Pending())[n..]
    {
      hide Output, Work, Render, Bound, Drop, Take, Splice;
      n := if |outBuf| - outOff < to - from then |outBuf| - outOff else to - from;
      Put(p, from, outBuf[outOff..outOff + n]);
      StagedStep(outBuf, outOff, n, Render(Work(), Raw()));
      DropMore(Output(), at, n);
      outOff := outOff + n;
      at := at + n;
    }

    /** Takes up to want bytes from the source, whole samples only; short only where the source ends. */
    method TakeBatch(want: nat, width: nat, ghost j: Job) returns (batch: seq<byte>)
      requires src != null && j.Valid() && width == j.SrcWidth() && remaining >= -1
      requires want > 0 && want % width == 0 && (remaining >= 0 ==> want <= remaining)
      modifies this`remaining, src
      ensures |batch| <= want && |batch| % width == 0 && remaining >= -1
      ensures All(j, old(Raw())) == All(j, batch) + All(j, Raw())
      ensures batch == [] ==> All(j, Raw()) == []
    {
      hide All, Bound, Drop;
      ghost var rest := src.Rest();
      BatchStep(j, rest, remaining, want);
      var buf := src.ReadFull(want);
      TakeDropEnds(rest, want);
      if remaining > 0 {
        remaining := remaining - |buf|;
      }
      WholeIsMultiple(|buf|, width);
      batch := buf[..Whole(|buf|, width)];
      BoundEnds(src.Rest(), remaining);
      AllNone(j, []);
    }

    /** Converts a batch into the buffer, or into the staging area when the buffer cannot take it. */
    method Hand(p: array<byte>, from: nat, to: nat, batch: seq<byte>) returns (n: nat)
      requires Opened() && err.None? && remaining >= -1 && convert != 0
      requires outOff == |outBuf| && from < to <= p.Length <= maxInt
      requires Work().Valid() && 0 < |batch| <= MAX_CONVERT_BATCH && |batch| % Work().SrcWidth() == 0
      requires All(Work(), batch) + All(Work(), Raw()) == Drop(Output(), at)
      requires |All(Work(), batch)| <= to - from || |batch| == Work().SrcWidth()
      modifies this`outBuf, this`outOff, this`at, p
      ensures Valid() && 0 < n <= to - from && at == old(at) + n
      ensures n <= |All(Work(), batch) + All(Work(), Raw())|
      ensures p[..] == Splice(old(p[..]), from, (All(Work(), batch) + All(Work(), Raw()))[..n])
      ensures Pending() == (All(Work(), batch) + All(Work(), Raw()))[n..]
    {
      hide Output, Work, Render, Bound, Drop, Take, Splice, All, Bounded, ConvertedLen;
      FieldsGiveTheJob(Raw());
      BatchConverts(Work(), batch, maxInt);
      ghost var out, rest := All(Work(), batch), Render(Work(), Raw());
      DropMore(Output(), at, 0);
      var need := match ConvertedLen(|batch|, info.sourceBitDepth, convert, maxInt) {
        case Some(k) => k
        case None => 0
      };
      if need <= to - from {
        n := HandDirect(p, from, batch, out, rest);
      } else {
        n := HandStaged(p, from, to, batch, need, out, rest);
      }
    }

    method HandDirect(p: array<byte>, from: nat, batch: seq<byte>, ghost out: seq<byte>, ghost rest: seq<byte>)
      returns (n: nat)
      requires src != null && Opened() && err.None? && remaining >= -1 && convert != 0 && Work().Valid()
      requires out == All(Work(), batch) && rest == Render(Work(), Raw()) && out + rest == Drop(Output(), at)
      requires from + |out| <= p.Length <= maxInt
      modifies this`outBuf, this`outOff, this`at, p
      ensures Valid() && n == |out| && at == old(at) + n
      ensures p[..] == Splice(old(p[..]), from, (out + rest)[..n]) && Pending() == (out + rest)[n..]
    {
      hide Opened, Output, Work, Render, Bound, Drop, Take, Splice, All, Raw;
      FieldsGiveTheJob(Raw());
      outBuf, outOff := [], 0;
      var r := Convert(p, from, batch, Job(info.sourceFormat, info.sourceBitDepth, convert), maxInt);
      n := r.value;
      StagedStep(out, 0, n, rest);
      WholeSlices(out, rest);
      DropMore(Output(), at, n);
      at := at + n;
      assert Render(Work(), Raw()) == rest;
    }

    /** Converts a batch into bytes of its own. */
    method StageBatch(batch: seq<byte>, need: nat, ghost out: seq<byte>) returns (staged: seq<byte>)
      requires src != null && Opened() && convert != 0 && Work().Valid()
      requires out == All(Work(), batch) && need == |out| == Work().DstWidth()
      ensures staged == out
    {
      hide Opened, Output, Work, Render, Bound, Drop, Take, Splice, All, Raw;
      FieldsGiveTheJob(Raw());
      var staging := new byte[need];
      SpliceWhole(staging[..], out);
      var r := Convert(staging, 0, batch, Job(info.sourceFormat, info.sourceBitDepth, convert), 0x7fff_ffff);
      return staging[..];
    }

    method HandStaged(p: array<byte>, from: nat, to: nat, batch: seq<byte>, need: nat, ghost out: seq<byte>,
                      ghost rest: seq<byte>) returns (n: nat)
      requires src != null && Opened() && err.None? && remaining >= -1 && convert != 0 && Work().Valid()
      requires out == All(Work(), batch) && rest == Render(Work(), Raw()) && out + rest == Drop(Output(), at)
      requires from < to <= p.Length && to - from < need == |out| == Work().DstWidth()
      modifies this`outBuf, this`outOff, this`at, p
      ensures Valid() && n == to - from && at == old(at) + n
      ensures p[..] == Splice(old(p[..]), from, (out + rest)[..n]) && Pending() == (out + rest)[n..]
    {
      hide Opened, Output, Work, Render, Bound, Drop, Take, Splice, All, Raw;
      outBuf := StageBatch(batch, need, out);
      n := to - from;
      StagedStep(out, 0, n, rest);
      WholeSlices(out, rest);
      Put(p, from, outBuf[..n]);
      outOff := n;
      DropMore(Output(), at, n);
      at := at + n;
      assert Render(Work(), Raw()) == rest;
    }

    // ---- Reset -------------------------------------------------------------------------------------------------

    /** Leaves nothing of a previous stream usable. */
    method Fail(e: Error)
      modifies this
      ensures src == null && hdr.None? && err == Some(e)
    {
      src, options, hdr, info, remaining, dataStart, convert := null, Options(None, false), None, NO_INFO, 0, -1, 0;
      outBuf, outOff, err, start, at := [], 0, Some(e), 0, 0;
    }

    /** Binds the decoder to a source and reads its header. It then stands at the first frame of what the source's
        bytes decode to, or is unusable. */
    method Reset(r: Source?, o: Options) returns (e: Option<Error>)
      requires 0x7fff_ffff <= maxInt && (r != null && r.seekable ==> |r.data| <= MAX_INT64)
      modifies this, r
      ensures r == null ==> e == Some(NilReader)
      ensures e.Some? ==> err == e && src == null && hdr.None?
      ensures r != null ==>
        match Decoded(old(r.Rest()), o)
        case Err(x) => e == Some(x)
        case Ok((output, description)) =>
          e.None? && Valid() && src == r && at == 0 && info == description && Output() == Pending() == output
          && options == o && remaining == Remaining(hdr.value, o) && (r.seekable && r.reliable ==> dataStart == start)
    {
      hide Parse, Bounded, Acceptable, InfoOf, Render, Bound, Remaining, Valid, Output, Pending;
      if r == null {
        Fail(NilReader);
        return err;
      }
      AcceptableMeans(o);
      if o.convertTo.Some? && !ValidDepth(PCM, o.convertTo.value) {
        Fail(Unsupported);
        return err;
      }
      ghost var bytes := r.Rest();
      ParseIsBounded(bytes);
      var parsed := ParseHeader(r);
      if parsed.Err? {
        Fail(parsed.error);
        return err;
      }
      BehindTheHeader(r, bytes);
      Adopt(r, o, parsed.value);
      return None;
    }

    /** Takes over a source whose header has just been read. */
    method Adopt(r: Source, o: Options, h: Header)
      requires Bounded(h) && Acceptable(o) && 0x7fff_ffff <= maxInt
      requires r.pos <= |r.data| && (r.seekable ==> |r.data| <= MAX_INT64)
      modifies this
      ensures Opened() && hdr == Some(h) && options == o && src == r && at == 0 && err.None? && outOff == |outBuf|
      ensures info == InfoOf(h, o) && remaining == Remaining(h, o) && (r.seekable && r.reliable ==> dataStart == start)
      ensures Valid() && Output() == Pending() == Render(Work(), Bound(r.Rest(), Remaining(h, o)))
    {
      hide Render, Bound;
      var offset, told := r.Tell();
      src, options, hdr, err := r, o, Some(h), None;
      outBuf, outOff := [], 0;
      start, at := r.pos, 0;
      dataStart := if told then offset else -1;
      Describe(h);
      DropMore(Output(), 0, 0);
      assert [] + Render(Work(), Raw()) == Render(Work(), Raw());
    }

    /** Derives from the header and the options what reads are bounded by, and what reading yields. */
    method Describe(h: Header)
      requires Bounded(h) && Acceptable(options)
      modifies this`remaining, this`info, this`convert
      ensures remaining == Remaining(h, options) && info == InfoOf(h, options)
      ensures convert == Target(options, h.info.sourceFormat)
    {
      remaining := h.dataSize;
      info := h.info;
      var known := h.dataSize != SIZE_UNKNOWN && !options.ignoreLength;
      if !known {
        remaining := -1;
      }
      info := info.(dataSizeKnown := known);
      if options.ignoreLength {
        info := info.(totalFrames := 0);
      }
      var target := if options.convertTo.Some? then options.convertTo.value else 0;
      if target == 0 && info.sourceFormat.Companded() {
        target := 16;
      }
      convert := target;
      if target != 0 {
        info := info.(bitDepth := target, format := PCM, validBits := 0);
      }
    }

    // ---- SeekToFrame -------------------------------------------------------------------------------------------

    /** The frame a request leads to: clamped to the end of the audio where a length is known. */
    ghost function Reached(frame: nat): nat
      requires Opened()
      reads `src, `options, `hdr, `info, `dataStart, `convert, `start
    {
      var h := hdr.value;
      if LengthKnown(h, options) && frame * h.blockAlign > h.dataSize then h.dataSize / h.blockAlign else frame
    }

    /** Moves to an inter-channel frame: what follows is the output from that frame on. A refused seek moves nothing. */
    method SeekToFrame(frame: int64) returns (reached: int64, e: Option<Error>)
      requires err.None? ==> Valid()
      modifies this`remaining, this`outBuf, this`outOff, this`at, src
      ensures e.Some? ==> reached == 0 && unchanged(this) && (src != null ==> unchanged(src))
      ensures old(err.Some?) ==> e == err
      ensures old(err.None?) ==>
        && (frame < 0 ==> e == Some(BadFrameIndex))
        && (frame >= 0 && dataStart < 0 ==> e == Some(SeekUnsupported))
        && (frame >= 0 && dataStart >= 0 ==>
              && (e == Some(BadFrameIndex) <==> dataStart + frame * hdr.value.blockAlign > MAX_INT64)
              && (e.Some? ==> e.value in {BadFrameIndex, SourceFailure})
              && (src.reliable ==> e != Some(SourceFailure)))
        && (e.None? ==>
          && Valid() && reached == Reached(frame) <= frame
          && at == reached * info.channels * RenderedWidth(Work()))
    {
      hide InfoOf, Target, Acceptable, Output, Raw, Pending, RenderedWidth;
      if err.Some? {
        return 0, err;
      }
      if frame < 0 {
        return 0, Some(BadFrameIndex);
      }
      if !src.seekable || dataStart < 0 {
        return 0, Some(SeekUnsupported);
      }
      var known := hdr.value.dataSize != SIZE_UNKNOWN && !options.ignoreLength;
      var offset, landed, addressable := FrameOffset(frame, hdr.value.blockAlign, dataStart, known, hdr.value.dataSize);
      if !addressable {
        return 0, Some(BadFrameIndex);
      }
      var ok := src.SeekTo(dataStart + offset);
      if !ok {
        return 0, Some(SourceFailure);
      }
      Land(offset, known, landed);
      return landed, None;
    }

    /** Takes up reading at a byte offset into the audio, whatever was staged before. */
    method Land(offset: int64, known: bool, ghost frame: nat)
      requires src != null && Opened() && err.None? && known == LengthKnown(hdr.value, options)
      requires 0 <= offset == frame * hdr.value.blockAlign && src.pos == start + offset
      requires known ==> offset <= hdr.value.dataSize
      modifies this`remaining, this`outBuf, this`outOff, this`at
      ensures Valid() && at == frame * info.channels * RenderedWidth(Work())
    {
      hide Render, Drop, Bound, RenderedWidth, StoredWidth, Bounded;
      LandingRendersTheRest(frame, offset);
      remaining := if known then hdr.value.dataSize - offset else -1;
      outBuf, outOff := [], 0;
      at := frame * info.channels * RenderedWidth(Work());
    }

    /** The stored audio from a frame on renders to the output from that frame on. */
    lemma LandingRendersTheRest(frame: nat, offset: int64)
      requires src != null && Opened() && 0 <= offset == frame * hdr.value.blockAlign
      requires LengthKnown(hdr.value, options) ==> offset <= hdr.value.dataSize
      ensures info.channels > 0 && frame * info.channels * RenderedWidth(Work()) >= 0
      ensures
        var left := if LengthKnown(hdr.value, options) then hdr.value.dataSize - offset else -1;
        [] + Render(Work(), Bound(Drop(src.data, start + offset), left))
          == Drop(Output(), frame * info.channels * RenderedWidth(Work()))
    {
      hide Render, Drop, Bound;
      var h := hdr.value;
      BoundSkips(src.data, start, Remaining(h, options), offset);
      FrameBytes(frame, StoredWidth(Work()), info.channels);
      RenderSkips(Work(), Bound(Drop(src.data, start), Remaining(h, options)), frame * info.channels);
    }

    // ---- WriteTo -----------------------------------------------------------------------------------------------

    /** Repeats short reads: a buffer that comes back unfilled has met the end. */
    method FillBuffer(buf: array<byte>) returns (filled: nat, ended: bool)
      requires Valid() && 0 < buf.Length <= maxInt
      modifies this`remaining, this`outBuf, this`outOff, this`at, src, buf
      ensures Valid() && filled <= buf.Length && filled <= |old(Pending())|
      ensures buf[..filled] == old(Pending())[..filled]
      ensures Pending() == old(Pending())[filled..] && at == old(at) + filled
      ensures (ended ==> Pending() == []) && (!ended ==> filled == buf.Length)
    {
      hide Opened, Pending, Output, Work, Splice;
      filled, ended := 0, false;
      ghost var all := Pending();
      while filled < buf.Length && !ended
        invariant Valid() && filled <= buf.Length && filled <= |all| && at == old(at) + filled
        invariant buf[..filled] == all[..filled] && Pending() == all[filled..]
        invariant ended ==> Pending() == []
        decreases |all| - filled, !ended
      {
        ghost var before := buf[..];
        var n, e := Read(buf, filled, buf.Length);
        FillExtends(before, filled, all, n);
        filled := filled + n;
        ended := e.Some?;
      }
    }

    /** Drains the rest of the output into a sink, in blocks of 64 KiB of which only the last may be shorter. */
    method WriteTo(w: Sink) returns (total: nat, e: Option<Error>)
      requires err.None? ==> Valid()
      requires 0x7fff_ffff <= maxInt
      modifies this`remaining, this`outBuf, this`outOff, this`at, src, w
      ensures old(err.Some?) ==> total == 0 && e == err && unchanged(w)
      ensures old(err.None?) ==>
        && Valid() && total <= |old(Pending())| && w.pos == old(w.pos) + total
        && w.data == Overwrite(old(w.data), old(w.pos), old(Pending())[..total])
        && (e.None? ==> total == |old(Pending())| && Pending() == [])
        && (w.reliable ==> e.None?)
        && InFullBlocks(old(w.blocks), w.blocks)
    {
      if err.Some? {
        return 0, err;
      }
      total, e := Drain(w);
    }

    lemma ValidIsOpened()
      requires Valid()
      ensures Opened() && outOff <= |outBuf|
    {
      hide Opened, Pending, Output, Drop;
    }

    method Drain(w: Sink) returns (total: nat, e: Option<Error>)
      requires Valid() && 0x7fff_ffff <= maxInt
      modifies this`remaining, this`outBuf, this`outOff, this`at, src, w
      ensures Valid() && total <= |old(Pending())| && w.pos == old(w.pos) + total
      ensures w.data == Overwrite(old(w.data), old(w.pos), old(Pending())[..total])
      ensures (e.None? ==> total == |old(Pending())| && Pending() == []) && (w.reliable ==> e.None?)
      ensures InFullBlocks(old(w.blocks), w.blocks)
    {
      hide Opened, Pending, Output, Work, Overwrite, Drop, Job.DstWidth, AllFull, InFullBlocks, Valid;
      var buf := new byte[WRITE_TO_BUFFER];
      var ended := false;
      total, e := 0, None;
      ValidIsOpened();
      ghost var all := Pending();
      OverwriteNothing(w.data, w.pos);
      NoBlocks(w.blocks);
      while !ended
        invariant Valid() && Opened() && outOff <= |outBuf|
        invariant total <= |all| && Pending() == all[total..]
        invariant w.pos == old(w.pos) + total && w.data == Overwrite(old(w.data), old(w.pos), all[..total])
        invariant ended ==> Pending() == []
        invariant InFullBlocks(old(w.blocks), w.blocks) && (!ended ==> AllFull(old(w.blocks), w.blocks))
        decreases |all| - total, !ended
      {
        var filled;
        filled, ended := FillBuffer(buf);
        ValidIsOpened();
        if filled > 0 {
          var block := buf[..filled];
          OneMoreBlock(old(w.blocks), w.blocks, filled);
          var written, ok := w.Write(block);
          DrainExtends(old(w.data), old(w.pos), all, total, block, written);
          total := total + written;
          if !ok {
            return total, Some(SinkFailure);
          }
        }
      }
    }
  }
}
