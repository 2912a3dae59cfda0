/** What a caller gets for what was asked: the width, the description and the bytes of every decoded stream. */
module DecodedLaws {
  import opened Wire
  import opened Types
  import opened Chunks
  import opened Arith
  import opened HeaderReader
  import opened WalkLaws
  import opened Samples
  import opened SampleLaws
  import opened Streams

  /** The audio of a stream: up to its stated length, or to the end where none is stated or it is to be ignored. */
  function Audio(p: Parsed, ignoreLength: bool): seq<byte> {
    if p.header.dataSize < 0 || ignoreLength || p.header.dataSize > |p.audio| then p.audio
    else p.audio[..p.header.dataSize]
  }

  /** A byte string decodes exactly when it parses and the width asked for, if any, is one of signed integer PCM. */
  lemma DecodesExactly(b: seq<byte>, o: Options)
    ensures Decoded(b, o).Ok? <==> Parse(b).Ok? && (o.convertTo.Some? ==> o.convertTo.value in {8, 16, 24, 32})
    ensures Decoded(b, o).Err? ==>
      Decoded(b, o).error ==
        if o.convertTo.Some? && o.convertTo.value !in {8, 16, 24, 32} then Unsupported else Parse(b).error
  {
    hide Parse, Bounded, Render, Bound, InfoOf, JobOf;
  }

  /** The width a stream is delivered at, as a number of bits: the one asked for, 16 for companded audio unasked, and
      otherwise the one stored. */
  function DeliveredBits(o: Options, info: StreamInfo): int {
    if o.convertTo.Some? then o.convertTo.value
    else if info.sourceFormat in {ALaw, MuLaw} then 16
    else info.sourceBitDepth
  }

  /** Whether anything is converted at all. */
  predicate Converts(o: Options, info: StreamInfo) {
    o.convertTo.Some? || info.sourceFormat in {ALaw, MuLaw}
  }

  /** How many whole samples a byte string holds, and those samples. */
  function SampleCount(s: seq<byte>, bits: int): nat
    requires bits in {8, 16, 24, 32, 64}
  {
    |s| / (bits / 8)
  }

  function WholeSamples(s: seq<byte>, bits: int): seq<byte>
    requires bits in {8, 16, 24, 32, 64}
  {
    s[..|s| - |s| % (bits / 8)]
  }

  /** What is delivered. Asked for k bits, every whole stored sample becomes k/8 bytes of signed integer PCM,
      described as such; asked for nothing, companded audio becomes 16-bit PCM and anything else is its stored bytes,
      described as stored. At equal depths integer samples come back unchanged. */
  lemma DeliveredAsAsked(b: seq<byte>, o: Options)
    requires Decoded(b, o).Ok?
    ensures
      var p := Parse(b).value;
      var ((out, info), source, raw) := (Decoded(b, o).value, p.header.info, Audio(p, o.ignoreLength));
      var bits := DeliveredBits(o, source);
      && source.sourceBitDepth in {8, 16, 24, 32, 64}
      && info.bitDepth == bits
      && (Converts(o, source) ==>
            && info.format == PCM && info.validBits == 0 && bits in {8, 16, 24, 32}
            && |out| == SampleCount(raw, source.sourceBitDepth) * (bits / 8)
            && (source.sourceFormat == PCM && source.sourceBitDepth == bits ==> out == WholeSamples(raw, bits)))
      && (!Converts(o, source) ==> out == raw && info.format == source.format && info.validBits == source.validBits)
  {
    hide Parse, Bounded, InfoOf, JobOf, Render, Audio, Bound, Remaining, DeliveredBits, Converts, Acceptable,
      SampleCount, WholeSamples;
    var p := Parse(b).value;
    ParseIsBounded(b);
    AudioIsBound(p, o);
    BoundedRenders(p.header, o);
    JobIsAsAsked(p.header, o);
    RenderedBytes(JobOf(p.header, o), Audio(p, o.ignoreLength));
  }

  /** The job and the description an accepted option leads to. */
  lemma JobIsAsAsked(h: Header, o: Options)
    requires Bounded(h) && Acceptable(o)
    ensures
      var (j, info, bits) := (JobOf(h, o), InfoOf(h, o), DeliveredBits(o, h.info));
      && j.format == h.info.sourceFormat && j.srcBits == h.info.sourceBitDepth && j.srcBits in {8, 16, 24, 32, 64}
      && info.bitDepth == bits
      && (Converts(o, h.info) ==>
            && j.Valid() && j.dstBits == bits && bits in {8, 16, 24, 32} && info.format == PCM && info.validBits == 0)
      && (!Converts(o, h.info) ==>
            && j.dstBits == 0 && info.format == h.info.format && info.validBits == h.info.validBits)
  {
  }

  lemma RenderedBytes(j: Job, raw: seq<byte>)
    requires Renders(j)
    ensures j.dstBits == 0 ==> Render(j, raw) == raw
    ensures j.Valid() ==>
      && |Render(j, raw)| == SampleCount(raw, j.srcBits) * (j.dstBits / 8)
      && (j.format == PCM && j.srcBits == j.dstBits ==> Render(j, raw) == WholeSamples(raw, j.dstBits))
  {
    hide All;
    if j.Valid() && j.format == PCM && j.srcBits == j.dstBits {
      var w := j.SrcWidth();
      WholeIsMultiple(|raw|, w);
      SameDepthIsCopy(j.srcBits, raw[..Whole(|raw|, w)]);
      EverythingWhole(j, raw, Whole(|raw|, w));
    }
  }

  lemma AudioIsBound(p: Parsed, o: Options)
    requires Bounded(p.header)
    ensures Bound(p.audio, Remaining(p.header, o)) == Audio(p, o.ignoreLength)
  {
  }

  lemma EverythingWhole(j: Job, raw: seq<byte>, whole: nat)
    requires j.Valid() && whole <= |raw| && whole % j.SrcWidth() == 0 && |raw| - whole < j.SrcWidth()
    ensures All(j, raw) == All(j, raw[..whole])
  {
    hide All;
    assert raw == raw[..whole] + raw[whole..];
    AllSplit(j, raw[..whole], raw[whole..]);
    AllNone(j, raw[whole..]);
  }

  /** Each delivered sample: what stands in its place is the conversion of the stored one, which SampleLaws spells out
      in bytes and numbers, wherever in the stream it stands. */
  lemma DeliveredSample(b: seq<byte>, o: Options, before: seq<byte>, s: seq<byte>, behind: seq<byte>)
    requires Decoded(b, o).Ok? && Converts(o, Parse(b).value.header.info)
    requires Audio(Parse(b).value, o.ignoreLength) == before + (s + behind)
    requires
      var w := Parse(b).value.header.info.sourceBitDepth / 8;
      |s| == w > 0 && |before| % w == 0
    ensures
      var source := Parse(b).value.header.info;
      var bits := DeliveredBits(o, source);
      var j := Job(source.sourceFormat, source.sourceBitDepth, bits);
      && j.Valid()
      && |All(j, before)| == |before| / (source.sourceBitDepth / 8) * (bits / 8)
      && Decoded(b, o).value.0 == All(j, before) + (One(j, s) + All(j, behind))
  {
    hide Parse, Bounded, InfoOf, JobOf, Render, Audio, Bound, Remaining, DeliveredBits, Converts, Acceptable;
    var p := Parse(b).value;
    ParseIsBounded(b);
    AudioIsBound(p, o);
    BoundedRenders(p.header, o);
    JobIsAsAsked(p.header, o);
    RenderedSample(JobOf(p.header, o), before, s, behind);
  }

  lemma RenderedSample(j: Job, before: seq<byte>, s: seq<byte>, behind: seq<byte>)
    requires j.Valid() && Renders(j) && |s| == j.srcBits / 8 && |before| % (j.srcBits / 8) == 0
    ensures
      && |All(j, before)| == |before| / (j.srcBits / 8) * (j.dstBits / 8)
      && Render(j, before + (s + behind)) == All(j, before) + (One(j, s) + All(j, behind))
  {
    hide All, One;
    EverySampleInItsPlace(j, before, s, behind);
  }

  /** The rest of the description is the stream's own; ignoring its length forgets both counts. */
  lemma DescriptionIsKept(b: seq<byte>, o: Options)
    requires Decoded(b, o).Ok?
    ensures
      var info, h := Decoded(b, o).value.1, Parse(b).value.header;
      && info.sampleRate == h.info.sampleRate && info.channels == h.info.channels
      && info.sourceBitDepth == h.info.sourceBitDepth && info.sourceFormat == h.info.sourceFormat
      && info.container == h.info.container
      && info.extensible == h.info.extensible && info.channelMask == h.info.channelMask
      && info.totalFrames == (if o.ignoreLength then 0 else h.info.totalFrames)
      && info.dataSizeKnown == (h.dataSize >= 0 && !o.ignoreLength)
  {
    hide Parse, Bounded, Render, Bound, JobOf;
    ParseIsBounded(b);
    SizeIsKnownOrNot(Parse(b).value.header);
  }

  lemma SizeIsKnownOrNot(h: Header)
    requires Bounded(h)
    ensures h.dataSize >= 0 <==> h.dataSize != SIZE_UNKNOWN
  {
  }
}
