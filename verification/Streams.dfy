/** What decoding a byte string yields, as a function: the reference every decoding path is held to. */
module Streams {
  import opened Wire
  import opened Types
  import opened Chunks
  import opened Arith
  import opened Sources
  import opened HeaderReader
  import opened WalkLaws
  import opened Samples
  import opened Conversion

  /** convertTo asks for signed integer PCM of that width. */
  datatype Options = Options(convertTo: Option<int>, ignoreLength: bool)

  /** The width samples are converted to, 0 for a pass-through: a companded source is expanded unasked. */
  function Target(o: Options, source: SampleFormat): int {
    var asked := if o.convertTo.Some? then o.convertTo.value else 0;
    if asked == 0 && source.Companded() then 16 else asked
  }

  predicate Acceptable(o: Options) {
    o.convertTo.Some? ==> ValidDepth(PCM, o.convertTo.value)
  }

  /** Whether there is a declared length that reads and seeks may be bounded by. */
  predicate LengthKnown(h: Header, o: Options) {
    h.dataSize != SIZE_UNKNOWN && !o.ignoreLength
  }

  /** The first n of rest, or all of it when n is negative. */
  function Bound(rest: seq<byte>, n: int): seq<byte> {
    if n < 0 then rest else Take(rest, n)
  }

  function Remaining(h: Header, o: Options): int64 {
    if LengthKnown(h, o) then h.dataSize else SIZE_UNKNOWN
  }

  /** The description of what decoding yields. */
  function InfoOf(h: Header, o: Options): StreamInfo {
    var target := Target(o, h.info.sourceFormat);
    var info := h.info.(dataSizeKnown := LengthKnown(h, o),
      totalFrames := if o.ignoreLength then 0 else h.info.totalFrames);
    if target == 0 then info else info.(bitDepth := target, format := PCM, validBits := 0)
  }

  /** A conversion job, or none for a pass-through. */
  function JobOf(h: Header, o: Options): Job {
    Job(h.info.sourceFormat, h.info.sourceBitDepth, Target(o, h.info.sourceFormat))
  }

  predicate Renders(j: Job) {
    j.Valid() || (j.dstBits == 0 && ValidDepth(j.format, j.srcBits) && !j.format.Companded())
  }

  lemma BoundedRenders(h: Header, o: Options)
    requires Bounded(h) && Acceptable(o)
    ensures Renders(JobOf(h, o))
  {
  }

  /** Stored bytes as they are handed out. */
  function Render(j: Job, raw: seq<byte>): seq<byte>
    requires Renders(j)
  {
    if j.dstBits == 0 then raw else All(j, raw)
  }

  function StoredWidth(j: Job): (w: nat)
    requires Renders(j)
    ensures w in {1, 2, 3, 4, 8}
  {
    BytesPerSample(j.srcBits)
  }

  function RenderedWidth(j: Job): (w: nat)
    requires Renders(j)
    ensures w in {1, 2, 3, 4, 8}
  {
    if j.dstBits == 0 then BytesPerSample(j.srcBits) else BytesPerSample(j.dstBits)
  }

  /** The whole decoded stream and its description. */
  function Decoded(b: seq<byte>, o: Options): Result<(seq<byte>, StreamInfo)> {
    if !Acceptable(o) then Err(Unsupported)
    else
      match Parse(b)
      case Err(e) => Err(e)
      case Ok(p) =>
        ParseIsBounded(b);
        BoundedRenders(p.header, o);
        Ok((Render(JobOf(p.header, o), Bound(p.audio, Remaining(p.header, o))), InfoOf(p.header, o)))
  }

  // ---- laws ----------------------------------------------------------------------------------------------------

  lemma BoundEnds(rest: seq<byte>, n: int)
    ensures Bound(rest, 0) == [] && (rest == [] ==> Bound(rest, n) == [])
  {
  }

  lemma BoundShort(rest: seq<byte>, n: int)
    ensures n >= 0 ==> |Bound(rest, n)| <= n
  {
  }

  /** Taking what is not there takes everything. */
  lemma TakeDropEnds(rest: seq<byte>, n: nat)
    ensures Drop(rest, |Take(rest, n)|) == Drop(rest, n)
    ensures |Take(rest, n)| <= n && (|Take(rest, n)| < n ==> Drop(rest, n) == [])
  {
  }

  /** Handing out the first k bytes of a bounded rest leaves the others. */
  lemma BoundStep(rest: seq<byte>, n: int, k: nat)
    requires k <= |rest| && (n >= 0 ==> k <= n)
    ensures k <= |Bound(rest, n)| && Bound(rest, n)[..k] == Take(rest, k)
    ensures Bound(Drop(rest, k), if n > 0 then n - k else n) == Bound(rest, n)[k..]
  {
  }

  /** Converting a batch of whole samples first and the rest later is converting everything. */
  lemma BatchStep(j: Job, rest: seq<byte>, n: int, want: nat)
    requires j.Valid() && want % j.SrcWidth() == 0 && (n >= 0 ==> want <= n)
    ensures
      var buf := Take(rest, want);
      All(j, Bound(rest, n))
      == All(j, buf[..Whole(|buf|, j.SrcWidth())]) + All(j, Bound(Drop(rest, want), if n > 0 then n - |buf| else n))
  {
    hide All;
    var buf := Take(rest, want);
    var left := Bound(Drop(rest, want), if n > 0 then n - |buf| else n);
    TrailingIgnored(buf, j);
    if |buf| == want {
      BoundStep(rest, n, want);
      assert Bound(rest, n) == buf + left;
      AllSplit(j, buf, left);
    } else {
      assert Bound(rest, n) == buf && left == [];
      AllNone(j, left);
    }
  }

  /** Skipping k samples of stored audio is skipping k samples of the rendered audio. */
  lemma RenderSkips(j: Job, raw: seq<byte>, k: nat)
    requires Renders(j)
    ensures Render(j, Drop(raw, k * StoredWidth(j))) == Drop(Render(j, raw), k * RenderedWidth(j))
  {
    hide All;
    var s := k * StoredWidth(j);
    if j.dstBits != 0 {
      if s <= |raw| {
        ProductDiv(k, j.SrcWidth());
        assert raw == raw[..s] + raw[s..];
        AllSplit(j, raw[..s], raw[s..]);
        assert |All(j, raw[..s])| == k * j.DstWidth();
        AppendedDrop(All(j, raw[..s]), All(j, raw[s..]), k * j.DstWidth());
      } else {
        AllNone(j, []);
        FewerSamples(|raw|, j.SrcWidth(), k, j.DstWidth());
      }
    }
  }

  lemma BoundSkips(data: seq<byte>, start: nat, n: int, off: nat)
    requires start <= |data| && (n >= 0 ==> off <= n)
    ensures Drop(Bound(Drop(data, start), n), off) == Bound(Drop(data, start + off), if n >= 0 then n - off else n)
  {
  }

  lemma AppendedDrop(x: seq<byte>, y: seq<byte>, n: nat)
    requires n == |x|
    ensures Drop(x + y, n) == y
  {
  }

  lemma FewerSamples(n: nat, w: nat, k: nat, d: nat)
    requires w > 0 && k * w > n
    ensures n / w * d <= k * d
  {
    ProductGuard(k, w, n);
    ProductMonotone(n / w, k, d);
  }

  /** Handing out n staged bytes. */
  lemma StagedStep(s: seq<byte>, i: nat, n: nat, x: seq<byte>)
    requires i + n <= |s|
    ensures n <= |s[i..] + x| && (s[i..] + x)[..n] == s[i..i + n] && (s[i..] + x)[n..] == s[i + n..] + x
  {
  }

  lemma DropMore(s: seq<byte>, at: nat, n: nat)
    requires n <= |Drop(s, at)|
    ensures Drop(s, at)[n..] == Drop(s, at + n)
  {
  }
}
