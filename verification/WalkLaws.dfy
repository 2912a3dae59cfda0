/** What the chunk walk promises: bounds on every result, tolerance of missing pad bytes, independence of the order
    of chunks. */
module WalkLaws {
  import opened Wire
  import opened Types
  import opened Chunks
  import opened Arith
  import opened Format
  import opened Sources
  import opened HeaderReader

  // ---- bounds on untrusted input -------------------------------------------------------------------------------

  /** What a caller may rely on in every header the parser hands out, whatever bytes it came from. */
  predicate Bounded(h: Header) {
    && 0 < h.info.sampleRate <= MAX_SAMPLE_RATE
    && 0 < h.info.channels <= 0xffff
    && ValidDepth(h.info.format, h.info.bitDepth)
    && h.info.bitDepth == h.info.sourceBitDepth && h.info.format == h.info.sourceFormat
    && h.blockAlign == BytesPerSample(h.info.bitDepth) * h.info.channels && h.blockAlign > 0
    && (h.dataSize == SIZE_UNKNOWN || 1 <= h.dataSize <= MAX_DATA_SIZE)
    && h.info.dataSizeKnown == (h.dataSize != SIZE_UNKNOWN)
    && h.info.totalFrames * h.blockAlign <= MAX_DATA_SIZE
    && (h.dataSize != SIZE_UNKNOWN ==> h.info.totalFrames == h.dataSize / h.blockAlign)
    && |Bytes(h.bext)| <= MAX_CHUNK_PAYLOAD && |Bytes(h.ixml)| <= MAX_CHUNK_PAYLOAD
  }

  predicate SeenSound(a: Seen) {
    && (a.fmt.Some? ==> Sound(a.fmt.value))
    && (a.bext.Some? ==> |Bytes(a.bext.value)| <= MAX_CHUNK_PAYLOAD)
    && (a.ixml.Some? ==> |Bytes(a.ixml.value)| <= MAX_CHUNK_PAYLOAD)
  }

  lemma FramesBounded(dataSize: int64, blockAlign: int64, ds64: Option<DS64Info>, fact: uint32)
    requires blockAlign > 0 && -1 <= dataSize <= MAX_DATA_SIZE
    ensures ResolveFrames(dataSize, blockAlign, ds64, fact) * blockAlign <= MAX_DATA_SIZE
  {
    var n := ResolveFrames(dataSize, blockAlign, ds64, fact);
    WholeIsMultiple(MAX_DATA_SIZE, blockAlign);
    if dataSize != SIZE_UNKNOWN {
      WholeIsMultiple(dataSize, blockAlign);
    } else {
      ProductMonotone(n, MAX_DATA_SIZE / blockAlign, blockAlign);
    }
  }

  lemma ConcludedIsBounded(container: Container, a: Seen, size: uint32)
    requires SeenSound(a) && Conclude(container, a, size).Ok?
    ensures Bounded(Conclude(container, a, size).value)
  {
    var f := a.fmt.value;
    FramesBounded(ResolveDataSize(size, container, a.ds64), f.blockAlign, a.ds64, a.fact);
  }

  /** What lies behind a chunk, its pad byte settled. */
  function Behind(s: seq<byte>): seq<byte>
    requires |s| >= CHUNK_HEADER_SIZE
  {
    SkipPad(Drop(s[8..], U32(s, 4)), U32(s, 4))
  }

  lemma BehindIsSuffix(s: seq<byte>)
    requires |s| >= CHUNK_HEADER_SIZE
    ensures |Behind(s)| + CHUNK_HEADER_SIZE <= |s| && Behind(s) == s[|s| - |Behind(s)|..]
  {
    hide U32, SkipPad, Drop;
    var d := Drop(s[8..], U32(s, 4));
    DropIsSuffix(s[8..], U32(s, 4));
    SkipPadIsSuffix(d, U32(s, 4));
    SuffixOfSuffix(Behind(s), d, s[8..]);
    SuffixOfSuffix(Behind(s), s[8..], s);
  }

  lemma SkipPadIsSuffix(s: seq<byte>, size: uint32)
    ensures |SkipPad(s, size)| <= |s| && SkipPad(s, size) == s[|s| - |SkipPad(s, size)|..]
  {
    hide Plausible;
  }

  lemma SuffixOfSuffix(t: seq<byte>, d: seq<byte>, s: seq<byte>)
    requires |t| <= |d| <= |s| && t == d[|d| - |t|..] && d == s[|s| - |d|..]
    ensures t == s[|s| - |t|..]
  {
  }

  lemma {:induction false} WalkIsBounded(s: seq<byte>, container: Container, a: Seen)
    requires SeenSound(a)
    ensures var r := Walk(s, container, a);
            r.Ok? ==> Bounded(r.value.header)
                      && |r.value.audio| + CHUNK_HEADER_SIZE <= |s| && r.value.audio == s[|s| - |r.value.audio|..]
    decreases |s|
  {
    hide Bounded, Absorb, Conclude, SkipPad, Drop, Payload, U32, SeenSound;
    if |s| < CHUNK_HEADER_SIZE {
    } else {
      var id, size, payload := s[..4], U32(s, 4), Payload(s[8..], U32(s, 4));
      if id == DATA {
        if Conclude(container, a, size).Ok? {
          ConcludedIsBounded(container, a, size);
        }
      } else if Absorb(a, id, payload).Ok? {
        PayloadHeld(s[8..], size);
        AbsorbKeepsSound(a, id, payload);
        BehindIsSuffix(s);
        WalkIsBounded(Behind(s), container, Absorb(a, id, payload).value);
      }
    }
  }

  lemma PayloadHeld(s: seq<byte>, size: uint32)
    ensures |Bytes(Payload(s, size))| <= MAX_CHUNK_PAYLOAD
  {
  }

  lemma AbsorbKeepsSound(a: Seen, id: seq<byte>, payload: Option<seq<byte>>)
    requires SeenSound(a) && |Bytes(payload)| <= MAX_CHUNK_PAYLOAD
    ensures Absorb(a, id, payload).Ok? ==> SeenSound(Absorb(a, id, payload).value)
  {
    ParsedFmtIsSound(Bytes(payload));
  }

  /** On every byte string the parser ends in an error or a bounded header; the audio is a proper suffix of the
      input, behind at least a file header and a data chunk header. */
  lemma ParseIsBounded(s: seq<byte>)
    ensures var r := Parse(s);
            r.Ok? ==>
              && Bounded(r.value.header) && |r.value.audio| + 20 <= |s|
              && r.value.audio == s[|s| - |r.value.audio|..]
  {
    hide Bounded, Walk, ContainerOf;
    if |s| >= FILE_HEADER_SIZE && ContainerOf(s[..4]).Some? {
      WalkIsBounded(s[12..], ContainerOf(s[..4]).value, NOTHING_SEEN);
      var r := Walk(s[12..], ContainerOf(s[..4]).value, NOTHING_SEEN);
      if r.Ok? {
        SuffixOfSuffix(r.value.audio, s[12..], s);
      }
    }
  }

  // ---- lists of chunks -----------------------------------------------------------------------------------------

  /** A complete chunk ahead of the data chunk; pad says whether an odd body is followed by its pad byte. */
  datatype Piece = Piece(id: seq<byte>, body: seq<byte>, pad: bool)

  predicate GoodPiece(p: Piece) {
    |p.id| == 4 && p.id != DATA && |p.body| <= MAX_UINT32
  }

  function PieceBytes(p: Piece): seq<byte>
    requires GoodPiece(p)
  {
    Chunk(p.id, p.body) + if p.pad then PadOf(|p.body|) else []
  }

  predicate GoodPieces(ps: seq<Piece>) {
    forall p <- ps :: GoodPiece(p)
  }

  /** The pieces one after another, then tail. */
  function LayOut(ps: seq<Piece>, tail: seq<byte>): (b: seq<byte>)
    requires GoodPieces(ps)
    ensures |b| >= |tail|
  {
    if ps == [] then tail else PieceBytes(ps[0]) + LayOut(ps[1..], tail)
  }

  /** A pad byte is missing only where a printable identifier follows. */
  predicate Separable(ps: seq<Piece>, tail: seq<byte>)
    requires GoodPieces(ps)
  {
    ps == [] || ((|ps[0].body| % 2 == 0 || ps[0].pad || Plausible(LayOut(ps[1..], tail))) && Separable(ps[1..], tail))
  }

  function Held(body: seq<byte>): Option<seq<byte>> {
    if |body| > MAX_CHUNK_PAYLOAD then None else Some(body)
  }

  function Fold(a: Seen, ps: seq<Piece>): Result<Seen>
    decreases |ps|
  {
    if ps == [] then Ok(a)
    else match Absorb(a, ps[0].id, Held(ps[0].body)) case Err(e) => Err(e) case Ok(b) => Fold(b, ps[1..])
  }

  /** The walk carried on from a state that chunks already behind it produced. */
  function Resume(r: Result<Seen>, rest: seq<byte>, container: Container): Result<Parsed> {
    match r case Err(e) => Err(e) case Ok(a) => Walk(rest, container, a)
  }

  /** The end of the walk: a data chunk that claims this size, then the audio. */
  function Finish(r: Result<Seen>, size: uint32, audio: seq<byte>, container: Container): Result<Parsed> {
    match r
    case Err(e) => Err(e)
    case Ok(a) => match Conclude(container, a, size) case Err(e) => Err(e) case Ok(h) => Ok(Parsed(h, audio))
  }

  lemma ChunkFields(id: seq<byte>, body: seq<byte>, rest: seq<byte>)
    requires |id| == 4 && |body| <= MAX_UINT32
    ensures var s := Chunk(id, body) + rest;
            s[..4] == id && U32(s, 4) == |body| && s[8..] == body + rest
  {
    hide Le32, U32;
    ReadBack32(id, |body|, body + rest);
    assert Chunk(id, body) + rest == id + Le32(|body|) + (body + rest);
  }

  /** One turn of the walk. */
  lemma WalkTurn(s: seq<byte>, container: Container, a: Seen)
    requires |s| >= CHUNK_HEADER_SIZE && s[..4] != DATA
    ensures Walk(s, container, a) == Resume(Absorb(a, s[..4], Payload(s[8..], U32(s, 4))), Behind(s), container)
  {
    hide Absorb, Payload, SkipPad, Drop, U32;
  }

  /** A complete chunk is read back whole, and its pad byte consumed exactly when it is there. */
  lemma PieceReadBack(p: Piece, rest: seq<byte>)
    requires GoodPiece(p) && |rest| >= 4 && (|p.body| % 2 == 0 || p.pad || Plausible(rest))
    ensures var s := PieceBytes(p) + rest;
            && |s| >= CHUNK_HEADER_SIZE && s[..4] == p.id
            && Payload(s[8..], U32(s, 4)) == Held(p.body) && Behind(s) == rest
  {
    hide Chunk, U32, Plausible;
    var pad := if p.pad then PadOf(|p.body|) else [];
    var s := PieceBytes(p) + rest;
    assert s == Chunk(p.id, p.body) + (pad + rest);
    ChunkFields(p.id, p.body, pad + rest);
    assert (p.body + (pad + rest))[..|p.body|] == p.body && (p.body + (pad + rest))[|p.body|..] == pad + rest;
    PadSkipped(pad, rest, |p.body|);
  }

  lemma PadSkipped(pad: seq<byte>, rest: seq<byte>, size: uint32)
    requires |rest| >= 4
    requires (pad == [] && (size % 2 == 0 || Plausible(rest))) || (pad == [0] && size % 2 == 1)
    ensures SkipPad(pad + rest, size) == rest
  {
    if pad != [] {
      assert (pad + rest)[0] == 0 && (pad + rest)[1..] == rest;
    } else {
      assert pad + rest == rest;
    }
  }

  /** One complete chunk is taken in whole and the walk goes on behind it. */
  lemma WalkPiece(p: Piece, rest: seq<byte>, container: Container, a: Seen)
    requires GoodPiece(p) && |rest| >= 4 && (|p.body| % 2 == 0 || p.pad || Plausible(rest))
    ensures Walk(PieceBytes(p) + rest, container, a)
         == Resume(Absorb(a, p.id, Held(p.body)), rest, container)
  {
    hide Absorb, Walk, PieceBytes, Payload, Behind, U32;
    PieceReadBack(p, rest);
    WalkTurn(PieceBytes(p) + rest, container, a);
  }

  lemma {:induction false} WalkPieces(ps: seq<Piece>, tail: seq<byte>, container: Container, a: Seen)
    requires GoodPieces(ps) && |tail| >= 4 && Separable(ps, tail)
    ensures Walk(LayOut(ps, tail), container, a)
         == Resume(Fold(a, ps), tail, container)
    decreases |ps|
  {
    hide Walk, Absorb, PieceBytes, Plausible;
    if ps == [] {
    } else {
      WalkPiece(ps[0], LayOut(ps[1..], tail), container, a);
      var absorbed := Absorb(a, ps[0].id, Held(ps[0].body));
      if absorbed.Ok? {
        WalkPieces(ps[1..], tail, container, absorbed.value);
      }
    }
  }

  function DataTail(size: uint32, audio: seq<byte>): seq<byte> {
    DATA + Le32(size) + audio
  }

  /** Chunks, then a data chunk: the header is concluded from the fold and the audio starts right behind. */
  lemma WalkToData(ps: seq<Piece>, size: uint32, audio: seq<byte>, container: Container, a: Seen)
    requires GoodPieces(ps) && Separable(ps, DataTail(size, audio))
    ensures Walk(LayOut(ps, DataTail(size, audio)), container, a)
         == Finish(Fold(a, ps), size, audio, container)
  {
    hide Conclude, Fold, LayOut, Separable, Le32, U32;
    var tail := DataTail(size, audio);
    WalkPieces(ps, tail, container, a);
    ReadBack32(DATA, size, audio);
    assert tail[..4] == DATA && tail[8..] == audio;
  }

  // ---- pad tolerance -------------------------------------------------------------------------------------------

  predicate SameButPads(ps: seq<Piece>, qs: seq<Piece>) {
    |ps| == |qs| && forall i :: 0 <= i < |ps| ==> ps[i].id == qs[i].id && ps[i].body == qs[i].body
  }

  predicate AllPrintable(ps: seq<Piece>) {
    forall p <- ps :: Plausible(p.id)
  }

  lemma PrintableFront(p: Piece, rest: seq<byte>)
    requires GoodPiece(p) && Plausible(p.id)
    ensures Plausible(PieceBytes(p) + rest)
  {
    hide Le32, PadOf;
    var b := PieceBytes(p) + rest;
    assert forall i :: 0 <= i < 4 ==> b[i] == p.id[i];
  }

  lemma {:induction false} PrintableIsSeparable(ps: seq<Piece>, tail: seq<byte>)
    requires GoodPieces(ps) && AllPrintable(ps) && Plausible(tail)
    ensures Separable(ps, tail) && Plausible(LayOut(ps, tail))
    decreases |ps|
  {
    if ps == [] {
    } else {
      PrintableIsSeparable(ps[1..], tail);
      assert ps[0] in ps;
      PrintableFront(ps[0], LayOut(ps[1..], tail));
    }
  }

  lemma {:induction false} FoldIgnoresPads(a: Seen, ps: seq<Piece>, qs: seq<Piece>)
    requires SameButPads(ps, qs)
    ensures Fold(a, ps) == Fold(a, qs)
    decreases |ps|
  {
    hide Absorb;
    if ps == [] {
    } else {
      var absorbed := Absorb(a, ps[0].id, Held(ps[0].body));
      if absorbed.Ok? {
        FoldIgnoresPads(absorbed.value, ps[1..], qs[1..]);
      }
    }
  }

  /** For every list of printable chunks and every independent choice of writing or omitting each odd chunk's pad
      byte, the parser returns the same header and stops on the same audio byte. */
  lemma PadTolerance(magic: seq<byte>, fileSize: uint32, ps: seq<Piece>, qs: seq<Piece>, size: uint32, audio: seq<byte>)
    requires |magic| == 4 && GoodPieces(ps) && AllPrintable(ps) && SameButPads(ps, qs)
    ensures GoodPieces(qs)
    ensures Parse(magic + Le32(fileSize) + WAVE + LayOut(ps, DataTail(size, audio)))
         == Parse(magic + Le32(fileSize) + WAVE + LayOut(qs, DataTail(size, audio)))
  {
    assert GoodPieces(qs) && AllPrintable(qs) by {
      forall i | 0 <= i < |qs| ensures GoodPiece(qs[i]) && Plausible(qs[i].id) {
        assert ps[i] in ps;
      }
    }
    var tail := DataTail(size, audio);
    assert Plausible(tail) by {
      assert tail[..4] == DATA;
      assert forall i :: 0 <= i < 4 ==> tail[i] == DATA[i];
    }
    PrintableIsSeparable(ps, tail);
    PrintableIsSeparable(qs, tail);
    FoldIgnoresPads(NOTHING_SEEN, ps, qs);
    hide Walk, LayOut, DataTail, Le32, Fold, Conclude;
    ParseBehindFileHeader(magic, fileSize, LayOut(ps, tail));
    ParseBehindFileHeader(magic, fileSize, LayOut(qs, tail));
    if ContainerOf(magic).Some? {
      WalkToData(ps, size, audio, ContainerOf(magic).value, NOTHING_SEEN);
      WalkToData(qs, size, audio, ContainerOf(magic).value, NOTHING_SEEN);
    }
  }

  function Opened(container: Option<Container>, s: seq<byte>): Result<Parsed> {
    match container case None => Err(NotRIFF) case Some(c) => Walk(s, c, NOTHING_SEEN)
  }

  lemma ParseBehindFileHeader(magic: seq<byte>, fileSize: uint32, s: seq<byte>)
    requires |magic| == 4
    ensures Parse(magic + Le32(fileSize) + WAVE + s)
         == Opened(ContainerOf(magic), s)
  {
    hide Walk, Le32, ContainerOf;
    var b := magic + Le32(fileSize) + WAVE + s;
    assert b[..4] == magic && b[8..12] == WAVE && b[12..] == s;
  }

  // ---- chunk order ---------------------------------------------------------------------------------------------

  const KNOWN: set<seq<byte>> := {DS64, FMT, FACT, BEXT, IXML}

  /** The body of the first piece carrying id. */
  function Find(ps: seq<Piece>, id: seq<byte>): Option<seq<byte>>
    decreases |ps|
  {
    if ps == [] then None else if ps[0].id == id then Some(ps[0].body) else Find(ps[1..], id)
  }

  predicate KnownOnce(ps: seq<Piece>) {
    forall i, j :: 0 <= i < j < |ps| && ps[i].id == ps[j].id ==> ps[i].id !in KNOWN
  }

  /** The seen state in terms of what the list contains, with no reference to the order it comes in. */
  predicate KnownPiecesParse(ps: seq<Piece>) {
    && (Find(ps, FMT).Some? ==> ParseFmt(Bytes(Held(Find(ps, FMT).value))).Ok?)
    && (Find(ps, DS64).Some? ==> ParseDS64(Bytes(Held(Find(ps, DS64).value))).Ok?)
  }

  function Summary(a: Seen, ps: seq<Piece>): Seen
    requires KnownPiecesParse(ps)
  {
    Seen(
      if Find(ps, FMT).Some? then Some(ParseFmt(Bytes(Held(Find(ps, FMT).value))).value) else a.fmt,
      if Find(ps, DS64).Some? then Some(ParseDS64(Bytes(Held(Find(ps, DS64).value))).value) else a.ds64,
      if Find(ps, FACT).Some? && |Bytes(Held(Find(ps, FACT).value))| >= FACT_PAYLOAD_SIZE
      then U32(Bytes(Held(Find(ps, FACT).value)), 0) else a.fact,
      if a.bext.None? && Find(ps, BEXT).Some? then Some(Held(Find(ps, BEXT).value)) else a.bext,
      if a.ixml.None? && Find(ps, IXML).Some? then Some(Held(Find(ps, IXML).value)) else a.ixml)
  }

  lemma {:induction false} FindNone(ps: seq<Piece>, id: seq<byte>)
    requires forall p <- ps :: p.id != id
    ensures Find(ps, id).None?
    decreases |ps|
  {
    if ps == [] {
    } else {
      FindNone(ps[1..], id);
    }
  }

  lemma {:induction false} FindTheOnly(ps: seq<Piece>, i: nat)
    requires i < |ps| && KnownOnce(ps) && ps[i].id in KNOWN
    ensures Find(ps, ps[i].id) == Some(ps[i].body)
    decreases |ps|
  {
    if i == 0 {
    } else {
      FindTheOnly(ps[1..], i - 1);
    }
  }

  lemma {:induction false} FoldIsSummary(a: Seen, ps: seq<Piece>)
    requires KnownOnce(ps)
    ensures Fold(a, ps).Ok? <==> KnownPiecesParse(ps)
    ensures KnownPiecesParse(ps) ==> Fold(a, ps) == Ok(Summary(a, ps))
    decreases |ps|
  {
    hide Absorb, KnownPiecesParse, Summary;
    if ps == [] {
      EmptySummary(a);
    } else {
      FrontOnce(ps);
      var absorbed := Absorb(a, ps[0].id, Held(ps[0].body));
      if absorbed.Ok? {
        FoldIsSummary(absorbed.value, ps[1..]);
      }
      SummaryStep(a, ps);
    }
  }

  lemma EmptySummary(a: Seen)
    ensures KnownPiecesParse([]) && Summary(a, []) == a
  {
  }

  /** A known identifier at the front occurs nowhere behind it. */
  lemma FrontOnce(ps: seq<Piece>)
    requires ps != [] && KnownOnce(ps)
    ensures KnownOnce(ps[1..]) && (ps[0].id in KNOWN ==> Find(ps[1..], ps[0].id).None?)
    ensures forall id :: id != ps[0].id ==> Find(ps, id) == Find(ps[1..], id)
    ensures Find(ps, ps[0].id) == Some(ps[0].body)
  {
    var p, rest := ps[0], ps[1..];
    if p.id in KNOWN {
      forall q | q in rest ensures q.id != p.id {
        var j :| 0 <= j < |rest| && rest[j] == q;
        assert ps[j + 1] == q;
      }
      FindNone(rest, p.id);
    }
  }

  /** Taking the front chunk into account first, and then the rest, is taking the whole list into account. */
  lemma SummaryStep(a: Seen, ps: seq<Piece>)
    requires ps != [] && KnownOnce(ps)
    ensures var absorbed := Absorb(a, ps[0].id, Held(ps[0].body));
            && (KnownPiecesParse(ps) <==> absorbed.Ok? && KnownPiecesParse(ps[1..]))
            && (KnownPiecesParse(ps) ==> Summary(absorbed.value, ps[1..]) == Summary(a, ps))
  {
    hide ParseFmt, ParseDS64, U32, Held, Find, KnownOnce;
    FrontOnce(ps);
  }

  function Contents(ps: seq<Piece>): (c: seq<(seq<byte>, seq<byte>)>)
    ensures |c| == |ps| && forall i :: 0 <= i < |ps| ==> c[i] == (ps[i].id, ps[i].body)
  {
    seq(|ps|, i requires 0 <= i < |ps| => (ps[i].id, ps[i].body))
  }

  lemma FindInPermutation(ps: seq<Piece>, qs: seq<Piece>, id: seq<byte>)
    requires multiset(Contents(ps)) == multiset(Contents(qs)) && KnownOnce(ps) && KnownOnce(qs) && id in KNOWN
    ensures Find(ps, id) == Find(qs, id)
  {
    var cs, ds := Contents(ps), Contents(qs);
    if i :| 0 <= i < |ps| && ps[i].id == id {
      FindTheOnly(ps, i);
      assert cs[i] in multiset(cs);
      assert cs[i] in multiset(ds);
      var j :| 0 <= j < |ds| && ds[j] == cs[i];
      FindTheOnly(qs, j);
    } else {
      forall q | q in qs ensures q.id != id {
        var j :| 0 <= j < |qs| && qs[j] == q;
        assert ds[j] in multiset(ds);
        assert ds[j] in multiset(cs);
        var i :| 0 <= i < |cs| && cs[i] == ds[j];
      }
      FindNone(ps, id);
      FindNone(qs, id);
    }
  }

  /** Permuting the complete chunks ahead of data, each known identifier occurring at most once among any number of
      unknown ones, changes neither acceptance nor the resulting header. */
  lemma OrderIndependence(ps: seq<Piece>, qs: seq<Piece>, size: uint32, audio: seq<byte>, container: Container)
    requires GoodPieces(ps) && GoodPieces(qs)
    requires multiset(Contents(ps)) == multiset(Contents(qs)) && KnownOnce(ps) && KnownOnce(qs)
    requires Separable(ps, DataTail(size, audio)) && Separable(qs, DataTail(size, audio))
    ensures var r := Walk(LayOut(ps, DataTail(size, audio)), container, NOTHING_SEEN);
            var t := Walk(LayOut(qs, DataTail(size, audio)), container, NOTHING_SEEN);
            (r.Ok? <==> t.Ok?) && (r.Ok? ==> r == t)
  {
    hide Walk, LayOut, DataTail, Separable, Fold, Conclude, ParseFmt, ParseDS64;
    WalkToData(ps, size, audio, container, NOTHING_SEEN);
    WalkToData(qs, size, audio, container, NOTHING_SEEN);
    FoldIsSummary(NOTHING_SEEN, ps);
    FoldIsSummary(NOTHING_SEEN, qs);
    FindInPermutation(ps, qs, FMT);
    FindInPermutation(ps, qs, DS64);
    FindInPermutation(ps, qs, FACT);
    FindInPermutation(ps, qs, BEXT);
    FindInPermutation(ps, qs, IXML);
  }

  // ---- repeated chunks -----------------------------------------------------------------------------------------

  /** The body of the last piece carrying id. */
  function Last(ps: seq<Piece>, id: seq<byte>): Option<seq<byte>> {
    if ps == [] then None
    else if ps[|ps| - 1].id == id then Some(ps[|ps| - 1].body) else Last(ps[..|ps| - 1], id)
  }

  lemma {:induction false} LastFromFront(ps: seq<Piece>, id: seq<byte>)
    requires ps != []
    ensures Last(ps, id) == if Last(ps[1..], id).Some? then Last(ps[1..], id)
      else if ps[0].id == id then Some(ps[0].body) else None
    decreases |ps|
  {
    var n := |ps|;
    if n == 1 {
      assert ps[..0] == [] && ps[1..] == [];
    } else {
      LastFromFront(ps[..n - 1], id);
      assert ps[..n - 1][1..] == ps[1..][..n - 2] && ps[1..][n - 2] == ps[n - 1];
    }
  }

  /** The held body of the last fact piece that is long enough for a count. */
  function LastFact(ps: seq<Piece>): Option<seq<byte>> {
    if ps == [] then None
    else
      var p := ps[|ps| - 1];
      if p.id == FACT && |Bytes(Held(p.body))| >= FACT_PAYLOAD_SIZE then Some(Bytes(Held(p.body)))
        else LastFact(ps[..|ps| - 1])
  }

  lemma {:induction false} LastFactFromFront(ps: seq<Piece>)
    requires ps != []
    ensures LastFact(ps) ==
      if LastFact(ps[1..]).Some? then LastFact(ps[1..])
      else if ps[0].id == FACT && |Bytes(Held(ps[0].body))| >= FACT_PAYLOAD_SIZE then Some(Bytes(Held(ps[0].body)))
        else None
    decreases |ps|
  {
    hide Held;
    var n := |ps|;
    if n == 1 {
      assert ps[..0] == [] && ps[1..] == [];
    } else {
      LastFactFromFront(ps[..n - 1]);
      assert ps[..n - 1][1..] == ps[1..][..n - 2] && ps[1..][n - 2] == ps[n - 1];
    }
  }

  lemma {:induction false} LastFactIsLong(ps: seq<Piece>)
    ensures LastFact(ps).Some? ==> |LastFact(ps).value| >= FACT_PAYLOAD_SIZE
    decreases |ps|
  {
    if ps == [] {
    } else {
      LastFactIsLong(ps[..|ps| - 1]);
    }
  }

  /** Of several fact chunks the last one long enough for a count gives it. */
  lemma {:induction false} RepeatedFacts(a: Seen, ps: seq<Piece>)
    requires Fold(a, ps).Ok?
    ensures LastFact(ps).Some? ==> |LastFact(ps).value| >= FACT_PAYLOAD_SIZE
    ensures Fold(a, ps).value.fact == if LastFact(ps).Some? then U32(LastFact(ps).value, 0) else a.fact
    decreases |ps|
  {
    hide ParseFmt, ParseDS64, Held, LastFact, U32;
    LastFactIsLong(ps);
    if ps == [] {
      assert LastFact(ps) == None by {
        NoLastFact();
      }
    } else {
      LastFactFromFront(ps);
      RepeatedFacts(Absorb(a, ps[0].id, Held(ps[0].body)).value, ps[1..]);
    }
  }

  lemma NoLastFact()
    ensures LastFact([]) == None
  {
  }

  lemma {:induction false} RepeatedFormats(a: Seen, ps: seq<Piece>)
    requires Fold(a, ps).Ok?
    ensures
      var seen := Fold(a, ps).value;
      && (if Last(ps, FMT).None? then seen.fmt == a.fmt
          else seen.fmt.Some? && ParseFmt(Bytes(Held(Last(ps, FMT).value))) == Ok(seen.fmt.value))
      && (if Last(ps, DS64).None? then seen.ds64 == a.ds64
          else seen.ds64.Some? && ParseDS64(Bytes(Held(Last(ps, DS64).value))) == Ok(seen.ds64.value))
    decreases |ps|
  {
    hide ParseFmt, ParseDS64, Held, Last, U32;
    if ps == [] {
      LastOfNone();
    } else {
      LastFromFront(ps, FMT);
      LastFromFront(ps, DS64);
      RepeatedFormats(Absorb(a, ps[0].id, Held(ps[0].body)).value, ps[1..]);
    }
  }

  lemma {:induction false} RepeatedMetadata(a: Seen, ps: seq<Piece>)
    requires Fold(a, ps).Ok?
    ensures
      var seen := Fold(a, ps).value;
      && seen.bext == (if a.bext.Some? then a.bext
                       else if Find(ps, BEXT).Some? then Some(Held(Find(ps, BEXT).value)) else None)
      && seen.ixml == (if a.ixml.Some? then a.ixml
                       else if Find(ps, IXML).Some? then Some(Held(Find(ps, IXML).value)) else None)
    decreases |ps|
  {
    hide ParseFmt, ParseDS64, Held, U32;
    if ps == [] {
    } else {
      RepeatedMetadata(Absorb(a, ps[0].id, Held(ps[0].body)).value, ps[1..]);
    }
  }

  /** Of several fmt or ds64 chunks the last one counts, of several fact chunks the last long enough for a count, of
      several bext or iXML chunks the first, even where that first one was too large to hold. */
  lemma RepeatedChunks(a: Seen, ps: seq<Piece>)
    requires Fold(a, ps).Ok?
    ensures
      var seen := Fold(a, ps).value;
      && (if Last(ps, FMT).None? then seen.fmt == a.fmt
          else seen.fmt.Some? && ParseFmt(Bytes(Held(Last(ps, FMT).value))) == Ok(seen.fmt.value))
      && (if Last(ps, DS64).None? then seen.ds64 == a.ds64
          else seen.ds64.Some? && ParseDS64(Bytes(Held(Last(ps, DS64).value))) == Ok(seen.ds64.value))
      && (if LastFact(ps).None? then seen.fact == a.fact
          else |LastFact(ps).value| >= FACT_PAYLOAD_SIZE && seen.fact == U32(LastFact(ps).value, 0))
      && seen.bext == (if a.bext.Some? then a.bext
                       else if Find(ps, BEXT).Some? then Some(Held(Find(ps, BEXT).value)) else None)
      && seen.ixml == (if a.ixml.Some? then a.ixml
                       else if Find(ps, IXML).Some? then Some(Held(Find(ps, IXML).value)) else None)
  {
    hide ParseFmt, ParseDS64, Held, Last, LastFact, U32, Fold, Find;
    RepeatedFormats(a, ps);
    RepeatedFacts(a, ps);
    RepeatedMetadata(a, ps);
  }

  lemma LastOfNone()
    ensures forall id :: Last([], id) == None
  {
  }
}
