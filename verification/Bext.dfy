/** The bext chunk body (section 2.3 of EBU Tech 3285): a version-gated printer and parser. */
module BextCodec {
  import opened Wire
  import opened Types

  const DESCRIPTION_SIZE := 256
  const ORIGINATOR_SIZE := 32
  const DATE_SIZE := 10
  const TIME_SIZE := 8
  const UMID_SIZE := 64
  const RESERVED_SIZE := 180
  const FIXED_SIZE := 602

  const OFF_ORIGINATOR := 256
  const OFF_REFERENCE := 288
  const OFF_DATE := 320
  const OFF_TIME := 330
  const OFF_TIME_REFERENCE := 338
  const OFF_VERSION := 346
  const OFF_UMID := 348
  const OFF_LOUDNESS := 412
  const OFF_RESERVED := 422

  type Umid = s: seq<byte> | |s| == UMID_SIZE witness Zeros(UMID_SIZE)

  const NO_UMID: Umid := Zeros(UMID_SIZE)

  datatype Loudness = Loudness(value: int16, range: int16, maxTruePeak: int16, maxMomentary: int16, maxShortTerm: int16)

  const NO_LOUDNESS := Loudness(0, 0, 0, 0, 0)

  datatype Bext = Bext(
    description: seq<byte>, originator: seq<byte>, originatorReference: seq<byte>,
    originationDate: seq<byte>, originationTime: seq<byte>,
    timeReference: uint64, version: uint16, umid: Umid, loudness: Loudness, codingHistory: seq<byte>)

  /** The calendar rules of the platform's time parser. What they accept is not this module's affair, except that it
      never contains a NUL byte. */
  datatype Calendar = Calendar(date: seq<byte> -> bool, time: seq<byte> -> bool) {
    ghost predicate Sane() {
      forall s: seq<byte> :: date(s) || time(s) ==> 0 !in s
    }
  }

  // ---- validation ----------------------------------------------------------------------------------------------

  predicate TextByte(c: byte) {
    c == 0x0d || c == 0x0a || 0x20 <= c <= 0x7e
  }

  predicate Text(s: seq<byte>) {
    forall c <- s :: TextByte(c)
  }

  /** UMID needs version 1, the loudness fields version 2. */
  predicate Gated(b: Bext) {
    (b.umid != NO_UMID ==> b.version >= 1) && (b.loudness != NO_LOUDNESS ==> b.version >= 2)
  }

  predicate ValidBext(b: Bext, cal: Calendar) {
    && |b.description| <= DESCRIPTION_SIZE && Text(b.description)
    && |b.originator| <= ORIGINATOR_SIZE && Text(b.originator)
    && |b.originatorReference| <= ORIGINATOR_SIZE && Text(b.originatorReference)
    && (b.originationDate == [] || cal.date(b.originationDate))
    && (b.originationTime == [] || cal.time(b.originationTime))
    && Text(b.codingHistory)
    && Gated(b)
  }

  method CheckText(s: seq<byte>) returns (ok: bool)
    ensures ok <==> Text(s)
  {
    var i := 0;
    while i < |s|
      invariant 0 <= i <= |s| && forall k :: 0 <= k < i ==> TextByte(s[k])
    {
      var c := s[i];
      if c != 0x0d && c != 0x0a && (c < 0x20 || c > 0x7e) {
        assert s[i] in s;
        return false;
      }
      i := i + 1;
    }
    return true;
  }

  method Validate(b: Bext, cal: Calendar) returns (ok: bool)
    ensures ok <==> ValidBext(b, cal)
  {
    if |b.description| > DESCRIPTION_SIZE || |b.originator| > ORIGINATOR_SIZE
      || |b.originatorReference| > ORIGINATOR_SIZE {
      return false;
    }
    ok := CheckText(b.description);
    if ok { ok := CheckText(b.originator); }
    if ok { ok := CheckText(b.originatorReference); }
    if !ok || (b.originationDate != [] && !cal.date(b.originationDate))
      || (b.originationTime != [] && !cal.time(b.originationTime)) {
      return false;
    }
    ok := CheckText(b.codingHistory);
    if !ok || (b.umid != NO_UMID && b.version < 1) {
      return false;
    }
    if b.version < 2 {
      var fields := [b.loudness.value, b.loudness.range, b.loudness.maxTruePeak, b.loudness.maxMomentary,
        b.loudness.maxShortTerm];
      var i := 0;
      while i < |fields|
        invariant 0 <= i <= |fields| && forall k :: 0 <= k < i ==> fields[k] == 0
      {
        if fields[i] != 0 {
          return false;
        }
        i := i + 1;
      }
      assert fields[0] == fields[1] == fields[2] == fields[3] == fields[4] == 0;
    }
  }

  // ---- printing ------------------------------------------------------------------------------------------------

  /** A fixed-width field: s cut to the width, NUL-padded. */
  function Pad(s: seq<byte>, width: nat): (f: seq<byte>)
    ensures |f| == width
  {
    if |s| <= width then s + Zeros(width - |s|) else s[..width]
  }

  function AsUint16(v: int16): uint16 {
    if v < 0 then v + 0x1_0000 else v
  }

  function AsInt16(u: uint16): int16 {
    if u >= 0x8000 then u - 0x1_0000 else u
  }

  function LoudnessBytes(l: Loudness): (b: seq<byte>)
    ensures |b| == 10
  {
    Le16(AsUint16(l.value)) + Le16(AsUint16(l.range)) + Le16(AsUint16(l.maxTruePeak))
    + Le16(AsUint16(l.maxMomentary)) + Le16(AsUint16(l.maxShortTerm))
  }

  /** The chunk body of b. */
  function Body(b: Bext): (body: seq<byte>)
    ensures |body| == FIXED_SIZE + |b.codingHistory|
  {
    Pad(b.description, DESCRIPTION_SIZE) + Pad(b.originator, ORIGINATOR_SIZE)
      + Pad(b.originatorReference, ORIGINATOR_SIZE)
    + Pad(b.originationDate, DATE_SIZE) + Pad(b.originationTime, TIME_SIZE)
    + Le64(b.timeReference) + Le16(b.version) + b.umid + LoudnessBytes(b.loudness)
    + Zeros(RESERVED_SIZE) + b.codingHistory
  }

  method AppendPadded(dst: seq<byte>, s: seq<byte>, width: nat) returns (buf: seq<byte>)
    ensures buf == dst + Pad(s, width)
  {
    var field := new byte[width](_ => 0);
    var n := if |s| < width then |s| else width;
    Put(field, 0, s[..n]);
    assert field[..] == Pad(s, width);
    return dst + field[..];
  }

  /** Renders the body, field after field; the caller has validated b. */
  method Serialize(b: Bext) returns (buf: seq<byte>)
    ensures buf == Body(b)
  {
    hide Pad, Le16, Le32;
    buf := AppendPadded([], b.description, DESCRIPTION_SIZE);
    buf := AppendPadded(buf, b.originator, ORIGINATOR_SIZE);
    buf := AppendPadded(buf, b.originatorReference, ORIGINATOR_SIZE);
    buf := AppendPadded(buf, b.originationDate, DATE_SIZE);
    buf := AppendPadded(buf, b.originationTime, TIME_SIZE);
    buf := buf + (Le32(b.timeReference % 0x1_0000_0000) + Le32(b.timeReference / 0x1_0000_0000));
    buf := buf + Le16(b.version);
    buf := buf + b.umid;
    var loudness := new byte[10](_ => 0);
    assert loudness[..] == Zeros(10);
    PutLoudness(loudness, b.loudness);
    buf := buf + loudness[..];
    buf := buf + Zeros(RESERVED_SIZE);
    buf := buf + b.codingHistory;
  }

  method PutLoudness(field: array<byte>, l: Loudness)
    requires field.Length == 10
    requires field[..] == Zeros(10)
    modifies field
    ensures field[..] == LoudnessBytes(l)
  {
    hide Le16, AsUint16, Zeros;
    ghost var a, b, c, d := Le16(AsUint16(l.value)), Le16(AsUint16(l.range)), Le16(AsUint16(l.maxTruePeak)),
      Le16(AsUint16(l.maxMomentary));
    assert field[..] == [] + Zeros(10) && [] + a == a;
    PutNext(field, [], 0, Le16(AsUint16(l.value)));
    PutNext(field, a, 2, Le16(AsUint16(l.range)));
    PutNext(field, a + b, 4, Le16(AsUint16(l.maxTruePeak)));
    PutNext(field, a + b + c, 6, Le16(AsUint16(l.maxMomentary)));
    PutNext(field, a + b + c + d, 8, Le16(AsUint16(l.maxShortTerm)));
    assert Zeros(0) == [];
  }

  // ---- parsing -------------------------------------------------------------------------------------------------

  /** A field's text: what stands ahead of its NUL padding. */
  function CutAtNul(f: seq<byte>): (s: seq<byte>)
    ensures |s| <= |f| && 0 !in s
    decreases |f|
  {
    if f == [] || f[0] == 0 then [] else [f[0]] + CutAtNul(f[1..])
  }

  function ReadLoudness(b: seq<byte>): Loudness
    requires |b| == 10
  {
    Loudness(AsInt16(U16(b, 0)), AsInt16(U16(b, 2)), AsInt16(U16(b, 4)), AsInt16(U16(b, 6)), AsInt16(U16(b, 8)))
  }

  function ParseBext(body: seq<byte>): Result<Bext> {
    if |body| < FIXED_SIZE then Err(CorruptStream)
    else
      var version := U16(body, OFF_VERSION);
      Ok(Bext(
           CutAtNul(body[..OFF_ORIGINATOR]), CutAtNul(body[OFF_ORIGINATOR..OFF_REFERENCE]),
           CutAtNul(body[OFF_REFERENCE..OFF_DATE]), CutAtNul(body[OFF_DATE..OFF_TIME]),
           CutAtNul(body[OFF_TIME..OFF_TIME_REFERENCE]),
           U64(body, OFF_TIME_REFERENCE), version,
           if version >= 1 then body[OFF_UMID..OFF_LOUDNESS] else NO_UMID,
           if version >= 2 then ReadLoudness(body[OFF_LOUDNESS..OFF_RESERVED]) else NO_LOUDNESS,
           CutAtNul(body[FIXED_SIZE..])))
  }

  // ---- the two undo each other ---------------------------------------------------------------------------------

  lemma {:induction false} CutKeeps(s: seq<byte>, n: nat)
    requires 0 !in s
    ensures CutAtNul(s + Zeros(n)) == s
    decreases |s|
  {
    if s == [] {
    } else {
      assert (s + Zeros(n))[1..] == s[1..] + Zeros(n);
      CutKeeps(s[1..], n);
    }
  }

  lemma CutOfPad(s: seq<byte>, width: nat)
    requires 0 !in s && |s| <= width
    ensures CutAtNul(Pad(s, width)) == s
  {
    CutKeeps(s, width - |s|);
  }

  lemma CutWhole(s: seq<byte>)
    requires 0 !in s
    ensures CutAtNul(s) == s
  {
    CutKeeps(s, 0);
    assert s + Zeros(0) == s;
  }

  lemma TextHasNoNul(s: seq<byte>)
    requires Text(s)
    ensures 0 !in s
  {
    assert forall i :: 0 <= i < |s| ==> s[i] in s && TextByte(s[i]);
  }

  lemma LoudnessReadBack(l: Loudness)
    ensures ReadLoudness(LoudnessBytes(l)) == l
  {
    hide Le16, U16;
    var a, b, c, d, e := Le16(AsUint16(l.value)), Le16(AsUint16(l.range)), Le16(AsUint16(l.maxTruePeak)),
                         Le16(AsUint16(l.maxMomentary)), Le16(AsUint16(l.maxShortTerm));
    var all := LoudnessBytes(l);
    ReadBack16([], AsUint16(l.value), b + c + d + e);
    assert all == [] + a + (b + c + d + e);
    ReadBack16(a, AsUint16(l.range), c + d + e);
    assert all == a + b + (c + d + e);
    ReadBack16(a + b, AsUint16(l.maxTruePeak), d + e);
    assert all == a + b + c + (d + e);
    ReadBack16(a + b + c, AsUint16(l.maxMomentary), e);
    ReadBack16(a + b + c + d, AsUint16(l.maxShortTerm), []);
    assert all == a + b + c + d + e + [];
  }

  /** Where each field of a printed body is found. */
  lemma BodyFields(b: Bext)
    ensures var body := Body(b);
      && body[..OFF_ORIGINATOR] == Pad(b.description, DESCRIPTION_SIZE)
      && body[OFF_ORIGINATOR..OFF_REFERENCE] == Pad(b.originator, ORIGINATOR_SIZE)
      && body[OFF_REFERENCE..OFF_DATE] == Pad(b.originatorReference, ORIGINATOR_SIZE)
      && body[OFF_DATE..OFF_TIME] == Pad(b.originationDate, DATE_SIZE)
      && body[OFF_TIME..OFF_TIME_REFERENCE] == Pad(b.originationTime, TIME_SIZE)
      && U64(body, OFF_TIME_REFERENCE) == b.timeReference
      && U16(body, OFF_VERSION) == b.version
      && body[OFF_UMID..OFF_LOUDNESS] == b.umid
      && body[OFF_LOUDNESS..OFF_RESERVED] == LoudnessBytes(b.loudness)
      && body[FIXED_SIZE..] == b.codingHistory
  {
    hide Pad, Le16, Le64, LoudnessBytes, U16, U64;
    var body := Body(b);
    ReadBack64(body[..OFF_TIME_REFERENCE], b.timeReference, body[OFF_VERSION..]);
    assert body[OFF_TIME_REFERENCE..OFF_VERSION] == Le64(b.timeReference);
    assert body == body[..OFF_TIME_REFERENCE] + Le64(b.timeReference) + body[OFF_VERSION..];
    ReadBack16(body[..OFF_VERSION], b.version, body[OFF_UMID..]);
    assert body[OFF_VERSION..OFF_UMID] == Le16(b.version);
    assert body == body[..OFF_VERSION] + Le16(b.version) + body[OFF_UMID..];
  }

  /** A printed body parses to the fields it was printed from, the text fields cut to their width. */
  lemma ParseOfBody(b: Bext)
    requires Gated(b) && 0 !in b.codingHistory
    ensures ParseBext(Body(b)) == Ok(b.(
      description := CutAtNul(Pad(b.description, DESCRIPTION_SIZE)),
      originator := CutAtNul(Pad(b.originator, ORIGINATOR_SIZE)),
      originatorReference := CutAtNul(Pad(b.originatorReference, ORIGINATOR_SIZE)),
      originationDate := CutAtNul(Pad(b.originationDate, DATE_SIZE)),
      originationTime := CutAtNul(Pad(b.originationTime, TIME_SIZE))))
  {
    hide Pad, Body, LoudnessBytes, ReadLoudness, U16, U64, CutAtNul;
    BodyFields(b);
    LoudnessReadBack(b.loudness);
    CutWhole(b.codingHistory);
  }

  /** For every validated descriptor, parsing what was printed gives it back exactly when the date and the time fit
      their fields. The validation itself does not bound them. */
  lemma BextRoundTrip(b: Bext, cal: Calendar)
    requires ValidBext(b, cal) && cal.Sane()
    ensures ParseBext(Body(b)) == Ok(b) <==> |b.originationDate| <= DATE_SIZE && |b.originationTime| <= TIME_SIZE
  {
    hide Pad, Body, CutAtNul, ParseBext;
    TextHasNoNul(b.description);
    TextHasNoNul(b.originator);
    TextHasNoNul(b.originatorReference);
    TextHasNoNul(b.codingHistory);
    ParseOfBody(b);
    CutOfPad(b.description, DESCRIPTION_SIZE);
    CutOfPad(b.originator, ORIGINATOR_SIZE);
    CutOfPad(b.originatorReference, ORIGINATOR_SIZE);
    if |b.originationDate| <= DATE_SIZE {
      CutOfPad(b.originationDate, DATE_SIZE);
    }
    if |b.originationTime| <= TIME_SIZE {
      CutOfPad(b.originationTime, TIME_SIZE);
    }
  }

  /** "12:34:56.7", which the layout of the time accepts for its seconds may carry a fraction. */
  const FRACTIONAL_TIME: seq<byte> := [0x31, 0x32, 0x3a, 0x33, 0x34, 0x3a, 0x35, 0x36, 0x2e, 0x37]

  /** A descriptor that passes validation and comes back with its time cut to eight bytes. */
  lemma FractionalTimeIsCut()
    ensures
      var cal := Calendar(_ => false, (s: seq<byte>) => s == FRACTIONAL_TIME);
      var b := Bext([], [], [], [], FRACTIONAL_TIME, 0, 0, NO_UMID, NO_LOUDNESS, []);
      && cal.Sane() && ValidBext(b, cal)
      && ParseBext(Body(b)) == Ok(b.(originationTime := FRACTIONAL_TIME[..TIME_SIZE]))
      && ParseBext(Body(b)) != Ok(b)
  {
    hide Pad, Body, CutAtNul, ParseBext;
    var b := Bext([], [], [], [], FRACTIONAL_TIME, 0, 0, NO_UMID, NO_LOUDNESS, []);
    ParseOfBody(b);
    CutOfPad([], DESCRIPTION_SIZE);
    CutOfPad([], ORIGINATOR_SIZE);
    CutOfPad([], DATE_SIZE);
    PadCuts(FRACTIONAL_TIME, TIME_SIZE);
    CutWhole(FRACTIONAL_TIME[..TIME_SIZE]);
    assert |FRACTIONAL_TIME| == 10;
  }

  lemma PadCuts(s: seq<byte>, width: nat)
    requires |s| > width
    ensures Pad(s, width) == s[..width]
  {
  }

  /** A parsed descriptor satisfies the version gate whatever bytes it came from, and printing and parsing it again
      changes nothing. */
  lemma ReparseIsStable(body: seq<byte>)
    requires |body| >= FIXED_SIZE
    ensures Gated(ParseBext(body).value)
    ensures ParseBext(Body(ParseBext(body).value)) == ParseBext(body)
  {
    var b := ParseBext(body).value;
    hide Pad, Body, CutAtNul;
    ParseOfBody(b);
    CutOfPad(b.description, DESCRIPTION_SIZE);
    CutOfPad(b.originator, ORIGINATOR_SIZE);
    CutOfPad(b.originatorReference, ORIGINATOR_SIZE);
    CutOfPad(b.originationDate, DATE_SIZE);
    CutOfPad(b.originationTime, TIME_SIZE);
  }
}
