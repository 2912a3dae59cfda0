/** The bext chunk byte by byte (section 2.3 of EBU Tech 3285), and which descriptors it may carry. */
module BextLaws {
  import opened Wire
  import opened Types
  import opened BextCodec

  // ---- which descriptors are accepted --------------------------------------------------------------------------

  /** The bytes no text may hold: controls other than CR and LF, DEL, and everything above ASCII. */
  predicate Banned(c: byte) {
    c < 10 || c in {11, 12} || 14 <= c < 32 || c >= 127
  }

  /** A descriptor is accepted exactly when its texts fit and hold no banned byte, date and time are empty or real, and
      its version is high enough for what it carries. */
  lemma AcceptedExactly(b: Bext, cal: Calendar)
    ensures ValidBext(b, cal) <==>
      && |b.description| <= 256 && |b.originator| <= 32 && |b.originatorReference| <= 32
      && (forall c <- b.description :: !Banned(c)) && (forall c <- b.originator :: !Banned(c))
      && (forall c <- b.originatorReference :: !Banned(c)) && (forall c <- b.codingHistory :: !Banned(c))
      && (b.originationDate == [] || cal.date(b.originationDate))
      && (b.originationTime == [] || cal.time(b.originationTime))
      && (b.version == 0 ==> b.umid == Zeros(64))
      && (b.version <= 1 ==> b.loudness == Loudness(0, 0, 0, 0, 0))
  {
    TextBansTheRest(b.description);
    TextBansTheRest(b.originator);
    TextBansTheRest(b.originatorReference);
    TextBansTheRest(b.codingHistory);
    hide Text;
  }

  lemma TextBansTheRest(s: seq<byte>)
    ensures Text(s) <==> forall c <- s :: !Banned(c)
  {
    if Text(s) {
      forall c | c in s ensures !Banned(c) {
        assert TextByte(c);
      }
    } else {
      var c :| c in s && !TextByte(c);
      assert Banned(c);
    }
  }

  // ---- the bytes -----------------------------------------------------------------------------------------------

  /** A fixed-width field holds as much of its text as fits, then NUL. */
  predicate Holds(field: seq<byte>, s: seq<byte>) {
    forall i :: 0 <= i < |field| ==> field[i] == if i < |s| then s[i] else 0
  }

  lemma PadHolds(s: seq<byte>, width: nat)
    ensures Holds(Pad(s, width), s)
  {
  }

  /** A 16-bit field stands for v modulo 2^16. */
  predicate Stands(u: uint16, v: int16) {
    u == v || u == v + 65536
  }

  /** The printed body, offset by offset. */
  lemma PrintedFields(b: Bext)
    ensures
      var body := Body(b);
      && |body| == 602 + |b.codingHistory|
      && Holds(body[..256], b.description) && Holds(body[256..288], b.originator)
      && Holds(body[288..320], b.originatorReference)
      && Holds(body[320..330], b.originationDate) && Holds(body[330..338], b.originationTime)
      && U64(body, 338) == b.timeReference && U16(body, 346) == b.version && body[348..412] == b.umid
      && body[412..422] == LoudnessBytes(b.loudness) && body[422..602] == Zeros(180) && body[602..] == b.codingHistory
  {
    hide Pad, Body, LoudnessBytes, U16, U64, Holds;
    BodyFields(b);
    ReservedIsZero(b);
    PadHolds(b.description, 256);
    PadHolds(b.originator, 32);
    PadHolds(b.originatorReference, 32);
    PadHolds(b.originationDate, 10);
    PadHolds(b.originationTime, 8);
  }

  lemma ReservedIsZero(b: Bext)
    ensures Body(b)[422..602] == Zeros(180)
  {
    hide Pad, Le16, Le64, LoudnessBytes, Zeros;
  }

  /** The loudness fields of a printed body: five signed numbers in the order value, range, true peak, momentary,
      short-term. */
  lemma PrintedLoudness(l: Loudness)
    ensures
      var f := LoudnessBytes(l);
      && Stands(U16(f, 0), l.value) && Stands(U16(f, 2), l.range) && Stands(U16(f, 4), l.maxTruePeak)
      && Stands(U16(f, 6), l.maxMomentary) && Stands(U16(f, 8), l.maxShortTerm)
  {
    hide LoudnessBytes, U16;
    LoudnessReadBack(l);
  }

  /** The text of a field is its longest beginning without a NUL, whatever stands behind the first one. */
  lemma {:induction false} CutAtTheFirstNul(f: seq<byte>)
    ensures
      var s := CutAtNul(f);
      s == f[..|s|] && 0 !in s && (|s| < |f| ==> f[|s|] == 0)
    decreases |f|
  {
    if f == [] || f[0] == 0 {
    } else {
      CutAtTheFirstNul(f[1..]);
      var t := CutAtNul(f[1..]);
      assert f == [f[0]] + f[1..];
    }
  }

  /** Which bodies are accepted and what each byte of an accepted one means: fields a version does not know yet are read
      as absent. */
  lemma ReadFields(body: seq<byte>)
    ensures |body| < 602 ==> ParseBext(body) == Err(CorruptStream)
    ensures |body| >= 602 ==>
      && ParseBext(body).Ok?
      && var b := ParseBext(body).value;
         && b.description == CutAtNul(body[..256]) && b.originator == CutAtNul(body[256..288])
         && b.originatorReference == CutAtNul(body[288..320]) && b.originationDate == CutAtNul(body[320..330])
         && b.originationTime == CutAtNul(body[330..338]) && b.codingHistory == CutAtNul(body[602..])
         && b.timeReference == U64(body, 338) && b.version == U16(body, 346)
         && b.umid == (if b.version == 0 then Zeros(64) else body[348..412])
         && (b.version <= 1 ==> b.loudness == Loudness(0, 0, 0, 0, 0))
         && (b.version >= 2 ==>
               && Stands(U16(body, 412), b.loudness.value) && Stands(U16(body, 414), b.loudness.range)
               && Stands(U16(body, 416), b.loudness.maxTruePeak) && Stands(U16(body, 418), b.loudness.maxMomentary)
               && Stands(U16(body, 420), b.loudness.maxShortTerm))
  {
    hide CutAtNul, U64;
    if |body| >= 602 {
      SliceFields(body);
    }
  }

  lemma SliceFields(body: seq<byte>)
    requires |body| >= 602
    ensures
      var f := body[412..422];
      && U16(f, 0) == U16(body, 412) && U16(f, 2) == U16(body, 414) && U16(f, 4) == U16(body, 416)
      && U16(f, 6) == U16(body, 418) && U16(f, 8) == U16(body, 420)
  {
  }
}
