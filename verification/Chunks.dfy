/** Chunk identifiers, structural sizes and the chunk wire form. */
module Chunks {
  import opened Wire
  import opened Types

  const RIFF_ID: seq<byte> := [0x52, 0x49, 0x46, 0x46]
  const RF64_ID: seq<byte> := [0x52, 0x46, 0x36, 0x34]
  const BW64_ID: seq<byte> := [0x42, 0x57, 0x36, 0x34]
  const WAVE: seq<byte> := [0x57, 0x41, 0x56, 0x45]
  const FMT: seq<byte> := [0x66, 0x6d, 0x74, 0x20]
  const DATA: seq<byte> := [0x64, 0x61, 0x74, 0x61]
  const DS64: seq<byte> := [0x64, 0x73, 0x36, 0x34]
  const FACT: seq<byte> := [0x66, 0x61, 0x63, 0x74]
  const JUNK: seq<byte> := [0x4a, 0x55, 0x4e, 0x4b]
  const BEXT: seq<byte> := [0x62, 0x65, 0x78, 0x74]
  const IXML: seq<byte> := [0x69, 0x58, 0x4d, 0x4c]

  const FILE_HEADER_SIZE := 12
  const CHUNK_HEADER_SIZE := 8
  const DS64_PAYLOAD_SIZE := 28
  const DS64_CHUNK_SIZE := 36
  const FACT_PAYLOAD_SIZE := 4

  const SENTINEL32: uint32 := 0xffff_ffff
  /** The reader's ceiling on a declared length, 2^62. */
  const MAX_DATA_SIZE: uint64 := 0x4000_0000_0000_0000
  const MAX_CHUNK_PAYLOAD := 0x10_0000
  const SIZE_UNKNOWN: int64 := -1

  function Magic(c: Container): (id: seq<byte>)
    ensures |id| == 4
  {
    match c
    case RIFF => RIFF_ID
    case RF64 => RF64_ID
    case BW64 => BW64_ID
  }

  /** The even length n bytes take up in a file. */
  function Padded(n: int): (p: int)
    ensures p % 2 == 0 && n <= p <= n + 1
  {
    if n % 2 != 0 then n + 1 else n
  }

  function PadOf(n: nat): (p: seq<byte>)
    ensures |p| == Padded(n) - n
  {
    if n % 2 != 0 then [0] else []
  }

  /** The test that tells a missing pad byte from a present one: the next four bytes are printable ASCII. */
  predicate Plausible(s: seq<byte>) {
    |s| >= 4 && forall i :: 0 <= i < 4 ==> 0x20 <= s[i] <= 0x7e
  }

  /** A chunk: identifier, payload size, payload. */
  function Chunk(id: seq<byte>, body: seq<byte>): (c: seq<byte>)
    requires |body| <= MAX_UINT32
    ensures |c| == |id| + 4 + |body|
  {
    id + Le32(|body|) + body
  }

  /** A metadata chunk with its pad byte, or nothing for an absent body. */
  function MetaChunk(id: seq<byte>, body: seq<byte>): (c: seq<byte>)
    requires |body| <= MAX_UINT32 && |id| == 4
    ensures |c| == if body == [] then 0 else CHUNK_HEADER_SIZE + Padded(|body|)
  {
    if body == [] then [] else Chunk(id, body) + PadOf(|body|)
  }

  /** The bytes of an ASCII text. */
  function Ascii(s: string): (b: seq<byte>)
    requires forall i :: 0 <= i < |s| ==> s[i] < 128 as char
    ensures |b| == |s|
  {
    seq(|s|, i requires 0 <= i < |s| => Code(s[i]))
  }

  function Code(c: char): byte
    requires c < 128 as char
  {
    c as int
  }

  /** The identifiers are spelled as they are named. */
  lemma IdentifiersSpell()
    ensures RIFF_ID == Ascii("RIFF") && RF64_ID == Ascii("RF64") && BW64_ID == Ascii("BW64") && WAVE == Ascii("WAVE")
    ensures FMT == Ascii("fmt ") && DATA == Ascii("data") && FACT == Ascii("fact")
    ensures DS64 == Ascii("ds64") && JUNK == Ascii("JUNK") && BEXT == Ascii("bext") && IXML == Ascii("iXML")
  {
  }
}
