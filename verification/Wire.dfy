/** Bytes, fixed-width integers and the little-endian wire encoding. */
module Wire {

  type byte = x: int | 0 <= x < 0x100
  type uint16 = x: int | 0 <= x < 0x1_0000
  type uint32 = x: int | 0 <= x < 0x1_0000_0000
  type uint64 = x: int | 0 <= x < 0x1_0000_0000_0000_0000
  type int16 = x: int | -0x8000 <= x < 0x8000
  type int32 = x: int | -0x8000_0000 <= x < 0x8000_0000
  type int64 = x: int | -0x8000_0000_0000_0000 <= x < 0x8000_0000_0000_0000

  const MAX_INT64: int64 := 0x7fff_ffff_ffff_ffff
  const MAX_UINT32: uint32 := 0xffff_ffff
  const TWO_TO_62: int64 := 0x4000_0000_0000_0000

  /** What a 64-bit two's complement register holds after computing x. */
  function Wrap64(x: int): (r: int64)
    ensures (r - x) % 0x1_0000_0000_0000_0000 == 0
    ensures -0x8000_0000_0000_0000 <= x < 0x8000_0000_0000_0000 ==> r == x
  {
    (x + 0x8000_0000_0000_0000) % 0x1_0000_0000_0000_0000 - 0x8000_0000_0000_0000
  }

  function Le16(v: uint16): (b: seq<byte>)
    ensures |b| == 2
  {
    [v % 256, v / 256]
  }

  function Le32(v: uint32): (b: seq<byte>)
    ensures |b| == 4
  {
    Le16(v % 0x1_0000) + Le16(v / 0x1_0000)
  }

  function Le64(v: uint64): (b: seq<byte>)
    ensures |b| == 8
  {
    Le32(v % 0x1_0000_0000) + Le32(v / 0x1_0000_0000)
  }

  function U16(b: seq<byte>, at: nat): (v: uint16)
    requires at + 2 <= |b|
  {
    b[at] as int + 256 * (b[at + 1] as int)
  }

  function U32(b: seq<byte>, at: nat): (v: uint32)
    requires at + 4 <= |b|
  {
    U16(b, at) as int + 0x1_0000 * (U16(b, at + 2) as int)
  }

  function U64(b: seq<byte>, at: nat): (v: uint64)
    requires at + 8 <= |b|
  {
    U32(b, at) as int + 0x1_0000_0000 * (U32(b, at + 4) as int)
  }

  /** The number little-endian bytes spell: the first byte counts least. */
  function Spelled(s: seq<byte>): nat {
    if s == [] then 0 else s[0] as int + 0x100 * Spelled(s[1..])
  }

  /** Every field is read little-endian, and a printed one spells its value. */
  lemma FieldsSpellTheirValues(b: seq<byte>, at: nat, v: uint64)
    ensures at + 2 <= |b| ==> U16(b, at) == Spelled(b[at..at + 2])
    ensures at + 4 <= |b| ==> U32(b, at) == Spelled(b[at..at + 4])
    ensures at + 8 <= |b| ==> U64(b, at) == Spelled(b[at..at + 8])
    ensures Spelled(Le64(v)) == v
    ensures (v < 0x1_0000_0000 ==> Spelled(Le32(v)) == v) && (v < 0x1_0000 ==> Spelled(Le16(v)) == v)
  {
    hide Le16, Le32, Le64, U16, U32, U64, Spelled;
    if at + 2 <= |b| {
      SpelledU16(b, at);
    }
    if at + 4 <= |b| {
      SpelledU32(b, at);
    }
    if at + 8 <= |b| {
      SpelledU64(b, at);
    }
    ReadBack64([], v, []);
    assert [] + Le64(v) + [] == Le64(v) == Le64(v)[0..8];
    SpelledU64(Le64(v), 0);
    if v < 0x1_0000_0000 {
      ReadBack32([], v, []);
      assert [] + Le32(v) + [] == Le32(v) == Le32(v)[0..4];
      SpelledU32(Le32(v), 0);
    }
    if v < 0x1_0000 {
      ReadBack16([], v, []);
      assert [] + Le16(v) + [] == Le16(v) == Le16(v)[0..2];
      SpelledU16(Le16(v), 0);
    }
  }

  lemma SpelledU16(b: seq<byte>, at: nat)
    requires at + 2 <= |b|
    ensures U16(b, at) == Spelled(b[at..at + 2])
  {
    var s := b[at..at + 2];
    assert s[1..] == [b[at + 1]] && Spelled([b[at + 1]]) == b[at + 1];
  }

  lemma {:induction false} SpelledJoin(x: seq<byte>, y: seq<byte>)
    requires |x| in {0, 1, 2, 3, 4}
    ensures Spelled(x + y) == Spelled(x) +
      (if |x| == 0 then 1 else if |x| == 1 then 0x100 else if |x| == 2 then 0x1_0000
       else if |x| == 3 then 0x100_0000 else 0x1_0000_0000) * Spelled(y)
    decreases |x|
  {
    if x == [] {
      assert x + y == y;
    } else {
      SpelledJoin(x[1..], y);
      assert (x + y)[1..] == x[1..] + y;
    }
  }

  lemma SpelledU32(b: seq<byte>, at: nat)
    requires at + 4 <= |b|
    ensures U32(b, at) == Spelled(b[at..at + 4])
  {
    hide Spelled, U16;
    SpelledU16(b, at);
    SpelledU16(b, at + 2);
    SpelledJoin(b[at..at + 2], b[at + 2..at + 4]);
    assert b[at..at + 4] == b[at..at + 2] + b[at + 2..at + 4];
  }

  lemma SpelledU64(b: seq<byte>, at: nat)
    requires at + 8 <= |b|
    ensures U64(b, at) == Spelled(b[at..at + 8])
  {
    hide Spelled, U32;
    SpelledU32(b, at);
    SpelledU32(b, at + 4);
    SpelledJoin(b[at..at + 4], b[at + 4..at + 8]);
    assert b[at..at + 8] == b[at..at + 4] + b[at + 4..at + 8];
  }

  /** Reading a field back yields the value written there, wherever it sits. */
  lemma ReadBack16(a: seq<byte>, v: uint16, c: seq<byte>)
    ensures U16(a + Le16(v) + c, |a|) == v
  {
  }

  lemma ReadBack32(a: seq<byte>, v: uint32, c: seq<byte>)
    ensures U32(a + Le32(v) + c, |a|) == v
  {
    var lo, hi := Le16(v % 0x1_0000), Le16(v / 0x1_0000);
    ReadBack16(a, v % 0x1_0000, hi + c);
    ReadBack16(a + lo, v / 0x1_0000, c);
    assert a + Le32(v) + c == a + lo + (hi + c) == a + lo + hi + c;
  }

  lemma ReadBack64(a: seq<byte>, v: uint64, c: seq<byte>)
    ensures U64(a + Le64(v) + c, |a|) == v
  {
    var lo, hi := Le32(v % 0x1_0000_0000), Le32(v / 0x1_0000_0000);
    ReadBack32(a, v % 0x1_0000_0000, hi + c);
    ReadBack32(a + lo, v / 0x1_0000_0000, c);
    assert a + Le64(v) + c == a + lo + (hi + c) == a + lo + hi + c;
  }

  lemma WriteBack16(b: seq<byte>)
    requires |b| == 2
    ensures Le16(U16(b, 0)) == b
  {
  }

  lemma WriteBack32(b: seq<byte>)
    requires |b| == 4
    ensures Le32(U32(b, 0)) == b
  {
    hide Le16, U16;
    WriteBack16(b[..2]);
    WriteBack16(b[2..]);
    HalvesComeApart(U16(b, 0), U16(b, 2));
    assert U16(b, 0) == U16(b[..2], 0) && U16(b, 2) == U16(b[2..], 0) by {
      SliceU16(b);
    }
  }

  lemma SliceU16(b: seq<byte>)
    requires |b| == 4
    ensures U16(b, 0) == U16(b[..2], 0) && U16(b, 2) == U16(b[2..], 0)
  {
  }

  lemma HalvesComeApart(lo: int, hi: int)
    requires 0 <= lo < 0x1_0000 && 0 <= hi < 0x1_0000
    ensures (lo + 0x1_0000 * hi) % 0x1_0000 == lo && (lo + 0x1_0000 * hi) / 0x1_0000 == hi
  {
  }

  function Zeros(n: nat): (b: seq<byte>)
    ensures |b| == n
  {
    seq(n, _ => 0)
  }

  /** b with the bytes from `at` on replaced by v. */
  function Splice(b: seq<byte>, at: nat, v: seq<byte>): (r: seq<byte>)
    requires at + |v| <= |b|
    ensures |r| == |b|
  {
    b[..at] + v + b[at + |v|..]
  }

  /** Overwriting everything. */
  lemma SpliceWhole(x: seq<byte>, v: seq<byte>)
    requires |v| == |x|
    ensures Splice(x, 0, v) == v
  {
  }

  /** Two adjacent splices are one. */
  lemma SpliceWithin(b: seq<byte>, at: nat, w: seq<byte>, x: seq<byte>)
    requires at + |w| + |x| <= |b|
    ensures Splice(Splice(b, at, w), at + |w|, x) == Splice(b, at, w + x)
  {
  }

  /** Writes v into the buffer at an offset, in place. */
  method Put(buf: array<byte>, at: nat, v: seq<byte>)
    requires at + |v| <= buf.Length
    modifies buf
    ensures buf[..] == Splice(old(buf[..]), at, v)
  {
    var i := 0;
    while i < |v|
      invariant 0 <= i <= |v|
      invariant buf[..] == Splice(old(buf[..]), at, v[..i])
    {
      buf[at + i] := v[i];
      i := i + 1;
    }
    assert v[..i] == v;
  }

  /** Fills the next field of a buffer whose first `at` bytes are written and whose rest is still zero. */
  method PutNext(buf: array<byte>, ghost done: seq<byte>, at: nat, v: seq<byte>)
    requires at == |done| && at + |v| <= buf.Length && buf[..] == done + Zeros(buf.Length - at)
    modifies buf
    ensures buf[..] == done + v + Zeros(buf.Length - at - |v|)
  {
    Put(buf, at, v);
  }
}
