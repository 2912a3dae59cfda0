/** The destination of an encoder: a byte store with a position, which may or may not be seekable. */
module Sinks {
  import opened Wire

  /** data after writing p at position pos, growing it as needed; a gap left by a seek reads as zero once something is
      written behind it. */
  function Overwrite(data: seq<byte>, pos: nat, p: seq<byte>): (r: seq<byte>)
    ensures |r| == if p == [] || pos + |p| <= |data| then |data| else pos + |p|
  {
    if p == [] then data
    else if pos > |data| then data + Zeros(pos - |data|) + p
    else if pos + |p| <= |data| then data[..pos] + p + data[pos + |p|..]
    else data[..pos] + p
  }

  /** Byte by byte: what was written stands where it was written, everything else is as it was, and a gap is zero. */
  lemma OverwriteAt(data: seq<byte>, pos: nat, p: seq<byte>, i: nat)
    ensures p == [] ==> Overwrite(data, pos, p) == data
    ensures p != [] ==> |Overwrite(data, pos, p)| == if pos + |p| < |data| then |data| else pos + |p|
    ensures i < |Overwrite(data, pos, p)| ==>
      Overwrite(data, pos, p)[i] == if pos <= i < pos + |p| then p[i - pos] else if i < |data| then data[i] else 0
    ensures i < pos ==> Front(data, pos)[i] == if i < |data| then data[i] else 0
  {
  }

  lemma OverwriteNothing(data: seq<byte>, pos: nat)
    ensures Overwrite(data, pos, []) == data
  {
  }

  /** Two writes one behind the other are one. */
  lemma OverwriteTwice(data: seq<byte>, pos: nat, x: seq<byte>, y: seq<byte>)
    ensures Overwrite(Overwrite(data, pos, x), pos + |x|, y) == Overwrite(data, pos, x + y)
  {
    hide Overwrite;
    OverwriteNothing(data, pos);
    OverwriteNothing(Overwrite(data, pos, x), pos + |x|);
    if x == [] {
      assert x + y == y;
    } else if y == [] {
      assert x + y == x;
    } else if pos <= |data| {
      OverwriteTwiceInside(data, pos, x, y);
    } else {
      OverwriteTwiceBeyond(data, pos, x, y);
    }
  }

  lemma OverwriteTwiceBeyond(data: seq<byte>, pos: nat, x: seq<byte>, y: seq<byte>)
    requires pos > |data| && x != [] && y != []
    ensures Overwrite(Overwrite(data, pos, x), pos + |x|, y) == Overwrite(data, pos, x + y)
  {
    var gap := data + Zeros(pos - |data|);
    assert (gap + x)[..|gap + x|] == gap + x;
    assert gap + x + y == gap + (x + y);
  }

  lemma OverwriteTwiceInside(data: seq<byte>, pos: nat, x: seq<byte>, y: seq<byte>)
    requires pos <= |data| && x != [] && y != []
    ensures Overwrite(Overwrite(data, pos, x), pos + |x|, y) == Overwrite(data, pos, x + y)
  {
  }

  /** What lies in front of a write at pos, once something has been written there. */
  function Front(data: seq<byte>, pos: nat): (f: seq<byte>)
    ensures |f| == pos
  {
    if pos <= |data| then data[..pos] else data + Zeros(pos - |data|)
  }

  class Sink {
    var data: seq<byte>
    var pos: nat
    /** Whether the sink can seek; a plain writer cannot. */
    const seekable: bool
    /** Whether the sink never fails. */
    const reliable: bool
    /** The lengths of the writes it was offered, in order. */
    ghost var blocks: seq<nat>

    constructor (seekable: bool, reliable: bool)
      ensures this.seekable == seekable && this.reliable == reliable && data == [] && pos == 0 && blocks == []
    {
      this.seekable, this.reliable := seekable, reliable;
      data, pos, blocks := [], 0, [];
    }

    /** Writes a prefix of p, all of it on success. Which prefix an unreliable sink takes is its own affair. */
    method Write(p: seq<byte>) returns (n: nat, ok: bool)
      modifies this
      ensures n <= |p| && (ok ==> n == |p|) && (reliable ==> ok)
      ensures data == Overwrite(old(data), old(pos), p[..n]) && pos == old(pos) + n && blocks == old(blocks) + [|p|]
    {
      n := |p|;
      ok := true;
      if !reliable {
        n :| n <= |p|;
        ok := n == |p|;
      }
      data := Overwrite(data, pos, p[..n]);
      pos := pos + n;
      blocks := blocks + [|p|];
    }

    method SeekTo(offset: nat) returns (ok: bool)
      modifies this`pos
      ensures reliable && seekable ==> ok
      ensures pos == if ok then offset else old(pos)
    {
      ok := seekable;
      if !reliable {
        ok := *;
      }
      if ok {
        pos := offset;
      }
    }
  }
}
