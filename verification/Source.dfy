/** The origin of a stream: a byte sequence read through a cursor, in pieces of the source's own choosing. */
module Sources {
  import opened Wire

  function Take(s: seq<byte>, n: int): seq<byte> {
    if n <= 0 then [] else if n <= |s| then s[..n] else s
  }

  function Drop(s: seq<byte>, n: int): seq<byte> {
    if n <= 0 then s else if n <= |s| then s[n..] else []
  }

  /** What is taken and what is left make up the whole. */
  lemma TakeAndDrop(s: seq<byte>, n: int)
    ensures Take(s, n) + Drop(s, n) == s
    ensures |Take(s, n)| == if n < 0 then 0 else if n > |s| then |s| else n
  {
  }

  /** Two steps through s are one. */
  lemma TakeDropStep(s: seq<byte>, k: nat, w: nat)
    ensures Drop(Drop(s, k), w) == Drop(s, k + w) && |Take(s, k + w)| == |Take(s, k)| + |Take(Drop(s, k), w)|
    ensures Take(s, 0) == [] && Drop(s, 0) == s
    ensures Take(s, k) + Take(Drop(s, k), w) == Take(s, k + w) && |Take(Drop(s, k), w)| <= w
  {
  }

  /** A step that comes up short reaches the end, and so does any longer one. */
  lemma TakeDropEnd(s: seq<byte>, k: nat, w: nat, n: nat)
    requires k + w <= n && |Take(Drop(s, k), w)| < w
    ensures Drop(s, n) == Drop(s, k + w) && |Take(s, n)| == |Take(s, k + w)|
  {
  }

  lemma DropIsSuffix(s: seq<byte>, n: int)
    ensures |Drop(s, n)| <= |s| && Drop(s, n) == s[|s| - |Drop(s, n)|..]
  {
  }

  lemma TakeDropAll(s: seq<byte>, k: nat, n: nat)
    requires k <= n && Drop(s, k) == []
    ensures Take(s, n) == Take(s, k) && Drop(s, n) == []
  {
  }

  class Source {
    const data: seq<byte>
    const seekable: bool
    /** Whether a seek that is possible never fails. */
    const reliable: bool
    /** The position of the next byte; a seek may leave it past the end. */
    var pos: nat

    constructor (data: seq<byte>, seekable: bool, reliable: bool)
      ensures this.data == data && this.seekable == seekable && this.reliable == reliable && pos == 0
    {
      this.data, this.seekable, this.reliable := data, seekable, reliable;
      pos := 0;
    }

    /** What is left to read. */
    ghost function Rest(): seq<byte>
      reads this
    {
      Drop(data, pos)
    }

    /** Reads between one and max bytes, or reports the end. Data may arrive together with the end. */
    method Read(max: nat) returns (p: seq<byte>, eof: bool)
      requires max > 0
      modifies this`pos
      ensures p == Take(old(Rest()), |p|) && |p| <= max && |p| <= |old(Rest())|
      ensures pos == old(pos) + |p| && Rest() == Drop(old(Rest()), |p|)
      ensures eof || |p| > 0
      ensures eof ==> Rest() == []
    {
      var left := if pos <= |data| then |data| - pos else 0;
      if left == 0 {
        return [], true;
      }
      var n: nat :| 0 < n <= max && n <= left;
      p := data[pos..pos + n];
      pos := pos + n;
      eof := false;
      if n == left {
        eof := *;
      }
    }

    /** Reads exactly n bytes unless the source ends first. */
    method ReadFull(n: nat) returns (p: seq<byte>)
      modifies this`pos
      ensures p == Take(old(Rest()), n)
      ensures pos == old(pos) + |p| && Rest() == Drop(old(Rest()), |p|)
    {
      hide Take, Drop;
      ghost var s := Rest();
      TakeDropStep(s, 0, 0);
      p := [];
      var eof := false;
      while |p| < n && !eof
        invariant |p| <= n && p == Take(s, |p|) && pos == old(pos) + |p| && Rest() == Drop(s, |p|)
        invariant eof ==> Rest() == []
        decreases n - |p|, !eof
      {
        var q;
        q, eof := Read(n - |p|);
        TakeDropStep(s, |p|, |q|);
        p := p + q;
      }
      if |p| < n {
        TakeDropAll(s, |p|, n);
      }
    }

    /** The next n bytes, or fewer at the end, without consuming them. */
    method Peek(n: nat) returns (p: seq<byte>)
      ensures p == Take(Rest(), n)
    {
      p := if pos >= |data| then [] else if n <= |data| - pos then data[pos..pos + n] else data[pos..];
    }

    /** Skips up to n bytes, as many as there are. */
    method Discard(n: nat) returns (got: nat)
      modifies this`pos
      ensures got == |Take(old(Rest()), n)|
      ensures pos == old(pos) + got && Rest() == Drop(old(Rest()), n)
    {
      var left := if pos <= |data| then |data| - pos else 0;
      got := if n <= left then n else left;
      pos := pos + got;
    }

    /** Moves the cursor; a refusal leaves it where it was. */
    method SeekTo(offset: nat) returns (ok: bool)
      modifies this`pos
      ensures pos == if ok then offset else old(pos)
      ensures (ok ==> seekable) && (seekable && reliable ==> ok)
    {
      ok := seekable;
      if !reliable {
        var willing := *;
        ok := seekable && willing;
      }
      if ok {
        pos := offset;
      }
    }

    /** Where the cursor stands, if the source can tell. */
    method Tell() returns (offset: nat, ok: bool)
      ensures (ok ==> seekable) && (seekable && reliable ==> ok) && offset == pos
    {
      offset := pos;
      ok := seekable;
      if !reliable {
        var willing := *;
        ok := seekable && willing;
      }
    }
  }
}
