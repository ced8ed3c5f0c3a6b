/**
  Buffers of bytes: copying into them, and the 32-bit values that are stored in them.
 */
module Buffers {
  /** RtlCopyMemory: bytes from a place of a source are copied to a place in a buffer. */
  method CopyMemory(source: seq<nat>, from: nat, byteCount: nat, buffer: array<nat>, offset: nat)
    requires from + byteCount <= |source| && offset + byteCount <= buffer.Length
    modifies buffer
    ensures buffer[..] == old(buffer[..])[..offset] + source[from..from + byteCount] + old(buffer[..])[offset + byteCount..]
  {
    for i := 0 to byteCount
      invariant buffer[..] == old(buffer[..])[..offset] + source[from..from + i] + old(buffer[..])[offset + i..]
    {
      ghost var was := buffer[..];
      buffer[offset + i] := source[from + i];
      assert buffer[..] == was[offset + i := source[from + i]];
      assert source[from..from + i + 1] == source[from..from + i] + [source[from + i]];
    }
  }

  /** A ULONG as it is stored, low byte first. */
  function Ulong(v: nat): (b: seq<nat>)
    ensures |b| == 4
  {
    [v % 0x100, v / 0x100 % 0x100, v / 0x1_0000 % 0x100, v / 0x100_0000 % 0x100]
  }

  function ReadUlong(b: seq<nat>, at: nat): nat
    requires at + 4 <= |b|
  {
    b[at] + 0x100 * b[at + 1] + 0x1_0000 * b[at + 2] + 0x100_0000 * b[at + 3]
  }

  lemma UlongReads(v: nat)
    requires v < 0x1_0000_0000
    ensures ReadUlong(Ulong(v), 0) == v
  {
    assert v == v % 0x100 + 0x100 * (v / 0x100);
    assert v / 0x1_0000 == v / 0x100 / 0x100;
    assert v / 0x100 == v / 0x1_0000 * 0x100 + v / 0x100 % 0x100;
    assert v / 0x1_0000 == v / 0x100_0000 * 0x100 + v / 0x1_0000 % 0x100;
  }

  /** Two buffers differ at most between two places. */
  ghost predicate SameOutside(u0: seq<nat>, u1: seq<nat>, lo: nat, hi: nat) {
    |u1| == |u0| && forall k {:trigger u1[k]} :: 0 <= k < |u0| && !(lo <= k < hi) ==> u1[k] == u0[k]
  }

  /** Writes bytes to a place in a buffer. */
  method Write(bytes: seq<nat>, buffer: array<nat>, at: nat)
    requires at + |bytes| <= buffer.Length
    modifies buffer
    ensures buffer[at..at + |bytes|] == bytes && SameOutside(old(buffer[..]), buffer[..], at, at + |bytes|)
  {
    CopyMemory(bytes, 0, |bytes|, buffer, at);
    assert bytes[0..|bytes|] == bytes;
  }

  lemma UlongOf(u: seq<nat>, at: nat, bytes: seq<nat>)
    requires at + |bytes| <= |u| && 4 <= |bytes| && u[at..at + |bytes|] == bytes
    ensures ReadUlong(u, at) == ReadUlong(bytes, 0)
  {
    assert bytes[0] == u[at] && bytes[1] == u[at + 1] && bytes[2] == u[at + 2] && bytes[3] == u[at + 3];
  }

  /** Writes a ULONG to a place in a buffer. */
  method WriteUlong(v: nat, buffer: array<nat>, at: nat)
    requires v < 0x1_0000_0000 && at + 4 <= buffer.Length
    modifies buffer
    ensures ReadUlong(buffer[..], at) == v && SameOutside(old(buffer[..]), buffer[..], at, at + 4)
  {
    Write(Ulong(v), buffer, at);
    UlongReads(v);
    hide Ulong;
    UlongOf(buffer[..], at, buffer[at..at + 4]);
  }

  lemma UlongKept(u0: seq<nat>, u1: seq<nat>, lo: nat, hi: nat, at: nat)
    requires SameOutside(u0, u1, lo, hi) && at + 4 <= |u0| && (at + 4 <= lo || hi <= at)
    ensures ReadUlong(u1, at) == ReadUlong(u0, at)
  {
  }

  lemma BytesKept(u0: seq<nat>, u1: seq<nat>, lo: nat, hi: nat, at: nat, n: nat)
    requires SameOutside(u0, u1, lo, hi) && at + n <= |u0| && (at + n <= lo || hi <= at)
    ensures u1[at..at + n] == u0[at..at + n]
  {
  }

  lemma SameWider(u0: seq<nat>, u1: seq<nat>, lo: nat, hi: nat, lo': nat, hi': nat)
    requires SameOutside(u0, u1, lo, hi) && lo' <= lo && hi <= hi'
    ensures SameOutside(u0, u1, lo', hi')
  {
  }

  lemma SameTwice(u0: seq<nat>, u1: seq<nat>, u2: seq<nat>, lo: nat, hi: nat, lo': nat, hi': nat)
    requires SameOutside(u0, u1, lo, hi) && SameOutside(u1, u2, lo', hi') && lo <= lo' && hi' <= hi
    ensures SameOutside(u0, u2, lo, hi)
  {
  }
}
