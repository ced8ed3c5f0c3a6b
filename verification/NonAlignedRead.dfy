/**
  FatNonCachedNonAlignedRead: a read that need not start or end at a sector.  The first
  and the last sector go through a disk buffer of their own, what is between them is read
  straight into the user's buffer.
 */
module NonAlignedRead {
  import opened Buffers
  import opened FatTable
  import opened Volume
  import opened Sizes
  import opened FileMap
  import opened FileAllocation
  import opened NonCachedIo

  /** How far into its sector a byte is. */
  function Into(x: nat, s: nat): nat
    requires s > 0
  {
    x % s
  }

  /** A byte before a multiple of the sector size has its whole sector before it. */
  lemma SectorBefore(s: nat, x: nat, end: nat)
    requires s > 0 && end % s == 0 && x < end
    ensures x - x % s + s <= end
  {
    var q, e := x / s, end / s;
    assert x == q * s + x % s && end == e * s;
    if e <= q {
      ProductMonotone(e, q, s);
    } else {
      ProductMonotone(q + 1, e, s);
    }
  }

  /** Files end at sectors. */
  lemma {:induction false} FileEndAligned(vcb: Vcb, s: nat, n: nat)
    requires SectorsFit(vcb, s)
    ensures Span(vcb.bytesPerCluster, n) % s == 0
  {
    var q: nat :| Span(s, q) == vcb.bytesPerCluster;
    SpanIs(s, q);
    SpanIs(vcb.bytesPerCluster, n);
    hide *;
    ProductAligned(n, q, s, vcb.bytesPerCluster);
  }

  lemma ProductAligned(n: int, q: int, s: int, b: int)
    requires s > 0 && b == q * s
    ensures n * b % s == 0
  {
    assert n * (q * s) == 0 + s * (n * q);
    SameRemainder(n * b, 0, s, n * q);
  }

  lemma {:induction false} AnswerInto(vcb: Vcb, m: seq<nat>, vbo: nat, r: Answer, s: nat)
    requires vcb.bytesPerCluster > 0 && Answers(vcb.fileAreaLbo, vcb.bytesPerCluster, m, vbo, r) && SectorsFit(vcb, s)
    requires forall i {:trigger m[i]} :: 0 <= i < |m| ==> 2 <= m[i] < 0x1000_0000
    ensures r.Extent? && Into(r.lbo, s) == Into(vbo, s) <= r.lbo && s - Into(vbo, s) <= r.byteCount
  {
    AnswerAligned(vcb, m, vbo, r, s);
    RemainderAtMost(r.lbo, s);
  }

  lemma RemainderAtMost(x: nat, s: nat)
    requires s > 0
    ensures x % s <= x
  {
  }

  /** The sector that holds a byte of the file, read from the disk, holds the bytes of the file from there on. */
  lemma {:induction false} SectorHolds(vcb: Vcb, m: seq<nat>, disk: seq<nat>, s: nat, vbo: nat, r: Answer, n: nat)
    requires Readable(vcb, m, disk) && SectorsFit(vcb, s) && Answers(vcb.fileAreaLbo, vcb.bytesPerCluster, m, vbo, r)
    requires Into(vbo, s) + n <= s
    ensures r.Extent? && Into(r.lbo, s) == Into(vbo, s) <= r.lbo && r.lbo - Into(r.lbo, s) + s <= |disk|
    ensures Filled(vcb.fileAreaLbo, vcb.bytesPerCluster, m, disk, vbo, disk[r.lbo..r.lbo + n])
  {
    AnswerInto(vcb, m, vbo, r, s);
    hide Into;
    hide SectorsFit;
    hide Answers;
    RunOnDisk(vcb.fileAreaLbo, vcb.bytesPerCluster, m, disk, vbo, r);
    FilledFromRun(vcb.fileAreaLbo, vcb.bytesPerCluster, m, disk, vbo, r, 0, disk[r.lbo..r.lbo + n]);
  }

  lemma SliceOfSlice(d: seq<nat>, at: nat, length: nat, i: nat, n: nat)
    requires at + length <= |d| && i + n <= length
    ensures d[at..at + length][i..i + n] == d[at + i..at + i + n]
  {
    var a, b := d[at..at + length][i..i + n], d[at + i..at + i + n];
    forall k | 0 <= k < n ensures a[k] == b[k] {
      assert d[at..at + length][i + k] == d[at + i + k];
    }
  }

  /** Part of a sector, copied to the user's buffer. */
  lemma CopyFills(vcb: Vcb, m: seq<nat>, disk: seq<nat>, vbo: nat, u0: seq<nat>, u: seq<nat>, base: nat, sector: seq<nat>, lbo: nat, hole: nat, n: nat)
    requires lbo + |sector| <= |disk| && sector == disk[lbo..lbo + |sector|] && hole + n <= |sector| && base + n <= |u0|
    requires Filled(vcb.fileAreaLbo, vcb.bytesPerCluster, m, disk, vbo, disk[lbo + hole..lbo + hole + n])
    requires u == u0[..base] + sector[hole..hole + n] + u0[base + n..]
    ensures FilledBetween(vcb, m, disk, vbo, u0, u, base, n)
  {
    SliceOfSlice(disk, lbo, |sector|, hole, n);
    assert u[base..base + n] == sector[hole..hole + n];
    assert u[..base] == u0[..base];
    assert u[base + n..] == u0[base + n..];
  }

  /** Reads a sector into the disk buffer, and copies from its hole on to the user's buffer. */
  method CopySector(vcb: Vcb, ghost m: seq<nat>, disk: seq<nat>, s: nat, ghost vbo: nat, lbo: nat, hole: nat, bytesToCopy: nat, user: array<nat>, offset: nat)
    requires lbo + s <= |disk| && hole + bytesToCopy <= s && offset + bytesToCopy <= user.Length
    requires Filled(vcb.fileAreaLbo, vcb.bytesPerCluster, m, disk, vbo, disk[lbo + hole..lbo + hole + bytesToCopy])
    modifies user
    ensures FilledBetween(vcb, m, disk, vbo, old(user[..]), user[..], offset, bytesToCopy)
  {
    hide *;
    var diskBuffer := disk[lbo..lbo + s];
    ghost var was := user[..];
    CopyMemory(diskBuffer, hole, bytesToCopy, user, offset);
    CopyFills(vcb, m, disk, vbo, was, user[..], offset, diskBuffer, lbo, hole, bytesToCopy);
  }

  /** How much of the request lies in the first sector. */
  function HeadBytes(startingVbo: nat, byteCount: nat, s: nat): nat
    requires s > 0 && Into(startingVbo, s) < s
  {
    if byteCount >= s - Into(startingVbo, s) then s - Into(startingVbo, s) else byteCount
  }

  /** The part of the first sector that the request wants. */
  method ReadHead(file: Fcb, ghost chain: seq<nat>, disk: seq<nat>, s: nat, startingVbo: nat, byteCount: nat, user: array<nat>)
    returns (r: ReadResult, bytesToCopy: nat)
    requires FileOnDisk(file, chain, disk) && SectorsFit(file.vcb, s) && user != file.vcb.fat.units
    requires startingVbo < 0x1_0000_0000 && byteCount <= user.Length && Into(startingVbo, s) < s
    modifies file`mcb, file`allocationSize, user
    ensures FileOnDisk(file, chain, disk)
    ensures r.CorruptFile? <==> startingVbo >= Span(file.vcb.bytesPerCluster, |chain|)
    ensures r.CorruptFile? ==> user[..] == old(user[..])
    ensures bytesToCopy == HeadBytes(startingVbo, byteCount, s)
    ensures r.ReadDone? ==> FilledBetween(file.vcb, chain, disk, startingVbo, old(user[..]), user[..], 0, bytesToCopy)
  {
    hide *;
    bytesToCopy := HeadBytes(startingVbo, byteCount, s);
    HeadInside(startingVbo, byteCount, s);
    ReadyToLookUp(file, chain, disk);
    var hole := Into(startingVbo, s);
    var next := LookUpByte(file, startingVbo, chain, disk);
    if !next.Extent? {
      return CorruptFile, bytesToCopy;
    }
    SectorHolds(file.vcb, chain, disk, s, startingVbo, next, bytesToCopy);
    r := ReadDone;
    CopySector(file.vcb, chain, disk, s, startingVbo, next.lbo - Into(next.lbo, s), hole, bytesToCopy, user, 0);
  }

  lemma HeadInside(startingVbo: nat, byteCount: nat, s: nat)
    requires s > 0 && Into(startingVbo, s) < s
    ensures Into(startingVbo, s) + HeadBytes(startingVbo, byteCount, s) <= s && HeadBytes(startingVbo, byteCount, s) <= byteCount
  {
  }

  /** The part of the last sector that the request wants. */
  method ReadTail(file: Fcb, ghost chain: seq<nat>, disk: seq<nat>, s: nat, lastSectorVbo: nat, bytesToCopy: nat, user: array<nat>, offset: nat) returns (r: ReadResult)
    requires FileOnDisk(file, chain, disk) && SectorsFit(file.vcb, s) && user != file.vcb.fat.units
    requires lastSectorVbo < 0x1_0000_0000 && Into(lastSectorVbo, s) == 0 && bytesToCopy < s && offset + bytesToCopy <= user.Length
    modifies file`mcb, file`allocationSize, user
    ensures FileOnDisk(file, chain, disk)
    ensures r.CorruptFile? <==> lastSectorVbo >= Span(file.vcb.bytesPerCluster, |chain|)
    ensures r.CorruptFile? ==> user[..] == old(user[..])
    ensures r.ReadDone? ==> FilledBetween(file.vcb, chain, disk, lastSectorVbo, old(user[..]), user[..], offset, bytesToCopy)
  {
    hide *;
    ReadyToLookUp(file, chain, disk);
    var next := LookUpByte(file, lastSectorVbo, chain, disk);
    if !next.Extent? {
      return CorruptFile;
    }
    SectorHolds(file.vcb, chain, disk, s, lastSectorVbo, next, bytesToCopy);
    r := ReadDone;
    CopySector(file.vcb, chain, disk, s, lastSectorVbo, next.lbo, 0, bytesToCopy, user, offset);
  }

  /** The rest of the request, after its first and last sectors. */
  method ReadMiddle(file: Fcb, ghost chain: seq<nat>, disk: seq<nat>, startingVbo: nat, byteCount: nat, user: array<nat>, base: nat) returns (r: ReadResult)
    requires FileOnDisk(file, chain, disk) && user != file.vcb.fat.units
    requires startingVbo + byteCount <= 0x1_0000_0000 && base + byteCount <= user.Length
    modifies file`mcb, file`allocationSize, user
    ensures FileOnDisk(file, chain, disk)
    ensures r.CorruptFile? <==> byteCount > 0 && startingVbo + byteCount > Span(file.vcb.bytesPerCluster, |chain|)
    ensures r.CorruptFile? ==> user[..] == old(user[..])
    ensures r.ReadDone? ==> FilledBetween(file.vcb, chain, disk, startingVbo, old(user[..]), user[..], base, byteCount)
  {
    r := ReadDone;
    hide FileOnDisk;
    if byteCount > 0 {
      r := NonCachedRead(file, chain, disk, startingVbo, byteCount, user, base);
    }
  }

  /** What two equal buffers agree on, up to and from a place, they agree on up to earlier and from later places. */
  lemma SameParts(u: seq<nat>, w: seq<nat>, from: nat, i: nat, j: nat)
    requires from <= i <= j <= |u| == |w|
    ensures u[..i] == w[..i] ==> u[..from] == w[..from] && u[from..i] == w[from..i]
    ensures u[i..] == w[i..] ==> u[i..j] == w[i..j] && u[j..] == w[j..]
  {
    assert u[..from] == u[..i][..from] && w[..from] == w[..i][..from];
    assert u[from..i] == u[..i][from..] && w[from..i] == w[..i][from..];
    assert u[i..j] == u[i..][..j - i] && w[i..j] == w[i..][..j - i];
    assert u[j..] == u[i..][j - i..] && w[j..] == w[i..][j - i..];
  }

  lemma FilledParts(vcb: Vcb, m: seq<nat>, disk: seq<nat>, vbo: nat, u: seq<nat>, base: nat, a: nat, b: nat)
    requires base + a + b <= |u|
    requires Filled(vcb.fileAreaLbo, vcb.bytesPerCluster, m, disk, vbo, u[base..base + a])
    requires Filled(vcb.fileAreaLbo, vcb.bytesPerCluster, m, disk, vbo + a, u[base + a..base + a + b])
    ensures Filled(vcb.fileAreaLbo, vcb.bytesPerCluster, m, disk, vbo, u[base..base + (a + b)])
  {
    assert u[base..base + (a + b)] == u[base..base + a] + u[base + a..base + a + b];
    FilledAppend(vcb.fileAreaLbo, vcb.bytesPerCluster, m, disk, vbo, u[base..base + a], u[base + a..base + a + b]);
  }

  /** Two parts that were filled, the first one first, are both filled. */
  lemma JoinForwards(vcb: Vcb, m: seq<nat>, disk: seq<nat>, vbo: nat, u0: seq<nat>, u1: seq<nat>, u2: seq<nat>, base: nat, a: nat, b: nat)
    requires FilledBetween(vcb, m, disk, vbo, u0, u1, base, a) && FilledBetween(vcb, m, disk, vbo + a, u1, u2, base + a, b)
    ensures FilledBetween(vcb, m, disk, vbo, u0, u2, base, a + b)
  {
    SameParts(u2, u1, base, base + a, base + a + b);
    SameParts(u1, u0, base, base + a, base + a + b);
    hide Filled;
    FilledParts(vcb, m, disk, vbo, u2, base, a, b);
  }

  /** Two parts that were filled, the last one first, are both filled. */
  lemma JoinBackwards(vcb: Vcb, m: seq<nat>, disk: seq<nat>, vbo: nat, u0: seq<nat>, u1: seq<nat>, u2: seq<nat>, base: nat, a: nat, b: nat)
    requires FilledBetween(vcb, m, disk, vbo + a, u0, u1, base + a, b) && FilledBetween(vcb, m, disk, vbo, u1, u2, base, a)
    ensures FilledBetween(vcb, m, disk, vbo, u0, u2, base, a + b)
  {
    SameParts(u2, u1, base, base + a, base + a + b);
    SameParts(u1, u0, base, base + a, base + a + b);
    hide Filled;
    FilledParts(vcb, m, disk, vbo, u2, base, a, b);
  }

  /** A request that ends in its first sector fails when it starts behind the file; what is left after it starts at a sector. */
  lemma {:induction false} AfterTheHead(vcb: Vcb, n: nat, s: nat, startingVbo: nat, byteCount: nat)
    requires SectorsFit(vcb, s) && byteCount > 0 && Into(startingVbo, s) != 0
    ensures var head, end := HeadBytes(startingVbo, byteCount, s), Span(vcb.bytesPerCluster, n);
      && 0 < head <= byteCount
      && (startingVbo >= end ==> startingVbo + byteCount > end)
      && (head == byteCount && startingVbo < end ==> startingVbo + byteCount <= end)
      && (head < byteCount ==> Into(startingVbo + head, s) == 0)
  {
    var end := Span(vcb.bytesPerCluster, n);
    FileEndAligned(vcb, s, n);
    if startingVbo < end {
      SectorBefore(s, startingVbo, end);
    }
    if HeadBytes(startingVbo, byteCount, s) < byteCount {
      SectorEnd(startingVbo, s);
    }
  }

  lemma SectorEnd(x: nat, s: nat)
    requires s > 0
    ensures (x + (s - x % s)) % s == 0
  {
    var q := x / s;
    assert x + (s - x % s) == 0 + s * (q + 1);
    SameRemainder(x + (s - x % s), 0, s, q + 1);
  }

  lemma WholeSectors(vbo: nat, left: nat, s: nat)
    requires s > 0
    ensures left % s <= left && left % s < s && (vbo + (left - left % s)) % s == vbo % s
  {
    var q := left / s;
    assert left == q * s + left % s;
    RemainderAtMost(left, s);
    SameRemainder(vbo + (left - left % s), vbo, s, q);
  }

  /** The last sector of a request starts at a sector, and lies in the file exactly when the whole request does. */
  lemma {:induction false} BeforeTheTail(vcb: Vcb, n: nat, s: nat, vbo: nat, left: nat)
    requires SectorsFit(vcb, s) && Into(vbo, s) == 0
    ensures var tail, end := Into(left, s), Span(vcb.bytesPerCluster, n);
      && tail <= left && tail < s
      && Into(vbo + (left - tail), s) == 0
      && (tail != 0 ==> (vbo + (left - tail) >= end <==> vbo + left > end))
  {
    var tail, end := left % s, Span(vcb.bytesPerCluster, n);
    FileEndAligned(vcb, s, n);
    WholeSectors(vbo, left, s);
    if vbo + (left - tail) < end {
      SectorBefore(s, vbo + (left - tail), end);
    }
  }

  /**
    FatNonCachedNonAlignedRead: fails exactly when the request reaches past the chain;
    otherwise the user's buffer holds the requested bytes of the file, and is as it was behind them.
   */
  method NonCachedNonAlignedRead(file: Fcb, ghost chain: seq<nat>, disk: seq<nat>, s: nat, startingVbo: nat, byteCount: nat, user: array<nat>) returns (r: ReadResult)
    requires FileOnDisk(file, chain, disk) && SectorsFit(file.vcb, s) && user != file.vcb.fat.units
    requires startingVbo + byteCount <= 0x1_0000_0000 && 0 < byteCount <= user.Length
    modifies file`mcb, file`allocationSize, user
    ensures FileOnDisk(file, chain, disk)
    ensures r.CorruptFile? <==> startingVbo + byteCount > Span(file.vcb.bytesPerCluster, |chain|)
    ensures r.ReadDone? ==> FilledBetween(file.vcb, chain, disk, startingVbo, old(user[..]), user[..], 0, byteCount)
    ensures r.ReadDone? ==> file.vcb.bytesPerCluster > 0 && HoldsBytes(file.vcb, chain, disk, startingVbo, user[..byteCount])
  {
    hide *;
    ghost var u0 := user[..];
    var head: nat := 0;
    r := ReadDone;
    IntoSector(file.vcb, startingVbo, s);
    if Into(startingVbo, s) != 0 {
      AfterTheHead(file.vcb, |chain|, s, startingVbo, byteCount);
      r, head := ReadHead(file, chain, disk, s, startingVbo, byteCount, user);
      if r.CorruptFile? || head == byteCount {
        if r.ReadDone? {
          FilledHolds(file, chain, disk, startingVbo, u0, user[..], 0, byteCount);
        }
        return;
      }
    }
    ghost var u1 := user[..];
    var rest := ReadAlignedStart(file, chain, disk, s, startingVbo + head, byteCount - head, user, head);
    r := rest;
    if r.ReadDone? && head > 0 {
      JoinForwards(file.vcb, chain, disk, startingVbo, u0, u1, user[..], 0, head, byteCount - head);
    }
    if r.ReadDone? {
      FilledHolds(file, chain, disk, startingVbo, u0, user[..], 0, byteCount);
    }
  }

  lemma IntoSector(vcb: Vcb, x: nat, s: nat)
    requires SectorsFit(vcb, s)
    ensures s > 0 && Into(x, s) < s
  {
  }

  /** The request, once it starts at a sector: its last sector first, then what is before that. */
  method ReadAlignedStart(file: Fcb, ghost chain: seq<nat>, disk: seq<nat>, s: nat, vbo: nat, byteCount: nat, user: array<nat>, base: nat) returns (r: ReadResult)
    requires FileOnDisk(file, chain, disk) && SectorsFit(file.vcb, s) && s > 0 && user != file.vcb.fat.units
    requires byteCount > 0 && vbo + byteCount <= 0x1_0000_0000 && base + byteCount <= user.Length && Into(vbo, s) == 0
    modifies file`mcb, file`allocationSize, user
    ensures FileOnDisk(file, chain, disk)
    ensures r.CorruptFile? <==> vbo + byteCount > Span(file.vcb.bytesPerCluster, |chain|)
    ensures r.ReadDone? ==> FilledBetween(file.vcb, chain, disk, vbo, old(user[..]), user[..], base, byteCount)
  {
    hide *;
    ghost var u0 := user[..];
    var left, tail := byteCount, Into(byteCount, s);
    BeforeTheTail(file.vcb, |chain|, s, vbo, byteCount);
    if tail != 0 {
      left := byteCount - tail;
      r := ReadTail(file, chain, disk, s, vbo + left, tail, user, base + left);
      if r.CorruptFile? || left == 0 {
        return;
      }
    }
    ghost var u1 := user[..];
    r := ReadMiddle(file, chain, disk, vbo, left, user, base);
    if r.ReadDone? && tail != 0 {
      JoinBackwards(file.vcb, chain, disk, vbo, u0, u1, user[..], base, left, tail);
    }
  }
}
