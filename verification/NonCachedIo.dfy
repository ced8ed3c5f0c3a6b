/**
  FatNonCachedIo, reading: the pieces of a request fill the user's buffer with the
  bytes of the file.  The file comes with a run map that is filled as far as earlier
  lookups went; its bytes are those of its chain.  The disk is given by its bytes.
 */
module NonCachedIo {
  import opened Buffers
  import opened FatTable
  import opened Mcb
  import opened Volume
  import opened Deallocation
  import opened Sizes
  import opened FileMap
  import opened FatEntries
  import opened FileAllocation
  import opened FileRuns

  /** The place on the disk of a byte of a file. */
  ghost predicate ByteAt(area: nat, bytesPerCluster: nat, m: seq<nat>, vbo: nat, lbo: nat) {
    exists k: nat :: InCluster(area, bytesPerCluster, m, vbo, lbo, k)
  }

  ghost predicate InCluster(area: nat, bytesPerCluster: nat, m: seq<nat>, vbo: nat, lbo: nat, k: nat) {
    && k < |m| && m[k] < 0x1_0000_0000 && Span(bytesPerCluster, k) <= vbo < Span(bytesPerCluster, k + 1)
    && lbo == LboFromIndex(area, bytesPerCluster, m[k]) + (vbo - Span(bytesPerCluster, k))
  }

  /** The bytes of a run lie next to each other on the disk. */
  lemma {:induction false} RunBytes(area: nat, bytesPerCluster: nat, m: seq<nat>, vbo: nat, r: Answer, j: nat)
    requires bytesPerCluster > 0 && Answers(area, bytesPerCluster, m, vbo, r) && j < r.byteCount
    requires forall i :: 0 <= i < |m| ==> 2 <= m[i] < 0x1000_0000
    ensures ByteAt(area, bytesPerCluster, m, vbo + j, r.lbo + j)
  {
    var k: nat :| AnswersAt(area, bytesPerCluster, m, vbo, r, k);
    var i := ClusterBetween(bytesPerCluster, k, RunEnd(m, k), vbo + j);
    InsideRun(m, k);
    RunConsecutive(m, k, i);
    LboApart(area, bytesPerCluster, m[k], i - k);
    SpanAdds(bytesPerCluster, k, i - k);
    hide LboFromIndex;
    assert InCluster(area, bytesPerCluster, m, vbo + j, r.lbo + j, i);
  }

  /** The whole file can be read from the disk. */
  ghost predicate OnDisk(area: nat, bytesPerCluster: nat, m: seq<nat>, disk: seq<nat>) {
    && bytesPerCluster > 0
    && forall i {:trigger m[i]} :: 0 <= i < |m| ==> 2 <= m[i] < 0x1000_0000 && LboFromIndex(area, bytesPerCluster, m[i]) + bytesPerCluster <= |disk|
  }

  lemma ByteOnDisk(area: nat, bytesPerCluster: nat, m: seq<nat>, disk: seq<nat>, vbo: nat, lbo: nat)
    requires OnDisk(area, bytesPerCluster, m, disk) && ByteAt(area, bytesPerCluster, m, vbo, lbo)
    ensures lbo < |disk|
  {
    var k: nat :| InCluster(area, bytesPerCluster, m, vbo, lbo, k);
    assert m[k] == m[k];
  }

  /** The byte of the file at an offset is v. */
  ghost predicate HasByte(area: nat, bytesPerCluster: nat, m: seq<nat>, disk: seq<nat>, vbo: nat, v: nat) {
    exists lbo: nat :: ByteAt(area, bytesPerCluster, m, vbo, lbo) && lbo < |disk| && disk[lbo] == v
  }

  /** A part of a buffer holds the bytes of the file from an offset on. */
  ghost predicate Filled(area: nat, bytesPerCluster: nat, m: seq<nat>, disk: seq<nat>, vbo: nat, bytes: seq<nat>) {
    forall j {:trigger bytes[j]} :: 0 <= j < |bytes| ==> HasByte(area, bytesPerCluster, m, disk, vbo + j, bytes[j])
  }

  /** Consecutive bytes of the disk fill a buffer with consecutive bytes of a run. */
  lemma FilledFromRun(area: nat, bytesPerCluster: nat, m: seq<nat>, disk: seq<nat>, vbo: nat, r: Answer, from: nat, bytes: seq<nat>)
    requires OnDisk(area, bytesPerCluster, m, disk) && Answers(area, bytesPerCluster, m, vbo, r)
    requires from + |bytes| <= r.byteCount && r.lbo + from + |bytes| <= |disk| && bytes == disk[r.lbo + from..r.lbo + from + |bytes|]
    ensures Filled(area, bytesPerCluster, m, disk, vbo + from, bytes)
  {
    forall j | 0 <= j < |bytes| ensures HasByte(area, bytesPerCluster, m, disk, vbo + from + j, bytes[j]) {
      RunBytes(area, bytesPerCluster, m, vbo, r, from + j);
      assert disk[r.lbo + from + j] == bytes[j];
    }
  }

  /** The whole run is on the disk. */
  lemma {:induction false} RunOnDisk(area: nat, bytesPerCluster: nat, m: seq<nat>, disk: seq<nat>, vbo: nat, r: Answer)
    requires OnDisk(area, bytesPerCluster, m, disk) && Answers(area, bytesPerCluster, m, vbo, r)
    ensures r.Extent? && r.byteCount > 0 && r.lbo + r.byteCount <= |disk|
  {
    var k: nat :| AnswersAt(area, bytesPerCluster, m, vbo, r, k);
    SpanMonotone(bytesPerCluster, k + 1, RunEnd(m, k));
    RunBytes(area, bytesPerCluster, m, vbo, r, r.byteCount - 1);
    ByteOnDisk(area, bytesPerCluster, m, disk, vbo + (r.byteCount - 1), r.lbo + (r.byteCount - 1));
  }

  lemma FilledAppend(area: nat, bytesPerCluster: nat, m: seq<nat>, disk: seq<nat>, vbo: nat, a: seq<nat>, b: seq<nat>)
    requires Filled(area, bytesPerCluster, m, disk, vbo, a) && Filled(area, bytesPerCluster, m, disk, vbo + |a|, b)
    ensures Filled(area, bytesPerCluster, m, disk, vbo, a + b)
  {
    forall j | 0 <= j < |a + b| ensures HasByte(area, bytesPerCluster, m, disk, vbo + j, (a + b)[j]) {
      if j < |a| {
        assert (a + b)[j] == a[j];
      } else {
        assert (a + b)[j] == b[j - |a|] && vbo + |a| + (j - |a|) == vbo + j;
      }
    }
  }

  datatype IoRun = IoRun(vbo: nat, lbo: nat, offset: nat, byteCount: nat)

  datatype ReadResult = ReadDone | CorruptFile

  /** Bytes in different runs are apart by at least the rest of the first run; bytes in one run are not. */
  lemma {:induction false} RunsApart(area: nat, bytesPerCluster: nat, m: seq<nat>, vbo: nat, r: Answer, vbo': nat, r': Answer)
    requires bytesPerCluster > 0 && Answers(area, bytesPerCluster, m, vbo, r) && Answers(area, bytesPerCluster, m, vbo', r') && vbo <= vbo'
    ensures r.index <= r'.index && (r.index == r'.index <==> vbo' < vbo + r.byteCount)
  {
    var k: nat :| AnswersAt(area, bytesPerCluster, m, vbo, r, k);
    var j: nat :| AnswersAt(area, bytesPerCluster, m, vbo', r', j);
    SpanMonotone(bytesPerCluster, k, j + 1);
    SpanMonotone(bytesPerCluster, k + 1, RunEnd(m, k));
    SpanMonotone(bytesPerCluster, j + 1, RunEnd(m, k));
    SpanMonotone(bytesPerCluster, RunEnd(m, k), j);
    RunIndexMonotone(m, k, j);
    if r.index == r'.index {
      SameRun(m, k, j);
    } else if j < RunEnd(m, k) {
      InsideRun(m, k);
      RunIndexSteps(m, k, j);
    }
  }

  /** The run with the next index answers for the byte behind the run. */
  lemma {:induction false} NextRunAnswers(area: nat, bytesPerCluster: nat, m: seq<nat>, vbo: nat, r: Answer, vcn: nat, lcn: nat, length: nat)
    requires bytesPerCluster > 0 && Answers(area, bytesPerCluster, m, vbo, r) && r.index + 1 < RunCount(m)
    requires vcn == RunStart(m, r.index + 1) && vcn + length == RunStart(m, r.index + 2) && length > 0 && lcn == m[vcn]
    requires forall i :: 0 <= i < |m| ==> 2 <= m[i] < 0x1000_0000
    ensures vbo + r.byteCount == Span(bytesPerCluster, vcn)
    ensures Answers(area, bytesPerCluster, m, Span(bytesPerCluster, vcn), Extent(LboFromIndex(area, bytesPerCluster, lcn), Span(bytesPerCluster, length), r.index + 1))
  {
    var k: nat :| AnswersAt(area, bytesPerCluster, m, vbo, r, k);
    RunEndIsNextStart(m, k);
    RunEndIsNextStart(m, vcn);
    SpanMonotone(bytesPerCluster, vcn, vcn + 1);
    SpanAdds(bytesPerCluster, vcn, length);
    SpanMonotone(bytesPerCluster, k + 1, RunEnd(m, k));
    hide LboFromIndex;
    assert AnswersAt(area, bytesPerCluster, m, Span(bytesPerCluster, vcn),
      Extent(LboFromIndex(area, bytesPerCluster, lcn), Span(bytesPerCluster, length), r.index + 1), vcn);
  }

  /** The map on the disk, as the lookups of a request see it. */
  ghost predicate Readable(vcb: Vcb, m: seq<nat>, disk: seq<nat>) {
    OnDisk(vcb.fileAreaLbo, vcb.bytesPerCluster, m, disk)
  }

  /** A piece reads bytes of the file. */
  ghost predicate Reads(vcb: Vcb, m: seq<nat>, disk: seq<nat>, r: IoRun) {
    && r.lbo + r.byteCount <= |disk|
    && Filled(vcb.fileAreaLbo, vcb.bytesPerCluster, m, disk, r.vbo, disk[r.lbo..r.lbo + r.byteCount])
  }

  /** Where piece i ends, the next begins, or the request ends. */
  ghost predicate Meets(runs: seq<IoRun>, i: nat, end: nat)
    requires i < |runs|
  {
    runs[i].offset + runs[i].byteCount == if i + 1 < |runs| then runs[i + 1].offset else end
  }

  /** The pieces read, one behind the other, what fills the buffer up to an offset. */
  ghost predicate Planned(vcb: Vcb, m: seq<nat>, disk: seq<nat>, startingVbo: nat, runs: seq<IoRun>, end: nat) {
    && (forall i :: 0 <= i < |runs| ==> runs[i].vbo == startingVbo + runs[i].offset && Reads(vcb, m, disk, runs[i]))
    && (forall i :: 0 <= i < |runs| ==> Meets(runs, i, end))
    && (if runs == [] then end == 0 else runs[0].offset == 0)
  }

  lemma PlanGrows(vcb: Vcb, m: seq<nat>, disk: seq<nat>, startingVbo: nat, runs: seq<IoRun>, r: IoRun)
    requires Planned(vcb, m, disk, startingVbo, runs, r.offset) && r.vbo == startingVbo + r.offset && Reads(vcb, m, disk, r)
    ensures Planned(vcb, m, disk, startingVbo, runs + [r], r.offset + r.byteCount)
  {
    var all := runs + [r];
    forall i | 0 <= i < |all|
      ensures all[i].vbo == startingVbo + all[i].offset && Reads(vcb, m, disk, all[i]) && Meets(all, i, r.offset + r.byteCount)
    {
      assert i < |runs| ==> all[i] == runs[i] && Meets(runs, i, r.offset);
    }
  }

  /** A piece that starts where a lookup answers, and is no longer than the answer, reads the file. */
  lemma PieceReads(vcb: Vcb, m: seq<nat>, disk: seq<nat>, vbo: nat, r: Answer, offset: nat, byteCount: nat)
    requires Readable(vcb, m, disk) && Answers(vcb.fileAreaLbo, vcb.bytesPerCluster, m, vbo, r) && r.Extent? && byteCount <= r.byteCount
    ensures Reads(vcb, m, disk, IoRun(vbo, r.lbo, offset, byteCount))
  {
    RunOnDisk(vcb.fileAreaLbo, vcb.bytesPerCluster, m, disk, vbo, r);
    FilledFromRun(vcb.fileAreaLbo, vcb.bytesPerCluster, m, disk, vbo, r, 0, disk[r.lbo..r.lbo + byteCount]);
  }

  /** Splits a request that spans several runs into one piece per run. */
  method PlanRuns(vcb: Vcb, m: seq<nat>, ghost disk: seq<nat>, startingVbo: nat, byteCount: nat, first: Answer, last: Answer)
    returns (ioRuns: seq<IoRun>)
    requires Readable(vcb, m, disk) && byteCount > 0 && first.Extent? && last.Extent? && byteCount > first.byteCount
    requires Answers(vcb.fileAreaLbo, vcb.bytesPerCluster, m, startingVbo, first)
    requires Answers(vcb.fileAreaLbo, vcb.bytesPerCluster, m, startingVbo + byteCount - 1, last) && last.index < RunCount(m)
    ensures Planned(vcb, m, disk, startingVbo, ioRuns, byteCount) && |ioRuns| == last.index - first.index + 1 > 1
  {
    ioRuns := [];
    RunsApart(vcb.fileAreaLbo, vcb.bytesPerCluster, m, startingVbo, first, startingVbo + byteCount - 1, last);
    var currentIndex: nat, next, vbo: nat, bufferOffset: nat, left: nat := first.index, first, startingVbo, 0, byteCount;
    hide Answers;
    hide Reads;
    hide Readable;
    while currentIndex <= last.index
      invariant first.index <= currentIndex <= last.index + 1 && |ioRuns| == currentIndex - first.index
      invariant Planned(vcb, m, disk, startingVbo, ioRuns, bufferOffset) && vbo == startingVbo + bufferOffset && bufferOffset + left == byteCount
      invariant currentIndex <= last.index ==>
        left > 0 && next.Extent? && next.index == currentIndex && Answers(vcb.fileAreaLbo, vcb.bytesPerCluster, m, vbo, next)
      invariant currentIndex > last.index ==> left == 0
    {
      RunsApart(vcb.fileAreaLbo, vcb.bytesPerCluster, m, vbo, next, startingVbo + byteCount - 1, last);
      var nextByteCount := if next.byteCount > left then left else next.byteCount;
      PieceReads(vcb, m, disk, vbo, next, bufferOffset, nextByteCount);
      var run := IoRun(vbo, next.lbo, bufferOffset, nextByteCount);
      PlanGrows(vcb, m, disk, startingVbo, ioRuns, run);
      ioRuns := ioRuns + [run];
      vbo, bufferOffset, left := vbo + nextByteCount, bufferOffset + nextByteCount, left - nextByteCount;
      currentIndex := currentIndex + 1;
      if currentIndex <= last.index {
        next := NextRun(vcb, m, disk, vbo - nextByteCount, next);
      }
    }
  }

  /** FatGetNextMcbEntry, in bytes: the run with the next index. */
  method NextRun(vcb: Vcb, m: seq<nat>, ghost disk: seq<nat>, ghost vbo: nat, was: Answer) returns (next: Answer)
    requires Readable(vcb, m, disk) && was.Extent? && was.index + 1 < RunCount(m)
    requires Answers(vcb.fileAreaLbo, vcb.bytesPerCluster, m, vbo, was)
    ensures next.Extent? && next.index == was.index + 1 && Answers(vcb.fileAreaLbo, vcb.bytesPerCluster, m, vbo + was.byteCount, next)
  {
    var vcn, lcn, length := GetNextMcbEntry(m, was.index + 1);
    NextRunAnswers(vcb.fileAreaLbo, vcb.bytesPerCluster, m, vbo, was, vcn, lcn, length);
    next := Extent(LboFromIndex(vcb.fileAreaLbo, vcb.bytesPerCluster, lcn), Span(vcb.bytesPerCluster, length), was.index + 1);
  }

  lemma {:induction false} AnswerIndex(area: nat, bytesPerCluster: nat, m: seq<nat>, vbo: nat, r: Answer)
    requires Answers(area, bytesPerCluster, m, vbo, r)
    ensures r.Extent? && r.index < RunCount(m)
  {
    var k: nat :| AnswersAt(area, bytesPerCluster, m, vbo, r, k);
    RunEndIsNextStart(m, k);
  }

  /** A request fills the part of the user's buffer from base on; the rest of the buffer is as it was. */
  ghost predicate FilledBetween(vcb: Vcb, m: seq<nat>, disk: seq<nat>, vbo: nat, u0: seq<nat>, u: seq<nat>, base: nat, byteCount: nat) {
    && |u| == |u0| && base + byteCount <= |u|
    && u[..base] == u0[..base] && u[base + byteCount..] == u0[base + byteCount..]
    && Filled(vcb.fileAreaLbo, vcb.bytesPerCluster, m, disk, vbo, u[base..base + byteCount])
  }

  /** A piece that has been transferred extends what is filled. */
  lemma TransferFills(vcb: Vcb, m: seq<nat>, disk: seq<nat>, startingVbo: nat, u0: seq<nat>, u: seq<nat>, u': seq<nat>, base: nat, r: IoRun)
    requires base + r.offset + r.byteCount <= |u| == |u0| && r.vbo == startingVbo + r.offset && Reads(vcb, m, disk, r)
    requires u[..base] == u0[..base] && u[base + r.offset..] == u0[base + r.offset..]
    requires Filled(vcb.fileAreaLbo, vcb.bytesPerCluster, m, disk, startingVbo, u[base..base + r.offset])
    requires u' == u[..base + r.offset] + disk[r.lbo..r.lbo + r.byteCount] + u[base + r.offset + r.byteCount..]
    ensures |u'| == |u0| && u'[..base] == u0[..base]
    ensures u'[base + (r.offset + r.byteCount)..] == u0[base + (r.offset + r.byteCount)..]
    ensures Filled(vcb.fileAreaLbo, vcb.bytesPerCluster, m, disk, startingVbo, u'[base..base + (r.offset + r.byteCount)])
  {
    hide *;
    ReadsSays(vcb, m, disk, r);
    var a, b := u[base..base + r.offset], disk[r.lbo..r.lbo + r.byteCount];
    FilledAppend(vcb.fileAreaLbo, vcb.bytesPerCluster, m, disk, startingVbo, a, b);
    Spliced(u0, u, u', base, r.offset, b);
  }

  lemma ReadsSays(vcb: Vcb, m: seq<nat>, disk: seq<nat>, r: IoRun)
    requires Reads(vcb, m, disk, r)
    ensures r.lbo + r.byteCount <= |disk| && Filled(vcb.fileAreaLbo, vcb.bytesPerCluster, m, disk, r.vbo, disk[r.lbo..r.lbo + r.byteCount])
  {
  }

  /** Data put behind what is there already. */
  lemma Spliced(u0: seq<nat>, u: seq<nat>, u': seq<nat>, base: nat, at: nat, data: seq<nat>)
    requires base + at + |data| <= |u| == |u0| && u[..base] == u0[..base] && u[base + at..] == u0[base + at..]
    requires u' == u[..base + at] + data + u[base + at + |data|..]
    ensures |u'| == |u0| && u'[..base] == u0[..base] && u'[base + (at + |data|)..] == u0[base + (at + |data|)..]
    ensures u'[base..base + (at + |data|)] == u[base..base + at] + data
  {
    assert u'[..base] == u[..base];
    forall k | base + (at + |data|) <= k < |u0| ensures u'[k] == u0[k] {
      assert u'[k] == u[k] == u[base + at..][k - (base + at)];
      assert u0[base + at..][k - (base + at)] == u0[k];
    }
  }

  /** FatMultipleAsync: every piece is transferred to its own part of the buffer. */
  method MultipleAsync(vcb: Vcb, ghost m: seq<nat>, disk: seq<nat>, ghost startingVbo: nat, ioRuns: seq<IoRun>, ghost byteCount: nat, user: array<nat>, base: nat)
    requires Planned(vcb, m, disk, startingVbo, ioRuns, byteCount) && base + byteCount <= user.Length
    modifies user
    ensures FilledBetween(vcb, m, disk, startingVbo, old(user[..]), user[..], base, byteCount)
  {
    ghost var u0 := user[..];
    ghost var done: nat := 0;
    var i := 0;
    hide Reads;
    OffsetsInside(ioRuns, byteCount);
    while i < |ioRuns|
      invariant 0 <= i <= |ioRuns| && done == (if i < |ioRuns| then ioRuns[i].offset else byteCount) && base + done <= user.Length
      invariant user[..][..base] == u0[..base] && user[..][base + done..] == u0[base + done..]
      invariant Filled(vcb.fileAreaLbo, vcb.bytesPerCluster, m, disk, startingVbo, user[..][base..base + done])
    {
      var r := ioRuns[i];
      assert Meets(ioRuns, i, byteCount);
      ghost var u := user[..];
      TransferRun(vcb, m, disk, r, user, base);
      TransferFills(vcb, m, disk, startingVbo, u0, u, user[..], base, r);
      i, done := i + 1, r.offset + r.byteCount;
    }
  }

  /** One piece: bytes of the disk are transferred to their part of the user's buffer. */
  method TransferRun(vcb: Vcb, ghost m: seq<nat>, disk: seq<nat>, r: IoRun, user: array<nat>, base: nat)
    requires Reads(vcb, m, disk, r) && base + r.offset + r.byteCount <= user.Length
    modifies user
    ensures r.lbo + r.byteCount <= |disk|
    ensures user[..] == old(user[..])[..base + r.offset] + disk[r.lbo..r.lbo + r.byteCount] + old(user[..])[base + r.offset + r.byteCount..]
  {
    CopyMemory(disk, r.lbo, r.byteCount, user, base + r.offset);
  }

  /** The pieces of a plan lie inside the buffer. */
  lemma OffsetsInside(runs: seq<IoRun>, end: nat)
    requires forall i :: 0 <= i < |runs| ==> Meets(runs, i, end)
    ensures forall i :: 0 <= i < |runs| ==> runs[i].offset + runs[i].byteCount <= end
  {
    forall i | 0 <= i < |runs| ensures runs[i].offset + runs[i].byteCount <= end {
      PieceInside(runs, end, i);
    }
  }

  lemma {:induction false} PieceInside(runs: seq<IoRun>, end: nat, i: nat)
    requires i < |runs| && forall k :: 0 <= k < |runs| ==> Meets(runs, k, end)
    ensures runs[i].offset + runs[i].byteCount <= end
    decreases |runs| - i
  {
    assert Meets(runs, i, end);
    if i + 1 < |runs| {
      PieceInside(runs, end, i + 1);
    }
  }

  lemma {:induction false} AnswerInside(area: nat, bytesPerCluster: nat, m: seq<nat>, vbo: nat, r: Answer)
    requires bytesPerCluster > 0 && Answers(area, bytesPerCluster, m, vbo, r)
    ensures r.Extent? && vbo + r.byteCount <= Span(bytesPerCluster, |m|)
  {
    var k: nat :| AnswersAt(area, bytesPerCluster, m, vbo, r, k);
    SpanMonotone(bytesPerCluster, k + 1, RunEnd(m, k));
    SpanMonotone(bytesPerCluster, RunEnd(m, k), |m|);
  }

  /** A request inside one run is filled by one transfer. */
  method SingleAsync(vcb: Vcb, ghost m: seq<nat>, disk: seq<nat>, startingVbo: nat, byteCount: nat, next: Answer, user: array<nat>, base: nat)
    requires Readable(vcb, m, disk) && base + byteCount <= user.Length && next.Extent? && byteCount <= next.byteCount
    requires Answers(vcb.fileAreaLbo, vcb.bytesPerCluster, m, startingVbo, next)
    modifies user
    ensures FilledBetween(vcb, m, disk, startingVbo, old(user[..]), user[..], base, byteCount)
  {
    ghost var u0 := user[..];
    RunOnDisk(vcb.fileAreaLbo, vcb.bytesPerCluster, m, disk, startingVbo, next);
    PieceReads(vcb, m, disk, startingVbo, next, 0, byteCount);
    hide *;
    ghost var r := IoRun(startingVbo, next.lbo, 0, byteCount);
    CopyMemory(disk, next.lbo, byteCount, user, base);
    FirstPieceFills(vcb, m, disk, startingVbo, u0, user[..], base, r);
  }

  lemma FirstPieceFills(vcb: Vcb, m: seq<nat>, disk: seq<nat>, startingVbo: nat, u0: seq<nat>, u: seq<nat>, base: nat, r: IoRun)
    requires r.offset == 0 && base + r.byteCount <= |u0| && r.vbo == startingVbo && Reads(vcb, m, disk, r)
    requires u == u0[..base] + disk[r.lbo..r.lbo + r.byteCount] + u0[base + r.byteCount..]
    ensures FilledBetween(vcb, m, disk, startingVbo, u0, u, base, r.byteCount)
  {
    assert u[base..base + r.byteCount] == disk[r.lbo..r.lbo + r.byteCount];
    assert u[..base] == u0[..base];
    assert u[base + r.byteCount..] == u0[base + r.byteCount..];
  }

  /** Where byte vbo of a file lies: its cluster counted from the file area, where cluster two is, and the byte in the cluster. */
  ghost predicate IsByte(vcb: Vcb, chain: seq<nat>, disk: seq<nat>, vbo: nat, v: nat)
    requires vcb.bytesPerCluster > 0
  {
    var k := vbo / vcb.bytesPerCluster;
    && k < |chain| && 2 <= chain[k]
    && var lbo := vcb.fileAreaLbo + (chain[k] - 2) * vcb.bytesPerCluster + vbo % vcb.bytesPerCluster;
      lbo < |disk| && v == disk[lbo]
  }

  /** A buffer holds the bytes of a file from an offset on. */
  ghost predicate HoldsBytes(vcb: Vcb, chain: seq<nat>, disk: seq<nat>, vbo: nat, bytes: seq<nat>)
    requires vcb.bytesPerCluster > 0
  {
    forall j {:trigger bytes[j]} :: 0 <= j < |bytes| ==> IsByte(vcb, chain, disk, vbo + j, bytes[j])
  }

  lemma ByteIs(vcb: Vcb, chain: seq<nat>, disk: seq<nat>, vbo: nat, v: nat)
    requires vcb.bytesPerCluster > 0 && HasByte(vcb.fileAreaLbo, vcb.bytesPerCluster, chain, disk, vbo, v)
    requires forall i :: 0 <= i < |chain| ==> 2 <= chain[i] < 0x1000_0000
    ensures IsByte(vcb, chain, disk, vbo, v)
  {
    hide *;
    var k, lbo := ByteParts(vcb.fileAreaLbo, vcb.bytesPerCluster, chain, disk, vbo, v);
    ClusterOfByte(vcb.bytesPerCluster, vbo, vbo / vcb.bytesPerCluster);
    ClusterUnique(vcb.bytesPerCluster, vbo, k, vbo / vcb.bytesPerCluster);
    ClusterPlaces(vcb.fileAreaLbo, vcb.bytesPerCluster, chain[k]);
    ByteSays(vcb, chain, disk, vbo, v, lbo);
  }

  lemma ByteParts(area: nat, bytesPerCluster: nat, m: seq<nat>, disk: seq<nat>, vbo: nat, v: nat) returns (k: nat, lbo: nat)
    requires HasByte(area, bytesPerCluster, m, disk, vbo, v)
    ensures k < |m| && m[k] < 0x1_0000_0000 && Span(bytesPerCluster, k) <= vbo < Span(bytesPerCluster, k + 1)
    ensures lbo == LboFromIndex(area, bytesPerCluster, m[k]) + (vbo - Span(bytesPerCluster, k)) && lbo < |disk| && disk[lbo] == v
  {
    lbo :| ByteAt(area, bytesPerCluster, m, vbo, lbo) && lbo < |disk| && disk[lbo] == v;
    k :| InCluster(area, bytesPerCluster, m, vbo, lbo, k);
    hide LboFromIndex;
  }

  lemma ByteSays(vcb: Vcb, chain: seq<nat>, disk: seq<nat>, vbo: nat, v: nat, lbo: nat)
    requires vcb.bytesPerCluster > 0 && vbo / vcb.bytesPerCluster < |chain| && 2 <= chain[vbo / vcb.bytesPerCluster]
    requires lbo == vcb.fileAreaLbo + (chain[vbo / vcb.bytesPerCluster] - 2) * vcb.bytesPerCluster + vbo % vcb.bytesPerCluster
    requires lbo < |disk| && disk[lbo] == v
    ensures IsByte(vcb, chain, disk, vbo, v)
  {
  }

  /** What a request has filled in are the bytes of the file. */
  lemma FilledHolds(file: Fcb, chain: seq<nat>, disk: seq<nat>, vbo: nat, u0: seq<nat>, u: seq<nat>, base: nat, byteCount: nat)
    requires FileOnDisk(file, chain, disk) && FilledBetween(file.vcb, chain, disk, vbo, u0, u, base, byteCount)
    ensures file.vcb.bytesPerCluster > 0 && base + byteCount <= |u| && HoldsBytes(file.vcb, chain, disk, vbo, u[base..base + byteCount])
  {
    assert Readable(file.vcb, chain, disk);
    hide FileOnDisk;
    var bytes := u[base..base + byteCount];
    forall j | 0 <= j < |bytes| ensures IsByte(file.vcb, chain, disk, vbo + j, bytes[j]) {
      ByteIs(file.vcb, chain, disk, vbo + j, bytes[j]);
    }
    hide IsByte;
  }

  /** A file with its chain, which is on the disk and shorter than 4 GB; the file's map may hold any part of it up to a run boundary. */
  ghost predicate FileOnDisk(file: Fcb, chain: seq<nat>, disk: seq<nat>)
    reads file, file.vcb, file.vcb.fat, file.vcb.fat.units
  {
    && FileOk(file.vcb, file, chain) && Span(file.vcb.bytesPerCluster, |chain|) < 0x1_0000_0000
    && Readable(file.vcb, chain, disk)
  }

  /** FatLookupFileAllocation, for a file whose chain is known to be readable. */
  method LookUpByte(file: Fcb, vbo: nat, ghost chain: seq<nat>, ghost disk: seq<nat>) returns (r: Answer)
    requires FileOnDisk(file, chain, disk) && vbo < 0x1_0000_0000
    modifies file`mcb, file`allocationSize
    ensures FileOnDisk(file, chain, disk) && |old(file.mcb)| <= |file.mcb|
    ensures if vbo < Span(file.vcb.bytesPerCluster, |chain|)
      then r.Extent? && Answers(file.vcb.fileAreaLbo, file.vcb.bytesPerCluster, chain, vbo, r) && vbo < Span(file.vcb.bytesPerCluster, |file.mcb|)
      else r == NotAllocated
  {
    hide *;
    ghost var f := FieldsOf(file);
    ReadyToLookUp(file, chain, disk);
    var endOnMax;
    ghost var steps;
    r, endOnMax, steps := file.LookupFileAllocation(vbo);
    AfterLookup(file, vbo, chain, r, f);
    LookedUp(file, vbo, chain, r);
    StillOnDisk(file, chain, disk);
  }

  lemma ReadyToLookUp(file: Fcb, chain: seq<nat>, disk: seq<nat>)
    requires FileOnDisk(file, chain, disk)
    ensures file.Mounted() && file.MapOk() && FieldsOk(file, file.vcb.fat.entries, FieldsOf(file), chain) && file.vcb.fat.Valid()
    ensures var f := FieldsOf(file);
      f.firstCluster == file.firstCluster && f.allocationSize == file.allocationSize && f.fileSize == file.fileSize && f.mcb == file.mcb
    ensures 0 < file.vcb.bytesPerCluster && Span(file.vcb.bytesPerCluster, |chain|) < 0x1_0000_0000 && Readable(file.vcb, chain, disk)
  {
    FileOkByFields(file, chain);
    hide FieldsOk;
    hide IsChain;
    hide CutAtRun;
    hide Readable;
  }

  lemma StillOnDisk(file: Fcb, chain: seq<nat>, disk: seq<nat>)
    requires FileOk(file.vcb, file, chain) && Span(file.vcb.bytesPerCluster, |chain|) < 0x1_0000_0000 && Readable(file.vcb, chain, disk)
    ensures FileOnDisk(file, chain, disk)
  {
  }

  /** The answer of a lookup in a chain below 4 GB. */
  lemma LookedUp(file: Fcb, vbo: nat, chain: seq<nat>, r: Answer)
    requires Span(file.vcb.bytesPerCluster, |chain|) < 0x1_0000_0000 && AnswersIn(file.vcb, vbo, chain, r)
    requires r.Extent? ==> vbo < Span(file.vcb.bytesPerCluster, |file.mcb|)
    ensures if vbo < Span(file.vcb.bytesPerCluster, |chain|)
      then r.Extent? && Answers(file.vcb.fileAreaLbo, file.vcb.bytesPerCluster, chain, vbo, r) && vbo < Span(file.vcb.bytesPerCluster, |file.mcb|)
      else r == NotAllocated
  {
  }

  /** What a chain answers for a byte that the map reaches, the map answers. */
  lemma MapAnswers(file: Fcb, chain: seq<nat>, disk: seq<nat>, vbo: nat, r: Answer)
    requires FileOnDisk(file, chain, disk) && Answers(file.vcb.fileAreaLbo, file.vcb.bytesPerCluster, chain, vbo, r)
    requires vbo < Span(file.vcb.bytesPerCluster, |file.mcb|)
    ensures Answers(file.vcb.fileAreaLbo, file.vcb.bytesPerCluster, file.mcb, vbo, r)
  {
    var area, b, m := file.vcb.fileAreaLbo, file.vcb.bytesPerCluster, file.mcb;
    assert b > 0 && m != [] && file.MapOk() && file.firstCluster != 0 && file.Readable(chain);
    hide FileOk;
    var k := ClusterBetween(b, 0, |m|, vbo);
    var r' := ExtentAt(area, b, m, vbo, k);
    assert AnswersAt(area, b, m, vbo, r', k);
    file.MapAnswersForChain(vbo, r', chain);
    AnswerUnique(area, b, chain, vbo, r, r');
  }

  /** The map is a part of the chain, so it is on the disk as well. */
  lemma MapOnDisk(file: Fcb, chain: seq<nat>, disk: seq<nat>)
    requires FileOnDisk(file, chain, disk)
    ensures Readable(file.vcb, file.mcb, disk) && |file.mcb| <= |chain| && file.mcb == chain[..|file.mcb|]
  {
    if file.mcb != [] {
      PathAlongChain(file.vcb.fat.bits, file.vcb.fat.entries, file.mcb, chain);
    }
    forall i {:trigger file.mcb[i]} | 0 <= i < |file.mcb|
      ensures 2 <= file.mcb[i] < 0x1000_0000 && LboFromIndex(file.vcb.fileAreaLbo, file.vcb.bytesPerCluster, file.mcb[i]) + file.vcb.bytesPerCluster <= |disk|
    {
      assert file.mcb[i] == chain[i];
    }
  }

  /** What is read by way of the map is read from the chain. */
  lemma PlannedForChain(vcb: Vcb, chain: seq<nat>, n: nat, disk: seq<nat>, startingVbo: nat, runs: seq<IoRun>, end: nat)
    requires n <= |chain| && Planned(vcb, chain[..n], disk, startingVbo, runs, end)
    ensures Planned(vcb, chain, disk, startingVbo, runs, end)
  {
    forall i | 0 <= i < |runs| ensures runs[i].vbo == startingVbo + runs[i].offset && Reads(vcb, chain, disk, runs[i]) {
      FilledForChain(vcb.fileAreaLbo, vcb.bytesPerCluster, chain, n, disk, runs[i].vbo, disk[runs[i].lbo..runs[i].lbo + runs[i].byteCount]);
    }
    hide Filled;
  }

  lemma FilledForChain(area: nat, bytesPerCluster: nat, chain: seq<nat>, n: nat, disk: seq<nat>, vbo: nat, bytes: seq<nat>)
    requires n <= |chain| && Filled(area, bytesPerCluster, chain[..n], disk, vbo, bytes)
    ensures Filled(area, bytesPerCluster, chain, disk, vbo, bytes)
  {
    forall j | 0 <= j < |bytes| ensures HasByte(area, bytesPerCluster, chain, disk, vbo + j, bytes[j]) {
      assert HasByte(area, bytesPerCluster, chain[..n], disk, vbo + j, bytes[j]);
      var lbo: nat :| ByteAt(area, bytesPerCluster, chain[..n], vbo + j, lbo) && lbo < |disk| && disk[lbo] == bytes[j];
      var k: nat :| InCluster(area, bytesPerCluster, chain[..n], vbo + j, lbo, k);
      assert InCluster(area, bytesPerCluster, chain, vbo + j, lbo, k);
    }
  }

  /**
    FatNonCachedIo, reading: fails exactly when the request reaches past the chain.  The
    map is looked up, and filled, twice at most; in between the two it may grow.
   */
  method NonCachedRead(file: Fcb, ghost chain: seq<nat>, disk: seq<nat>, startingVbo: nat, byteCount: nat, user: array<nat>, base: nat) returns (r: ReadResult)
    requires FileOnDisk(file, chain, disk) && user != file.vcb.fat.units
    requires byteCount > 0 && startingVbo + byteCount <= 0x1_0000_0000 && base + byteCount <= user.Length
    modifies file`mcb, file`allocationSize, user
    ensures FileOnDisk(file, chain, disk)
    ensures r.CorruptFile? <==> startingVbo + byteCount > Span(file.vcb.bytesPerCluster, |chain|)
    ensures r.CorruptFile? ==> user[..] == old(user[..])
    ensures r.ReadDone? ==> FilledBetween(file.vcb, chain, disk, startingVbo, old(user[..]), user[..], base, byteCount)
    ensures r.ReadDone? ==> file.vcb.bytesPerCluster > 0 && HoldsBytes(file.vcb, chain, disk, startingVbo, user[base..base + byteCount])
  {
    hide *;
    ReadyToLookUp(file, chain, disk);
    var first := LookUpByte(file, startingVbo, chain, disk);
    if !first.Extent? {
      return CorruptFile;
    }
    AnswerInside(file.vcb.fileAreaLbo, file.vcb.bytesPerCluster, chain, startingVbo, first);
    r := ReadDone;
    if first.byteCount >= byteCount {
      SingleAsync(file.vcb, chain, disk, startingVbo, byteCount, first, user, base);
      FilledHolds(file, chain, disk, startingVbo, old(user[..]), user[..], base, byteCount);
      return;
    }
    var last := LookUpByte(file, startingVbo + byteCount - 1, chain, disk);
    if !last.Extent? {
      return CorruptFile;
    }
    MapOnDisk(file, chain, disk);
    MapAnswers(file, chain, disk, startingVbo, first);
    MapAnswers(file, chain, disk, startingVbo + byteCount - 1, last);
    AnswerIndex(file.vcb.fileAreaLbo, file.vcb.bytesPerCluster, file.mcb, startingVbo + byteCount - 1, last);
    var ioRuns := PlanRuns(file.vcb, file.mcb, disk, startingVbo, byteCount, first, last);
    PlannedForChain(file.vcb, chain, |file.mcb|, disk, startingVbo, ioRuns, byteCount);
    MultipleAsync(file.vcb, chain, disk, startingVbo, ioRuns, byteCount, user, base);
    FilledHolds(file, chain, disk, startingVbo, old(user[..]), user[..], base, byteCount);
  }

  /** Clusters, and the file area, start at sectors. */
  ghost predicate SectorsFit(vcb: Vcb, sectorSize: nat) {
    sectorSize > 0 && (exists q: nat :: Span(sectorSize, q) == vcb.fileAreaLbo) && exists q: nat :: Span(sectorSize, q) == vcb.bytesPerCluster
  }

  lemma SameRemainder(x: int, y: int, s: int, z: int)
    requires s > 0 && x == y + s * z
    ensures x % s == y % s
  {
    var q := y / s;
    assert y == q * s + y % s;
    assert x == (q + z) * s + y % s by {
      assert (q + z) * s == q * s + z * s;
    }
    QuotientUnique(s, x, q + z, y % s);
    assert x == x / s * s + x % s;
  }

  /** What a lookup answers is aligned as its offset is, and reaches at least to the end of the sector. */
  lemma {:induction false} AnswerAligned(vcb: Vcb, m: seq<nat>, vbo: nat, r: Answer, s: nat)
    requires vcb.bytesPerCluster > 0 && Answers(vcb.fileAreaLbo, vcb.bytesPerCluster, m, vbo, r) && SectorsFit(vcb, s)
    requires forall i {:trigger m[i]} :: 0 <= i < |m| ==> 2 <= m[i] < 0x1000_0000
    ensures r.Extent? && r.lbo % s == vbo % s && s - vbo % s <= r.byteCount
  {
    var area, b := vcb.fileAreaLbo, vcb.bytesPerCluster;
    var k: nat :| AnswersAt(area, b, m, vbo, r, k);
    var qa: nat :| Span(s, qa) == area;
    var qb: nat :| Span(s, qb) == b;
    SpanIs(s, qa);
    SpanIs(s, qb);
    SpanIs(b, k);
    SpanIs(b, RunEnd(m, k));
    SpanMonotone(b, k + 1, RunEnd(m, k));
    var c: int := m[k];
    AlignedLbo(area, b, s, qa, qb, c, k, vbo, r.lbo);
    AlignedEnd(b, s, qb, RunEnd(m, k), vbo);
  }

  lemma AlignedLbo(area: int, b: int, s: int, qa: int, qb: int, c: int, k: int, vbo: int, lbo: int)
    requires s > 0 && area == qa * s && b == qb * s && lbo == area + (c - 2) * b + (vbo - k * b)
    ensures lbo % s == vbo % s
  {
    assert (c - 2) * b - k * b == (c - 2 - k) * b == ((c - 2 - k) * qb) * s;
    assert lbo == vbo + s * (qa + (c - 2 - k) * qb);
    SameRemainder(lbo, vbo, s, qa + (c - 2 - k) * qb);
  }

  lemma AlignedEnd(b: int, s: int, qb: int, e: int, vbo: int)
    requires s > 0 && b == qb * s && e * b > vbo >= 0
    ensures s - vbo % s <= e * b - vbo
  {
    var q := vbo / s;
    assert vbo == q * s + vbo % s;
    assert e * b == (e * qb) * s;
    if e * qb <= q {
      ProductMonotone(e * qb, q, s);
    } else {
      ProductMonotone(q + 1, e * qb, s);
    }
  }
}
