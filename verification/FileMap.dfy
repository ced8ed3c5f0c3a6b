/**
  Where the bytes of a file are: disk offsets of clusters, the clusters a walk
  along the FAT passes, and lookups by byte offset in a run map.
 */
module FileMap {
  import opened FatEntries
  import opened FatTable
  import opened Mcb
  import opened Volume
  import opened Sizes

  /** FatGetLboFromIndex; the index is an unsigned 32-bit number, and two is subtracted from it before it is widened. */
  function LboFromIndex(area: nat, bytesPerCluster: nat, index: nat): (lbo: nat)
    requires index < 0x1_0000_0000
    ensures lbo >= area
  {
    area + (if index >= 2 then index - 2 else 0x1_0000_0000 + index - 2) * bytesPerCluster
  }

  /** Cluster two lies where the file area starts, and every cluster its size behind the one before. */
  lemma ClusterPlaces(area: nat, bytesPerCluster: nat, index: nat)
    requires 2 <= index < 0x1_0000_0000
    ensures LboFromIndex(area, bytesPerCluster, 2) == area
    ensures LboFromIndex(area, bytesPerCluster, index) == area + (index - 2) * bytesPerCluster
  {
  }

  /** FatGetIndexFromLbo. */
  function IndexFromLbo(area: nat, bytesPerCluster: nat, lbo: nat): nat
    requires bytesPerCluster > 0 && lbo >= area
  {
    ((lbo - area) / bytesPerCluster + 2) % 0x1_0000_0000
  }

  /** Every byte of a cluster leads back to the cluster. */
  lemma IndexOfLbo(area: nat, bytesPerCluster: nat, index: nat, byte: nat)
    requires index < 0x1_0000_0000 && byte < bytesPerCluster
    ensures IndexFromLbo(area, bytesPerCluster, LboFromIndex(area, bytesPerCluster, index) + byte) == index
  {
    var d := if index >= 2 then index - 2 else 0x1_0000_0000 + index - 2;
    QuotientUnique(bytesPerCluster, d * bytesPerCluster + byte, d, byte);
  }

  /** Two clusters adjoin on the disk exactly when their numbers do. */
  lemma LbosAdjoin(area: nat, bytesPerCluster: nat, prior: nat, next: nat)
    requires bytesPerCluster > 0 && 2 <= prior < 0x1000_0000 && next < 0x1000_0000
    ensures LboFromIndex(area, bytesPerCluster, prior) + bytesPerCluster == LboFromIndex(area, bytesPerCluster, next) <==> next == prior + 1
  {
    var d: int := if next >= 2 then next - 2 else 0x1_0000_0000 + next - 2;
    if d > prior - 1 {
      ProductMonotone(prior, d, bytesPerCluster);
    } else if d < prior - 1 {
      ProductMonotone(d, prior - 2, bytesPerCluster);
    }
  }

  /** The distance on the disk between clusters. */
  lemma LboApart(area: nat, bytesPerCluster: nat, cluster: nat, d: nat)
    requires 2 <= cluster && cluster + d < 0x1_0000_0000
    ensures LboFromIndex(area, bytesPerCluster, cluster + d) == LboFromIndex(area, bytesPerCluster, cluster) + Span(bytesPerCluster, d)
  {
    SpanIs(bytesPerCluster, d);
    assert (cluster + d - 2) * bytesPerCluster == (cluster - 2) * bytesPerCluster + d * bytesPerCluster;
  }

  /** The cluster that holds a byte. */
  lemma {:induction false} ClusterOfByte(bytesPerCluster: nat, vbo: nat, k: nat)
    requires bytesPerCluster > 0 && k == vbo / bytesPerCluster
    ensures Span(bytesPerCluster, k) <= vbo < Span(bytesPerCluster, k + 1)
    ensures vbo - Span(bytesPerCluster, k) == vbo % bytesPerCluster
  {
    SpanIs(bytesPerCluster, k);
    assert vbo == k * bytesPerCluster + vbo % bytesPerCluster;
  }

  lemma {:induction false} ClusterBetween(bytesPerCluster: nat, f: nat, n: nat, vbo: nat) returns (k: nat)
    requires bytesPerCluster > 0 && Span(bytesPerCluster, f) <= vbo < Span(bytesPerCluster, n)
    ensures f <= k < n && Span(bytesPerCluster, k) <= vbo < Span(bytesPerCluster, k + 1)
  {
    k := vbo / bytesPerCluster;
    ClusterOfByte(bytesPerCluster, vbo, k);
    SpanMonotone(bytesPerCluster, f, k + 1);
    SpanMonotone(bytesPerCluster, k, n);
  }

  /** Cluster i of cs holds a link to the next one. */
  ghost predicate LinkAt(bits: IndexBits, e: seq<nat>, cs: seq<nat>, i: nat)
    requires i + 1 < |cs|
  {
    2 <= cs[i] < |e| && e[cs[i]] == cs[i + 1] && e[cs[i]] < EntryLimit(bits) && InterpretClusterType(bits, e[cs[i]]) == Next
  }

  /** The clusters a walk along the FAT passes; what the last of them holds is not known yet. */
  ghost predicate Path(bits: IndexBits, e: seq<nat>, cs: seq<nat>) {
    |cs| > 0 && forall i {:trigger LinkAt(bits, e, cs, i)} {:trigger e[cs[i]]} :: 0 <= i < |cs| - 1 ==> LinkAt(bits, e, cs, i)
  }

  lemma PathAt(bits: IndexBits, e: seq<nat>, cs: seq<nat>, i: nat)
    requires Path(bits, e, cs) && i < |cs| - 1
    ensures LinkAt(bits, e, cs, i) && 2 <= cs[i] < |e| && e[cs[i]] == cs[i + 1]
  {
    assert LinkAt(bits, e, cs, i);
  }

  lemma PathGrows(bits: IndexBits, e: seq<nat>, cs: seq<nat>, next: nat)
    requires Path(bits, e, cs) && 2 <= cs[|cs| - 1] < |e| && e[cs[|cs| - 1]] == next
    requires next < EntryLimit(bits) && InterpretClusterType(bits, next) == Next
    ensures Path(bits, e, cs + [next])
  {
    var ds := cs + [next];
    forall i | 0 <= i < |ds| - 1
      ensures 2 <= ds[i] < |e| && e[ds[i]] == ds[i + 1] && e[ds[i]] < EntryLimit(bits) && InterpretClusterType(bits, e[ds[i]]) == Next
    {
      if i < |cs| - 1 {
        PathAt(bits, e, cs, i);
      }
    }
  }

  /** A path that ends where a longest run of the chain ends: it does not go on to the cluster that follows on the disk. */
  ghost predicate CutAtRun(bits: IndexBits, e: seq<nat>, cs: seq<nat>) {
    && Path(bits, e, cs)
    && var last := cs[|cs| - 1];
      && 2 <= last < |e| && e[last] < EntryLimit(bits)
      && (InterpretClusterType(bits, e[last]) == Last || (InterpretClusterType(bits, e[last]) == Next && e[last] != last + 1))
  }

  lemma {:induction false} PathAlongChainAt(bits: IndexBits, e: seq<nat>, cs: seq<nat>, ds: seq<nat>, i: nat)
    requires Path(bits, e, cs) && IsChain(bits, e, ds) && cs[0] == ds[0] && i < |cs|
    ensures i < |ds| && cs[i] == ds[i]
  {
    if i > 0 {
      PathAlongChainAt(bits, e, cs, ds, i - 1);
      assert e[cs[i - 1]] == cs[i];
      assert i - 1 < |ds| - 1 ==> e[ds[i - 1]] == ds[i];
    }
  }

  /** Whether a path is cut at a run is a matter of the entry of its last cluster. */
  lemma CutAtRunIff(bits: IndexBits, e: seq<nat>, cs: seq<nat>)
    requires Path(bits, e, cs) && 2 <= cs[|cs| - 1] < |e| && e[cs[|cs| - 1]] < EntryLimit(bits)
    ensures var entry := e[cs[|cs| - 1]];
      CutAtRun(bits, e, cs) <==> InterpretClusterType(bits, entry) == Last || (InterpretClusterType(bits, entry) == Next && entry != cs[|cs| - 1] + 1)
  {
  }

  /** The clusters of a path lie in the heap if the last does; it is a chain if the last holds the last mark. */
  lemma PathInHeap(bits: IndexBits, e: seq<nat>, cs: seq<nat>)
    requires Path(bits, e, cs) && 2 <= cs[|cs| - 1] < |e| && e[cs[|cs| - 1]] < EntryLimit(bits)
    ensures forall i {:trigger cs[i]} :: 0 <= i < |cs| ==> 2 <= cs[i] < |e|
    ensures (forall c :: 0 <= c < |e| ==> e[c] < EntryLimit(bits)) && InterpretClusterType(bits, e[cs[|cs| - 1]]) == Last ==> IsChain(bits, e, cs)
  {
    forall i | 0 <= i < |cs| ensures 2 <= cs[i] < |e| {
      if i < |cs| - 1 {
        PathAt(bits, e, cs, i);
      }
    }
  }

  /** All paths from a cluster are along its chain, if it has one. */
  lemma PathAlongChain(bits: IndexBits, e: seq<nat>, cs: seq<nat>, ds: seq<nat>)
    requires Path(bits, e, cs) && IsChain(bits, e, ds) && cs[0] == ds[0]
    ensures |cs| <= |ds| && cs == ds[..|cs|]
  {
    forall i | 0 <= i < |cs| ensures i < |ds| && cs[i] == ds[i] {
      PathAlongChainAt(bits, e, cs, ds, i);
    }
    assert cs[|cs| - 1] == ds[|cs| - 1];
  }

  /** A chain is a path, cut at a run. */
  lemma ChainIsCut(bits: IndexBits, e: seq<nat>, ds: seq<nat>)
    requires IsChain(bits, e, ds)
    ensures CutAtRun(bits, e, ds)
  {
  }

  /** What is looked up: nothing there, a break in the chain, or an extent of the disk. */
  datatype Answer = NotAllocated | Corrupt | Extent(lbo: nat, byteCount: nat, index: nat)

  /** The extent that a map gives for a byte that lies in cluster k: up to the end of the run. */
  function ExtentAt(area: nat, bytesPerCluster: nat, m: seq<nat>, vbo: nat, k: nat): (r: Answer)
    requires k < |m| && m[k] < 0x1_0000_0000 && Span(bytesPerCluster, k) <= vbo < Span(bytesPerCluster, k + 1)
  {
    SpanMonotone(bytesPerCluster, k + 1, RunEnd(m, k));
    Extent(LboFromIndex(area, bytesPerCluster, m[k]) + (vbo - Span(bytesPerCluster, k)), Span(bytesPerCluster, RunEnd(m, k)) - vbo, RunIndex(m, k))
  }

  /** r is the extent at cluster k, which holds the byte. */
  ghost predicate AnswersAt(area: nat, bytesPerCluster: nat, m: seq<nat>, vbo: nat, r: Answer, k: nat) {
    && k < |m| && m[k] < 0x1_0000_0000
    && Span(bytesPerCluster, k) <= vbo < Span(bytesPerCluster, k + 1) && r == ExtentAt(area, bytesPerCluster, m, vbo, k)
  }

  /** Looking a byte up in a map answers with the extent at its cluster. */
  ghost predicate Answers(area: nat, bytesPerCluster: nat, m: seq<nat>, vbo: nat, r: Answer) {
    exists k: nat :: AnswersAt(area, bytesPerCluster, m, vbo, r, k)
  }

  /** The answer is the place of the byte on the disk: cluster two is at the file area, and every cluster its size behind the one before. */
  ghost predicate PlaceOf(area: nat, bytesPerCluster: nat, m: seq<nat>, vbo: nat, r: Answer)
    requires bytesPerCluster > 0
  {
    var k := vbo / bytesPerCluster;
    && k < |m| && 2 <= m[k] && r.Extent? && r.byteCount > 0
    && r.lbo == area + (m[k] - 2) * bytesPerCluster + vbo % bytesPerCluster
  }

  /** An answer gives the byte's place on the disk, and all bytes of the file that follow it there. */
  lemma {:induction false} AnswerIs(area: nat, bytesPerCluster: nat, m: seq<nat>, vbo: nat, r: Answer)
    requires bytesPerCluster > 0 && Answers(area, bytesPerCluster, m, vbo, r) && forall i :: 0 <= i < |m| ==> 2 <= m[i] < 0x1000_0000
    ensures PlaceOf(area, bytesPerCluster, m, vbo, r)
    ensures var k := vbo / bytesPerCluster;
      && k < |m| && k < RunEnd(m, k) <= |m| && vbo + r.byteCount == RunEnd(m, k) * bytesPerCluster
      && (forall i :: k < i < RunEnd(m, k) ==> m[i] == m[i - 1] + 1)
      && (RunEnd(m, k) < |m| ==> m[RunEnd(m, k)] != m[RunEnd(m, k) - 1] + 1)
  {
    hide *;
    var k := AnswerParts(area, bytesPerCluster, m, vbo, r);
    ClusterOfByte(bytesPerCluster, vbo, vbo / bytesPerCluster);
    ClusterUnique(bytesPerCluster, vbo, k, vbo / bytesPerCluster);
    ClusterPlaces(area, bytesPerCluster, m[k]);
    SpanIs(bytesPerCluster, RunEnd(m, k));
    RunIsLongest(m, k);
    PlaceSays(area, bytesPerCluster, m, vbo, r);
  }

  lemma PlaceSays(area: nat, bytesPerCluster: nat, m: seq<nat>, vbo: nat, r: Answer)
    requires bytesPerCluster > 0 && vbo / bytesPerCluster < |m| && 2 <= m[vbo / bytesPerCluster] && r.Extent? && r.byteCount > 0
    requires r.lbo == area + (m[vbo / bytesPerCluster] - 2) * bytesPerCluster + vbo % bytesPerCluster
    ensures PlaceOf(area, bytesPerCluster, m, vbo, r)
  {
  }

  lemma AnswerParts(area: nat, bytesPerCluster: nat, m: seq<nat>, vbo: nat, r: Answer) returns (k: nat)
    requires bytesPerCluster > 0 && Answers(area, bytesPerCluster, m, vbo, r)
    ensures k < |m| && m[k] < 0x1_0000_0000 && Span(bytesPerCluster, k) <= vbo < Span(bytesPerCluster, k + 1) <= Span(bytesPerCluster, RunEnd(m, k))
    ensures r == Extent(LboFromIndex(area, bytesPerCluster, m[k]) + (vbo - Span(bytesPerCluster, k)), Span(bytesPerCluster, RunEnd(m, k)) - vbo, RunIndex(m, k))
  {
    k :| AnswersAt(area, bytesPerCluster, m, vbo, r, k);
    SpanMonotone(bytesPerCluster, k + 1, RunEnd(m, k));
    hide LboFromIndex;
    hide RunEnd;
  }

  /** A run goes on as long as the clusters are consecutive. */
  lemma RunIsLongest(m: seq<nat>, k: nat)
    requires k < |m|
    ensures k < RunEnd(m, k) <= |m| && forall i :: k < i < RunEnd(m, k) ==> m[i] == m[i - 1] + 1
    ensures RunEnd(m, k) < |m| ==> m[RunEnd(m, k)] != m[RunEnd(m, k) - 1] + 1
  {
    InsideRun(m, k);
    assert Boundary(m, RunEnd(m, k));
    hide RunEnd;
    forall i | k < i < RunEnd(m, k) ensures m[i] == m[i - 1] + 1 {
      assert !Boundary(m, i);
    }
  }

  /** One more cluster behind a run: the run goes on exactly when the cluster follows on the disk. */
  lemma RunGrows(m: seq<nat>, n: nat, next: nat)
    requires n < |m| && forall i :: n < i < |m| ==> !Boundary(m, i)
    ensures var m' := m + [next];
      && (Boundary(m', n) <==> Boundary(m, n))
      && (Boundary(m', |m|) <==> next != m[|m| - 1] + 1)
      && forall i :: n < i < |m| ==> !Boundary(m', i)
  {
    forall i | n < i < |m| ensures !Boundary(m + [next], i) {
      assert !Boundary(m, i);
    }
  }

  /** The part of a map up to a run boundary has the same runs. */
  lemma {:induction false} RunEndOfPrefix(m: seq<nat>, n: nat, k: nat)
    requires k < n <= |m| && Boundary(m, n)
    ensures RunEnd(m[..n], k) == RunEnd(m, k) <= n
    decreases n - k
  {
    if k + 1 < n && !Boundary(m, k + 1) {
      RunEndOfPrefix(m, n, k + 1);
    }
  }

  lemma {:induction false} RunIndexOfPrefix(m: seq<nat>, n: nat, k: nat)
    requires k < n <= |m|
    ensures RunIndex(m[..n], k) == RunIndex(m, k)
    decreases k
  {
    if k > 0 {
      RunIndexOfPrefix(m, n, k - 1);
    }
  }

  /** A map cut at a run boundary answers as the whole map does. */
  lemma {:induction false} PrefixAnswers(area: nat, bytesPerCluster: nat, m: seq<nat>, n: nat, vbo: nat, r: Answer)
    requires n <= |m| && Boundary(m, n) && Answers(area, bytesPerCluster, m[..n], vbo, r)
    ensures Answers(area, bytesPerCluster, m, vbo, r)
  {
    var k: nat :| AnswersAt(area, bytesPerCluster, m[..n], vbo, r, k);
    RunEndOfPrefix(m, n, k);
    RunIndexOfPrefix(m, n, k);
    assert AnswersAt(area, bytesPerCluster, m, vbo, r, k);
  }

  /** A byte lies in one cluster. */
  lemma {:induction false} ClusterUnique(bytesPerCluster: nat, vbo: nat, k: nat, j: nat)
    requires bytesPerCluster > 0
    requires Span(bytesPerCluster, k) <= vbo < Span(bytesPerCluster, k + 1) && Span(bytesPerCluster, j) <= vbo < Span(bytesPerCluster, j + 1)
    ensures k == j
  {
    if k < j {
      SpanMonotone(bytesPerCluster, k + 1, j);
    } else if j < k {
      SpanMonotone(bytesPerCluster, j + 1, k);
    }
  }

  /** A map has at most one answer. */
  lemma {:induction false} AnswerUnique(area: nat, bytesPerCluster: nat, m: seq<nat>, vbo: nat, r: Answer, s: Answer)
    requires bytesPerCluster > 0 && Answers(area, bytesPerCluster, m, vbo, r) && Answers(area, bytesPerCluster, m, vbo, s)
    ensures r == s
  {
    var k: nat :| AnswersAt(area, bytesPerCluster, m, vbo, r, k);
    var j: nat :| AnswersAt(area, bytesPerCluster, m, vbo, s, j);
    ClusterUnique(bytesPerCluster, vbo, k, j);
  }

  /** FatLookupMcbEntry. */
  method LookupMcbEntry(vcb: Vcb, m: seq<nat>, vbo: nat) returns (found: bool, r: Answer)
    requires vcb.bytesPerCluster > 0 && forall i :: 0 <= i < |m| ==> m[i] < 0x1_0000_0000
    ensures found <==> vbo < Span(vcb.bytesPerCluster, |m|)
    ensures found ==> Answers(vcb.fileAreaLbo, vcb.bytesPerCluster, m, vbo, r)
    ensures !found ==> r == NotAllocated
  {
    var k := vbo / vcb.bytesPerCluster;
    ClusterOfByte(vcb.bytesPerCluster, vbo, k);
    SpanMonotone(vcb.bytesPerCluster, k + 1, |m|);
    SpanMonotone(vcb.bytesPerCluster, |m|, k);
    found := k < |m|;
    r := NotAllocated;
    if found {
      r := ExtentAt(vcb.fileAreaLbo, vcb.bytesPerCluster, m, vbo, k);
      assert AnswersAt(vcb.fileAreaLbo, vcb.bytesPerCluster, m, vbo, r, k);
    }
  }

  /** FatLookupLastMcbEntry: the last byte that is mapped, and the index of its run. */
  method LookupLastMcbEntry(vcb: Vcb, m: seq<nat>) returns (found: bool, vbo: nat, lbo: nat, index: nat)
    requires vcb.bytesPerCluster > 0 && forall i :: 0 <= i < |m| ==> m[i] < 0x1_0000_0000
    ensures found <==> m != []
    ensures found ==>
      && vbo + 1 == Span(vcb.bytesPerCluster, |m|)
      && lbo == LboFromIndex(vcb.fileAreaLbo, vcb.bytesPerCluster, m[|m| - 1]) + (vcb.bytesPerCluster - 1)
      && index + 1 == RunCount(m)
  {
    found, vbo, lbo, index := m != [], 0, 0, 0;
    if found {
      vbo := Span(vcb.bytesPerCluster, |m|) - 1;
      lbo := LboFromIndex(vcb.fileAreaLbo, vcb.bytesPerCluster, m[|m| - 1]) + (vcb.bytesPerCluster - 1);
      index := RunIndex(m, |m| - 1);
    }
  }
}
