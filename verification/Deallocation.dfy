/**
  FatDeallocateDiskSpace: the runs of a map are freed in the FAT first, and given
  back to the bitmap and the counts afterwards.
 */
module Deallocation {
  import opened Bits
  import opened FatEntries
  import opened FatTable
  import opened Windows
  import opened Books
  import opened Volume
  import opened Allocation
  import opened Mcb

  /** The clusters of positions [from, to) of a map make up one run on the disk. */
  lemma RunIs(m: seq<nat>, from: nat, to: nat)
    requires from < to <= |m| && forall i :: from < i < to ==> !Boundary(m, i)
    ensures m[from..to] == Run(m[from], to - from)
  {
    forall k | 0 <= k < to - from
      ensures m[from..to][k] == Run(m[from], to - from)[k]
    {
      RunConsecutive(m, from, from + k);
    }
  }

  lemma CommonStep(w: Window, cluster: nat, done: nat, more: nat)
    requires w.firstCluster <= w.lastCluster + 1
    ensures w.firstCluster <= cluster + done && cluster + done + more <= w.lastCluster + 1 ==>
      Common(w, cluster, done + more) == Common(w, cluster, done) + more
    ensures cluster + done + more <= w.firstCluster || w.lastCluster < cluster + done ==>
      Common(w, cluster, done + more) == Common(w, cluster, done)
  {
  }

  /** Regaining a run up to some point and then the stretch of it that lies in window k. */
  lemma RegainedStep(n: nat, ws: seq<Window>, k: nat, cluster: nat, done: nat, more: nat)
    requires Apart(n, ws, k) && (forall i :: 0 <= i < |ws| ==> ws[i].firstCluster <= ws[i].lastCluster + 1)
    requires ws[k].firstCluster <= cluster + done && cluster + done + more <= ws[k].lastCluster + 1
    ensures var r := Regained(ws, cluster, done);
      Regained(ws, cluster, done + more) == r[k := r[k].(clustersFree := r[k].clustersFree + more)]
  {
    forall i | 0 <= i < |ws|
      ensures Common(ws[i], cluster, done + more) == Common(ws[i], cluster, done) + if i == k then more else 0
    {
      CommonStep(ws[i], cluster, done, more);
    }
  }

  lemma RegainedNothing(ws: seq<Window>, cluster: nat)
    ensures Regained(ws, cluster, 0) == ws
  {
    forall i | 0 <= i < |ws| ensures Common(ws[i], cluster, 0) == 0 {
    }
  }

  /** Adds to the count of every window what it has in common with a run, window by window from the one the run starts in. */
  method CreditWindows(vcb: Vcb, cluster: nat, count: nat)
    requires Partition(vcb.fat.bits, vcb.fat.numberOfClusters, vcb.windows[..])
    requires count > 0 && vcb.fat.IndexIsValid(cluster) && vcb.fat.IndexIsValid(cluster + count - 1)
    modifies vcb.windows
    ensures vcb.windows[..] == Regained(old(vcb.windows[..]), cluster, count)
  {
    RunStartsIn(vcb.fat.bits, vcb.fat.numberOfClusters, vcb.windows[..], cluster);
    CreditFrom(vcb, if vcb.fat.bits.Fat32? then WindowOfCluster(cluster) else 0, cluster, count);
  }

  method CreditFrom(vcb: Vcb, w0: nat, cluster: nat, count: nat)
    requires Partition(vcb.fat.bits, vcb.fat.numberOfClusters, vcb.windows[..])
    requires count > 0 && cluster + count <= vcb.fat.numberOfClusters + 2
    requires w0 < vcb.windows.Length && vcb.windows[..][w0].firstCluster <= cluster <= vcb.windows[..][w0].lastCluster
    modifies vcb.windows
    ensures vcb.windows[..] == Regained(old(vcb.windows[..]), cluster, count)
  {
    ghost var ws := vcb.windows[..];
    var w: nat, start: nat, left: nat := w0, cluster, count;
    ghost var done: nat := 0;
    RegainedNothing(ws, cluster);
    hide Regained;
    hide Partition;
    while left > 0
      invariant start == cluster + done && left == count - done && done <= count
      invariant w < |ws| && (left > 0 ==> ws[w].firstCluster <= start <= ws[w].lastCluster)
      invariant vcb.windows[..] == Regained(ws, cluster, done)
    {
      w, start, left := CreditWindow(vcb, w, start, left, ws, cluster, done);
      done := count - left;
    }
  }

  /** Credits window w with its part of a run, and moves on to the next window if the run reaches past the end of this one. */
  method CreditWindow(vcb: Vcb, w: nat, start: nat, left: nat, ghost ws: seq<Window>, ghost cluster: nat, ghost done: nat)
    returns (w': nat, start': nat, left': nat)
    requires Partition(vcb.fat.bits, vcb.fat.numberOfClusters, ws) && vcb.windows[..] == Regained(ws, cluster, done)
    requires start == cluster + done && left > 0 && start + left <= vcb.fat.numberOfClusters + 2
    requires w < |ws| && ws[w].firstCluster <= start <= ws[w].lastCluster
    modifies vcb.windows
    ensures left' < left && start' + left' == start + left
    ensures w' < |ws| && (left' > 0 ==> ws[w'].firstCluster <= start' <= ws[w'].lastCluster)
    ensures vcb.windows[..] == Regained(ws, cluster, done + (left - left'))
  {
    ghost var bits, n, r := vcb.fat.bits, vcb.fat.numberOfClusters, vcb.windows[..];
    PartitionApart(bits, n, ws, w);
    assert vcb.windows[w] == r[w];
    var room := vcb.windows[w].lastCluster - start + 1;
    var credit := if room < left then room else left;
    vcb.windows[w] := vcb.windows[w].(clustersFree := vcb.windows[w].clustersFree + credit);
    assert vcb.windows[..] == r[w := r[w].(clustersFree := r[w].clustersFree + credit)];
    RegainedStep(n, ws, w, cluster, done, credit);
    w', start', left' := w, start + credit, left - credit;
    if left != credit {
      NextAdjoins(bits, n, ws, w, start + credit);
      w' := w + 1;
    }
  }

  /** The window in which a run starts. */
  lemma RunStartsIn(bits: IndexBits, n: nat, ws: seq<Window>, cluster: nat)
    requires Partition(bits, n, ws) && 2 <= cluster <= n + 1
    ensures var w := if bits.Fat32? then WindowOfCluster(cluster) else 0;
      w < |ws| && ws[w].firstCluster <= cluster <= ws[w].lastCluster
    ensures forall k :: 0 <= k < |ws| ==> ws[k].firstCluster <= ws[k].lastCluster <= n + 1
  {
    WindowHolds(bits, n, cluster, 0);
    WindowHolds(bits, n, cluster, WindowIndex(bits, cluster));
  }

  /** A run that reaches past the end of a window goes on at the start of the next one. */
  lemma NextAdjoins(bits: IndexBits, n: nat, ws: seq<Window>, w: nat, cluster: nat)
    requires Partition(bits, n, ws) && w < |ws| && cluster == ws[w].lastCluster + 1 <= n + 1
    ensures w + 1 < |ws| && ws[w + 1].firstCluster == cluster <= ws[w + 1].lastCluster
  {
  }

  /** Clears the bits of the part of a run that lies in the current window, if any. */
  method UnreserveInWindow(vcb: Vcb, cluster: nat, count: nat)
    requires vcb.currentWindow < vcb.windows.Length && count > 0
    requires vcb.windows[vcb.currentWindow].firstCluster + vcb.bitmap.Length == vcb.windows[vcb.currentWindow].lastCluster + 1
    requires vcb.clusterHint == -1 || 2 <= vcb.clusterHint < vcb.bitmap.Length + 2
    modifies vcb`clusterHint, vcb.bitmap
    ensures vcb.bitmap[..] == WithClear(old(vcb.bitmap[..]), cluster - vcb.windows[vcb.currentWindow].firstCluster, count)
    ensures vcb.clusterHint == -1 || 2 <= vcb.clusterHint < vcb.bitmap.Length + 2
  {
    var window := vcb.windows[vcb.currentWindow];
    var end := cluster + count - 1;
    if !(cluster > window.lastCluster || end < window.firstCluster) {
      var myStart, myLength;
      if cluster < window.firstCluster && end > window.lastCluster {
        myStart, myLength := window.firstCluster, window.lastCluster - window.firstCluster + 1;
      } else if cluster < window.firstCluster {
        myStart, myLength := window.firstCluster, end - window.firstCluster + 1;
      } else {
        myStart := cluster;
        myLength := if end <= window.lastCluster then count else window.lastCluster - cluster + 1;
      }
      if myLength == 0 {
        return;
      }
      vcb.UnreserveClusters(myStart - window.firstCluster, myLength);
    }
  }

  /** Gives back one run: to the bitmap, to the window counts, and to the volume count. */
  method ReleaseRun(vcb: Vcb, cluster: nat, count: nat)
    requires vcb.Accounts() && count > 0 && 2 <= cluster && cluster + count <= vcb.fat.numberOfClusters + 2
    requires forall c :: cluster <= c < cluster + count ==> vcb.used[c]
    modifies vcb`clusterHint, vcb`used, vcb`numberOfFreeClusters, vcb.bitmap, vcb.windows
    ensures vcb.Accounts() && vcb.Ledger() == GiveBack(old(vcb.Ledger()), cluster, count)
    ensures vcb.used == WithClear(old(vcb.used), cluster, count) && vcb.numberOfFreeClusters == old(vcb.numberOfFreeClusters) + count
  {
    ghost var b := vcb.Ledger();
    GiveBackKeepsOrder(vcb.fat.bits, vcb.fat.numberOfClusters, b, cluster, count);
    assert b.windows[b.current] == vcb.windows[vcb.currentWindow];
    UnreserveInWindow(vcb, cluster, count);
    CreditWindows(vcb, cluster, count);
    vcb.numberOfFreeClusters := vcb.numberOfFreeClusters + count;
    vcb.used := WithClear(vcb.used, cluster, count);
    assert vcb.Ledger() == GiveBack(b, cluster, count);
  }

  /** The clusters of a map are all different, all in the heap, and all in use. */
  ghost predicate Owned(e: seq<nat>, mcb: seq<nat>) {
    && |e| >= 2 && Distinct(mcb) && InHeap(mcb, |e| - 2)
    && forall i :: 0 <= i < |mcb| ==> e[mcb[i]] != FAT_CLUSTER_AVAILABLE
  }

  /** FatGetNextMcbEntry: a run by its index: where in the file it starts, where on the disk, and how long it is. */
  method GetNextMcbEntry(m: seq<nat>, index: nat) returns (vcn: nat, lcn: nat, length: nat)
    requires index < RunCount(m)
    ensures vcn == RunStart(m, index) && length > 0 && vcn + length == RunStart(m, index + 1)
    ensures lcn == m[vcn] && m[vcn..vcn + length] == Run(lcn, length) && m[vcn + length - 1] == lcn + length - 1
  {
    vcn := NthRun(m, index);
    lcn, length := m[vcn], RunEnd(m, vcn) - vcn;
    InsideRun(m, vcn);
    RunIs(m, vcn, vcn + length);
    NthRunEnd(m, index);
    LastOfRun(m, vcn, length);
  }

  /** FatDeallocateDiskSpace. */
  method DeallocateDiskSpace(vcb: Vcb, mcb: seq<nat>)
    requires vcb.Valid() && Owned(vcb.fat.entries, mcb)
    modifies vcb`clusterHint, vcb`used, vcb`numberOfFreeClusters, vcb.bitmap, vcb.windows, vcb.fat, vcb.fat.units
    ensures vcb.Valid() && FreedAs(old(vcb.fat.entries), vcb.fat.entries, mcb)
    ensures vcb.numberOfFreeClusters == old(vcb.numberOfFreeClusters) + |mcb|
  {
    FreeRuns(vcb, mcb);
    ReleaseRuns(vcb, mcb);
    assert vcb.used == UsedBits(vcb.fat.entries);
  }

  /** The first step: the runs are marked available in the FAT. */
  method FreeRuns(vcb: Vcb, mcb: seq<nat>)
    requires vcb.fat.Valid() && Owned(vcb.fat.entries, mcb)
    modifies vcb.fat, vcb.fat.units
    ensures vcb.fat.Valid() && FreedAs(old(vcb.fat.entries), vcb.fat.entries, mcb)
  {
    ghost var e0 := vcb.fat.entries;
    var index := 0;
    assert FreedAs(e0, e0, mcb[..0]);
    hide FreedAs;
    while index < RunCount(mcb)
      invariant 0 <= index <= RunCount(mcb)
      invariant vcb.fat.Valid() && |vcb.fat.entries| == |e0| && FreedAs(e0, vcb.fat.entries, mcb[..RunStart(mcb, index)])
    {
      FreeRun(vcb, mcb, index, e0);
      index := index + 1;
    }
    assert mcb[..|mcb|] == mcb;
  }

  method FreeRun(vcb: Vcb, mcb: seq<nat>, index: nat, ghost e0: seq<nat>)
    requires vcb.fat.Valid() && InHeap(mcb, vcb.fat.numberOfClusters) && index < RunCount(mcb)
    requires FreedAs(e0, vcb.fat.entries, mcb[..RunStart(mcb, index)])
    modifies vcb.fat, vcb.fat.units
    ensures vcb.fat.Valid() && FreedAs(e0, vcb.fat.entries, mcb[..RunStart(mcb, index + 1)])
  {
    hide FreedAs;
    var start, cluster, count := GetNextMcbEntry(mcb, index);
    ghost var e := vcb.fat.entries;
    Allocation.FreeClusters(vcb, cluster, count);
    FreedMore(vcb.fat.bits, e0, e, vcb.fat.entries, mcb, start, count);
  }

  lemma LastOfRun(m: seq<nat>, from: nat, count: nat)
    requires count > 0 && from + count <= |m| && m[from..from + count] == Run(m[from], count)
    ensures m[from + count - 1] == m[from] + count - 1
  {
    assert m[from..from + count][count - 1] == Run(m[from], count)[count - 1];
  }

  lemma FreedMore(bits: IndexBits, e0: seq<nat>, e: seq<nat>, e': seq<nat>, m: seq<nat>, from: nat, count: nat)
    requires from + count <= |m| && FreedAs(e0, e, m[..from])
    requires count > 0 && m[from..from + count] == Run(m[from], count) && m[from] + count <= |e|
    requires e' == RunWritten(bits, e, m[from], count, false)
    ensures FreedAs(e0, e', m[..from + count])
  {
    var run := m[from..from + count];
    var m0, m1 := m[..from], m[..from + count];
    assert m1 == m0 + run;
    forall i | 0 <= i < |m1| ensures m1[i] < |e0| && e'[m1[i]] == FAT_CLUSTER_AVAILABLE {
      if i < from {
        assert m1[i] == m0[i];
      } else {
        assert m1[i] == run[i - from] == m[from] + (i - from);
      }
    }
    forall c | m[from] <= c < m[from] + count ensures c in m1 {
      assert m1[from + (c - m[from])] == run[c - m[from]] == c;
    }
    forall c | 0 <= c < |e0| && c !in m1 ensures e'[c] == e0[c] {
      assert c !in m0 by {
        assert forall i :: 0 <= i < |m0| ==> m1[i] == m0[i];
      }
    }
  }

  /** used with the clusters of m cleared. */
  ghost function Without(used: seq<bool>, m: seq<nat>): seq<bool> {
    seq(|used|, c requires 0 <= c < |used| => used[c] && c !in m)
  }

  /** What one more run adds to the first part of a map. */
  lemma PrefixGrows(m: seq<nat>, from: nat, count: nat, c: nat)
    requires from + count <= |m| && count > 0 && m[from..from + count] == Run(m[from], count)
    ensures c in m[..from + count] <==> c in m[..from] || m[from] <= c < m[from] + count
  {
    var run := m[from..from + count];
    assert m[..from + count] == m[..from] + run;
    assert m[from] <= c < m[from] + count ==> run[c - m[from]] == c;
  }

  /** The clusters of a run are not among those before it, since all are different. */
  lemma RunApartFromPrefix(m: seq<nat>, from: nat, count: nat, c: nat)
    requires Distinct(m) && from + count <= |m| && count > 0 && m[from..from + count] == Run(m[from], count)
    requires m[from] <= c < m[from] + count
    ensures c !in m[..from] && c in m
  {
    var k := from + (c - m[from]);
    assert m[from..from + count][k - from] == c;
    assert m[k] == c;
    forall i | 0 <= i < from ensures m[..from][i] != c {
      assert Differ(m, i, k);
    }
  }

  /** Giving back one more run clears exactly its clusters, which were still in use. */
  lemma WithoutMore(used: seq<bool>, m: seq<nat>, from: nat, count: nat)
    requires Distinct(m) && from + count <= |m| && count > 0
    requires m[from..from + count] == Run(m[from], count)
    requires forall c :: c in m ==> c < |used| && used[c]
    ensures m[from] + count <= |used|
    ensures forall c :: m[from] <= c < m[from] + count ==> Without(used, m[..from])[c]
    ensures Without(used, m[..from + count]) == WithClear(Without(used, m[..from]), m[from], count)
  {
    RunApartFromPrefix(m, from, count, m[from] + count - 1);
    forall c | m[from] <= c < m[from] + count
      ensures c < |used| && Without(used, m[..from])[c]
    {
      RunApartFromPrefix(m, from, count, c);
    }
    forall c: nat | c < |used|
      ensures Without(used, m[..from + count])[c] == WithClear(Without(used, m[..from]), m[from], count)[c]
    {
      PrefixGrows(m, from, count, c);
    }
  }

  /** The second step: the runs are given back to the bitmap and the counts. */
  method ReleaseRuns(vcb: Vcb, mcb: seq<nat>)
    requires vcb.Accounts() && Distinct(mcb) && InHeap(mcb, vcb.fat.numberOfClusters)
    requires forall i :: 0 <= i < |mcb| ==> vcb.used[mcb[i]]
    modifies vcb`clusterHint, vcb`used, vcb`numberOfFreeClusters, vcb.bitmap, vcb.windows
    ensures vcb.Accounts() && vcb.used == Without(old(vcb.used), mcb)
    ensures vcb.numberOfFreeClusters == old(vcb.numberOfFreeClusters) + |mcb|
  {
    ghost var used0, free0 := vcb.used, vcb.numberOfFreeClusters;
    var index := 0;
    assert used0 == Without(used0, mcb[..0]);
    hide Without;
    hide InOrder;
    while index < RunCount(mcb)
      invariant 0 <= index <= RunCount(mcb)
      invariant vcb.Accounts() && vcb.used == Without(used0, mcb[..RunStart(mcb, index)])
      invariant vcb.numberOfFreeClusters == free0 + RunStart(mcb, index)
    {
      ReleaseNth(vcb, mcb, index, used0);
      index := index + 1;
    }
    assert mcb[..|mcb|] == mcb;
  }

  method ReleaseNth(vcb: Vcb, mcb: seq<nat>, index: nat, ghost used0: seq<bool>)
    requires vcb.Accounts() && Distinct(mcb) && InHeap(mcb, vcb.fat.numberOfClusters) && index < RunCount(mcb)
    requires forall c :: c in mcb ==> c < |used0| && used0[c]
    requires vcb.used == Without(used0, mcb[..RunStart(mcb, index)])
    modifies vcb`clusterHint, vcb`used, vcb`numberOfFreeClusters, vcb.bitmap, vcb.windows
    ensures vcb.Accounts() && vcb.used == Without(used0, mcb[..RunStart(mcb, index + 1)])
    ensures vcb.numberOfFreeClusters == old(vcb.numberOfFreeClusters) + (RunStart(mcb, index + 1) - RunStart(mcb, index))
  {
    hide InOrder;
    var start, cluster, count := GetNextMcbEntry(mcb, index);
    WithoutMore(used0, mcb, start, count);
    ReleaseRun(vcb, cluster, count);
  }
}
