/**
  The books an allocator keeps besides the FAT: which clusters its bitmap and
  counts take for in use, the counts per window, the bitmap of the current
  window, the volume's free count, and what has been charged to that count for
  clusters that are not taken yet.
 */
module Books {
  import opened Bits
  import opened FatEntries
  import opened Windows

  datatype Books = Books(used: seq<bool>, windows: seq<Window>, current: nat, bitmap: seq<bool>, free: nat, precharged: nat)

  /** The bitmap shows the current window. */
  ghost predicate Shows(b: Books) {
    && b.current < |b.windows|
    && var w := b.windows[b.current];
      && w.firstCluster + |b.bitmap| == w.lastCluster + 1 <= |b.used|
      && forall i {:trigger b.bitmap[i]} :: 0 <= i < |b.bitmap| ==> b.bitmap[i] == b.used[w.firstCluster + i]
  }

  /** The bitmap, the window counts and the volume count agree. */
  ghost predicate InOrder(bits: IndexBits, n: nat, b: Books) {
    && n > 0 && |b.used| == n + 2
    && Partition(bits, n, b.windows) && Counted(b.used, b.windows)
    && Shows(b)
    && b.free + b.precharged == ClearIn(b.used, 2, |b.used|)
  }

  /** A single window that covers the heap is counted by the volume count. */
  lemma OpenedInOrder(bits: IndexBits, n: nat, b: Books)
    requires n > 0 && |b.used| == n + 2 && Partition(bits, n, b.windows) && Shows(b)
    requires if |b.windows| > 1 then Counted(b.used, b.windows) else b.windows[0].clustersFree == b.free
    requires b.precharged == 0 && b.free == ClearIn(b.used, 2, |b.used|)
    ensures InOrder(bits, n, b)
  {
    Adjoining(bits, n, b.windows, 0);
  }

  /** Charging clusters moves them from the volume count to the pre-charge. */
  lemma ChargeKeepsOrder(bits: IndexBits, n: nat, b: Books, count: nat)
    requires InOrder(bits, n, b) && count <= b.free
    ensures InOrder(bits, n, b.(free := b.free - count, precharged := b.precharged + count))
  {
    assert Shows(b.(free := b.free - count, precharged := b.precharged + count));
  }

  /** The current window counts exactly the clear bits of the bitmap, as the driver asserts at every lock and unlock. */
  lemma CurrentWindowGood(bits: IndexBits, n: nat, b: Books)
    requires InOrder(bits, n, b)
    ensures b.windows[b.current].clustersFree == ClearIn(b.bitmap, 0, |b.bitmap|)
  {
    ClearInShift(b.bitmap, 0, b.used, b.windows[b.current].firstCluster, |b.bitmap|);
  }

  /** The window counts add up to the volume count and what has been charged beforehand. */
  lemma FreeCountsAddUp(bits: IndexBits, n: nat, b: Books)
    requires InOrder(bits, n, b)
    ensures TotalFree(b.windows) == b.free + b.precharged
  {
    WindowsAddUp(bits, n, b.used, b.windows);
  }

  /** The books after a charged run of the current window is taken. */
  ghost function TakeFrom(b: Books, index: nat, count: nat): Books
    requires b.current < |b.windows| && count <= b.precharged && count <= b.windows[b.current].clustersFree
  {
    var w := b.windows[b.current];
    b.(used := WithSet(b.used, w.firstCluster + index, count),
       windows := b.windows[b.current := w.(clustersFree := w.clustersFree - count)],
       bitmap := WithSet(b.bitmap, index, count),
       precharged := b.precharged - count)
  }

  lemma TakeKeepsOrder(bits: IndexBits, n: nat, b: Books, index: nat, count: nat)
    requires InOrder(bits, n, b) && 0 < count <= b.precharged && ClearRun(b.bitmap, index, count)
    ensures count <= b.windows[b.current].clustersFree
    ensures ClearRun(b.used, b.windows[b.current].firstCluster + index, count)
    ensures InOrder(bits, n, TakeFrom(b, index, count))
  {
    var w := b.windows[b.current];
    var cluster := w.firstCluster + index;
    forall c | cluster <= c < cluster + count ensures !b.used[c] {
      assert !b.bitmap[c - w.firstCluster];
    }
    assert ClearRun(b.used, cluster, count);
    PartitionApart(bits, n, b.windows, b.current);
    CountWithSet(b.used, cluster, count, w.firstCluster, w.lastCluster + 1);
    var b' := TakeFrom(b, index, count);
    CountedAfterTake(n, b.used, b'.used, b.windows, b'.windows, b.current, cluster, count);
    PartitionKept(bits, n, b.windows, b'.windows);
    ShowsAfterTake(b, index, count);
  }

  lemma ShowsAfterTake(b: Books, index: nat, count: nat)
    requires Shows(b) && count <= b.precharged && count <= b.windows[b.current].clustersFree
    ensures Shows(TakeFrom(b, index, count))
  {
  }

  /** The number of clusters that a run and a window have in common. */
  function Common(w: Window, cluster: nat, count: nat): nat {
    var lo := if cluster > w.firstCluster then cluster else w.firstCluster;
    var hi := if cluster + count < w.lastCluster + 1 then cluster + count else w.lastCluster + 1;
    if lo < hi then hi - lo else 0
  }

  /** The windows after a run is given back: each gains what it has in common with the run. */
  ghost function Regained(ws: seq<Window>, cluster: nat, count: nat): seq<Window> {
    seq(|ws|, k requires 0 <= k < |ws| => ws[k].(clustersFree := ws[k].clustersFree + Common(ws[k], cluster, count)))
  }

  /** The books after a run is given back; of the bitmap, only the part of the run in the current window is cleared. */
  ghost function GiveBack(b: Books, cluster: nat, count: nat): Books
    requires b.current < |b.windows|
  {
    b.(used := WithClear(b.used, cluster, count),
       windows := Regained(b.windows, cluster, count),
       bitmap := WithClear(b.bitmap, cluster - b.windows[b.current].firstCluster, count),
       free := b.free + count)
  }

  /** Clearing a set run adds to any count what the run has in common with the counted range. */
  lemma CountWithClear(b: seq<bool>, w: Window, cluster: nat, count: nat)
    requires cluster + count <= |b| && w.firstCluster <= w.lastCluster + 1 <= |b|
    requires forall c :: cluster <= c < cluster + count ==> b[c]
    ensures ClearIn(WithClear(b, cluster, count), w.firstCluster, w.lastCluster + 1)
      == ClearIn(b, w.firstCluster, w.lastCluster + 1) + Common(w, cluster, count)
  {
    var b' := WithClear(b, cluster, count);
    var lo, hi := w.firstCluster, w.lastCluster + 1;
    var start := if cluster > lo then cluster else lo;
    var n := Common(w, cluster, count);
    var b'' := WithClear(b, start, n);
    if n > 0 {
      ClearInSet(b'', b, lo, hi, start, n);
      ClearInShift(b', lo, b'', lo, hi - lo);
    } else {
      ClearInShift(b, lo, b', lo, hi - lo);
    }
  }

  lemma CountedAfterGiveBack(used: seq<bool>, ws: seq<Window>, cluster: nat, count: nat)
    requires Counted(used, ws) && cluster + count <= |used|
    requires forall c :: cluster <= c < cluster + count ==> used[c]
    ensures Counted(WithClear(used, cluster, count), Regained(ws, cluster, count))
    ensures SamePlaces(ws, Regained(ws, cluster, count))
  {
    var ws' := Regained(ws, cluster, count);
    forall k | 0 <= k < |ws'|
      ensures ws'[k].clustersFree == ClearIn(WithClear(used, cluster, count), ws'[k].firstCluster, ws'[k].lastCluster + 1)
    {
      CountWithClear(used, ws[k], cluster, count);
    }
  }

  lemma ShowsAfterGiveBack(b: Books, cluster: nat, count: nat)
    requires Shows(b)
    ensures Shows(GiveBack(b, cluster, count))
  {
  }

  lemma GiveBackKeepsOrder(bits: IndexBits, n: nat, b: Books, cluster: nat, count: nat)
    requires InOrder(bits, n, b) && 2 <= cluster && cluster + count <= n + 2
    requires forall c :: cluster <= c < cluster + count ==> b.used[c]
    ensures InOrder(bits, n, GiveBack(b, cluster, count))
  {
    CountedAfterGiveBack(b.used, b.windows, cluster, count);
    PartitionKept(bits, n, b.windows, Regained(b.windows, cluster, count));
    ShowsAfterGiveBack(b, cluster, count);
    CountWithClear(b.used, Window(2, n + 1, 0), cluster, count);
  }
}
