/**
  The windows into which the free cluster bitmap of a FAT32 volume is divided,
  and the choice of the one to allocate from.
 */
module Windows {
  import opened Bits
  import opened FatEntries

  /** The clusters one bitmap covers on a volume with more than one window. */
  const MAX_CLUSTER_BITMAP_SIZE: nat := 0x1_0000

  datatype Window = Window(firstCluster: nat, lastCluster: nat, clustersFree: nat)

  function NumberOfWindows(bits: IndexBits, n: nat): nat {
    if bits.Fat32? && n > MAX_CLUSTER_BITMAP_SIZE
    then (n + MAX_CLUSTER_BITMAP_SIZE - 1) / MAX_CLUSTER_BITMAP_SIZE
    else 1
  }

  /** FatWindowOfCluster. */
  function WindowOfCluster(cluster: nat): nat
    requires cluster >= 2
  {
    (cluster - 2) / MAX_CLUSTER_BITMAP_SIZE
  }

  /** The window a cluster is accounted in; only FAT32 divides its bitmap. */
  function WindowIndex(bits: IndexBits, cluster: nat): nat
    requires cluster >= 2
  {
    if bits.Fat32? then WindowOfCluster(cluster) else 0
  }

  function FirstOf(k: nat): nat {
    2 + MAX_CLUSTER_BITMAP_SIZE * k
  }

  function LastOf(bits: IndexBits, n: nat, k: nat): nat {
    if k + 1 >= NumberOfWindows(bits, n) then n + 1 else FirstOf(k + 1) - 1
  }

  /** The windows partition clusters 2 through n + 1, in order. */
  ghost predicate Partition(bits: IndexBits, n: nat, ws: seq<Window>) {
    && |ws| == NumberOfWindows(bits, n)
    && forall k {:trigger ws[k]} :: 0 <= k < |ws| ==>
      && ws[k].firstCluster == FirstOf(k)
      && ws[k].lastCluster == LastOf(bits, n, k)
      && ws[k].firstCluster <= ws[k].lastCluster
  }

  /** Every window starts at a cluster that is 2 modulo 8 (and at cluster 2 on a FAT12 or FAT16 volume) and ends inside the heap. */
  lemma WindowPlaces(bits: IndexBits, n: nat, w: nat)
    requires w < NumberOfWindows(bits, n)
    ensures FirstOf(w) % 8 == 2 && LastOf(bits, n, w) <= n + 1
    ensures !bits.Fat32? ==> FirstOf(w) == 2
  {
    assert FirstOf(w) == 8 * (8192 * w) + 2;
  }

  /** The windows of ws' lie where those of ws do. */
  ghost predicate SamePlaces(ws: seq<Window>, ws': seq<Window>) {
    |ws'| == |ws| && forall k :: 0 <= k < |ws| ==> ws'[k].firstCluster == ws[k].firstCluster && ws'[k].lastCluster == ws[k].lastCluster
  }

  lemma PartitionKept(bits: IndexBits, n: nat, ws: seq<Window>, ws': seq<Window>)
    requires Partition(bits, n, ws) && SamePlaces(ws, ws')
    ensures Partition(bits, n, ws')
  {
  }

  /** Each window counts the clusters of its range that are not in use. */
  ghost predicate Counted(used: seq<bool>, ws: seq<Window>) {
    forall k :: 0 <= k < |ws| ==>
      && ws[k].firstCluster <= ws[k].lastCluster + 1 <= |used|
      && ws[k].clustersFree == ClearIn(used, ws[k].firstCluster, ws[k].lastCluster + 1)
  }

  function TotalFree(ws: seq<Window>): nat {
    if ws == [] then 0 else TotalFree(ws[..|ws| - 1]) + ws[|ws| - 1].clustersFree
  }

  /** A cluster lies in the window its number says, and in no other. */
  lemma WindowHolds(bits: IndexBits, n: nat, cluster: nat, k: nat)
    requires 2 <= cluster <= n + 1 && k < NumberOfWindows(bits, n)
    ensures FirstOf(k) <= cluster <= LastOf(bits, n, k) <==> k == WindowIndex(bits, cluster)
    ensures WindowIndex(bits, cluster) < NumberOfWindows(bits, n)
  {
  }

  lemma Adjoining(bits: IndexBits, n: nat, ws: seq<Window>, k: nat)
    requires n > 0 && Partition(bits, n, ws) && k < |ws|
    ensures 2 <= ws[k].firstCluster <= ws[k].lastCluster <= n + 1
    ensures ws[k].firstCluster == if k == 0 then 2 else ws[k - 1].lastCluster + 1
    ensures k + 1 == |ws| ==> ws[k].lastCluster == n + 1
  {
  }

  /** The counts of the first k windows add up to the free clusters before the end of window k - 1. */
  lemma {:induction false} WindowsAddUpTo(bits: IndexBits, n: nat, used: seq<bool>, ws: seq<Window>, k: nat)
    requires n > 0 && Partition(bits, n, ws) && Counted(used, ws) && |used| == n + 2 && 0 < k <= |ws|
    ensures ws[k - 1].lastCluster + 1 <= |used|
    ensures TotalFree(ws[..k]) == ClearIn(used, 2, ws[k - 1].lastCluster + 1)
  {
    Adjoining(bits, n, ws, k - 1);
    assert ws[..k][..k - 1] == ws[..k - 1];
    if k > 1 {
      WindowsAddUpTo(bits, n, used, ws, k - 1);
      ClearInSplit(used, 2, ws[k - 1].firstCluster, ws[k - 1].lastCluster + 1);
    } else {
      assert TotalFree(ws[..0]) == 0;
    }
  }

  /** The window counts add up to the number of free clusters of the volume. */
  lemma WindowsAddUp(bits: IndexBits, n: nat, used: seq<bool>, ws: seq<Window>)
    requires n > 0 && Partition(bits, n, ws) && Counted(used, ws) && |used| == n + 2
    ensures TotalFree(ws) == ClearIn(used, 2, n + 2)
  {
    Adjoining(bits, n, ws, |ws| - 1);
    WindowsAddUpTo(bits, n, used, ws, |ws|);
    assert ws[..|ws|] == ws;
  }

  /** As long as a cluster is free somewhere, some window has one. */
  lemma SomeWindowHasFree(bits: IndexBits, n: nat, used: seq<bool>, ws: seq<Window>)
    requires n > 0 && Partition(bits, n, ws) && Counted(used, ws) && |used| == n + 2
    requires ClearIn(used, 2, n + 2) > 0
    ensures exists k :: 0 <= k < |ws| && ws[k].clustersFree > 0
  {
    ClearInPositive(used, 2, n + 2);
    var c :| 2 <= c < n + 2 && !used[c];
    WindowHolds(bits, n, c, 0);
    var k := WindowIndex(bits, c);
    WindowHolds(bits, n, c, k);
    var w := ws[k];
    assert w.firstCluster <= c <= w.lastCluster;
    ClearInPositive(used, w.firstCluster, w.lastCluster + 1);
    assert ws[k].clustersFree > 0;
  }

  /** Window k of ws lies in the file heap and meets no other window. */
  ghost predicate Apart(n: nat, ws: seq<Window>, k: nat) {
    && k < |ws| && 2 <= ws[k].firstCluster <= ws[k].lastCluster <= n + 1
    && forall i :: 0 <= i < |ws| && i != k ==> ws[i].lastCluster < ws[k].firstCluster || ws[k].lastCluster < ws[i].firstCluster
  }

  lemma PartitionApart(bits: IndexBits, n: nat, ws: seq<Window>, k: nat)
    requires Partition(bits, n, ws) && k < |ws|
    ensures Apart(n, ws, k)
  {
  }

  /** Taking a free run of window k leaves the counts right once the run is taken off the count of that window. */
  lemma CountedAfterTake(n: nat, used: seq<bool>, used': seq<bool>, ws: seq<Window>, ws': seq<Window>, k: nat, cluster: nat, count: nat)
    requires Apart(n, ws, k) && Counted(used, ws) && |used| == n + 2
    requires ws[k].firstCluster <= cluster && cluster + count <= ws[k].lastCluster + 1 && ClearRun(used, cluster, count)
    requires used' == WithSet(used, cluster, count)
    requires |ws'| == |ws| && ws' == ws[k := ws[k].(clustersFree := ws'[k].clustersFree)]
    requires ws'[k].clustersFree + count == ws[k].clustersFree
    ensures Counted(used', ws')
    ensures ClearIn(used', 2, n + 2) == ClearIn(used, 2, n + 2) - count
  {
    CountWithSet(used, cluster, count, ws[k].firstCluster, ws[k].lastCluster + 1);
    CountWithSet(used, cluster, count, 2, n + 2);
    forall i | 0 <= i < |ws'|
      ensures ws'[i].clustersFree == ClearIn(used', ws'[i].firstCluster, ws'[i].lastCluster + 1)
    {
      if i != k {
        CountWithSet(used, cluster, count, ws[i].firstCluster, ws[i].lastCluster + 1);
      }
    }
  }

  /** A scan that has not passed the end of window k is at that end exactly when it meets a multiple of the window size. */
  lemma AtWindowEnd(bits: IndexBits, n: nat, k: nat, cluster: nat)
    requires bits.Fat32? && k < NumberOfWindows(bits, n) && FirstOf(k) < cluster <= FirstOf(k + 1) && cluster <= n + 1
    ensures (cluster - 2) % MAX_CLUSTER_BITMAP_SIZE == 0 <==> cluster == FirstOf(k + 1)
    ensures cluster == FirstOf(k + 1) ==> k + 1 < NumberOfWindows(bits, n)
  {
    var q := (cluster - 2) / MAX_CLUSTER_BITMAP_SIZE;
    assert cluster - 2 == MAX_CLUSTER_BITMAP_SIZE * q + (cluster - 2) % MAX_CLUSTER_BITMAP_SIZE;
  }

  /** Window k is set up except for its end and the clusters from runStart on; those before it are complete. */
  ghost predicate SetUpTo(u: seq<bool>, ws: seq<Window>, k: nat, runStart: nat) {
    && k < |ws| && FirstOf(k) <= runStart <= |u|
    && ws[k].firstCluster == FirstOf(k)
    && ws[k].clustersFree == ClearIn(u, FirstOf(k), runStart)
    && forall i :: 0 <= i < k ==> Complete(u, ws[i], i)
  }

  /** w is the full window i. */
  ghost predicate Complete(u: seq<bool>, w: Window, i: nat) {
    FirstOf(i + 1) <= |u| && w == Window(FirstOf(i), FirstOf(i + 1) - 1, ClearIn(u, FirstOf(i), FirstOf(i + 1)))
  }

  /** Once the scan is through and the last window is closed, the windows partition the heap and count it. */
  lemma SetUpDone(n: nat, u: seq<bool>, ws: seq<Window>, k: nat)
    requires |u| == n + 2 && |ws| == NumberOfWindows(Fat32, n) > 1
    requires SetUpTo(u, ws, k, n + 2) && FirstOf(k) <= n + 1 < FirstOf(k + 1)
    ensures k == |ws| - 1
    ensures Partition(Fat32, n, ws[k := ws[k].(lastCluster := n + 1)])
    ensures Counted(u, ws[k := ws[k].(lastCluster := n + 1)])
  {
    var ws' := ws[k := ws[k].(lastCluster := n + 1)];
    forall i | 0 <= i < |ws'|
      ensures ws'[i].firstCluster == FirstOf(i) && ws'[i].lastCluster == LastOf(Fat32, n, i)
      ensures ws'[i].clustersFree == ClearIn(u, ws'[i].firstCluster, ws'[i].lastCluster + 1)
    {
      assert i < k ==> Complete(u, ws[i], i);
    }
  }

  /** Where there is more than one window, none is larger than the bitmap can be. */
  lemma WindowsFit(bits: IndexBits, n: nat, u: seq<bool>, ws: seq<Window>)
    requires Partition(bits, n, ws) && Counted(u, ws) && |ws| > 1
    ensures forall k :: 0 <= k < |ws| ==> ws[k].clustersFree <= MAX_CLUSTER_BITMAP_SIZE
  {
    forall k | 0 <= k < |ws| ensures ws[k].clustersFree <= MAX_CLUSTER_BITMAP_SIZE {
      ClearInBound(u, ws[k].firstCluster, ws[k].lastCluster + 1);
    }
  }

  predicate EntirelyFree(w: Window) {
    w.clustersFree == MAX_CLUSTER_BITMAP_SIZE
  }

  /** At least half free, but not all of it. */
  predicate HalfFree(w: Window) {
    MAX_CLUSTER_BITMAP_SIZE / 2 <= w.clustersFree && !EntirelyFree(w)
  }

  /** Window k is the first for which p holds. */
  ghost predicate FirstWith(ws: seq<Window>, p: Window -> bool, k: nat) {
    k < |ws| && p(ws[k]) && forall i :: 0 <= i < k ==> !p(ws[i])
  }

  /** No window has more free clusters than window k, and none before it has as many. */
  ghost predicate FirstFullest(ws: seq<Window>, k: nat) {
    && k < |ws|
    && (forall i :: 0 <= i < |ws| ==> ws[i].clustersFree <= ws[k].clustersFree)
    && (forall i :: 0 <= i < k ==> ws[i].clustersFree < ws[k].clustersFree)
  }

  /**
    FatSelectBestWindow.  The first window at least half but not entirely free;
    failing that, the first entirely free window; failing that, the fullest of
    free clusters.  (The heading comment of the routine says "more than half".)
   */
  method SelectBestWindow(windows: array<Window>) returns (fave: nat)
    requires windows.Length > 0
    requires forall k :: 0 <= k < windows.Length ==> windows[k].clustersFree <= MAX_CLUSTER_BITMAP_SIZE
    ensures fave < windows.Length
    ensures (exists k :: 0 <= k < windows.Length && windows[k].clustersFree > 0) ==> windows[fave].clustersFree > 0
    ensures
      if exists k :: 0 <= k < windows.Length && HalfFree(windows[k]) then FirstWith(windows[..], HalfFree, fave)
      else if exists k :: 0 <= k < windows.Length && EntirelyFree(windows[k]) then FirstWith(windows[..], EntirelyFree, fave)
      else FirstFullest(windows[..], fave)
  {
    fave := 0;
    var maxFree, firstEmpty, i := 0, -1, 0;
    while i < windows.Length
      invariant 0 <= i <= windows.Length && 0 <= fave < windows.Length && maxFree < MAX_CLUSTER_BITMAP_SIZE / 2
      invariant forall k :: 0 <= k < i ==> !HalfFree(windows[k])
      invariant firstEmpty == -1 ==> forall k :: 0 <= k < i ==> !EntirelyFree(windows[k])
      invariant firstEmpty != -1 ==> 0 <= firstEmpty < i && FirstWith(windows[..], EntirelyFree, firstEmpty)
      invariant 0 <= maxFree && (maxFree == 0 ==> fave == 0)
      invariant maxFree > 0 ==> fave < i && windows[fave].clustersFree == maxFree
      invariant forall k :: 0 <= k < i && !EntirelyFree(windows[k]) ==> windows[k].clustersFree <= maxFree
      invariant maxFree > 0 ==> forall k :: 0 <= k < fave && !EntirelyFree(windows[k]) ==> windows[k].clustersFree < maxFree
    {
      if windows[i].clustersFree == MAX_CLUSTER_BITMAP_SIZE {
        if firstEmpty == -1 {
          firstEmpty := i;
        }
      } else if windows[i].clustersFree > maxFree {
        maxFree, fave := windows[i].clustersFree, i;
        if maxFree >= MAX_CLUSTER_BITMAP_SIZE / 2 {
          break;
        }
      }
      i := i + 1;
    }
    if maxFree < MAX_CLUSTER_BITMAP_SIZE / 2 && firstEmpty != -1 {
      fave := firstEmpty;
    }
  }
}
