/**
  The cluster allocator of a mounted volume.  Four views of the same facts are
  kept: the FAT, a bitmap of the current window, a free count per window, and a
  free count for the volume that is charged before any cluster is taken.
 */
module Volume {
  import opened Bits
  import opened FatEntries
  import opened FatTable
  import opened Windows
  import opened Books

  /** Which clusters a FAT says are in use. */
  ghost function UsedBits(e: seq<nat>): seq<bool> {
    seq(|e|, i requires 0 <= i < |e| => e[i] != FAT_CLUSTER_AVAILABLE)
  }

  /** n consecutive clusters. */
  function Run(cluster: nat, n: nat): seq<nat> {
    seq(n, (i: nat) => cluster + i)
  }

  /** The clusters of mcb, all different and all free in e0, are linked into one chain in e1, and nothing else has changed. */
  ghost predicate Taken(bits: IndexBits, e0: seq<nat>, e1: seq<nat>, mcb: seq<nat>) {
    && 2 <= |e0| <= EntryLimit(bits)
    && LinkedAs(bits, e0, e1, mcb) && Distinct(mcb) && InHeap(mcb, |e0| - 2)
    && (forall i :: 0 <= i < |mcb| ==> e0[mcb[i]] == FAT_CLUSTER_AVAILABLE)
  }

  /** The entries after one more run is linked behind the chain mcb. */
  ghost predicate RunLinked(bits: IndexBits, e1: seq<nat>, e3: seq<nat>, mcb: seq<nat>, cluster: nat, n: nat) {
    && 2 <= cluster && n > 0 && cluster + n <= |e1| && InHeap(mcb, |e1| - 2)
    && (forall c :: cluster <= c < cluster + n ==> e1[c] == FAT_CLUSTER_AVAILABLE)
    && var e2 := if mcb == [] then e1 else e1[mcb[|mcb| - 1] := cluster];
      e3 == RunWritten(bits, e2, cluster, n, true)
  }

  /** The clusters of a chain under construction are in use, so a free run has none of them. */
  lemma TakenInUse(bits: IndexBits, e0: seq<nat>, e1: seq<nat>, mcb: seq<nat>, i: nat)
    requires Taken(bits, e0, e1, mcb) && i < |mcb|
    ensures e1[mcb[i]] != FAT_CLUSTER_AVAILABLE
  {
    assert e1[mcb[i]] == LinkAfter(bits, mcb, i);
  }

  lemma RunLinkedAt(bits: IndexBits, e0: seq<nat>, e1: seq<nat>, e3: seq<nat>, mcb: seq<nat>, cluster: nat, n: nat, i: nat)
    requires Taken(bits, e0, e1, mcb) && RunLinked(bits, e1, e3, mcb, cluster, n) && i < |mcb| + n
    ensures var mcb' := mcb + Run(cluster, n);
      2 <= mcb'[i] < |e0| && e3[mcb'[i]] == LinkAfter(bits, mcb', i) && e0[mcb'[i]] == FAT_CLUSTER_AVAILABLE
  {
    var mcb' := mcb + Run(cluster, n);
    if i < |mcb| {
      TakenInUse(bits, e0, e1, mcb, i);
      assert mcb'[i] == mcb[i];
      assert e1[mcb[i]] == LinkAfter(bits, mcb, i);
      if i + 1 < |mcb| {
        assert Differ(mcb, i, |mcb| - 1);
      }
    } else {
      var c := cluster + (i - |mcb|);
      assert mcb'[i] == c;
      if c in mcb {
        var k :| 0 <= k < |mcb| && mcb[k] == c;
        TakenInUse(bits, e0, e1, mcb, k);
      }
    }
  }

  lemma RunLinkedElsewhere(bits: IndexBits, e0: seq<nat>, e1: seq<nat>, e3: seq<nat>, mcb: seq<nat>, cluster: nat, n: nat, c: nat)
    requires Taken(bits, e0, e1, mcb) && RunLinked(bits, e1, e3, mcb, cluster, n)
    requires c < |e0| && c !in mcb + Run(cluster, n)
    ensures e3[c] == e0[c]
  {
    var mcb' := mcb + Run(cluster, n);
    forall d | cluster <= d < cluster + n ensures d in mcb' {
      assert mcb'[|mcb| + (d - cluster)] == d;
    }
    assert c !in mcb by {
      assert forall i :: 0 <= i < |mcb| ==> mcb'[i] == mcb[i];
    }
  }

  lemma RunDistinct(bits: IndexBits, e0: seq<nat>, e1: seq<nat>, e3: seq<nat>, mcb: seq<nat>, cluster: nat, n: nat)
    requires Taken(bits, e0, e1, mcb) && RunLinked(bits, e1, e3, mcb, cluster, n)
    ensures Distinct(mcb + Run(cluster, n))
  {
    var mcb' := mcb + Run(cluster, n);
    forall i, j | 0 <= i < j < |mcb'|
      ensures Differ(mcb', i, j)
    {
      if i < |mcb| <= j {
        TakenInUse(bits, e0, e1, mcb, i);
      }
      assert j < |mcb| ==> Differ(mcb, i, j);
    }
  }

  /** Gluing one more run onto a chain under construction. */
  lemma LinkExtend(bits: IndexBits, e0: seq<nat>, e1: seq<nat>, e3: seq<nat>, mcb: seq<nat>, mcb': seq<nat>, cluster: nat, n: nat)
    requires Taken(bits, e0, e1, mcb) && RunLinked(bits, e1, e3, mcb, cluster, n) && mcb' == mcb + Run(cluster, n)
    ensures Taken(bits, e0, e3, mcb')
    ensures UsedBits(e3) == WithSet(UsedBits(e1), cluster, n)
  {
    forall i | 0 <= i < |mcb'|
      ensures 2 <= mcb'[i] < |e0| && e3[mcb'[i]] == LinkAfter(bits, mcb', i) && e0[mcb'[i]] == FAT_CLUSTER_AVAILABLE
    {
      RunLinkedAt(bits, e0, e1, e3, mcb, cluster, n, i);
    }
    forall c | 0 <= c < |e0| && c !in mcb'
      ensures e3[c] == e0[c]
    {
      RunLinkedElsewhere(bits, e0, e1, e3, mcb, cluster, n, c);
    }
    RunDistinct(bits, e0, e1, e3, mcb, cluster, n);
    forall i | 0 <= i < |mcb| ensures e1[mcb[i]] != FAT_CLUSTER_AVAILABLE {
      TakenInUse(bits, e0, e1, mcb, i);
    }
    UsedAfterRun(bits, e1, e3, mcb, cluster, n);
  }

  lemma UsedAfterRun(bits: IndexBits, e1: seq<nat>, e3: seq<nat>, mcb: seq<nat>, cluster: nat, n: nat)
    requires RunLinked(bits, e1, e3, mcb, cluster, n)
    requires forall i :: 0 <= i < |mcb| ==> e1[mcb[i]] != FAT_CLUSTER_AVAILABLE
    ensures UsedBits(e3) == WithSet(UsedBits(e1), cluster, n)
  {
    forall c | 0 <= c < |e1|
      ensures UsedBits(e3)[c] == WithSet(UsedBits(e1), cluster, n)[c]
    {
      if cluster <= c < cluster + n {
        assert e3[c] == RunEntry(bits, cluster, n, true, c);
      }
    }
  }

  /** What a scan of the FAT is for: counting at mount, moving the bitmap to a window, or filling a caller's bitmap. */
  datatype ScanMode = SetupWindows | SwitchTo(window: nat) | FillBuffer

  datatype RunType = FreeClusters | AllocatedClusters | UnknownClusters

  class Vcb {
    const fat: Fat
    const bytesPerCluster: nat
    const fileAreaLbo: nat           // the byte of the disk at which cluster 2 starts
    const windows: array<Window>
    var bitmap: array<bool>          // FreeClusterBitMap, over the current window
    var currentWindow: nat
    var clusterHint: int             // window-relative, biased by 2; -1 when not set
    var numberOfFreeClusters: nat
    ghost var used: seq<bool>        // the clusters that the bitmap and the counts take for in use
    ghost var precharged: nat        // clusters charged to an allocation but not yet taken

    /** The books of the volume, as a value. */
    ghost function Ledger(): Books
      reads this, bitmap, windows
    {
      Books(used, windows[..], currentWindow, bitmap[..], numberOfFreeClusters, precharged)
    }

    /** The bitmap and the counts agree with each other about which clusters are in use. */
    ghost predicate Accounts()
      reads this, bitmap, windows
    {
      && InOrder(fat.bits, fat.numberOfClusters, Ledger())
      && (clusterHint == -1 || 2 <= clusterHint < bitmap.Length + 2)
    }

    /** All views agree: the bitmap, the counts, and the FAT. */
    ghost predicate Valid()
      reads this, bitmap, windows, fat, fat.units
    {
      fat.Valid() && Accounts() && used == UsedBits(fat.entries)
    }

    /** FatSetupAllocationSupport: counts the volume, picks a window, and builds its bitmap. */
    constructor (fat: Fat, bytesPerCluster: nat, fileAreaLbo: nat)
      requires fat.Valid()
      ensures Valid() && this.fat == fat && this.bytesPerCluster == bytesPerCluster && this.fileAreaLbo == fileAreaLbo
      ensures fresh(bitmap) && fresh(windows)
      ensures precharged == 0 && numberOfFreeClusters == ClearIn(UsedBits(fat.entries), 2, |fat.entries|)
    {
      this.fat := fat;
      this.bytesPerCluster := bytesPerCluster;
      this.fileAreaLbo := fileAreaLbo;
      windows := new Window[NumberOfWindows(fat.bits, fat.numberOfClusters)](_ => Window(0, 0, 0));
      bitmap := new bool[0];
      currentWindow := 0;
      clusterHint := -1;
      numberOfFreeClusters := 0;
      used := UsedBits(fat.entries);
      precharged := 0;
      new;
      Mount();
      SetHint();
    }

    /** Counts, picks and switches. */
    method Mount()
      requires fat.Valid() && windows.Length == NumberOfWindows(fat.bits, fat.numberOfClusters)
      requires used == UsedBits(fat.entries) && precharged == 0 && numberOfFreeClusters == 0
      modifies `numberOfFreeClusters, `bitmap, `currentWindow, `clusterHint, windows
      ensures InOrder(fat.bits, fat.numberOfClusters, Ledger()) && fresh(bitmap)
      ensures numberOfFreeClusters == ClearIn(UsedBits(fat.entries), 2, |fat.entries|)
    {
      var fave := ChooseFirstWindow();
      ghost var ws := windows[..];
      assert ws[fave] == windows[fave];
      SwitchToWindow(fave);
      PartitionKept(fat.bits, fat.numberOfClusters, ws, windows[..]);
      MountedInOrder();
    }

    /** Sets the hint to the first free bit of the current window. */
    method SetHint()
      requires InOrder(fat.bits, fat.numberOfClusters, Ledger())
      modifies `clusterHint
      ensures Accounts() && Ledger() == old(Ledger())
    {
      ghost var b := Ledger();
      var bitIndex := FindClearBits(bitmap, 1, 0);
      clusterHint := if bitIndex != -1 then bitIndex + 2 else 2;
      assert Ledger() == b;
      assert bitmap.Length > 0;
    }

    /** Sets up the windows, and picks one to begin allocating from; a single window is not counted yet. */
    method ChooseFirstWindow() returns (fave: nat)
      requires fat.Valid() && windows.Length == NumberOfWindows(fat.bits, fat.numberOfClusters) && numberOfFreeClusters == 0
      modifies `numberOfFreeClusters, windows
      ensures fave < windows.Length && Partition(fat.bits, fat.numberOfClusters, windows[..])
      ensures windows.Length == 1 ==> numberOfFreeClusters == 0
      ensures windows.Length > 1 ==> Counted(UsedBits(fat.entries), windows[..])
      ensures windows.Length > 1 ==> numberOfFreeClusters == ClearIn(UsedBits(fat.entries), 2, |fat.entries|)
    {
      if windows.Length > 1 {
        SetUpWindows();
        WindowsFit(fat.bits, fat.numberOfClusters, UsedBits(fat.entries), windows[..]);
        fave := SelectBestWindow(windows);
      } else {
        windows[0] := Window(2, fat.numberOfClusters + 1, 0);
        fave := 0;
      }
    }

    lemma MountedInOrder()
      requires fat.Valid() && used == UsedBits(fat.entries) && precharged == 0
      requires Partition(fat.bits, fat.numberOfClusters, windows[..]) && currentWindow < windows.Length
      requires if windows.Length > 1 then Counted(used, windows[..]) else windows[0].clustersFree == numberOfFreeClusters
      requires numberOfFreeClusters == ClearIn(used, 2, |used|)
      requires bitmap.Length == windows[currentWindow].lastCluster - windows[currentWindow].firstCluster + 1
      requires Scanned(bitmap, windows[currentWindow].firstCluster, windows[currentWindow].lastCluster + 1)
      ensures InOrder(fat.bits, fat.numberOfClusters, Ledger())
    {
      ghost var b := Ledger();
      ScannedShows();
      OpenedInOrder(fat.bits, fat.numberOfClusters, b);
    }

    /** A bitmap filled by a scan of the current window shows that window. */
    lemma ScannedShows()
      requires used == UsedBits(fat.entries) && currentWindow < windows.Length
      requires windows[currentWindow].firstCluster + bitmap.Length == windows[currentWindow].lastCluster + 1
      requires Scanned(bitmap, windows[currentWindow].firstCluster, windows[currentWindow].lastCluster + 1)
      ensures Shows(Ledger())
    {
      ghost var b := Ledger();
      ghost var first := windows[currentWindow].firstCluster;
      forall i | 0 <= i < |b.bitmap| ensures b.bitmap[i] == b.used[first + i] {
        assert bitmap[i] == used[first + i];
      }
    }

    /** The bits of a bitmap over the clusters from base up, up to a cluster, say what the FAT says. */
    ghost predicate Scanned(bits: array<bool>, base: nat, end: nat)
      reads bits, fat
    {
      && base <= end <= base + bits.Length && end <= |fat.entries|
      && forall j {:trigger bits[j]} :: 0 <= j < end - base ==> bits[j] == UsedBits(fat.entries)[base + j]
    }

    /** What a scan has recorded of the clusters before the run it is in. */
    ghost predicate Recorded(mode: ScanMode, bits: array?<bool>, startIndex: nat, window: nat, runStart: nat, free0: nat, windows0: seq<Window>)
      reads `numberOfFreeClusters, windows, fat, bits
    {
      && startIndex <= runStart <= |fat.entries| && window < windows.Length == |windows0|
      && (bits == null <==> mode.SetupWindows?)
      && (bits != null ==> Scanned(bits, startIndex, runStart))
      && numberOfFreeClusters == free0 + (if Counting(mode) then ClearIn(UsedBits(fat.entries), startIndex, runStart) else 0)
      && (mode.SetupWindows? ==> SetUpTo(UsedBits(fat.entries), windows[..], window, runStart))
      && (!Counting(mode) ==> windows[..] == windows0)
      && (mode.SwitchTo? && Counting(mode) ==> window == 0 && windows[0] == windows0[0].(clustersFree := windows[0].clustersFree))
    }

    /** Whether a scan counts free clusters: when it sets up the windows, and when there is just one. */
    predicate Counting(mode: ScanMode) {
      mode.SetupWindows? || (mode.SwitchTo? && windows.Length == 1)
    }

    /** Records the run [runStart, end), all free or all allocated, in the bitmap and the counts. */
    method FinishRun(mode: ScanMode, bits: array?<bool>, startIndex: nat, window: nat, runStart: nat, end: nat, free: bool,
                     ghost free0: nat, ghost windows0: seq<Window>)
      requires runStart <= end <= |fat.entries| && Recorded(mode, bits, startIndex, window, runStart, free0, windows0)
      requires forall i :: runStart <= i < end ==> UsedBits(fat.entries)[i] == !free
      requires bits != null ==> end - startIndex <= bits.Length
      modifies `numberOfFreeClusters, windows, bits
      ensures Recorded(mode, bits, startIndex, window, end, free0, windows0)
    {
      ghost var u := UsedBits(fat.entries);
      ClearInUniform(u, runStart, end);
      ClearInSplit(u, startIndex, runStart, end);
      if mode.SetupWindows? {
        ClearInSplit(u, FirstOf(window), runStart, end);
      }
      if free && Counting(mode) {
        numberOfFreeClusters := numberOfFreeClusters + (end - runStart);
        windows[window] := windows[window].(clustersFree := windows[window].clustersFree + (end - runStart));
        assert windows[..] == old(windows[..])[window := windows[window]];
      }
      if bits != null {
        if free {
          ClearBits(bits, runStart - startIndex, end - runStart);
        } else {
          SetBits(bits, runStart - startIndex, end - runStart);
        }
        assert Scanned(bits, startIndex, end) by {
          forall j | 0 <= j < end - startIndex
            ensures bits[j] == u[startIndex + j]
          {
            assert bits[..][j] == bits[j];
          }
        }
      }
    }

    /** Closes a window at its last cluster and opens the next one. */
    method NextWindow(window: nat, fatIndex: nat, ghost free0: nat, ghost windows0: seq<Window>) returns (window': nat)
      requires Recorded(SetupWindows, null, 2, window, fatIndex, free0, windows0)
      requires window + 1 < windows.Length && fatIndex == FirstOf(window + 1)
      modifies windows
      ensures window' == window + 1
      ensures Recorded(SetupWindows, null, 2, window', fatIndex, free0, windows0)
    {
      windows[window] := windows[window].(lastCluster := fatIndex - 1);
      window' := window + 1;
      windows[window'] := windows[window'].(firstCluster := fatIndex, clustersFree := 0);
      assert windows[..] == old(windows[..])[window := windows[window]][window' := windows[window']];
    }

    /** At the end of a window, finishes the run there and goes on, in the next window, with a run of a type not known yet. */
    method CrossWindow(mode: ScanMode, bits: array?<bool>, startIndex: nat, window: nat, runStart: nat, fatIndex: nat, currentRun: RunType,
                       ghost free0: nat, ghost windows0: seq<Window>)
      returns (window': nat, runStart': nat, currentRun': RunType)
      requires runStart <= fatIndex < |fat.entries| && !currentRun.UnknownClusters?
      requires Recorded(mode, bits, startIndex, window, runStart, free0, windows0)
      requires forall i :: runStart <= i < fatIndex ==> UsedBits(fat.entries)[i] == currentRun.AllocatedClusters?
      requires bits != null ==> fatIndex - startIndex <= bits.Length
      requires mode.SetupWindows? ==> startIndex == 2 && fat.bits.Fat32? && windows.Length == NumberOfWindows(fat.bits, fat.numberOfClusters)
      requires |fat.entries| == fat.numberOfClusters + 2
      requires mode.SetupWindows? ==> fatIndex <= FirstOf(window + 1) && (fatIndex > startIndex ==> FirstOf(window) < fatIndex)
      modifies `numberOfFreeClusters, windows, bits
      ensures runStart' <= fatIndex && Recorded(mode, bits, startIndex, window', runStart', free0, windows0)
      ensures currentRun'.UnknownClusters? ==> runStart' == fatIndex
      ensures forall i :: runStart' <= i < fatIndex ==> UsedBits(fat.entries)[i] == currentRun'.AllocatedClusters?
      ensures mode.SetupWindows? ==> fatIndex < FirstOf(window' + 1) && FirstOf(window') <= fatIndex
    {
      window', runStart', currentRun' := window, runStart, currentRun;
      if mode.SetupWindows? && fatIndex > startIndex {
        AtWindowEnd(fat.bits, fat.numberOfClusters, window, fatIndex);
        if (fatIndex - 2) % MAX_CLUSTER_BITMAP_SIZE == 0 {
          FinishRun(mode, bits, startIndex, window, runStart, fatIndex, currentRun.FreeClusters?, free0, windows0);
          window' := NextWindow(window, fatIndex, free0, windows0);
          runStart', currentRun' := fatIndex, UnknownClusters;
        }
      }
    }

    /** Where the entry is of another type than the run before it, finishes that run and starts one of the other type. */
    method SwitchRun(mode: ScanMode, bits: array?<bool>, startIndex: nat, window: nat, runStart: nat, fatIndex: nat, currentRun: RunType,
                     fatEntry: nat, ghost free0: nat, ghost windows0: seq<Window>)
      returns (runStart': nat, currentRun': RunType)
      requires runStart <= fatIndex < |fat.entries| && fatEntry == fat.entries[fatIndex]
      requires Recorded(mode, bits, startIndex, window, runStart, free0, windows0)
      requires currentRun.UnknownClusters? ==> runStart == fatIndex
      requires forall i :: runStart <= i < fatIndex ==> UsedBits(fat.entries)[i] == currentRun.AllocatedClusters?
      requires bits != null ==> fatIndex - startIndex <= bits.Length
      modifies `numberOfFreeClusters, windows, bits
      ensures runStart' <= fatIndex && Recorded(mode, bits, startIndex, window, runStart', free0, windows0)
      ensures !currentRun'.UnknownClusters?
      ensures forall i :: runStart' <= i <= fatIndex ==> UsedBits(fat.entries)[i] == currentRun'.AllocatedClusters?
    {
      runStart', currentRun' := runStart, currentRun;
      if currentRun' == UnknownClusters {
        currentRun' := if fatEntry == FAT_CLUSTER_AVAILABLE then FreeClusters else AllocatedClusters;
      }
      if currentRun' == FreeClusters && fatEntry != FAT_CLUSTER_AVAILABLE {
        FinishRun(mode, bits, startIndex, window, runStart, fatIndex, true, free0, windows0);
        runStart', currentRun' := fatIndex, AllocatedClusters;
      } else if currentRun' == AllocatedClusters && fatEntry == FAT_CLUSTER_AVAILABLE {
        FinishRun(mode, bits, startIndex, window, runStart, fatIndex, false, free0, windows0);
        runStart', currentRun' := fatIndex, FreeClusters;
      }
    }

    /** Where a scan is: everything before the run [runStart, fatIndex) is recorded, and that run is of one type. */
    ghost predicate Scanning(mode: ScanMode, bits: array?<bool>, startIndex: nat, window: nat, runStart: nat, fatIndex: nat,
                             currentRun: RunType, free0: nat, windows0: seq<Window>)
      reads `numberOfFreeClusters, windows, fat, bits
    {
      && startIndex <= runStart <= fatIndex <= |fat.entries| && !currentRun.UnknownClusters?
      && (forall i :: runStart <= i < fatIndex ==> UsedBits(fat.entries)[i] == currentRun.AllocatedClusters?)
      && Recorded(mode, bits, startIndex, window, runStart, free0, windows0)
      && (mode.SetupWindows? ==> fatIndex <= FirstOf(window + 1) && (if fatIndex > startIndex then FirstOf(window) < fatIndex else window == 0))
    }

    /** What the volume and the arguments of a scan satisfy throughout. */
    ghost predicate ScanArguments(mode: ScanMode, bits: array?<bool>, startIndex: nat, endIndex: nat)
      reads fat, fat.units
    {
      && fat.Valid() && 2 <= startIndex <= endIndex <= fat.numberOfClusters + 1
      && (match fat.bits case Fat12 => true case Fat16 => startIndex == 2 case Fat32 => startIndex % 8 == 2)
      && (bits != null ==> bits.Length == endIndex - startIndex + 1)
      && (mode.SetupWindows? ==> startIndex == 2 && fat.bits.Fat32? && windows.Length == NumberOfWindows(fat.bits, fat.numberOfClusters))
    }

    /** One step of a scan: the window, then the entry, then the run. */
    method ScanOne(mode: ScanMode, bits: array?<bool>, startIndex: nat, endIndex: nat, window: nat, runStart: nat, fatIndex: nat,
                   currentRun: RunType, page: nat, inPage: nat, ghost free0: nat, ghost windows0: seq<Window>)
      returns (window': nat, runStart': nat, currentRun': RunType, page': nat, inPage': nat)
      requires ScanArguments(mode, bits, startIndex, endIndex) && fatIndex <= endIndex && fat.ScanPointer(fatIndex, page, inPage)
      requires Scanning(mode, bits, startIndex, window, runStart, fatIndex, currentRun, free0, windows0)
      modifies `numberOfFreeClusters, windows, bits
      ensures Scanning(mode, bits, startIndex, window', runStart', fatIndex + 1, currentRun', free0, windows0)
      ensures fat.ScanPointer(fatIndex + 1, page', inPage')
    {
      window', runStart', currentRun' := CrossWindow(mode, bits, startIndex, window, runStart, fatIndex, currentRun, free0, windows0);
      var fatEntry;
      fatEntry, page', inPage' := fat.NextScanned(fatIndex, page, inPage);
      runStart', currentRun' := SwitchRun(mode, bits, startIndex, window', runStart', fatIndex, currentRun', fatEntry, free0, windows0);
    }

    /**
      The scan of FatExamineFatEntries: reads the entries of a range once, as runs
      of free and of allocated clusters, starting from a guess at the type of the
      first (for a 12-bit FAT, the type of entry 0).
     */
    method ScanEntries(mode: ScanMode, bits: array?<bool>, startIndex: nat, endIndex: nat, window0: nat) returns (window: nat)
      requires ScanArguments(mode, bits, startIndex, endIndex)
      requires Recorded(mode, bits, startIndex, window0, startIndex, numberOfFreeClusters, windows[..])
      requires mode.SetupWindows? ==> window0 == 0
      modifies `numberOfFreeClusters, windows, bits
      ensures Recorded(mode, bits, startIndex, window, endIndex + 1, old(numberOfFreeClusters), old(windows[..]))
      ensures mode.SetupWindows? ==> FirstOf(window) <= endIndex < FirstOf(window + 1)
    {
      ghost var free0, windows0 := numberOfFreeClusters, windows[..];
      window := window0;
      var guess, page, inPage := fat.StartScan(startIndex);
      var currentRun := if guess == FAT_CLUSTER_AVAILABLE then FreeClusters else AllocatedClusters;
      var runStart, fatIndex := startIndex, startIndex;
      while fatIndex <= endIndex
        modifies `numberOfFreeClusters, windows, bits
        invariant startIndex <= fatIndex <= endIndex + 1 && fat.ScanPointer(fatIndex, page, inPage)
        invariant Scanning(mode, bits, startIndex, window, runStart, fatIndex, currentRun, free0, windows0)
      {
        window, runStart, currentRun, page, inPage :=
          ScanOne(mode, bits, startIndex, endIndex, window, runStart, fatIndex, currentRun, page, inPage, free0, windows0);
        fatIndex := fatIndex + 1;
      }
      FinishRun(mode, bits, startIndex, window, runStart, fatIndex, currentRun.FreeClusters?, free0, windows0);
    }

    /** FatExamineFatEntries, setting up the windows of a volume that has more than one. */
    method SetUpWindows()
      requires fat.Valid() && windows.Length == NumberOfWindows(fat.bits, fat.numberOfClusters) > 1
      modifies `numberOfFreeClusters, windows
      ensures Partition(fat.bits, fat.numberOfClusters, windows[..]) && Counted(UsedBits(fat.entries), windows[..])
      ensures numberOfFreeClusters == old(numberOfFreeClusters) + ClearIn(UsedBits(fat.entries), 2, |fat.entries|)
    {
      windows[0] := windows[0].(firstCluster := 2, clustersFree := 0);
      var window := ScanEntries(SetupWindows, null, 2, fat.numberOfClusters + 1, 0);
      SetUpDone(fat.numberOfClusters, UsedBits(fat.entries), windows[..], window);
      ghost var ws := windows[..];
      windows[window] := windows[window].(lastCluster := fat.numberOfClusters + 1);
      assert windows[..] == ws[window := ws[window].(lastCluster := fat.numberOfClusters + 1)];
    }

    /**
      FatExamineFatEntries, switching to a window: a new bitmap is built from the FAT.
      On a volume with a single window this is also what counts the volume.
     */
    method SwitchToWindow(w: nat)
      requires fat.Valid() && windows.Length == NumberOfWindows(fat.bits, fat.numberOfClusters)
      requires w < windows.Length && windows[w].firstCluster == FirstOf(w)
      requires windows[w].firstCluster <= windows[w].lastCluster == LastOf(fat.bits, fat.numberOfClusters, w)
      modifies `bitmap, `currentWindow, `clusterHint, `numberOfFreeClusters, windows
      ensures fresh(bitmap) && currentWindow == w && clusterHint == -1
      ensures bitmap.Length == windows[w].lastCluster - windows[w].firstCluster + 1
      ensures Scanned(bitmap, windows[w].firstCluster, windows[w].lastCluster + 1)
      ensures SamePlaces(old(windows[..]), windows[..])
      ensures windows.Length > 1 ==> windows[..] == old(windows[..]) && numberOfFreeClusters == old(numberOfFreeClusters)
      ensures windows.Length == 1 ==>
        && numberOfFreeClusters == old(numberOfFreeClusters) + ClearIn(UsedBits(fat.entries), 2, |fat.entries|)
        && windows[0] == old(windows[0]).(clustersFree := numberOfFreeClusters)
    {
      WindowPlaces(fat.bits, fat.numberOfClusters, w);
      var startIndex, endIndex := windows[w].firstCluster, windows[w].lastCluster;
      var newBitMap := new bool[endIndex - startIndex + 1];
      var window := ScanEntries(SwitchTo(w), newBitMap, startIndex, endIndex, w);
      bitmap, currentWindow, clusterHint := newBitMap, w, -1;
      if windows.Length == 1 {
        windows[w] := windows[w].(clustersFree := numberOfFreeClusters);
      }
    }

    /** FatExamineFatEntries, filling the bitmap of a caller who asks for part of the volume; its start is rounded to eight clusters. */
    method FillBitmap(buffer: array<bool>, firstIndex: nat, lastIndex: nat)
      requires fat.Valid() && fat.bits.Fat32?
      requires firstIndex % 8 == 2 && 2 <= firstIndex <= lastIndex <= fat.numberOfClusters + 1
      requires buffer.Length == lastIndex - firstIndex + 1 && windows.Length > 0
      modifies `numberOfFreeClusters, windows, buffer
      ensures Scanned(buffer, firstIndex, lastIndex + 1)
      ensures windows[..] == old(windows[..]) && numberOfFreeClusters == old(numberOfFreeClusters)
    {
      var window := ScanEntries(FillBuffer, buffer, firstIndex, lastIndex, 0);
    }

    lemma NoneClear(b: seq<bool>)
      requires forall k :: !ClearRun(b, k, 1)
      ensures forall i :: 0 <= i < |b| ==> b[i]
    {
      forall i | 0 <= i < |b| ensures b[i] {
        assert !ClearRun(b, i, 1);
      }
    }

    /** FatReserveClusters: sets the bits and moves the hint to the first clear bit behind them, from the front on if there is none. */
    method ReserveClusters(index: nat, count: nat)
      requires index + count <= bitmap.Length && count > 0
      modifies `clusterHint, bitmap
      ensures bitmap[..] == WithSet(old(bitmap[..]), index, count)
      ensures 2 <= clusterHint < bitmap.Length + 2
      ensures NearestRun(bitmap[..], if index + count < bitmap.Length then index + count else 0, 1, clusterHint - 2)
        || (clusterHint == 2 && forall i :: 0 <= i < bitmap.Length ==> bitmap[i])
    {
      var afterRun := index + count;
      SetBits(bitmap, index, count);
      if afterRun >= bitmap.Length {
        afterRun := 0;
      }
      if bitmap[afterRun] {
        var next := FindClearBits(bitmap, 1, afterRun);
        clusterHint := next + 2;
        if clusterHint == 1 {
          clusterHint := 2;
          NoneClear(bitmap[..]);
        }
      } else {
        clusterHint := afterRun + 2;
      }
    }

    /** FatUnreserveClusters: clears the bits and pulls the hint back to them. */
    method UnreserveClusters(index: nat, count: nat)
      requires index + count <= bitmap.Length && count > 0
      requires clusterHint == -1 || 2 <= clusterHint < bitmap.Length + 2
      modifies `clusterHint, bitmap
      ensures bitmap[..] == WithClear(old(bitmap[..]), index, count)
      ensures clusterHint == if old(clusterHint) == -1 || index + 2 < old(clusterHint) then index + 2 else old(clusterHint)
    {
      ClearBits(bitmap, index, count);
      if clusterHint == -1 || index + 2 < clusterHint { // -1 is the largest ULONG
        clusterHint := index + 2;
      }
    }

    /** Takes a run of the current window that has been charged for: the bits are set and the window count is reduced. */
    method TakeRun(index: nat, count: nat)
      requires Accounts() && 0 < count <= precharged && ClearRun(bitmap[..], index, count)
      modifies `clusterHint, `used, `precharged, bitmap, windows
      ensures count <= old(windows[currentWindow].clustersFree)
      ensures Ledger() == TakeFrom(old(Ledger()), index, count) && Accounts()
    {
      TakeKeepsOrder(fat.bits, fat.numberOfClusters, Ledger(), index, count);
      ReserveClusters(index, count);
      var w := windows[currentWindow];
      windows[currentWindow] := w.(clustersFree := w.clustersFree - count);
      used := WithSet(used, w.firstCluster + index, count);
      precharged := precharged - count;
      assert windows[..] == old(windows[..])[currentWindow := windows[currentWindow]];
    }
  }
}
